/** Every step of the registry keeps its invariant. */
module RegistryInvariant {
  import opened Base
  import opened EventLog
  import opened SemVer
  import opened ControlPlane
  import opened ControlPlaneSafety
  import opened ArtifactStore
  import opened Registry
  import opened RegistrySafety

  // ---------- the tables ----------

  lemma CreateStageKeepsTables(cfg: Config, db: Db, stage: Stage, json: Bytes, now: nat)
    requires TablesOk(cfg, db) && stage.status == Staged && cfg.parse(stage.version).Some?
    ensures TablesOk(cfg, After(db, CreateStageTx(db, stage, StageCreated(stage.id), json, cfg.limit, now)))
  {
    hide DbInvariant, WithinQuota, PendingStages, RefStaged, HasOutboxKey;
    CreateStageKeepsInvariant(db, stage, json, cfg.limit, now);
    CreateStageKeepsQuota(db, stage, json, cfg.limit, now);
  }

  lemma DecideKeepsTables(cfg: Config, db: Db, stage: Stage, approve: bool, json: Bytes, now: nat)
    requires TablesOk(cfg, db) && ReadEarlier(db, stage) && (approve ==> stage.verdict != Some(DENY))
    ensures TablesOk(cfg, After(db, DecideStageTx(db, stage, approve, DecisionKey(stage.id, approve), json, now)))
  {
    hide DbInvariant, WithinQuota, HasOutboxKey;
    DecideStageKeepsInvariant(db, stage, approve, json, now);
    DecideStageKeepsQuota(db, stage, approve, json, now, cfg.limit);
    var after := After(db, DecideStageTx(db, stage, approve, DecisionKey(stage.id, approve), json, now));
    forall id | id in after.stages ensures StageOk(cfg, after.stages[id]) {
      assert StageOk(cfg, db.stages[id]);
    }
  }

  lemma SameStagesKeepTables(cfg: Config, db: Db, after: Db)
    requires TablesOk(cfg, db) && DbInvariant(after) && after.stages == db.stages
    ensures TablesOk(cfg, after)
  {
    hide DbInvariant;
  }

  lemma RevokeKeepsTables(cfg: Config, s: State, r: Ref, tombstone: Tombstone, rows: seq<Bytes>, json: Bytes)
    requires TablesOk(cfg, s.db)
    ensures TablesOk(cfg, RevokeStep(cfg, s, r, tombstone, rows, json).db)
  {
    hide TablesOk, DbInvariant, HasOutboxKey, Lists, ActiveVersions, Greatest, MoveTags;
    var after := RevokeStep(cfg, s, r, tombstone, rows, json);
    if after != s {
      assert DbInvariant(s.db) by { TablesAreGood(cfg, s.db); }
      RevokeKeepsInvariant(s.db, cfg.parse, r, tombstone, rows, json, s.clock);
      SameStagesKeepTables(cfg, s.db, after.db);
    }
  }

  lemma TablesAreGood(cfg: Config, db: Db)
    requires TablesOk(cfg, db)
    ensures DbInvariant(db)
  {
  }

  lemma AcknowledgeKeepsTables(cfg: Config, s: State, w: nat)
    requires TablesOk(cfg, s.db)
    ensures TablesOk(cfg, AcknowledgeStep(s, w).db)
  {
    hide TablesOk, DbInvariant;
    var after := AcknowledgeStep(s, w);
    if At(s, w).Draining? && after != s {
      var row := At(s, w).rows[0];
      TablesAreGood(cfg, s.db);
      MarkKeepsInvariant(s.db, row.id);
      RetryKeepsInvariant(s.db, row.id, s.clock);
      SameStagesKeepTables(cfg, s.db, after.db);
    }
  }

  lemma StepKeepsTables(cfg: Config, s: State, a: Action)
    requires TablesOk(cfg, s.db) && WorkersOk(cfg, s)
    ensures TablesOk(cfg, Step(cfg, s, a).db)
  {
    hide TablesOk, RevokeStep, AcknowledgeStep, CreateStageTx, DecideStageTx, PendingOutbox, AppendKeyed;
    match a
    case CreateStage(w) =>
      if At(s, w).Uploading? {
        assert WorkerOk(cfg, s, s.workers[w]);
        CreateStageKeepsTables(cfg, s.db, At(s, w).stage, At(s, w).json, s.clock);
      }
    case Decide(w) =>
      if At(s, w).Deciding? {
        assert WorkerOk(cfg, s, s.workers[w]);
        DecideKeepsTables(cfg, s.db, At(s, w).snapshot, At(s, w).approve, At(s, w).event, s.clock);
      }
    case Revoke(r, tombstone, rows, json) => RevokeKeepsTables(cfg, s, r, tombstone, rows, json);
    case Acknowledge(w) => AcknowledgeKeepsTables(cfg, s, w);
    case _ =>
  }

  // ---------- the audit log ----------

  lemma InOutboxGrows(a: Db, b: Db, key: EventKey, json: Bytes)
    requires Evolves(a, b) && InOutbox(a.outbox, key, json)
    ensures InOutbox(b.outbox, key, json)
  {
    var i :| 0 <= i < |a.outbox| && a.outbox[i].key == key && a.outbox[i].json == json;
    assert OutboxRowEvolves(a.outbox[i], b.outbox[i]);
  }

  /** New undelivered rows and deliveries of events already in the log. */
  lemma RowsKeepAudit(h: Hash, a: Db, b: Db, log: seq<Event>)
    requires AuditOk(h, a.outbox, log) && Evolves(a, b)
    requires forall i :: 0 <= i < |b.outbox| && b.outbox[i].delivered ==>
               (i < |a.outbox| && a.outbox[i].delivered) || InLog(log, b.outbox[i].key, b.outbox[i].json)
    ensures AuditOk(h, b.outbox, log)
  {
    hide WellLinked, InLog, InOutbox;
    forall i | 0 <= i < |log|
      ensures log[i].key == Direct(h(log[i].json)) || InOutbox(b.outbox, log[i].key, log[i].json)
    {
      if InOutbox(a.outbox, log[i].key, log[i].json) { InOutboxGrows(a, b, log[i].key, log[i].json); }
    }
    forall i | 0 <= i < |b.outbox| && b.outbox[i].delivered ensures InLog(log, b.outbox[i].key, b.outbox[i].json) {
      if i < |a.outbox| { assert OutboxRowEvolves(a.outbox[i], b.outbox[i]); }
    }
  }

  /** An append keeps the audit invariant when its event comes from an outbox row, and then
      the log has exactly this event under the key. */
  lemma AppendKeepsAudit(h: Hash, outbox: seq<OutboxRow>, log: seq<Event>, key: EventKey, json: Bytes)
    requires AuditOk(h, outbox, log) && AppendKeyed(h, log, key, json).Ok?
    requires key == Direct(h(json)) || InOutbox(outbox, key, json)
    ensures AuditOk(h, outbox, AppendKeyed(h, log, key, json).value)
  {
    hide WellLinked, InLog, InOutbox, HasHash;
    AppendKeepsChain(h, log, key, json);
    var after := AppendKeyed(h, log, key, json).value;
    forall i | 0 <= i < |outbox| && outbox[i].delivered ensures InLog(after, outbox[i].key, outbox[i].json) {
      InLogGrows(log, after, outbox[i].key, outbox[i].json);
    }
  }

  lemma AppendedIsInLog(h: Hash, outbox: seq<OutboxRow>, log: seq<Event>, row: Pending)
    requires LogFromOutbox(h, outbox, log) && OutboxKeysUnique(outbox) && RowOk(outbox, row)
    requires AppendKeyed(h, log, row.key, row.json).Ok? && !row.key.Direct?
    ensures InLog(AppendKeyed(h, log, row.key, row.json).value, row.key, row.json)
  {
    var after := AppendKeyed(h, log, row.key, row.json).value;
    if HasKey(log, row.key) {
      var i :| 0 <= i < |log| && log[i].key == row.key;
      assert InOutbox(outbox, log[i].key, log[i].json);
      var j :| 0 <= j < |outbox| && outbox[j].key == row.key && outbox[j].json == log[i].json;
      assert j == row.id;
    } else {
      assert after[|log|].key == row.key && after[|log|].json == row.json;
    }
  }

  lemma RowIsInOutbox(outbox: seq<OutboxRow>, row: Pending)
    requires RowOk(outbox, row)
    ensures InOutbox(outbox, row.key, row.json)
  {
  }

  lemma RowIsNotDirect(db: Db, row: Pending)
    requires DbInvariant(db) && RowOk(db.outbox, row)
    ensures !row.key.Direct?
  {
    hide StagesOwned, OneStagePerVersion, VersionsCameFromStages, ApprovedArePublished, TagsNameActiveVersions,
         TombstonesMatch, OutboxKeysUnique, StagesAudited;
    assert HasOutboxKey(db.outbox, row.key);
    match row.key
    case Direct(digest) =>
    case _ =>
  }

  lemma TransactionKeepsAudit(h: Hash, a: Db, b: Db, log: seq<Event>)
    requires AuditOk(h, a.outbox, log) && Evolves(a, b) && a.outbox <= b.outbox
    requires forall i :: |a.outbox| <= i < |b.outbox| ==> !b.outbox[i].delivered
    ensures AuditOk(h, b.outbox, log)
  {
    hide Evolves, AuditOk;
    RowsKeepAudit(h, a, b, log);
  }

  lemma AcknowledgeKeepsAudit(cfg: Config, s: State, w: nat)
    requires AuditOk(cfg.h, s.db.outbox, s.log) && WorkersOk(cfg, s)
    ensures AuditOk(cfg.h, AcknowledgeStep(s, w).db.outbox, AcknowledgeStep(s, w).log)
  {
    hide Evolves, AuditOk, InLog;
    var b := AcknowledgeStep(s, w);
    AcknowledgeGrows(s, w);
    if At(s, w).Draining? && b != s {
      assert WorkerOk(cfg, s, s.workers[w]);
      var row := At(s, w).rows[0];
      assert RowOk(s.db.outbox, row);
      RowsKeepAudit(cfg.h, s.db, b.db, s.log);
    }
  }

  lemma AppendStepKeepsAudit(cfg: Config, s: State, w: nat, fault: Fault)
    requires AuditOk(cfg.h, s.db.outbox, s.log) && WorkersOk(cfg, s)
    ensures AuditOk(cfg.h, AppendStep(cfg, s, w, fault).db.outbox, AppendStep(cfg, s, w, fault).log)
  {
    hide AuditOk, AppendKeyed, InOutbox;
    if At(s, w).Draining? && At(s, w).rows != [] {
      assert WorkerOk(cfg, s, s.workers[w]);
      var row := At(s, w).rows[0];
      RowIsInOutbox(s.db.outbox, row);
      if AppendKeyed(cfg.h, s.log, row.key, row.json).Ok? {
        AppendKeepsAudit(cfg.h, s.db.outbox, s.log, row.key, row.json);
      }
    }
  }

  predicate IsTransaction(a: Action) { a.CreateStage? || a.Decide? || a.Revoke? }

  lemma TransactionsAddRows(cfg: Config, s: State, a: Action)
    requires IsTransaction(a)
    ensures var b := Step(cfg, s, a);
            && b.log == s.log && s.db.outbox <= b.db.outbox
            && forall i :: |s.db.outbox| <= i < |b.db.outbox| ==> !b.db.outbox[i].delivered
  {
    hide HasOutboxKey, Greatest, MoveTags, Lists, PendingStages, RefStaged;
  }

  lemma StepKeepsAudit(cfg: Config, s: State, a: Action)
    requires AuditOk(cfg.h, s.db.outbox, s.log) && WorkersOk(cfg, s) && Grows(s, Step(cfg, s, a))
    ensures AuditOk(cfg.h, Step(cfg, s, a).db.outbox, Step(cfg, s, a).log)
  {
    hide AuditOk, Evolves, AcknowledgeStep, AppendStep, WorkersOk;
    if IsTransaction(a) {
      hide Step;
      TransactionsAddRows(cfg, s, a);
      TransactionKeepsAudit(cfg.h, s.db, Step(cfg, s, a).db, s.log);
    } else {
      hide PendingOutbox, AppendKeyed, Grows;
      match a
      case Append(w, fault) => AppendStepKeepsAudit(cfg, s, w, fault);
      case Acknowledge(w) => AcknowledgeKeepsAudit(cfg, s, w);
      case DirectAppend(json) =>
        if AppendDirect(cfg.h, s.log, json).Ok? {
          AppendKeepsAudit(cfg.h, s.db.outbox, s.log, Direct(cfg.h(json)), json);
        }
      case _ =>
    }
  }

  // ---------- the artifacts ----------

  lemma StoredGrows(h: Hash, a: State, b: State, id: Bytes)
    requires Grows(a, b) && Stored(h, a, id)
    ensures Stored(h, b, id)
  {
    hide Holds;
    assert StageEvolves(a.db.stages[id], b.db.stages[id]);
    forall k | 0 <= k < |b.stores| ensures Holds(b, k, b.db.stages[id].digest) {
      HoldsGrows(a, b, k, a.db.stages[id].digest);
    }
  }

  lemma ServedOkGrows(h: Hash, a: State, b: State, x: Download)
    requires Grows(a, b) && ServedOk(h, a, x)
    ensures ServedOk(h, b, x)
  {
    hide Evolves, PublishedAs;
    PublishedAsGrows(a.db, b.db, x.r, x.digest);
  }

  lemma HonestGrows(h: Hash, store: Store, a: set<Bytes>, b: set<Bytes>)
    requires Honest(h, store, a) && a <= b
    ensures Honest(h, store, b)
  {
  }

  /** Whatever grows keeps the artifacts in order, once the stores, the new stage and the new
      answer are in order. */
  lemma GrowthKeepsArtifacts(h: Hash, a: State, b: State)
    requires ArtifactsOk(h, a) && Grows(a, b)
    requires forall k :: 0 <= k < |b.stores| ==> b.stores[k] == a.stores[k] || Honest(h, b.stores[k], b.submitted)
    requires b.assessed.Keys == b.db.stages.Keys
    requires forall id :: id in b.db.stages && id !in a.db.stages ==> Stored(h, b, id)
    requires forall i :: |a.served| <= i < |b.served| ==> ServedOk(h, b, b.served[i])
    ensures ArtifactsOk(h, b)
  {
    forall id | id in b.db.stages ensures Stored(h, b, id) {
      if id in a.db.stages { StoredGrows(h, a, b, id); }
    }
    forall k | 0 <= k < |b.stores| ensures Honest(h, b.stores[k], b.submitted) {
      if b.stores[k] == a.stores[k] { HonestGrows(h, b.stores[k], a.submitted, b.submitted); }
    }
    forall i | 0 <= i < |b.served| ensures ServedOk(h, b, b.served[i]) {
      if i < |a.served| { ServedOkGrows(h, a, b, a.served[i]); }
    }
    hide Grows, Stored, ServedOk, Honest;
  }

  lemma UploadKeepsArtifacts(cfg: Config, s: State, w: nat)
    requires ArtifactsOk(cfg.h, s) && WorkersOk(cfg, s) && Grows(s, UploadStep(s, w))
    ensures ArtifactsOk(cfg.h, UploadStep(s, w))
  {
    hide Grows, Stored, ServedOk, Honest, Holds;
    var b := UploadStep(s, w);
    match At(s, w)
    case Uploading(stage, tarball, json, next) =>
      assert WorkerOk(cfg, s, s.workers[w]);
      if next < |s.stores| { PutOneIsSafe(cfg.h, s.stores[next], s.submitted, tarball); }
      GrowthKeepsArtifacts(cfg.h, s, b);
    case _ =>
  }

  lemma CreateStageKeepsArtifacts(cfg: Config, s: State, w: nat)
    requires ArtifactsOk(cfg.h, s) && WorkersOk(cfg, s) && Grows(s, CreateStageStep(cfg, s, w))
    ensures ArtifactsOk(cfg.h, CreateStageStep(cfg, s, w))
  {
    hide Grows, Stored, ServedOk, Honest, Holds, HasOutboxKey, PendingStages, RefStaged;
    var b := CreateStageStep(cfg, s, w);
    match At(s, w)
    case Uploading(stage, tarball, json, next) =>
      assert WorkerOk(cfg, s, s.workers[w]);
      if next == |s.stores| {
        forall id | id in b.db.stages && id !in s.db.stages ensures Stored(cfg.h, b, id) {
          NewStageIsStored(cfg.h, s, b, stage, tarball);
        }
      }
      GrowthKeepsArtifacts(cfg.h, s, b);
    case _ =>
  }

  lemma NewStageIsStored(h: Hash, s: State, b: State, stage: Stage, tarball: Bytes)
    requires tarball in s.submitted && stage.digest == h(tarball) && b.submitted == s.submitted
    requires b.stores == s.stores && b.lost == s.lost
    requires forall k :: 0 <= k < |s.stores| ==> Holds(s, k, stage.digest)
    requires stage.id in b.db.stages && b.db.stages[stage.id] == stage
    requires stage.id in b.assessed && b.assessed[stage.id] == tarball
    ensures Stored(h, b, stage.id)
  {
    forall k | 0 <= k < |b.stores| ensures Holds(b, k, stage.digest) { assert Holds(s, k, stage.digest); }
  }

  lemma ScanKeepsArtifacts(cfg: Config, s: State, w: nat)
    requires ArtifactsOk(cfg.h, s) && WorkersOk(cfg, s) && Grows(s, ScanStep(s, w))
    ensures ArtifactsOk(cfg.h, ScanStep(s, w))
  {
    hide Grows, Stored;
    var b := ScanStep(s, w);
    match At(s, w)
    case Fetching(r, digest, at) =>
      assert WorkerOk(cfg, s, s.workers[w]);
      if at == 0 && digest in s.stores[0] {
        assert Honest(cfg.h, s.stores[0], s.submitted);
        assert ServedOk(cfg.h, b, Download(r, digest, s.stores[0][digest]));
      }
      hide Honest, ServedOk;
      GrowthKeepsArtifacts(cfg.h, s, b);
    case _ =>
  }

  lemma RepairKeepsArtifacts(cfg: Config, s: State, w: nat)
    requires ArtifactsOk(cfg.h, s) && WorkersOk(cfg, s) && Grows(s, RepairStep(s, w))
    ensures ArtifactsOk(cfg.h, RepairStep(s, w))
  {
    hide Grows, Stored, Honest;
    var b := RepairStep(s, w);
    match At(s, w)
    case Repairing(r, digest, bytes) =>
      assert WorkerOk(cfg, s, s.workers[w]);
      PutOneIsSafe(cfg.h, s.stores[0], s.submitted, bytes);
      assert ServedOk(cfg.h, b, Download(r, digest, bytes));
      hide ServedOk;
      GrowthKeepsArtifacts(cfg.h, s, b);
    case _ =>
  }

  lemma LosePrimaryKeepsArtifacts(h: Hash, s: State, digest: Bytes)
    requires ArtifactsOk(h, s) && Grows(s, LosePrimaryStep(s, digest))
    ensures ArtifactsOk(h, LosePrimaryStep(s, digest))
  {
    hide Grows, Stored, ServedOk;
    assert Honest(h, s.stores[0], s.submitted);
    var b := LosePrimaryStep(s, digest);
    assert Honest(h, b.stores[0], b.submitted);
    hide Honest;
    GrowthKeepsArtifacts(h, s, b);
  }

  /** The steps that touch stores, answers or the set of stages. */
  predicate MovesArtifacts(a: Action) {
    a.Upload? || a.CreateStage? || a.Scan? || a.Repair? || a.LosePrimary?
  }

  lemma OtherStepsLeaveArtifacts(cfg: Config, s: State, a: Action)
    requires !MovesArtifacts(a)
    ensures var b := Step(cfg, s, a);
            && b.stores == s.stores && b.served == s.served && b.assessed == s.assessed
            && b.db.stages.Keys == s.db.stages.Keys
  {
    hide PendingOutbox, AppendStep, DirectAppendStep, DecideStep, RevokeStep, MarkDelivered, RetryOutbox;
    match a
    case Append(w, fault) => AppendsLeaveArtifacts(cfg, s, w, fault, []);
    case DirectAppend(json) => AppendsLeaveArtifacts(cfg, s, 0, NoFault, json);
    case Decide(w) => DecideLeavesArtifacts(s, w);
    case Revoke(r, tombstone, rows, json) => RevokeLeavesArtifacts(cfg, s, r, tombstone, rows, json);
    case Acknowledge(w) =>
      if At(s, w).Draining? && At(s, w).rows != [] { BookkeepingLeavesStages(s.db, At(s, w).rows[0].id, s.clock); }
    case _ =>
  }

  lemma AppendsLeaveArtifacts(cfg: Config, s: State, w: nat, fault: Fault, json: Bytes)
    ensures var b := AppendStep(cfg, s, w, fault);
            b.stores == s.stores && b.served == s.served && b.assessed == s.assessed && b.db == s.db
    ensures var b := DirectAppendStep(cfg, s, json);
            b.stores == s.stores && b.served == s.served && b.assessed == s.assessed && b.db == s.db
  {
    hide AppendKeyed;
  }

  lemma DecideLeavesArtifacts(s: State, w: nat)
    ensures var b := DecideStep(s, w);
            && b.stores == s.stores && b.served == s.served && b.assessed == s.assessed
            && b.db.stages.Keys == s.db.stages.Keys
  {
    hide HasOutboxKey;
  }

  lemma RevokeLeavesArtifacts(cfg: Config, s: State, r: Ref, tombstone: Tombstone, rows: seq<Bytes>, json: Bytes)
    ensures var b := RevokeStep(cfg, s, r, tombstone, rows, json);
            && b.stores == s.stores && b.served == s.served && b.assessed == s.assessed
            && b.db.stages == s.db.stages
  {
    hide HasOutboxKey, Greatest, MoveTags, Lists;
  }

  lemma BookkeepingLeavesStages(db: Db, id: nat, now: nat)
    ensures MarkDelivered(db, id).stages == db.stages && RetryOutbox(db, id, now).stages == db.stages
  {
  }

  lemma StepKeepsArtifacts(cfg: Config, s: State, a: Action)
    requires ArtifactsOk(cfg.h, s) && WorkersOk(cfg, s) && Grows(s, Step(cfg, s, a))
    ensures ArtifactsOk(cfg.h, Step(cfg, s, a))
  {
    hide Grows, Stored, ServedOk, Honest, WorkersOk;
    if MovesArtifacts(a) {
      hide ArtifactsOk, UploadStep, CreateStageStep, ScanStep, RepairStep, LosePrimaryStep;
      match a
      case Upload(w) => UploadKeepsArtifacts(cfg, s, w);
      case CreateStage(w) => CreateStageKeepsArtifacts(cfg, s, w);
      case Scan(w) => ScanKeepsArtifacts(cfg, s, w);
      case Repair(w) => RepairKeepsArtifacts(cfg, s, w);
      case LosePrimary(digest) => LosePrimaryKeepsArtifacts(cfg.h, s, digest);
    } else {
      hide Step;
      OtherStepsLeaveArtifacts(cfg, s, a);
      GrowthKeepsArtifacts(cfg.h, s, Step(cfg, s, a));
    }
  }

  // ---------- the workers ----------

  /** The acting worker's new memory is in order; the others' memories grew. */
  lemma OthersStayOk(cfg: Config, a: State, b: State, w: nat)
    requires WorkersOk(cfg, a) && Grows(a, b)
    requires forall v :: 0 <= v < |b.workers| && v != w ==> b.workers[v] == a.workers[v]
    requires w < |b.workers| ==> b.workers[w] == a.workers[w] || WorkerOk(cfg, b, b.workers[w])
    ensures WorkersOk(cfg, b)
  {
    hide WorkerOk;
    forall v | 0 <= v < |b.workers| ensures WorkerOk(cfg, b, b.workers[v]) {
      if b.workers[v] == a.workers[v] { WorkerOkGrows(cfg, a, b, a.workers[v]); }
    }
  }

  lemma UploadKeepsWorker(cfg: Config, s: State, w: nat)
    requires ArtifactsOk(cfg.h, s) && WorkersOk(cfg, s) && w < |s.workers|
    ensures WorkerOk(cfg, UploadStep(s, w), UploadStep(s, w).workers[w])
  {
    hide Stored, ServedOk, Honest;
    assert WorkerOk(cfg, s, s.workers[w]);
    var b := UploadStep(s, w);
    UploadGrows(s, w);
    WorkerOkGrows(cfg, s, b, s.workers[w]);
    if At(s, w).Uploading? && At(s, w).next < |s.stores| {
      PutOneIsSafe(cfg.h, s.stores[At(s, w).next], s.submitted, At(s, w).tarball);
    }
  }

  lemma ReadStageKeepsWorker(cfg: Config, s: State, w: nat, id: Bytes, approve: bool, json: Bytes)
    requires StagesOwned(s.db) && WorkersOk(cfg, s) && w < |s.workers|
    ensures var b := ReadStageStep(s, w, id, approve, json); WorkerOk(cfg, b, b.workers[w])
  {
    assert WorkerOk(cfg, s, s.workers[w]);
  }

  lemma FetchPendingKeepsWorker(cfg: Config, s: State, w: nat)
    requires WorkersOk(cfg, s) && w < |s.workers|
    ensures var b := FetchPendingStep(s, w); WorkerOk(cfg, b, b.workers[w])
  {
    hide PendingOutbox, InLog;
    assert WorkerOk(cfg, s, s.workers[w]);
    PendingAreRows(s.db.outbox, s.clock, DRAIN_LIMIT, 0);
  }

  lemma AppendKeepsWorker(cfg: Config, s: State, w: nat, fault: Fault)
    requires DbInvariant(s.db) && LogFromOutbox(cfg.h, s.db.outbox, s.log) && WorkersOk(cfg, s) && w < |s.workers|
    ensures var b := AppendStep(cfg, s, w, fault); WorkerOk(cfg, b, b.workers[w])
  {
    hide InLog, AppendKeyed, LogFromOutbox, StagesOwned, OneStagePerVersion, VersionsCameFromStages, Grows,
         ApprovedArePublished, TagsNameActiveVersions, TombstonesMatch, StagesAudited, EndingsAudited, OutboxKeysUnique;
    assert WorkerOk(cfg, s, s.workers[w]);
    var b := AppendStep(cfg, s, w, fault);
    AppendGrows(cfg, s, w, fault);
    WorkerOkGrows(cfg, s, b, s.workers[w]);
    if At(s, w).Draining? && At(s, w).rows != [] {
      var row := At(s, w).rows[0];
      assert RowOk(s.db.outbox, row);
      RowIsNotDirect(s.db, row);
      if AppendKeyed(cfg.h, s.log, row.key, row.json).Ok? { AppendedIsInLog(cfg.h, s.db.outbox, s.log, row); }
    }
  }

  lemma AcknowledgeKeepsWorker(cfg: Config, s: State, w: nat)
    requires WorkersOk(cfg, s) && w < |s.workers|
    ensures var b := AcknowledgeStep(s, w); WorkerOk(cfg, b, b.workers[w])
  {
    hide InLog, Grows;
    assert WorkerOk(cfg, s, s.workers[w]);
    AcknowledgeGrows(s, w);
    WorkerOkGrows(cfg, s, AcknowledgeStep(s, w), s.workers[w]);
  }

  lemma PublishedIsStored(h: Hash, s: State, r: Ref, digest: Bytes)
    requires VersionsCameFromStages(s.db) && ArtifactsOk(h, s) && PublishedAs(s.db, r, digest)
    ensures forall k :: 0 <= k < |s.stores| ==> Holds(s, k, digest)
    ensures exists id :: CameFrom(s.db, r, id) && Stored(h, s, id)
  {
    hide Holds;
    var id :| CameFrom(s.db, r, id);
    assert Stored(h, s, id);
  }

  lemma ScanKeepsWorker(cfg: Config, s: State, w: nat)
    requires VersionsCameFromStages(s.db) && ArtifactsOk(cfg.h, s) && WorkersOk(cfg, s) && w < |s.workers|
    ensures var b := ScanStep(s, w); WorkerOk(cfg, b, b.workers[w])
  {
    hide Stored, ServedOk, VersionsCameFromStages, CameFrom;
    assert WorkerOk(cfg, s, s.workers[w]);
    match At(s, w)
    case Fetching(r, digest, at) =>
      PublishedIsStored(cfg.h, s, r, digest);
      if at < |s.stores| {
        assert Honest(cfg.h, s.stores[at], s.submitted);
        assert Holds(s, at, digest);
      }
    case _ => WorkerOkGrows(cfg, s, ScanStep(s, w), s.workers[w]) by { ScanGrows(s, w); }
  }

  ghost function Actor(a: Action): nat {
    match a
    case Revoke(_, _, _, _) => 0
    case DirectAppend(_) => 0
    case LosePrimary(_) => 0
    case Tick => 0
    case _ => a.w
  }

  /** A step changes the memory of its own worker only. */
  lemma OnlyActorChanges(cfg: Config, s: State, a: Action)
    ensures var b := Step(cfg, s, a);
            |b.workers| == |s.workers| &&
            forall v :: 0 <= v < |s.workers| && v != Actor(a) ==> b.workers[v] == s.workers[v]
  {
    hide AppendKeyed, CreateStageTx, DecideStageTx, RevokeTx, Lists, PendingOutbox, PutOne, RetryOutbox, MarkDelivered;
  }

  lemma ActorStaysOk(cfg: Config, s: State, a: Action)
    requires Invariant(cfg, s) && Actor(a) < |s.workers| && Grows(s, Step(cfg, s, a))
    ensures var b := Step(cfg, s, a);
            b.workers[Actor(a)] == s.workers[Actor(a)] || WorkerOk(cfg, b, b.workers[Actor(a)])
  {
    hide Grows, ArtifactsOk, UploadStep, AppendStep, AcknowledgeStep, ScanStep, FetchPendingStep, ReadStageStep,
         StagesOwned, VersionsCameFromStages, LogFromOutbox, WellLinked, DeliveredAreInLog, WithinQuota, Holds,
         OneStagePerVersion, ApprovedArePublished, TagsNameActiveVersions, TombstonesMatch, StagesAudited,
         EndingsAudited, OutboxKeysUnique, AppendKeyed, CreateStageTx, DecideStageTx, RevokeTx, Lists, WorkersOk;
    match a
    case Upload(w) => UploadKeepsWorker(cfg, s, w);
    case ReadStage(w, id, approve, json) => ReadStageKeepsWorker(cfg, s, w, id, approve, json);
    case FetchPending(w) => FetchPendingKeepsWorker(cfg, s, w);
    case Append(w, fault) => AppendKeepsWorker(cfg, s, w, fault);
    case Acknowledge(w) => AcknowledgeKeepsWorker(cfg, s, w);
    case Scan(w) => ScanKeepsWorker(cfg, s, w);
    case _ =>
  }

  lemma StepKeepsWorkers(cfg: Config, s: State, a: Action)
    requires Invariant(cfg, s) && Grows(s, Step(cfg, s, a))
    ensures WorkersOk(cfg, Step(cfg, s, a))
  {
    hide Grows, WorkersOk, WorkerOk, ArtifactsOk, Step, TablesOk, AuditOk;
    var w := Actor(a);
    if w < |s.workers| { ActorStaysOk(cfg, s, a); }
    OnlyActorChanges(cfg, s, a);
    OthersStayOk(cfg, s, Step(cfg, s, a), w);
  }

  /** Every step, by any worker, keeps the invariant. */
  lemma StepKeepsInvariant(cfg: Config, s: State, a: Action)
    requires Invariant(cfg, s)
    ensures Invariant(cfg, Step(cfg, s, a)) && Grows(s, Step(cfg, s, a))
  {
    hide Grows, WorkersOk, Step, TablesOk, AuditOk, Stored, ServedOk, Honest;
    StepGrows(cfg, s, a);
    StepKeepsTables(cfg, s, a);
    StepKeepsAudit(cfg, s, a);
    StepKeepsArtifacts(cfg, s, a);
    StepKeepsWorkers(cfg, s, a);
  }
}
