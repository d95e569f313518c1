/** What holds in every state of every run of the registry, and between any two states. */
module RegistrySafety {
  import opened Base
  import opened EventLog
  import opened SemVer
  import opened ControlPlane
  import opened ControlPlaneSafety
  import opened ArtifactStore
  import opened Registry

  // ---------- what holds in every state ----------

  ghost predicate StageOk(cfg: Config, stage: Stage) {
    cfg.parse(stage.version).Some? && (stage.status == Approved ==> stage.verdict != Some(DENY))
  }

  ghost predicate TablesOk(cfg: Config, db: Db) {
    DbInvariant(db) && WithinQuota(db, cfg.limit) && forall id :: id in db.stages ==> StageOk(cfg, db.stages[id])
  }

  ghost predicate InLog(log: seq<Event>, key: EventKey, json: Bytes) {
    exists i :: 0 <= i < |log| && log[i].key == key && log[i].json == json
  }

  ghost predicate InOutbox(outbox: seq<OutboxRow>, key: EventKey, json: Bytes) {
    exists i :: 0 <= i < |outbox| && outbox[i].key == key && outbox[i].json == json
  }

  /** Every event comes from an outbox row or was appended directly, under its own digest. */
  ghost predicate LogFromOutbox(h: Hash, outbox: seq<OutboxRow>, log: seq<Event>) {
    forall i :: 0 <= i < |log| ==>
      log[i].key == Direct(h(log[i].json)) || InOutbox(outbox, log[i].key, log[i].json)
  }

  ghost predicate DeliveredAreInLog(outbox: seq<OutboxRow>, log: seq<Event>) {
    forall i :: 0 <= i < |outbox| && outbox[i].delivered ==> InLog(log, outbox[i].key, outbox[i].json)
  }

  ghost predicate AuditOk(h: Hash, outbox: seq<OutboxRow>, log: seq<Event>) {
    WellLinked(h, log) && LogFromOutbox(h, outbox, log) && DeliveredAreInLog(outbox, log)
  }

  /** A store has the object, or it is the primary and has lost it. */
  ghost predicate Holds(s: State, k: nat, digest: Bytes)
    requires k < |s.stores|
  {
    digest in s.stores[k] || (k == 0 && digest in s.lost)
  }

  /** The stage's own tarball was submitted, assessed, and stored everywhere. */
  ghost predicate Stored(h: Hash, s: State, id: Bytes) {
    && id in s.db.stages && id in s.assessed
    && s.assessed[id] in s.submitted && h(s.assessed[id]) == s.db.stages[id].digest
    && forall k :: 0 <= k < |s.stores| ==> Holds(s, k, s.db.stages[id].digest)
  }

  ghost predicate PublishedAs(db: Db, r: Ref, digest: Bytes) {
    r in db.versions && db.versions[r].digest == digest
  }

  ghost predicate ServedOk(h: Hash, s: State, x: Download) {
    x.bytes in s.submitted && h(x.bytes) == x.digest && PublishedAs(s.db, x.r, x.digest)
  }

  ghost predicate ArtifactsOk(h: Hash, s: State) {
    && s.stores != []
    && (forall k :: 0 <= k < |s.stores| ==> Honest(h, s.stores[k], s.submitted))
    && s.assessed.Keys == s.db.stages.Keys
    && (forall id :: id in s.db.stages ==> Stored(h, s, id))
    && (forall i :: 0 <= i < |s.served| ==> ServedOk(h, s, s.served[i]))
  }

  ghost predicate RowOk(outbox: seq<OutboxRow>, row: Pending) {
    row.id < |outbox| && outbox[row.id].key == row.key && outbox[row.id].json == row.json
  }

  /** What a worker remembers is still true enough. */
  ghost predicate WorkerOk(cfg: Config, s: State, w: Worker) {
    match w
    case Idle => true
    case Uploading(stage, tarball, json, next) =>
      && stage.status == Staged && cfg.parse(stage.version).Some?
      && tarball in s.submitted && stage.digest == cfg.h(tarball)
      && next <= |s.stores| && (forall k :: 0 <= k < next ==> Holds(s, k, stage.digest))
    case Deciding(stage, approve, json) =>
      ReadEarlier(s.db, stage) && (approve ==> stage.verdict != Some(DENY))
    case Draining(rows, head) =>
      && (forall i :: 0 <= i < |rows| ==> RowOk(s.db.outbox, rows[i]))
      && (head.Appended? ==> rows != [] && InLog(s.log, rows[0].key, rows[0].json))
    case Fetching(r, digest, at) =>
      PublishedAs(s.db, r, digest) && at <= |s.stores| && (at > 0 ==> digest in s.lost) && at <= 1
    case Repairing(r, digest, bytes) =>
      PublishedAs(s.db, r, digest) && bytes in s.submitted && cfg.h(bytes) == digest
  }

  ghost predicate WorkersOk(cfg: Config, s: State) {
    forall w :: 0 <= w < |s.workers| ==> WorkerOk(cfg, s, s.workers[w])
  }

  ghost predicate Invariant(cfg: Config, s: State) {
    TablesOk(cfg, s.db) && AuditOk(cfg.h, s.db.outbox, s.log) && ArtifactsOk(cfg.h, s) && WorkersOk(cfg, s)
  }

  // ---------- what holds between an earlier and a later state ----------

  ghost predicate PrimaryKeeps(a: State, b: State)
    requires a.stores != [] && b.stores != []
  {
    forall d :: d in a.stores[0] ==> d in b.lost || (d in b.stores[0] && b.stores[0][d] == a.stores[0][d])
  }

  /** Rows only evolve, the log and the history only grow, replicas lose nothing. */
  ghost predicate Grows(a: State, b: State) {
    && Evolves(a.db, b.db) && a.log <= b.log && a.clock <= b.clock
    && a.submitted <= b.submitted && a.lost <= b.lost && a.served <= b.served
    && (forall id :: id in a.assessed ==> id in b.assessed && b.assessed[id] == a.assessed[id])
    && |a.stores| == |b.stores| && |a.workers| == |b.workers|
    && (a.stores != [] ==> PrimaryKeeps(a, b))
    && (forall k :: 1 <= k < |a.stores| ==> Keeps(a.stores[k], b.stores[k]))
  }

  lemma GrowsIsReflexive(a: State)
    ensures Grows(a, a)
  {
    hide Evolves;
    EvolvesIsReflexive(a.db);
  }

  lemma GrowsIsTransitive(a: State, b: State, c: State)
    requires Grows(a, b) && Grows(b, c)
    ensures Grows(a, c)
  {
    hide Evolves;
    EvolvesIsTransitive(a.db, b.db, c.db);
  }

  lemma HoldsGrows(a: State, b: State, k: nat, digest: Bytes)
    requires Grows(a, b) && k < |a.stores| && Holds(a, k, digest)
    ensures Holds(b, k, digest)
  {
    hide Evolves;
  }

  lemma InLogGrows(a: seq<Event>, b: seq<Event>, key: EventKey, json: Bytes)
    requires a <= b && InLog(a, key, json)
    ensures InLog(b, key, json)
  {
    var i :| 0 <= i < |a| && a[i].key == key && a[i].json == json;
    assert b[i] == a[i];
  }

  lemma PublishedAsGrows(a: Db, b: Db, r: Ref, digest: Bytes)
    requires Evolves(a, b) && PublishedAs(a, r, digest)
    ensures PublishedAs(b, r, digest)
  {
    assert VersionEvolves(a.versions[r], b.versions[r]);
  }

  lemma ReadEarlierGrows(a: Db, b: Db, stage: Stage)
    requires Evolves(a, b) && ReadEarlier(a, stage)
    ensures ReadEarlier(b, stage)
  {
    assert StageEvolves(a.stages[stage.id], b.stages[stage.id]);
  }

  lemma RowOkGrows(a: Db, b: Db, row: Pending)
    requires Evolves(a, b) && RowOk(a.outbox, row)
    ensures RowOk(b.outbox, row)
  {
    assert OutboxRowEvolves(a.outbox[row.id], b.outbox[row.id]);
  }

  /** Whatever the others do, what a worker remembers stays true enough. */
  lemma WorkerOkGrows(cfg: Config, a: State, b: State, w: Worker)
    requires Grows(a, b) && WorkerOk(cfg, a, w)
    ensures WorkerOk(cfg, b, w)
  {
    hide Evolves, Holds, InLog, PublishedAs, ReadEarlier, RowOk, PrimaryKeeps, Keeps;
    match w
    case Idle =>
    case Uploading(stage, tarball, json, next) =>
      forall k | 0 <= k < next ensures Holds(b, k, stage.digest) { HoldsGrows(a, b, k, stage.digest); }
    case Deciding(stage, approve, json) =>
      ReadEarlierGrows(a.db, b.db, stage);
    case Draining(rows, head) =>
      forall i | 0 <= i < |rows| ensures RowOk(b.db.outbox, rows[i]) { RowOkGrows(a.db, b.db, rows[i]); }
      if head.Appended? { InLogGrows(a.log, b.log, rows[0].key, rows[0].json); }
    case Fetching(r, digest, at) =>
      PublishedAsGrows(a.db, b.db, r, digest);
    case Repairing(r, digest, bytes) =>
      PublishedAsGrows(a.db, b.db, r, digest);
  }

  // ---------- every step grows ----------

  lemma SubmitGrows(cfg: Config, s: State, w: nat, stage: Stage, tarball: Bytes, json: Bytes)
    ensures Grows(s, SubmitStep(cfg, s, w, stage, tarball, json))
  {
    hide Evolves;
    EvolvesIsReflexive(s.db);
  }

  lemma UploadGrows(s: State, w: nat)
    ensures Grows(s, UploadStep(s, w))
  {
    hide Evolves;
    EvolvesIsReflexive(s.db);
  }

  lemma CreateStageGrows(cfg: Config, s: State, w: nat)
    requires s.assessed.Keys == s.db.stages.Keys
    ensures Grows(s, CreateStageStep(cfg, s, w))
  {
    hide Evolves, PendingStages, RefStaged, HasOutboxKey;
    EvolvesIsReflexive(s.db);
    if At(s, w).Uploading? {
      var stage := At(s, w).stage;
      CreateStageEvolves(s.db, stage, StageCreated(stage.id), At(s, w).json, cfg.limit, s.clock);
    }
  }

  lemma DecideGrows(s: State, w: nat)
    ensures Grows(s, DecideStep(s, w))
  {
    hide Evolves, DecideStageTx;
    EvolvesIsReflexive(s.db);
    if At(s, w).Deciding? {
      var stage, approve := At(s, w).snapshot, At(s, w).approve;
      DecideStageEvolves(s.db, stage, approve, DecisionKey(stage.id, approve), At(s, w).event, s.clock);
    }
  }

  lemma RevokeGrows(cfg: Config, s: State, r: Ref, tombstone: Tombstone, rows: seq<Bytes>, json: Bytes)
    ensures Grows(s, RevokeStep(cfg, s, r, tombstone, rows, json))
  {
    hide Evolves, RevokeTx, Lists;
    EvolvesIsReflexive(s.db);
    if tombstone.status != Active {
      RevokeEvolves(s.db, cfg.parse, r, tombstone, rows, RevokeKey(r, tombstone.status), json, s.clock);
    }
  }

  lemma AppendGrows(cfg: Config, s: State, w: nat, fault: Fault)
    ensures Grows(s, AppendStep(cfg, s, w, fault))
  {
    hide Evolves, HasKey, HasHash;
    EvolvesIsReflexive(s.db);
  }

  lemma AcknowledgeGrows(s: State, w: nat)
    ensures Grows(s, AcknowledgeStep(s, w))
  {
    hide Evolves, MarkDelivered, RetryOutbox;
    EvolvesIsReflexive(s.db);
    if At(s, w).Draining? && At(s, w).rows != [] { BookkeepingEvolves(s.db, At(s, w).rows[0].id, s.clock); }
  }

  lemma DirectAppendGrows(cfg: Config, s: State, json: Bytes)
    ensures Grows(s, DirectAppendStep(cfg, s, json))
  {
    hide Evolves, HasKey, HasHash;
    EvolvesIsReflexive(s.db);
  }

  lemma ScanGrows(s: State, w: nat)
    ensures Grows(s, ScanStep(s, w))
  {
    hide Evolves;
    EvolvesIsReflexive(s.db);
  }

  lemma RepairGrows(s: State, w: nat)
    ensures Grows(s, RepairStep(s, w))
  {
    hide Evolves;
    EvolvesIsReflexive(s.db);
  }

  lemma LosePrimaryGrows(s: State, digest: Bytes)
    ensures Grows(s, LosePrimaryStep(s, digest))
  {
    hide Evolves;
    EvolvesIsReflexive(s.db);
  }

  lemma OnlyWorkersChange(s: State, b: State)
    requires b == s.(workers := b.workers, clock := b.clock) && |b.workers| == |s.workers| && s.clock <= b.clock
    ensures Grows(s, b)
  {
    hide Evolves;
    EvolvesIsReflexive(s.db);
  }

  lemma StepGrows(cfg: Config, s: State, a: Action)
    requires s.assessed.Keys == s.db.stages.Keys
    ensures Grows(s, Step(cfg, s, a))
  {
    hide Grows, SubmitStep, UploadStep, CreateStageStep, DecideStep, RevokeStep, AppendStep, AcknowledgeStep,
         DirectAppendStep, ScanStep, RepairStep, LosePrimaryStep, PendingOutbox;
    match a
    case Submit(w, stage, tarball, json) => SubmitGrows(cfg, s, w, stage, tarball, json);
    case Upload(w) => UploadGrows(s, w);
    case CreateStage(w) => CreateStageGrows(cfg, s, w);
    case ReadStage(_, _, _, _) => OnlyWorkersChange(s, Step(cfg, s, a));
    case Decide(w) => DecideGrows(s, w);
    case Revoke(r, tombstone, rows, json) => RevokeGrows(cfg, s, r, tombstone, rows, json);
    case FetchPending(_) => OnlyWorkersChange(s, Step(cfg, s, a));
    case Append(w, fault) => AppendGrows(cfg, s, w, fault);
    case Acknowledge(w) => AcknowledgeGrows(s, w);
    case ReadVersion(_, _) => OnlyWorkersChange(s, Step(cfg, s, a));
    case Scan(w) => ScanGrows(s, w);
    case Repair(w) => RepairGrows(s, w);
    case Crash(_) => OnlyWorkersChange(s, Step(cfg, s, a));
    case DirectAppend(json) => DirectAppendGrows(cfg, s, json);
    case LosePrimary(digest) => LosePrimaryGrows(s, digest);
    case Tick => OnlyWorkersChange(s, Step(cfg, s, a));
  }
}
