/** Where the rows of the tables come from: the requests of the run, field by field. */
module Origins {
  import opened Base
  import opened EventLog
  import opened SemVer
  import opened ControlPlane
  import opened ControlPlaneSafety
  import opened ArtifactStore
  import opened Registry
  import opened RegistrySafety
  import opened RegistryInvariant
  import opened RegistryRuns

  // ---------- requests ----------

  ghost predicate WasSubmitted(actions: seq<Action>, stage: Stage, tarball: Bytes, json: Bytes) {
    exists k :: 0 <= k < |actions| && actions[k].Submit? && actions[k].stage == stage
                && actions[k].tarball == tarball && actions[k].json == json
  }

  ghost predicate DecisionAsked(actions: seq<Action>, id: Bytes, approve: bool, json: Bytes) {
    exists k :: 0 <= k < |actions| && actions[k].ReadStage? && actions[k].id == id
                && actions[k].approve == approve && actions[k].json == json
  }

  ghost predicate EndingAsked(actions: seq<Action>, r: Ref, tombstone: Tombstone, json: Bytes) {
    exists k :: 0 <= k < |actions| && actions[k].Revoke? && actions[k].r == r
                && actions[k].tombstone == tombstone && actions[k].json == json
  }

  // ---------- what comes from them ----------

  ghost predicate WorkerFrom(actions: seq<Action>, w: Worker) {
    match w
    case Uploading(stage, tarball, json, _) => WasSubmitted(actions, stage, tarball, json)
    case Deciding(snapshot, approve, event) => DecisionAsked(actions, snapshot.id, approve, event)
    case _ => true
  }

  /** An intent's text is that of the request it is about. */
  ghost predicate IntentFrom(actions: seq<Action>, key: EventKey, json: Bytes) {
    match key
    case StageCreated(id) => exists stage, tarball :: WasSubmitted(actions, stage, tarball, json) && stage.id == id
    case StageApproved(id) => DecisionAsked(actions, id, true, json)
    case StageRejected(id) => DecisionAsked(actions, id, false, json)
    case VersionEnded(status, name, version) =>
      exists tombstone :: EndingAsked(actions, Ref(name, version), tombstone, json) && tombstone.status == status
    case Direct(_) => false
  }

  /** The row is the submitted stage but for its status, and what was assessed is the tarball
      submitted with it. */
  ghost predicate StageFrom(actions: seq<Action>, row: Stage, assessed: Bytes) {
    exists stage, json :: WasSubmitted(actions, stage, assessed, json) && row == stage.(status := row.status)
  }

  ghost predicate TombstoneFrom(actions: seq<Action>, r: Ref, tombstone: Tombstone) {
    exists json :: EndingAsked(actions, r, tombstone, json)
  }

  ghost predicate RowsComeFrom(actions: seq<Action>, s: State) {
    && (forall w :: 0 <= w < |s.workers| ==> WorkerFrom(actions, s.workers[w]))
    && (forall i :: 0 <= i < |s.db.outbox| ==> IntentFrom(actions, s.db.outbox[i].key, s.db.outbox[i].json))
    && (forall id :: id in s.db.stages ==> id in s.assessed && StageFrom(actions, s.db.stages[id], s.assessed[id]))
    && (forall r :: r in s.db.tombstones ==> TombstoneFrom(actions, r, s.db.tombstones[r]))
  }

  // ---------- more requests ----------

  lemma RequestsGrow(before: seq<Action>, actions: seq<Action>)
    requires before <= actions
    ensures forall stage, tarball, json :: WasSubmitted(before, stage, tarball, json) ==>
              WasSubmitted(actions, stage, tarball, json)
    ensures forall id, approve, json :: DecisionAsked(before, id, approve, json) ==>
              DecisionAsked(actions, id, approve, json)
    ensures forall r, tombstone, json :: EndingAsked(before, r, tombstone, json) ==>
              EndingAsked(actions, r, tombstone, json)
  {
    assert forall k :: 0 <= k < |before| ==> before[k] == actions[k];
  }

  lemma OriginsGrow(before: seq<Action>, actions: seq<Action>, s: State)
    requires before <= actions && RowsComeFrom(before, s)
    ensures RowsComeFrom(actions, s)
  {
    hide WasSubmitted, DecisionAsked, EndingAsked;
    RequestsGrow(before, actions);
    forall i | 0 <= i < |s.db.outbox| ensures IntentFrom(actions, s.db.outbox[i].key, s.db.outbox[i].json) {
      assert IntentFrom(before, s.db.outbox[i].key, s.db.outbox[i].json);
    }
    forall id | id in s.db.stages ensures StageFrom(actions, s.db.stages[id], s.assessed[id]) {
      assert StageFrom(before, s.db.stages[id], s.assessed[id]);
    }
    forall r | r in s.db.tombstones ensures TombstoneFrom(actions, r, s.db.tombstones[r]) {
      assert TombstoneFrom(before, r, s.db.tombstones[r]);
    }
  }

  // ---------- one step ----------

  lemma UploadKeepsRequest(actions: seq<Action>, s: State, w: nat)
    requires w < |s.workers| && WorkerFrom(actions, s.workers[w])
    ensures WorkerFrom(actions, UploadStep(s, w).workers[w])
  {
    hide WasSubmitted, PutOne;
  }

  /** The worker that acts remembers the request that made it act. */
  lemma ActorFrom(cfg: Config, actions: seq<Action>, s: State, a: Action)
    requires actions != [] && actions[|actions| - 1] == a && StagesOwned(s.db)
    requires Actor(a) < |s.workers| && WorkerFrom(actions, s.workers[Actor(a)])
    ensures WorkerFrom(actions, Step(cfg, s, a).workers[Actor(a)])
  {
    hide AppendKeyed, CreateStageTx, DecideStageTx, RevokeStep, PendingOutbox, UploadStep, RetryOutbox, MarkDelivered;
    match a
    case Submit(w, stage, tarball, json) => assert WasSubmitted(actions, stage, tarball, json);
    case ReadStage(w, id, approve, json) => assert DecisionAsked(actions, id, approve, json);
    case Upload(w) => UploadKeepsRequest(actions, s, w);
    case Revoke(r, tombstone, rows, json) => OnlyTablesChange(cfg, s, r, tombstone, rows, json);
    case _ =>
  }

  lemma OnlyTablesChange(cfg: Config, s: State, r: Ref, tombstone: Tombstone, rows: seq<Bytes>, json: Bytes)
    ensures RevokeStep(cfg, s, r, tombstone, rows, json).workers == s.workers
    ensures RevokeStep(cfg, s, r, tombstone, rows, json).assessed == s.assessed
  {
    hide RevokeTx, Lists;
  }

  lemma WorkersFrom(cfg: Config, actions: seq<Action>, s: State, a: Action)
    requires actions != [] && actions[|actions| - 1] == a && StagesOwned(s.db) && RowsComeFrom(actions, s)
    ensures var b := Step(cfg, s, a); forall w :: 0 <= w < |b.workers| ==> WorkerFrom(actions, b.workers[w])
  {
    hide Step, WorkerFrom, IntentFrom, StageFrom, TombstoneFrom;
    OnlyActorChanges(cfg, s, a);
    if Actor(a) < |s.workers| { ActorFrom(cfg, actions, s, a); }
  }

  /** The tables after a step, with rows of the tables before it and those of its request. */
  ghost predicate TablesFrom(actions: seq<Action>, db: Db, assessed: map<Bytes, Bytes>) {
    && (forall i :: 0 <= i < |db.outbox| ==> IntentFrom(actions, db.outbox[i].key, db.outbox[i].json))
    && (forall id :: id in db.stages ==> id in assessed && StageFrom(actions, db.stages[id], assessed[id]))
    && (forall r :: r in db.tombstones ==> TombstoneFrom(actions, r, db.tombstones[r]))
  }

  lemma StagingFrom(cfg: Config, actions: seq<Action>, s: State, w: nat)
    requires TablesFrom(actions, s.db, s.assessed) && s.assessed.Keys == s.db.stages.Keys
    requires w < |s.workers| && WorkerFrom(actions, s.workers[w])
    ensures var b := CreateStageStep(cfg, s, w); TablesFrom(actions, b.db, b.assessed)
  {
    hide WasSubmitted, CreateStageTx, IntentFrom, StageFrom, TombstoneFrom;
    if At(s, w).Uploading? && At(s, w).next == |s.stores| {
      var stage, tarball, json := At(s, w).stage, At(s, w).tarball, At(s, w).json;
      var outcome := CreateStageTx(s.db, stage, StageCreated(stage.id), json, cfg.limit, s.clock);
      if outcome.Committed? {
        StagingEffects(s.db, stage, json, cfg.limit, s.clock);
        assert StageFrom(actions, stage, tarball) by { StageIsFrom(actions, stage, tarball, json); }
        assert IntentFrom(actions, StageCreated(stage.id), json) by {
          StageIntentIsFrom(actions, stage, tarball, json);
        }
      }
    }
  }

  lemma StageIsFrom(actions: seq<Action>, stage: Stage, tarball: Bytes, json: Bytes)
    requires WasSubmitted(actions, stage, tarball, json)
    ensures StageFrom(actions, stage, tarball)
  {
    hide WasSubmitted;
    assert stage == stage.(status := stage.status);
  }

  lemma StageIntentIsFrom(actions: seq<Action>, stage: Stage, tarball: Bytes, json: Bytes)
    requires WasSubmitted(actions, stage, tarball, json)
    ensures IntentFrom(actions, StageCreated(stage.id), json)
  {
    hide WasSubmitted;
  }

  lemma SameButStatus(actions: seq<Action>, row: Stage, status: StageStatus, assessed: Bytes)
    requires StageFrom(actions, row, assessed)
    ensures StageFrom(actions, row.(status := status), assessed)
  {
    hide WasSubmitted;
    var stage, json :| WasSubmitted(actions, stage, assessed, json) && row == stage.(status := row.status);
    assert row.(status := status) == stage.(status := status);
  }

  lemma DecisionFrom(actions: seq<Action>, s: State, w: nat)
    requires TablesFrom(actions, s.db, s.assessed)
    requires w < |s.workers| && WorkerFrom(actions, s.workers[w])
    ensures TablesFrom(actions, DecideStep(s, w).db, s.assessed) && DecideStep(s, w).assessed == s.assessed
  {
    hide DecisionAsked, IntentFrom, StageFrom, TombstoneFrom, HasOutboxKey;
    if At(s, w).Deciding? {
      var stage, approve, json := At(s, w).snapshot, At(s, w).approve, At(s, w).event;
      var after := DecideStep(s, w).db;
      assert IntentFrom(actions, DecisionKey(stage.id, approve), json) by {
        DecisionIntentIsFrom(actions, stage.id, approve, json);
      }
      forall id | id in after.stages ensures id in s.assessed && StageFrom(actions, after.stages[id], s.assessed[id]) {
        assert id in s.db.stages && after.stages[id] == s.db.stages[id].(status := after.stages[id].status);
        SameButStatus(actions, s.db.stages[id], after.stages[id].status, s.assessed[id]);
      }
    }
  }

  lemma DecisionIntentIsFrom(actions: seq<Action>, id: Bytes, approve: bool, json: Bytes)
    requires DecisionAsked(actions, id, approve, json)
    ensures IntentFrom(actions, DecisionKey(id, approve), json)
  {
    hide DecisionAsked;
  }

  lemma EndingFrom(cfg: Config, actions: seq<Action>, s: State, r: Ref, tombstone: Tombstone, rows: seq<Bytes>,
                   json: Bytes)
    requires TablesFrom(actions, s.db, s.assessed) && EndingAsked(actions, r, tombstone, json)
    ensures TablesFrom(actions, RevokeStep(cfg, s, r, tombstone, rows, json).db, s.assessed)
  {
    hide EndingAsked, IntentFrom, StageFrom, TombstoneFrom, HasOutboxKey, RevokeTx, Lists;
    var after := RevokeStep(cfg, s, r, tombstone, rows, json).db;
    if after != s.db {
      RevocationEffects(s.db, cfg.parse, r, tombstone, rows, json, s.clock);
      assert TombstoneFrom(actions, r, tombstone) by { TombstoneIsFrom(actions, r, tombstone, json); }
      assert IntentFrom(actions, VersionEnded(tombstone.status, r.name, r.version), json) by {
        EndingIntentIsFrom(actions, r, tombstone, json);
      }
    }
  }

  lemma TombstoneIsFrom(actions: seq<Action>, r: Ref, tombstone: Tombstone, json: Bytes)
    requires EndingAsked(actions, r, tombstone, json)
    ensures TombstoneFrom(actions, r, tombstone)
  {
  }

  lemma EndingIntentIsFrom(actions: seq<Action>, r: Ref, tombstone: Tombstone, json: Bytes)
    requires EndingAsked(actions, r, tombstone, json)
    ensures IntentFrom(actions, VersionEnded(tombstone.status, r.name, r.version), json)
  {
    hide EndingAsked;
    assert r == Ref(r.name, r.version);
  }

  lemma BookkeepingFrom(actions: seq<Action>, s: State, w: nat)
    requires TablesFrom(actions, s.db, s.assessed)
    ensures TablesFrom(actions, AcknowledgeStep(s, w).db, s.assessed) && AcknowledgeStep(s, w).assessed == s.assessed
  {
    hide IntentFrom, StageFrom, TombstoneFrom;
  }

  lemma StepTablesFrom(cfg: Config, actions: seq<Action>, s: State, a: Action)
    requires actions != [] && actions[|actions| - 1] == a && s.assessed.Keys == s.db.stages.Keys
    requires TablesFrom(actions, s.db, s.assessed)
    requires forall w :: 0 <= w < |s.workers| ==> WorkerFrom(actions, s.workers[w])
    ensures var b := Step(cfg, s, a); TablesFrom(actions, b.db, b.assessed)
  {
    hide TablesFrom, WorkerFrom, CreateStageStep, DecideStep, RevokeStep, AcknowledgeStep, AppendKeyed, PendingOutbox,
         PutOne, EndingAsked;
    match a
    case CreateStage(w) => if w < |s.workers| { StagingFrom(cfg, actions, s, w); } else { NobodyActs(cfg, s, w); }
    case Decide(w) => if w < |s.workers| { DecisionFrom(actions, s, w); } else { NobodyActs(cfg, s, w); }
    case Revoke(r, tombstone, rows, json) =>
      assert EndingAsked(actions, r, tombstone, json) by { EndingIsAsked(actions, r, tombstone, rows, json); }
      EndingFrom(cfg, actions, s, r, tombstone, rows, json);
      OnlyTablesChange(cfg, s, r, tombstone, rows, json);
    case Acknowledge(w) => BookkeepingFrom(actions, s, w);
    case _ =>
  }

  lemma EndingIsAsked(actions: seq<Action>, r: Ref, tombstone: Tombstone, rows: seq<Bytes>, json: Bytes)
    requires actions != [] && actions[|actions| - 1] == Revoke(r, tombstone, rows, json)
    ensures EndingAsked(actions, r, tombstone, json)
  {
  }

  lemma NobodyActs(cfg: Config, s: State, w: nat)
    requires w >= |s.workers|
    ensures CreateStageStep(cfg, s, w) == s && DecideStep(s, w) == s
  {
  }

  // ---------- over runs ----------

  lemma {:induction false} RowsComeFromRequests(cfg: Config, workers: nat, replicas: nat, actions: seq<Action>)
    ensures RowsComeFrom(actions, Run(cfg, Initial(workers, replicas), actions))
  {
    hide Step, Invariant, WorkerFrom, IntentFrom, StageFrom, TombstoneFrom;
    if actions == [] {
      NothingToExplain(workers, replicas);
    } else {
      var before, a := actions[..|actions| - 1], actions[|actions| - 1];
      var s := Run(cfg, Initial(workers, replicas), before);
      RowsComeFromRequests(cfg, workers, replicas, before);
      OriginsGrow(before, actions, s);
      RunKeepsInvariant(cfg, workers, replicas, before);
      InvariantParts(cfg, s);
      WorkersFrom(cfg, actions, s, a);
      StepTablesFrom(cfg, actions, s, a);
    }
  }

  lemma NothingToExplain(workers: nat, replicas: nat)
    ensures RowsComeFrom([], Initial(workers, replicas))
  {
  }

  lemma InvariantParts(cfg: Config, s: State)
    requires Invariant(cfg, s)
    ensures StagesOwned(s.db) && s.assessed.Keys == s.db.stages.Keys
  {
  }

  /** Every stage row is, but for its status, the stage of some submission of the run, with the
      tarball assessed that was submitted with it. */
  lemma StagesAreSubmitted(cfg: Config, workers: nat, replicas: nat, actions: seq<Action>, id: Bytes)
    requires id in Run(cfg, Initial(workers, replicas), actions).db.stages
    ensures var s := Run(cfg, Initial(workers, replicas), actions);
            exists k :: 0 <= k < |actions| && actions[k].Submit?
                        && s.db.stages[id] == actions[k].stage.(status := s.db.stages[id].status)
                        && id in s.assessed && s.assessed[id] == actions[k].tarball
  {
    hide Run, Initial, WorkerFrom, IntentFrom, TombstoneFrom;
    RowsComeFromRequests(cfg, workers, replicas, actions);
    var s := Run(cfg, Initial(workers, replicas), actions);
    assert StageFrom(actions, s.db.stages[id], s.assessed[id]);
  }

  /** Every version row was submitted under this name and version, with its owner, visibility,
      contents and record as they are now; the verdict it was submitted with is not "deny", and
      its digest is that of the tarball submitted. It comes from exactly one stage. */
  lemma VersionsComeFromOneStage(cfg: Config, workers: nat, replicas: nat, actions: seq<Action>, r: Ref)
    requires r in Run(cfg, Initial(workers, replicas), actions).db.versions
    ensures var db := Run(cfg, Initial(workers, replicas), actions).db;
            exists k :: 0 <= k < |actions| && actions[k].Submit?
                        && var stage, row := actions[k].stage, db.versions[r];
                           && stage.name == r.name && stage.version == r.version && stage.verdict != Some(DENY)
                           && row.organization == stage.organization && row.private == stage.private
                           && row.record == stage.record
                           && row.digest == stage.digest == cfg.h(actions[k].tarball)
                           && CameFrom(db, r, stage.id)
                           && forall other :: CameFrom(db, r, other) ==> other == stage.id
  {
    hide Run, Initial, AuditOk, WorkersOk, Honest, ServedOk;
    RunKeepsInvariant(cfg, workers, replicas, actions);
    var s := Run(cfg, Initial(workers, replicas), actions);
    var id :| CameFrom(s.db, r, id);
    assert StageOk(cfg, s.db.stages[id]) && Stored(cfg.h, s, id);
    StagesAreSubmitted(cfg, workers, replicas, actions, id);
  }

  /** The text of every intent is that of the request it is about. */
  lemma IntentsAreRequested(cfg: Config, workers: nat, replicas: nat, actions: seq<Action>, i: nat)
    requires i < |Run(cfg, Initial(workers, replicas), actions).db.outbox|
    ensures var row := Run(cfg, Initial(workers, replicas), actions).db.outbox[i];
            IntentFrom(actions, row.key, row.json)
  {
    hide Run, Initial, WorkerFrom, IntentFrom, StageFrom, TombstoneFrom;
    RowsComeFromRequests(cfg, workers, replicas, actions);
  }

  /** Every tombstone is one that was asked for, with its reason, actor and signature. */
  lemma TombstonesAreRequested(cfg: Config, workers: nat, replicas: nat, actions: seq<Action>, r: Ref)
    requires r in Run(cfg, Initial(workers, replicas), actions).db.tombstones
    ensures var db := Run(cfg, Initial(workers, replicas), actions).db;
            exists k :: 0 <= k < |actions| && actions[k].Revoke? && actions[k].r == r
                        && actions[k].tombstone == db.tombstones[r]
  {
    hide Run, Initial, WorkerFrom, IntentFrom, StageFrom;
    RowsComeFromRequests(cfg, workers, replicas, actions);
    var db := Run(cfg, Initial(workers, replicas), actions).db;
    assert TombstoneFrom(actions, r, db.tombstones[r]);
  }
}
