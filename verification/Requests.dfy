/** Requests get through: from every reachable state, a valid request that is carried out
    undisturbed by an idle worker has its effect. */
module Requests {
  import opened Base
  import opened EventLog
  import opened SemVer
  import opened ControlPlane
  import opened ControlPlaneSafety
  import opened ArtifactStore
  import opened Registry
  import opened RegistrySafety
  import opened RegistryInvariant
  import opened RegistryRuns
  import opened StoreSteps

  function AllUp(stores: seq<Store>): seq<bool> { seq(|stores|, _ => true) }

  /** The stores with one more object in each. */
  function AllPut(stores: seq<Store>, digest: Bytes, bytes: Bytes): (after: seq<Store>)
    requires forall k :: 0 <= k < |stores| ==> PutOne(stores[k], digest, bytes).Ok?
    ensures |after| == |stores|
  {
    seq(|stores|, k requires 0 <= k < |stores| => PutOne(stores[k], digest, bytes).value)
  }

  lemma AllPutIsAPut(stores: seq<Store>, digest: Bytes, bytes: Bytes)
    requires forall k :: 0 <= k < |stores| ==> PutOne(stores[k], digest, bytes).Ok?
    ensures PutEffect(stores, AllPut(stores, digest, bytes), AllUp(stores), digest, bytes, Ok(()))
  {
    WholePut(stores, AllPut(stores, digest, bytes), AllUp(stores), digest, bytes);
  }

  // ---------- staging ----------

  /** When a submission may be staged. */
  ghost predicate MayBeStaged(cfg: Config, db: Db, stage: Stage) {
    && |PendingStages(db.stages, stage.organization)| < cfg.limit
    && (stage.name in db.packages ==> db.packages[stage.name] == Package(stage.organization, stage.private))
    && stage.id !in db.stages && !RefStaged(db.stages, RefOf(stage))
  }

  lemma SubmissionBegins(cfg: Config, s: State, w: nat, stage: Stage, tarball: Bytes, json: Bytes)
    requires w < |s.workers| && s.workers[w].Idle? && cfg.parse(stage.version).Some?
    requires stage.digest == cfg.h(tarball) && stage.status == Staged
    ensures Run(cfg, s, [Submit(w, stage, tarball, json)]) ==
            s.(submitted := s.submitted + {tarball}, workers := s.workers[w := Uploading(stage, tarball, json, 0)])
  {
    OneStep(cfg, s, Submit(w, stage, tarball, json));
    hide Run;
  }

  lemma StagingEnds(cfg: Config, s: State, w: nat)
    requires w < |s.workers| && s.workers[w].Uploading? && s.workers[w].next == |s.stores|
    requires DbInvariant(s.db) && MayBeStaged(cfg, s.db, s.workers[w].stage)
    ensures var b, me := Run(cfg, s, [CreateStage(w)]), s.workers[w];
            && me.stage.id in b.db.stages && b.db.stages[me.stage.id] == me.stage
            && me.stage.id in b.assessed && b.assessed[me.stage.id] == me.tarball
            && b.workers == s.workers[w := Idle] && b.served == s.served
  {
    OneStep(cfg, s, CreateStage(w));
    hide Run, DbInvariant, CreateStageTx;
    var me := s.workers[w];
    CreateStageCommitsExactly(s.db, me.stage, me.json, cfg.limit, s.clock);
    StagingEffects(s.db, me.stage, me.json, cfg.limit, s.clock);
  }

  /** A valid submission that an idle worker carries out is staged as it was submitted, unless
      two submitted tarballs collide. */
  lemma SubmissionIsStaged(cfg: Config, workers: nat, replicas: nat, actions: seq<Action>, w: nat, stage: Stage,
                           tarball: Bytes, json: Bytes)
    returns (more: seq<Action>)
    requires var s := Run(cfg, Initial(workers, replicas), actions);
             w < |s.workers| && s.workers[w].Idle? && MayBeStaged(cfg, s.db, stage)
    requires cfg.parse(stage.version).Some? && stage.digest == cfg.h(tarball) && stage.status == Staged
    ensures var s := Run(cfg, Initial(workers, replicas), actions);
            var b := Run(cfg, Initial(workers, replicas), actions + more);
            || CollisionIn(cfg.h, s.submitted + {tarball})
            || (stage.id in b.db.stages && b.db.stages[stage.id] == stage
                && stage.id in b.assessed && b.assessed[stage.id] == tarball)
  {
    hide Run, Initial, MayBeStaged, TablesOk, AuditOk, WorkersOk, Stored, ServedOk, CollisionIn, PutOne, PutEffect;
    var s0 := Initial(workers, replicas);
    var s := Run(cfg, s0, actions);
    RunKeepsInvariant(cfg, workers, replicas, actions);
    TablesAreGood(cfg, s.db);
    more := [];
    if !CollisionIn(cfg.h, s.submitted + {tarball}) {
      forall k | 0 <= k < |s.stores| ensures PutOne(s.stores[k], stage.digest, tarball).Ok? {
        HonestGrows(cfg.h, s.stores[k], s.submitted, s.submitted + {tarball});
        PutOneIsSafe(cfg.h, s.stores[k], s.submitted + {tarball}, tarball);
      }
      var begin := [Submit(w, stage, tarball, json)];
      SubmissionBegins(cfg, s, w, stage, tarball, json);
      var s1 := Run(cfg, s, begin);
      var up, after := AllUp(s.stores), AllPut(s.stores, stage.digest, tarball);
      AllPutIsAPut(s.stores, stage.digest, tarball);
      var puts := PutActions(s.stores, up, stage.digest, tarball, w, 0);
      UploadIsAPut(cfg, s1, w, up, after, Ok(()));
      var s2 := Run(cfg, s1, puts);
      StagingEnds(cfg, s2, w);
      RunConcat(cfg, s1, puts, [CreateStage(w)]);
      RunConcat(cfg, s, begin, puts + [CreateStage(w)]);
      more := begin + (puts + [CreateStage(w)]);
      RunConcat(cfg, s0, actions, more);
    }
  }

  // ---------- deciding ----------

  /** A decision about an undecided stage that an idle worker carries out takes effect; only an
      approval against a "deny" does not get that far. */
  lemma StageIsDecided(cfg: Config, workers: nat, replicas: nat, actions: seq<Action>, w: nat, id: Bytes,
                       approve: bool, json: Bytes)
    requires var s := Run(cfg, Initial(workers, replicas), actions);
             && w < |s.workers| && s.workers[w].Idle? && id in s.db.stages && s.db.stages[id].status == Staged
             && !(approve && s.db.stages[id].verdict == Some(DENY))
    ensures var s := Run(cfg, Initial(workers, replicas), actions);
            var b := Run(cfg, Initial(workers, replicas), actions + [ReadStage(w, id, approve, json), Decide(w)]);
            DecisionWritten(s.db.stages[id], approve, b.db)
  {
    hide Run, Initial, TablesOk, AuditOk, WorkersOk, ArtifactsOk, DecisionWritten;
    var s0 := Initial(workers, replicas);
    var s := Run(cfg, s0, actions);
    RunKeepsInvariant(cfg, workers, replicas, actions);
    TablesAreGood(cfg, s.db);
    RunConcat(cfg, s0, actions, [ReadStage(w, id, approve, json), Decide(w)]);
    TwoSteps(cfg, s, ReadStage(w, id, approve, json), Decide(w));
    DecisionSteps(cfg, s, w, id, approve, json);
  }

  lemma DecisionSteps(cfg: Config, s: State, w: nat, id: Bytes, approve: bool, json: Bytes)
    requires w < |s.workers| && s.workers[w].Idle? && id in s.db.stages && s.db.stages[id].status == Staged
    requires DbInvariant(s.db) && !(approve && s.db.stages[id].verdict == Some(DENY))
    ensures DecisionWritten(s.db.stages[id], approve,
                            Step(cfg, Step(cfg, s, ReadStage(w, id, approve, json)), Decide(w)).db)
  {
    hide DecideStageTx, DecisionWritten, DbInvariant;
    var stage := s.db.stages[id];
    RowHasItsId(s.db, id);
    DecideStageCommitsExactly(s.db, stage, approve, json, s.clock);
    DecisionIsWritten(s.db, stage, approve, json, s.clock);
  }

  lemma RowHasItsId(db: Db, id: Bytes)
    requires DbInvariant(db) && id in db.stages
    ensures db.stages[id].id == id
  {
    hide OneStagePerVersion, VersionsCameFromStages, ApprovedArePublished, TagsNameActiveVersions, TombstonesMatch,
         OutboxKeysUnique, StagesAudited, EndingsAudited;
  }

  /** The rows a decision leaves. */
  ghost predicate DecisionWritten(stage: Stage, approve: bool, after: Db) {
    && stage.id in after.stages && after.stages[stage.id] == stage.(status := if approve then Approved else Rejected)
    && (approve ==>
          && Ref(stage.name, stage.version) in after.versions
          && after.versions[Ref(stage.name, stage.version)] ==
             VersionRow(stage.organization, stage.digest, Active, stage.private, stage.record)
          && TagRef(stage.name, stage.tag) in after.tags
          && after.tags[TagRef(stage.name, stage.tag)] == stage.version)
  }

  lemma DecisionIsWritten(db: Db, stage: Stage, approve: bool, json: Bytes, now: nat)
    requires stage.id in db.stages && db.stages[stage.id] == stage
    requires DecideStageTx(db, stage, approve, DecisionKey(stage.id, approve), json, now).Committed?
    ensures DecisionWritten(stage, approve,
                            DecideStageTx(db, stage, approve, DecisionKey(stage.id, approve), json, now).db)
  {
    hide HasOutboxKey;
  }

  // ---------- ending ----------

  /** Ending a version with a status it never had takes effect, tombstone and all. */
  lemma VersionIsEnded(cfg: Config, workers: nat, replicas: nat, actions: seq<Action>, r: Ref, tombstone: Tombstone,
                       rows: seq<Bytes>, json: Bytes)
    requires tombstone.status != Active && !HasHadStatus(cfg, workers, replicas, actions, r, tombstone.status)
    requires var s := Run(cfg, Initial(workers, replicas), actions);
             && r in s.db.versions
             && Lists(rows, ActiveVersions(EndVersion(s.db.versions, r, tombstone.status), r.name))
    ensures var s := Run(cfg, Initial(workers, replicas), actions);
            var b := Run(cfg, Initial(workers, replicas), actions + [Revoke(r, tombstone, rows, json)]);
            && r in b.db.versions && b.db.versions[r] == s.db.versions[r].(status := tombstone.status)
            && r in b.db.tombstones && b.db.tombstones[r] == tombstone
            && b.db.outbox ==
               s.db.outbox + [OutboxRow(VersionEnded(tombstone.status, r.name, r.version), json, 0, s.clock, false)]
  {
    hide Run, Initial, HasHadStatus, RevokeTx, Lists;
    var s0 := Initial(workers, replicas);
    var s := Run(cfg, s0, actions);
    RunConcat(cfg, s0, actions, [Revoke(r, tombstone, rows, json)]);
    OneStep(cfg, s, Revoke(r, tombstone, rows, json));
    RevocationCommitsOncePerStatus(cfg, workers, replicas, actions, r, tombstone, rows, json);
    RevocationEffects(s.db, cfg.parse, r, tombstone, rows, json, s.clock);
  }

  // ---------- downloading ----------

  /** An active version that an idle worker is asked for is served, from whichever store has it;
      the answer is missing only without replicas and after the primary lost the object. */
  lemma VersionIsServed(cfg: Config, workers: nat, replicas: nat, actions: seq<Action>, w: nat, r: Ref)
    returns (more: seq<Action>, bytes: Bytes)
    requires var s := Run(cfg, Initial(workers, replicas), actions);
             w < |s.workers| && s.workers[w].Idle? && IsActive(s.db, r)
    ensures var s := Run(cfg, Initial(workers, replicas), actions);
            var b := Run(cfg, Initial(workers, replicas), actions + more);
            var digest := s.db.versions[r].digest;
            || (|s.stores| == 1 && digest in s.lost)
            || (b.served == s.served + [Download(r, digest, bytes)] && cfg.h(bytes) == digest)
  {
    hide Run, Initial, TablesOk, AuditOk, WorkersOk, Stored, ServedOk, GetEffect, GetActions, AfterGet;
    var s0 := Initial(workers, replicas);
    var s := Run(cfg, s0, actions);
    RunKeepsInvariant(cfg, workers, replicas, actions);
    TablesAreGood(cfg, s.db);
    var digest := s.db.versions[r].digest;
    more, bytes := [], [];
    var i := FirstHolder(s.stores, digest);
    if i == |s.stores| {
      NobodyHolds(cfg, s, r);
    } else {
      var s1 := s.(workers := s.workers[w := Fetching(r, digest, 0)]);
      DownloadBegins(cfg, s, w, r);
      bytes := s.stores[i][digest];
      var up := AllUp(s.stores);
      var after := s.stores[0 := s.stores[0][digest := bytes]];
      FoundAt(s.stores, up, true, digest, i);
      var gets := GetActions(s.stores, up, true, digest, w, 0);
      FetchIsAGet(cfg, s1, w, up, true, after, Ok(bytes));
      AnswerIsServed(s1, w, after, bytes);
      more := [ReadVersion(w, r)] + gets;
      RunConcat(cfg, s, [ReadVersion(w, r)], gets);
      RunConcat(cfg, s0, actions, more);
    }
  }

  lemma {:induction false} FirstHolder(stores: seq<Store>, digest: Bytes) returns (i: nat)
    ensures i <= |stores| && NoneBefore(stores, AllUp(stores), digest, i) && (i < |stores| ==> digest in stores[i])
  {
    if stores == [] {
      i := 0;
    } else {
      i := FirstHolder(stores[..|stores| - 1], digest);
      assert forall k :: 0 <= k < |stores| - 1 ==> stores[..|stores| - 1][k] == stores[k];
      forall k | 0 <= k < i ensures AllUp(stores)[k] && digest !in stores[k] {
        assert digest !in stores[..|stores| - 1][k];
      }
      if i == |stores| - 1 && digest !in stores[i] { i := i + 1; }
    }
  }

  lemma NobodyHolds(cfg: Config, s: State, r: Ref)
    requires DbInvariant(s.db) && ArtifactsOk(cfg.h, s) && IsActive(s.db, r)
    requires NoneBefore(s.stores, AllUp(s.stores), s.db.versions[r].digest, |s.stores|)
    ensures |s.stores| == 1 && s.db.versions[r].digest in s.lost
  {
    hide Honest, ServedOk, StagesOwned, OneStagePerVersion, ApprovedArePublished, TagsNameActiveVersions,
         TombstonesMatch, OutboxKeysUnique, StagesAudited, EndingsAudited;
    var id :| CameFrom(s.db, r, id);
    assert Stored(cfg.h, s, id);
    NoneAnywhere(s.stores, s.db.stages[id].digest);
    assert Holds(s, 0, s.db.stages[id].digest);
    assert |s.stores| > 1 ==> Holds(s, 1, s.db.stages[id].digest);
  }

  lemma NoneAnywhere(stores: seq<Store>, digest: Bytes)
    requires NoneBefore(stores, AllUp(stores), digest, |stores|)
    ensures forall k :: 0 <= k < |stores| ==> digest !in stores[k]
  {
    forall k | 0 <= k < |stores| ensures digest !in stores[k] { assert AllUp(stores)[k]; }
  }

  lemma DownloadBegins(cfg: Config, s: State, w: nat, r: Ref)
    requires w < |s.workers| && s.workers[w].Idle? && IsActive(s.db, r)
    ensures Run(cfg, s, [ReadVersion(w, r)]) == s.(workers := s.workers[w := Fetching(r, s.db.versions[r].digest, 0)])
  {
    OneStep(cfg, s, ReadVersion(w, r));
    hide Run;
  }

  lemma AnswerIsServed(s: State, w: nat, after: seq<Store>, bytes: Bytes)
    requires w < |s.workers| && s.workers[w].Fetching?
    ensures AfterGet(s, w, after, Ok(bytes)).served == s.served + [Download(s.workers[w].r, s.workers[w].digest, bytes)]
  {
  }

  // ---------- appending directly ----------

  /** An event appended directly is in the log afterwards, or two hashed messages or two event
      texts collide. */
  lemma DirectEventIsLogged(cfg: Config, workers: nat, replicas: nat, actions: seq<Action>, json: Bytes)
    ensures var s := Run(cfg, Initial(workers, replicas), actions);
            var b := Run(cfg, Initial(workers, replicas), actions + [DirectAppend(json)]);
            || json in EventTexts(b.log)
            || CollisionIn(cfg.h, EventTexts(b.log) + {json})
            || CollisionIn(cfg.h, ChainMessages(s.log) + {LatestHash(s.log) + json})
  {
    hide Run, Initial, CollisionIn, ChainMessages, EventTexts, HasKey, HasHash;
    var s0 := Initial(workers, replicas);
    var s := Run(cfg, s0, actions);
    RunConcat(cfg, s0, actions, [DirectAppend(json)]);
    OneStep(cfg, s, DirectAppend(json));
    if AppendDirect(cfg.h, s.log, json).Ok? {
      DirectEventsAreRecorded(cfg, workers, replicas, actions, json);
    } else {
      AuditDeliveredExactlyOnce(cfg, workers, replicas, actions);
      DuplicateHashMeansCollision(cfg.h, s.log, Direct(cfg.h(json)), json);
    }
  }
}
