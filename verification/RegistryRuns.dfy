/** The registry's guarantees over every run: any number of workers and replicas, any
    interleaving, any crash. */
module RegistryRuns {
  import opened Base
  import opened EventLog
  import opened SemVer
  import opened ControlPlane
  import opened ControlPlaneSafety
  import opened ArtifactStore
  import opened Registry
  import opened RegistrySafety
  import opened RegistryInvariant

  lemma InitialIsGood(cfg: Config, workers: nat, replicas: nat)
    ensures Invariant(cfg, Initial(workers, replicas))
  {
    hide DbInvariant;
    EmptyDbIsGood();
  }

  lemma {:induction false} RunKeepsInvariant(cfg: Config, workers: nat, replicas: nat, actions: seq<Action>)
    ensures Invariant(cfg, Run(cfg, Initial(workers, replicas), actions))
  {
    hide Invariant, Step;
    if actions == [] {
      InitialIsGood(cfg, workers, replicas);
    } else {
      var before := actions[..|actions| - 1];
      RunKeepsInvariant(cfg, workers, replicas, before);
      StepKeepsInvariant(cfg, Run(cfg, Initial(workers, replicas), before), actions[|actions| - 1]);
    }
  }

  /** Between any two points of any run, everything only grows. */
  lemma {:induction false} RunGrows(cfg: Config, workers: nat, replicas: nat, actions: seq<Action>, i: nat)
    requires i <= |actions|
    ensures Grows(Run(cfg, Initial(workers, replicas), actions[..i]), Run(cfg, Initial(workers, replicas), actions))
    decreases |actions|
  {
    hide Invariant, Step, Grows, Initial;
    var s0 := Initial(workers, replicas);
    if i == |actions| {
      assert actions[..i] == actions;
      GrowsIsReflexive(Run(cfg, s0, actions));
    } else {
      var before := actions[..|actions| - 1];
      RunGrows(cfg, workers, replicas, before, i);
      assert before[..i] == actions[..i];
      RunKeepsInvariant(cfg, workers, replicas, before);
      StepKeepsInvariant(cfg, Run(cfg, s0, before), actions[|actions| - 1]);
      GrowsIsTransitive(Run(cfg, s0, actions[..i]), Run(cfg, s0, before), Run(cfg, s0, actions));
    }
  }

  // ---------- stages and versions ----------

  /** A stage is decided at most once: a decided row never changes again. */
  lemma DecidedAtMostOnce(cfg: Config, workers: nat, replicas: nat, actions: seq<Action>, i: nat, id: Bytes)
    requires i <= |actions|
    requires id in Run(cfg, Initial(workers, replicas), actions[..i]).db.stages
    requires Run(cfg, Initial(workers, replicas), actions[..i]).db.stages[id].status != Staged
    ensures var now := Run(cfg, Initial(workers, replicas), actions).db;
            id in now.stages && now.stages[id] == Run(cfg, Initial(workers, replicas), actions[..i]).db.stages[id]
  {
    hide Run, Initial;
    RunGrows(cfg, workers, replicas, actions, i);
    var a, b := Run(cfg, Initial(workers, replicas), actions[..i]).db, Run(cfg, Initial(workers, replicas), actions).db;
    assert StageEvolves(a.stages[id], b.stages[id]);
  }

  /** A published version is never replaced, and a revoked or quarantined one never becomes
      active again. */
  lemma EndedVersionsStayEnded(cfg: Config, workers: nat, replicas: nat, actions: seq<Action>, i: nat, r: Ref)
    requires i <= |actions|
    requires r in Run(cfg, Initial(workers, replicas), actions[..i]).db.versions
    ensures var was := Run(cfg, Initial(workers, replicas), actions[..i]).db;
            var now := Run(cfg, Initial(workers, replicas), actions).db;
            && r in now.versions && now.versions[r] == was.versions[r].(status := now.versions[r].status)
            && (was.versions[r].status != Active ==> now.versions[r].status != Active)
  {
    hide Run, Initial;
    RunGrows(cfg, workers, replicas, actions, i);
    var a, b := Run(cfg, Initial(workers, replicas), actions[..i]).db, Run(cfg, Initial(workers, replicas), actions).db;
    assert VersionEvolves(a.versions[r], b.versions[r]);
  }

  /** At all times: every tag names an active version, tombstones are exactly the ended
      versions, and no organization is over its quota. */
  lemma TablesStayConsistent(cfg: Config, workers: nat, replicas: nat, actions: seq<Action>)
    ensures var db := Run(cfg, Initial(workers, replicas), actions).db;
            TagsNameActiveVersions(db) && TombstonesMatch(db) && WithinQuota(db, cfg.limit)
  {
    hide Run, Initial, ArtifactsOk, AuditOk, WorkersOk, TagsNameActiveVersions, TombstonesMatch, WithinQuota;
    RunKeepsInvariant(cfg, workers, replicas, actions);
  }

  lemma ActiveVersionsParse(cfg: Config, db: Db, name: Bytes, x: Bytes)
    requires TablesOk(cfg, db) && x in ActiveVersions(db.versions, name)
    ensures cfg.parse(x).Some?
  {
    var r := Ref(name, x);
    var id :| CameFrom(db, r, id);
    assert StageOk(cfg, db.stages[id]);
  }

  /** After a revocation that commits at any point of any run, a tag that named the version
      names a greatest active version, or is gone when none is active; the other tags stay.
      That versions parse is checked when they are staged and needs no assumption here. */
  lemma RevocationRollsTagsBack(cfg: Config, workers: nat, replicas: nat, actions: seq<Action>, r: Ref,
                                tombstone: Tombstone, rows: seq<Bytes>, json: Bytes, t: TagRef)
    requires var s := Run(cfg, Initial(workers, replicas), actions);
             RevokeStep(cfg, s, r, tombstone, rows, json) != s && t in s.db.tags
    ensures var s := Run(cfg, Initial(workers, replicas), actions);
            var after := RevokeStep(cfg, s, r, tombstone, rows, json).db;
            var active := ActiveVersions(after.versions, r.name);
            if t.name == r.name && s.db.tags[t] == r.version then
              if active == {} then t !in after.tags
              else
                && t in after.tags && after.tags[t] in active && cfg.parse(after.tags[t]).Some?
                && forall x :: x in active ==>
                     cfg.parse(x).Some? && !Precedes(cfg.parse(after.tags[t]).value, cfg.parse(x).value)
            else t in after.tags && after.tags[t] == s.db.tags[t]
  {
    hide Run, Initial, Greatest, MoveTags, HasOutboxKey, TablesOk, Precedes, WithinQuota, ArtifactsOk, AuditOk,
         WorkersOk;
    var s := Run(cfg, Initial(workers, replicas), actions);
    RunKeepsInvariant(cfg, workers, replicas, actions);
    RevokeKeepsTables(cfg, s, r, tombstone, rows, json);
    var after := RevokeStep(cfg, s, r, tombstone, rows, json).db;
    forall x | x in rows ensures cfg.parse(x).Some? {
      ActiveVersionsParse(cfg, after, r.name, x);
    }
    RevokeRollsTagsBack(s.db, cfg.parse, r, tombstone, rows, json, s.clock, t);
  }

  // ---------- the audit log ----------

  /** The log is hash-linked from GENESIS, holds every key at most once, every delivered
      outbox row has its event there with the same text, and every event is a direct one or
      comes from an outbox row. */
  lemma AuditDeliveredExactlyOnce(cfg: Config, workers: nat, replicas: nat, actions: seq<Action>)
    ensures var s := Run(cfg, Initial(workers, replicas), actions);
            && WellLinked(cfg.h, s.log) && DeliveredAreInLog(s.db.outbox, s.log)
            && LogFromOutbox(cfg.h, s.db.outbox, s.log) && OutboxKeysUnique(s.db.outbox)
  {
    hide Run, Initial, ArtifactsOk, WorkersOk, WellLinked, DeliveredAreInLog, LogFromOutbox, WithinQuota,
         OutboxKeysUnique;
    RunKeepsInvariant(cfg, workers, replicas, actions);
  }

  function EventTexts(log: seq<Event>): set<Bytes> {
    set i | 0 <= i < |log| :: log[i].json
  }

  /** An event appended directly is in the log afterwards, text and all, even if an event was
      there under its key before; otherwise two event texts collide. */
  lemma DirectEventsAreRecorded(cfg: Config, workers: nat, replicas: nat, actions: seq<Action>, json: Bytes)
    requires AppendDirect(cfg.h, Run(cfg, Initial(workers, replicas), actions).log, json).Ok?
    ensures var s := Run(cfg, Initial(workers, replicas), actions);
            var after := AppendDirect(cfg.h, s.log, json).value;
            json in EventTexts(after) || CollisionIn(cfg.h, EventTexts(after) + {json})
  {
    hide Run, Initial, ArtifactsOk, WorkersOk, WellLinked, DeliveredAreInLog, TablesOk, CollisionIn, HasHash;
    RunKeepsInvariant(cfg, workers, replicas, actions);
    var s := Run(cfg, Initial(workers, replicas), actions);
    var after := AppendDirect(cfg.h, s.log, json).value;
    TablesAreGood(cfg, s.db);
    AppendKeepsAudit(cfg.h, s.db.outbox, s.log, Direct(cfg.h(json)), json);
    AppendKeepsChain(cfg.h, s.log, Direct(cfg.h(json)), json);
    var i :| 0 <= i < |after| && after[i].key == Direct(cfg.h(json));
    DirectIsNotInOutbox(s.db, cfg.h(json), after[i].json);
    var M := EventTexts(after) + {json};
    assert after[i].json in M;
    if !CollisionIn(cfg.h, M) { NoCollision(cfg.h, M, after[i].json, json); }
  }

  lemma DirectIsNotInOutbox(db: Db, digest: Bytes, json: Bytes)
    requires DbInvariant(db)
    ensures !InOutbox(db.outbox, Direct(digest), json)
  {
    hide StagesOwned, OneStagePerVersion, VersionsCameFromStages, ApprovedArePublished, TagsNameActiveVersions,
         TombstonesMatch, OutboxKeysUnique, StagesAudited;
    assert !HasOutboxKey(db.outbox, Direct(digest));
  }

  /** No fact without its audit intent, and no intent without its fact. */
  lemma FactsAreAudited(cfg: Config, workers: nat, replicas: nat, actions: seq<Action>)
    ensures var db := Run(cfg, Initial(workers, replicas), actions).db;
            StagesAudited(db) && EndingsAudited(db)
  {
    hide Run, Initial, ArtifactsOk, WorkersOk, AuditOk, WithinQuota, StagesAudited, EndingsAudited;
    RunKeepsInvariant(cfg, workers, replicas, actions);
  }

  /** The log of any earlier point is a prefix of the log of any later one, so the events an
      auditor has seen are never rewritten. */
  lemma LogIsAppendOnly(cfg: Config, workers: nat, replicas: nat, actions: seq<Action>, i: nat)
    requires i <= |actions|
    ensures Run(cfg, Initial(workers, replicas), actions[..i]).log <= Run(cfg, Initial(workers, replicas), actions).log
  {
    hide Run, Initial;
    RunGrows(cfg, workers, replicas, actions, i);
  }

  /** Two registries, or one registry at two times, that show the same latest hash have the
      same history of event texts, or two messages they hashed collide. */
  lemma EqualLatestHashesEqualHistories(cfg: Config, workers: nat, replicas: nat, actions: seq<Action>,
                                        otherWorkers: nat, otherReplicas: nat, others: seq<Action>)
    requires LatestHash(Run(cfg, Initial(workers, replicas), actions).log) ==
             LatestHash(Run(cfg, Initial(otherWorkers, otherReplicas), others).log)
    ensures var a := Run(cfg, Initial(workers, replicas), actions).log;
            var b := Run(cfg, Initial(otherWorkers, otherReplicas), others).log;
            Texts(a) == Texts(b) || CollisionIn(cfg.h, ChainMessages(a) + ChainMessages(b))
  {
    hide Run, Initial, Texts, ChainMessages, CollisionIn;
    AuditDeliveredExactlyOnce(cfg, workers, replicas, actions);
    AuditDeliveredExactlyOnce(cfg, otherWorkers, otherReplicas, others);
    LatestHashBindsHistory(cfg.h, Run(cfg, Initial(workers, replicas), actions).log,
                           Run(cfg, Initial(otherWorkers, otherReplicas), others).log);
  }

  // ---------- the artifacts ----------

  /** Every body ever served for a version is the very tarball that was assessed when the
      version was staged, or two submitted tarballs collide. */
  lemma DownloadsAreAssessed(cfg: Config, workers: nat, replicas: nat, actions: seq<Action>, i: nat)
    requires i < |Run(cfg, Initial(workers, replicas), actions).served|
    ensures var s := Run(cfg, Initial(workers, replicas), actions);
            var x := s.served[i];
            exists id :: CameFrom(s.db, x.r, id) && id in s.assessed &&
              (x.bytes == s.assessed[id] || CollisionIn(cfg.h, s.submitted))
  {
    hide Run, Initial, WorkersOk, AuditOk, CollisionIn, Honest;
    RunKeepsInvariant(cfg, workers, replicas, actions);
    var s := Run(cfg, Initial(workers, replicas), actions);
    var x := s.served[i];
    assert ServedOk(cfg.h, s, x);
    var id :| CameFrom(s.db, x.r, id);
    assert Stored(cfg.h, s, id);
    if !CollisionIn(cfg.h, s.submitted) { NoCollision(cfg.h, s.submitted, x.bytes, s.assessed[id]); }
  }

  /** Every staged digest, so every published one too, is held by every replica, and by the
      primary unless it lost it; what is held under a digest is the assessed tarball. */
  lemma StagedArtifactsAreHeld(cfg: Config, workers: nat, replicas: nat, actions: seq<Action>, id: Bytes, k: nat)
    requires var s := Run(cfg, Initial(workers, replicas), actions); id in s.db.stages && k < |s.stores|
    ensures var s := Run(cfg, Initial(workers, replicas), actions);
            var digest := s.db.stages[id].digest;
            if digest in s.stores[k] then
              id in s.assessed && (s.stores[k][digest] == s.assessed[id] || CollisionIn(cfg.h, s.submitted))
            else k == 0 && digest in s.lost
  {
    hide Run, Initial, WorkersOk, AuditOk, CollisionIn, ServedOk;
    RunKeepsInvariant(cfg, workers, replicas, actions);
    var s := Run(cfg, Initial(workers, replicas), actions);
    assert Stored(cfg.h, s, id) && Holds(s, k, s.db.stages[id].digest);
    assert Honest(cfg.h, s.stores[k], s.submitted);
    var digest := s.db.stages[id].digest;
    if digest in s.stores[k] && !CollisionIn(cfg.h, s.submitted) {
      NoCollision(cfg.h, s.submitted, s.stores[k][digest], s.assessed[id]);
    }
  }

  /** A download of an active version reports "not found" only when there is no replica and
      the primary lost the object. */
  lemma PublishedIsFound(cfg: Config, workers: nat, replicas: nat, actions: seq<Action>, w: nat)
    requires var s := Run(cfg, Initial(workers, replicas), actions);
             w < |s.workers| && s.workers[w].Fetching? && s.workers[w].at >= |s.stores|
    ensures var s := Run(cfg, Initial(workers, replicas), actions);
            |s.stores| == 1 && s.workers[w].digest in s.lost
  {
    hide Run, Initial, AuditOk, TablesOk, Honest, Stored, ServedOk;
    RunKeepsInvariant(cfg, workers, replicas, actions);
    var s := Run(cfg, Initial(workers, replicas), actions);
    assert WorkerOk(cfg, s, s.workers[w]);
  }

  /** Read repair is refused only when two submitted tarballs collide, and otherwise leaves
      the primary with the object. */
  lemma RepairSucceeds(cfg: Config, workers: nat, replicas: nat, actions: seq<Action>, w: nat)
    requires var s := Run(cfg, Initial(workers, replicas), actions);
             w < |s.workers| && s.workers[w].Repairing?
    ensures var s := Run(cfg, Initial(workers, replicas), actions);
            var after := RepairStep(s, w);
            var x := s.workers[w];
            || CollisionIn(cfg.h, s.submitted)
            || (|after.stores| == |s.stores| > 0 && x.key in after.stores[0] && after.stores[0][x.key] == x.bytes
                && after.served == s.served + [Download(x.of, x.key, x.bytes)])
  {
    hide Run, Initial, AuditOk, TablesOk, Stored, ServedOk, CollisionIn;
    RunKeepsInvariant(cfg, workers, replicas, actions);
    var s := Run(cfg, Initial(workers, replicas), actions);
    assert WorkerOk(cfg, s, s.workers[w]);
    assert Honest(cfg.h, s.stores[0], s.submitted);
    PutOneIsSafe(cfg.h, s.stores[0], s.submitted, s.workers[w].bytes);
  }

  // ---------- downloads of ended versions ----------

  predicate IsDownloading(w: Worker, r: Ref) {
    (w.Fetching? && w.r == r) || (w.Repairing? && w.of == r)
  }

  /** The version has ended, nobody is in the middle of downloading it, and nothing was served
      for it beyond the first n answers. */
  ghost predicate Withdrawn(s: State, r: Ref, n: nat) {
    && r in s.db.versions && s.db.versions[r].status != Active && n <= |s.served|
    && (forall w :: 0 <= w < |s.workers| ==> !IsDownloading(s.workers[w], r))
    && (forall i :: n <= i < |s.served| ==> s.served[i].r != r)
  }

  lemma ActorBeginsNoDownload(cfg: Config, s: State, a: Action, r: Ref)
    requires r in s.db.versions && s.db.versions[r].status != Active && Actor(a) < |s.workers|
    requires !IsDownloading(s.workers[Actor(a)], r)
    ensures !IsDownloading(Step(cfg, s, a).workers[Actor(a)], r)
  {
    hide AppendKeyed, CreateStageTx, DecideStageTx, RevokeTx, Lists, PendingOutbox, PutOne, RetryOutbox, MarkDelivered;
  }

  lemma NoDownloadBegins(cfg: Config, s: State, a: Action, r: Ref)
    requires r in s.db.versions && s.db.versions[r].status != Active
    requires forall w :: 0 <= w < |s.workers| ==> !IsDownloading(s.workers[w], r)
    ensures var b := Step(cfg, s, a);
            forall w :: 0 <= w < |b.workers| ==> !IsDownloading(b.workers[w], r)
  {
    hide Step, IsDownloading;
    OnlyActorChanges(cfg, s, a);
    if Actor(a) < |s.workers| { ActorBeginsNoDownload(cfg, s, a, r); }
  }

  lemma NothingServed(cfg: Config, s: State, a: Action, r: Ref)
    requires forall w :: 0 <= w < |s.workers| ==> !IsDownloading(s.workers[w], r)
    ensures var b := Step(cfg, s, a);
            s.served <= b.served && forall i :: |s.served| <= i < |b.served| ==> b.served[i].r != r
  {
    hide AppendKeyed, CreateStageTx, DecideStageTx, RevokeTx, Lists, PendingOutbox, PutOne, RetryOutbox, MarkDelivered;
  }

  /** Once a version has been revoked or quarantined, only downloads already under way can
      still be answered: with none under way at some point, none is answered ever after. */
  lemma {:induction false} EndedVersionsAreNotServedAnew(cfg: Config, workers: nat, replicas: nat,
                                                         actions: seq<Action>, i: nat, r: Ref, n: nat)
    requires i <= |actions| && Withdrawn(Run(cfg, Initial(workers, replicas), actions[..i]), r, n)
    ensures Withdrawn(Run(cfg, Initial(workers, replicas), actions), r, n)
    decreases |actions|
  {
    hide Step, IsDownloading, Initial;
    if i == |actions| {
      assert actions[..i] == actions;
    } else {
      var before, a := actions[..|actions| - 1], actions[|actions| - 1];
      assert before[..i] == actions[..i];
      EndedVersionsAreNotServedAnew(cfg, workers, replicas, before, i, r, n);
      var s := Run(cfg, Initial(workers, replicas), before);
      NoDownloadBegins(cfg, s, a, r);
      NothingServed(cfg, s, a, r);
      assert before[..|before|] == before && actions[..|before|] == before;
      EndedVersionsStayEnded(cfg, workers, replicas, actions, |before|, r);
    }
  }

  // ---------- more about stages and endings ----------

  /** A name and version once staged can never be staged again, at any later point of a run,
      under any id and by any organization, whatever became of the first stage. */
  lemma StagedVersionsStayTakenForEver(cfg: Config, workers: nat, replicas: nat, actions: seq<Action>, i: nat,
                                       id: Bytes, stage: Stage, json: Bytes)
    requires i <= |actions| && id in Run(cfg, Initial(workers, replicas), actions[..i]).db.stages
    requires RefOf(Run(cfg, Initial(workers, replicas), actions[..i]).db.stages[id]) == RefOf(stage)
    ensures var s := Run(cfg, Initial(workers, replicas), actions);
            !CreateStageTx(s.db, stage, StageCreated(stage.id), json, cfg.limit, s.clock).Committed?
  {
    hide Run, Initial, CreateStageTx;
    RunGrows(cfg, workers, replicas, actions, i);
    RunKeepsInvariant(cfg, workers, replicas, actions);
    var was, s := Run(cfg, Initial(workers, replicas), actions[..i]), Run(cfg, Initial(workers, replicas), actions);
    assert StageEvolves(was.db.stages[id], s.db.stages[id]);
    assert StagesOwned(s.db) by { TablesAreGood(cfg, s.db); }
    StagedVersionsStayTaken(s.db, s.db.stages[id], stage, json, cfg.limit, s.clock);
  }

  predicate HasStatus(db: Db, r: Ref, status: VersionStatus) {
    r in db.versions && db.versions[r].status == status
  }

  /** The version has had this status at some point so far. */
  ghost predicate HasHadStatus(cfg: Config, workers: nat, replicas: nat, actions: seq<Action>, r: Ref,
                               status: VersionStatus) {
    exists j :: 0 <= j <= |actions| && HasStatus(Run(cfg, Initial(workers, replicas), actions[..j]).db, r, status)
  }

  lemma NewIntentMeansNewStatus(cfg: Config, s: State, a: Action, r: Ref, status: VersionStatus)
    requires !HasOutboxKey(s.db.outbox, RevokeKey(r, status))
    requires HasOutboxKey(Step(cfg, s, a).db.outbox, RevokeKey(r, status))
    ensures HasStatus(Step(cfg, s, a).db, r, status)
  {
    var b := Step(cfg, s, a);
    if a.Revoke? {
      hide Greatest, MoveTags, Lists;
      var key := RevokeKey(a.r, a.tombstone.status);
      if b != s {
        KeyAfterEnqueue(s.db.outbox, OutboxRow(key, a.json, 0, s.clock, false));
      }
    } else {
      OtherStepsEndNothing(cfg, s, a, r, status);
    }
  }

  lemma CreateStageEndsNothing(cfg: Config, s: State, w: nat, key: EventKey)
    requires key.VersionEnded?
    ensures HasOutboxKey(CreateStageStep(cfg, s, w).db.outbox, key) ==> HasOutboxKey(s.db.outbox, key)
  {
    hide HasOutboxKey, PendingStages, RefStaged;
    if At(s, w).Uploading? {
      KeyAfterEnqueue(s.db.outbox, OutboxRow(StageCreated(At(s, w).stage.id), At(s, w).json, 0, s.clock, false));
    }
  }

  lemma DecideEndsNothing(s: State, w: nat, key: EventKey)
    requires key.VersionEnded?
    ensures HasOutboxKey(DecideStep(s, w).db.outbox, key) ==> HasOutboxKey(s.db.outbox, key)
  {
    hide HasOutboxKey;
    if At(s, w).Deciding? {
      var decided := DecisionKey(At(s, w).snapshot.id, At(s, w).approve);
      KeyAfterEnqueue(s.db.outbox, OutboxRow(decided, At(s, w).event, 0, s.clock, false));
    }
  }

  lemma AcknowledgeEndsNothing(s: State, w: nat, key: EventKey)
    ensures HasOutboxKey(AcknowledgeStep(s, w).db.outbox, key) ==> HasOutboxKey(s.db.outbox, key)
  {
    hide HasOutboxKey;
    if At(s, w).Draining? && At(s, w).rows != [] {
      SameKeys(s.db.outbox, MarkDelivered(s.db, At(s, w).rows[0].id).outbox);
      SameKeys(s.db.outbox, RetryOutbox(s.db, At(s, w).rows[0].id, s.clock).outbox);
    }
  }

  lemma OtherStepsEndNothing(cfg: Config, s: State, a: Action, r: Ref, status: VersionStatus)
    requires !a.Revoke?
    ensures var key := RevokeKey(r, status);
            HasOutboxKey(Step(cfg, s, a).db.outbox, key) ==> HasOutboxKey(s.db.outbox, key)
  {
    hide HasOutboxKey, CreateStageStep, DecideStep, AcknowledgeStep, AppendKeyed, PendingOutbox, PutOne;
    match a
    case CreateStage(w) => CreateStageEndsNothing(cfg, s, w, RevokeKey(r, status));
    case Decide(w) => DecideEndsNothing(s, w, RevokeKey(r, status));
    case Acknowledge(w) => AcknowledgeEndsNothing(s, w, RevokeKey(r, status));
    case _ =>
  }

  lemma SameKeys(a: seq<OutboxRow>, b: seq<OutboxRow>)
    requires |a| == |b| && forall i :: 0 <= i < |a| ==> a[i].key == b[i].key
    ensures forall key :: HasOutboxKey(b, key) ==> HasOutboxKey(a, key)
  {
  }

  /** The outbox remembers exactly the statuses a version has been ended with. */
  lemma {:induction false} IntentsRememberEndings(cfg: Config, workers: nat, replicas: nat, actions: seq<Action>,
                                                  r: Ref, status: VersionStatus)
    requires HasOutboxKey(Run(cfg, Initial(workers, replicas), actions).db.outbox, RevokeKey(r, status))
    ensures HasHadStatus(cfg, workers, replicas, actions, r, status)
    decreases |actions|
  {
    hide Step, HasOutboxKey, HasStatus;
    assert actions[..|actions|] == actions;
    if actions == [] {
      NoIntentsAtFirst(workers, replicas, r, status);
    } else {
      var before, a := actions[..|actions| - 1], actions[|actions| - 1];
      var was := Run(cfg, Initial(workers, replicas), before);
      if HasOutboxKey(was.db.outbox, RevokeKey(r, status)) {
        IntentsRememberEndings(cfg, workers, replicas, before, r, status);
        var j :| 0 <= j <= |before| && HasStatus(Run(cfg, Initial(workers, replicas), before[..j]).db, r, status);
        assert before[..j] == actions[..j];
      } else {
        NewIntentMeansNewStatus(cfg, was, a, r, status);
      }
    }
  }

  lemma NoIntentsAtFirst(workers: nat, replicas: nat, r: Ref, status: VersionStatus)
    ensures !HasOutboxKey(Initial(workers, replicas).db.outbox, RevokeKey(r, status))
  {
  }

  lemma EndingsAreRemembered(cfg: Config, workers: nat, replicas: nat, actions: seq<Action>, r: Ref,
                             status: VersionStatus)
    requires status != Active && HasHadStatus(cfg, workers, replicas, actions, r, status)
    ensures HasOutboxKey(Run(cfg, Initial(workers, replicas), actions).db.outbox, RevokeKey(r, status))
  {
    hide Run, Initial, HasOutboxKey, ArtifactsOk, AuditOk, WorkersOk;
    var j :| 0 <= j <= |actions| && HasStatus(Run(cfg, Initial(workers, replicas), actions[..j]).db, r, status);
    RunKeepsInvariant(cfg, workers, replicas, actions[..j]);
    RunGrows(cfg, workers, replicas, actions, j);
    var was := Run(cfg, Initial(workers, replicas), actions[..j]).db;
    var now := Run(cfg, Initial(workers, replicas), actions).db;
    assert EndingsAudited(was) by { TablesAreGood(cfg, was); }
    IntentsPersist(was, now, RevokeKey(r, status));
  }

  lemma IntentsPersist(a: Db, b: Db, key: EventKey)
    requires Evolves(a, b) && HasOutboxKey(a.outbox, key)
    ensures HasOutboxKey(b.outbox, key)
  {
    var i :| 0 <= i < |a.outbox| && a.outbox[i].key == key;
    assert OutboxRowEvolves(a.outbox[i], b.outbox[i]);
  }

  /** At any point of any run, a version can be ended with a status exactly when it exists and
      has never had that status before. */
  lemma RevocationCommitsOncePerStatus(cfg: Config, workers: nat, replicas: nat, actions: seq<Action>, r: Ref,
                                       tombstone: Tombstone, rows: seq<Bytes>, json: Bytes)
    requires tombstone.status != Active
    ensures var s := Run(cfg, Initial(workers, replicas), actions);
            RevokeTx(s.db, cfg.parse, r, tombstone, rows, RevokeKey(r, tombstone.status), json, s.clock).Committed? <==>
            r in s.db.versions && !HasHadStatus(cfg, workers, replicas, actions, r, tombstone.status)
  {
    hide Run, Initial, RevokeTx, HasOutboxKey, HasHadStatus;
    var s := Run(cfg, Initial(workers, replicas), actions);
    RevokeCommitsExactly(s.db, cfg.parse, r, tombstone, rows, json, s.clock);
    if HasOutboxKey(s.db.outbox, RevokeKey(r, tombstone.status)) {
      IntentsRememberEndings(cfg, workers, replicas, actions, r, tombstone.status);
    }
    if HasHadStatus(cfg, workers, replicas, actions, r, tombstone.status) {
      EndingsAreRemembered(cfg, workers, replicas, actions, r, tombstone.status);
    }
  }

  // ---------- keys as texts ----------

  ghost predicate KeyPresent(s: State, key: EventKey) {
    HasOutboxKey(s.db.outbox, key) || HasKey(s.log, key)
  }

  /** The database indexes the texts of keys. When no version that parses holds an `@`, the
      keys present at any point of any run have distinct texts. */
  lemma KeyTextsStayDistinct(cfg: Config, workers: nat, replicas: nat, actions: seq<Action>, a: EventKey, b: EventKey)
    requires forall v :: cfg.parse(v).Some? ==> AT !in v
    requires KeyPresent(Run(cfg, Initial(workers, replicas), actions), a)
    requires KeyPresent(Run(cfg, Initial(workers, replicas), actions), b)
    ensures KeyText(a) == KeyText(b) <==> a == b
  {
    hide Run, Initial, KeyText, KeyPresent, PlainKey;
    PresentKeysArePlain(cfg, workers, replicas, actions, a);
    PresentKeysArePlain(cfg, workers, replicas, actions, b);
    if KeyText(a) == KeyText(b) { KeyTextsDiffer(a, b); }
  }

  lemma PresentKeysArePlain(cfg: Config, workers: nat, replicas: nat, actions: seq<Action>, key: EventKey)
    requires forall v :: cfg.parse(v).Some? ==> AT !in v
    requires KeyPresent(Run(cfg, Initial(workers, replicas), actions), key)
    ensures PlainKey(key)
  {
    hide Run, Initial, ArtifactsOk, WorkersOk, WellLinked, DeliveredAreInLog, TablesOk, HasOutboxKey;
    RunKeepsInvariant(cfg, workers, replicas, actions);
    var s := Run(cfg, Initial(workers, replicas), actions);
    if HasOutboxKey(s.db.outbox, key) {
      OutboxKeysArePlain(cfg, s.db, key);
    } else {
      var i :| 0 <= i < |s.log| && s.log[i].key == key;
      if InOutbox(s.db.outbox, key, s.log[i].json) {
        InOutboxHasKey(s.db.outbox, key, s.log[i].json);
      }
    }
  }

  lemma InOutboxHasKey(outbox: seq<OutboxRow>, key: EventKey, json: Bytes)
    requires InOutbox(outbox, key, json)
    ensures HasOutboxKey(outbox, key)
  {
  }

  lemma OutboxKeysArePlain(cfg: Config, db: Db, key: EventKey)
    requires forall v :: cfg.parse(v).Some? ==> AT !in v
    requires TablesOk(cfg, db) && HasOutboxKey(db.outbox, key)
    ensures PlainKey(key)
  {
    hide HasOutboxKey;
    match key
    case VersionEnded(status, name, version) =>
      assert Ref(name, version) in db.versions && status != Active;
      var id :| CameFrom(db, Ref(name, version), id);
      assert StageOk(cfg, db.stages[id]);
    case _ =>
  }

  // ---------- agreement of the stores ----------

  /** At any point of any run, stores that share a digest share its bytes, staged or not, or
      two submitted tarballs collide. */
  lemma StoresAlwaysAgree(cfg: Config, workers: nat, replicas: nat, actions: seq<Action>, j: nat, k: nat, digest: Bytes)
    requires var stores := Run(cfg, Initial(workers, replicas), actions).stores;
             j < |stores| && k < |stores| && digest in stores[j] && digest in stores[k]
    ensures var s := Run(cfg, Initial(workers, replicas), actions);
            s.stores[j][digest] == s.stores[k][digest] || CollisionIn(cfg.h, s.submitted)
  {
    hide Run, Initial, WorkersOk, AuditOk, TablesOk, CollisionIn, ServedOk, Stored, Honest;
    RunKeepsInvariant(cfg, workers, replicas, actions);
    var s := Run(cfg, Initial(workers, replicas), actions);
    StoresAgree(cfg.h, s.stores[j], s.stores[k], s.submitted, digest);
  }
}
