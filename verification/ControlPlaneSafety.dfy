/** What every transaction keeps true of the tables, when each commits, and how rows may
    change over time. */
module ControlPlaneSafety {
  import opened Base
  import opened EventLog
  import opened SemVer
  import opened ControlPlane

  // ---------- the invariant ----------

  /** Stages are keyed by id and belong to the package's one owner and visibility. */
  ghost predicate StagesOwned(db: Db) {
    forall id :: id in db.stages ==>
      && db.stages[id].id == id
      && db.stages[id].name in db.packages
      && db.packages[db.stages[id].name] == Package(db.stages[id].organization, db.stages[id].private)
  }

  ghost predicate OneStagePerVersion(db: Db) {
    forall a, b :: a in db.stages && b in db.stages && RefOf(db.stages[a]) == RefOf(db.stages[b]) ==> a == b
  }

  /** The stage an admitted version row came from. */
  ghost predicate CameFrom(db: Db, r: Ref, id: Bytes) {
    && r in db.versions && id in db.stages
    && var stage, row := db.stages[id], db.versions[r];
    && stage.status == Approved && RefOf(stage) == r
    && row.organization == stage.organization && row.digest == stage.digest
    && row.private == stage.private && row.record == stage.record
  }

  ghost predicate VersionsCameFromStages(db: Db) {
    forall r :: r in db.versions ==> exists id :: CameFrom(db, r, id)
  }

  ghost predicate ApprovedArePublished(db: Db) {
    forall id :: id in db.stages && db.stages[id].status == Approved ==> CameFrom(db, RefOf(db.stages[id]), id)
  }

  ghost predicate IsActive(db: Db, r: Ref) {
    r in db.versions && db.versions[r].status == Active
  }

  ghost predicate TagsNameActiveVersions(db: Db) {
    forall t :: t in db.tags ==> IsActive(db, Ref(t.name, db.tags[t]))
  }

  /** Tombstones belong to exactly the ended versions and carry their status. */
  ghost predicate TombstonesMatch(db: Db) {
    && (forall r :: r in db.tombstones <==> r in db.versions && db.versions[r].status != Active)
    && (forall r :: r in db.tombstones ==> db.tombstones[r].status == db.versions[r].status)
  }

  ghost predicate OutboxKeysUnique(outbox: seq<OutboxRow>) {
    forall i, j :: 0 <= i < j < |outbox| ==> outbox[i].key != outbox[j].key
  }

  /** The audit intents about stages are exactly the stages and their decisions. */
  ghost predicate StagesAudited(db: Db) {
    && (forall id :: HasOutboxKey(db.outbox, StageCreated(id)) <==> id in db.stages)
    && (forall id :: HasOutboxKey(db.outbox, StageApproved(id)) <==>
          id in db.stages && db.stages[id].status == Approved)
    && (forall id :: HasOutboxKey(db.outbox, StageRejected(id)) <==>
          id in db.stages && db.stages[id].status == Rejected)
  }

  /** Only ended versions have audit intents, and one of them bears the present status. */
  ghost predicate EndingsAudited(db: Db) {
    && (forall st, n, v :: HasOutboxKey(db.outbox, VersionEnded(st, n, v)) ==>
          st != Active && Ref(n, v) in db.versions && db.versions[Ref(n, v)].status != Active)
    && (forall r :: r in db.versions && db.versions[r].status != Active ==>
          HasOutboxKey(db.outbox, RevokeKey(r, db.versions[r].status)))
    && (forall d :: !HasOutboxKey(db.outbox, Direct(d)))
  }

  ghost predicate DbInvariant(db: Db) {
    && StagesOwned(db) && OneStagePerVersion(db) && VersionsCameFromStages(db) && ApprovedArePublished(db)
    && TagsNameActiveVersions(db) && TombstonesMatch(db)
    && OutboxKeysUnique(db.outbox) && StagesAudited(db) && EndingsAudited(db)
  }

  lemma EmptyDbIsGood()
    ensures DbInvariant(EMPTY_DB)
  {
  }

  /** A stage row as a caller may have read it earlier: all but the status is current. */
  ghost predicate ReadEarlier(db: Db, stage: Stage) {
    stage.id in db.stages && stage == db.stages[stage.id].(status := stage.status)
  }

  lemma KeyAfterEnqueue(outbox: seq<OutboxRow>, row: OutboxRow)
    ensures forall k :: HasOutboxKey(outbox + [row], k) <==> HasOutboxKey(outbox, k) || k == row.key
  {
    var after := outbox + [row];
    forall k ensures HasOutboxKey(after, k) <==> HasOutboxKey(outbox, k) || k == row.key {
      if HasOutboxKey(outbox, k) {
        var i :| 0 <= i < |outbox| && outbox[i].key == k;
        assert after[i].key == k;
      }
      if k == row.key { assert after[|outbox|].key == k; }
      if HasOutboxKey(after, k) {
        var i :| 0 <= i < |after| && after[i].key == k;
        if i < |outbox| { assert outbox[i].key == k; }
      }
    }
  }

  lemma KeysStayUnique(outbox: seq<OutboxRow>, row: OutboxRow)
    requires OutboxKeysUnique(outbox) && !HasOutboxKey(outbox, row.key)
    ensures OutboxKeysUnique(outbox + [row])
  {
  }

  /** What the transactions change about stages and versions keeps the tie between them. */
  lemma ProvenanceKept(db: Db, after: Db)
    requires VersionsCameFromStages(db) && ApprovedArePublished(db)
    requires forall id :: id in db.stages && db.stages[id].status == Approved ==>
               id in after.stages && after.stages[id] == db.stages[id]
    requires forall id :: id in after.stages && after.stages[id].status == Approved ==>
               (id in db.stages && db.stages[id].status == Approved) || CameFrom(after, RefOf(after.stages[id]), id)
    requires forall r :: r in db.versions ==>
               r in after.versions && after.versions[r] == db.versions[r].(status := after.versions[r].status)
    requires forall r :: r in after.versions ==> r in db.versions || exists id :: CameFrom(after, r, id)
    ensures VersionsCameFromStages(after) && ApprovedArePublished(after)
  {
    forall r | r in after.versions ensures exists id :: CameFrom(after, r, id) {
      if r in db.versions {
        var id :| CameFrom(db, r, id);
        assert CameFrom(after, r, id);
      }
    }
    forall id | id in after.stages && after.stages[id].status == Approved
      ensures CameFrom(after, RefOf(after.stages[id]), id)
    {
      if id in db.stages && db.stages[id].status == Approved { assert CameFrom(db, RefOf(db.stages[id]), id); }
    }
  }

  // ---------- creating a stage ----------

  lemma CreateStageKeepsInvariant(db: Db, stage: Stage, json: Bytes, limit: nat, now: nat)
    requires DbInvariant(db) && stage.status == Staged
    ensures DbInvariant(After(db, CreateStageTx(db, stage, StageCreated(stage.id), json, limit, now)))
  {
    hide HasOutboxKey, PendingStages, StagesOwned, OneStagePerVersion, VersionsCameFromStages, ApprovedArePublished,
         TagsNameActiveVersions, TombstonesMatch, OutboxKeysUnique, StagesAudited, EndingsAudited, RefStaged;
    var outcome := CreateStageTx(db, stage, StageCreated(stage.id), json, limit, now);
    if outcome.Committed? {
      var row := OutboxRow(StageCreated(stage.id), json, 0, now, false);
      KeysStayUnique(db.outbox, row);
      CreateStageKeepsStages(db, stage, outcome.db);
      CreateStageKeepsVersions(db, stage, outcome.db);
      CreateStageKeepsAudit(db, stage, outcome.db, row);
    }
  }

  lemma CreateStageKeepsStages(db: Db, stage: Stage, after: Db)
    requires StagesOwned(db) && OneStagePerVersion(db) && stage.id !in db.stages && !RefStaged(db.stages, RefOf(stage))
    requires stage.name in after.packages && after.packages[stage.name] == Package(stage.organization, stage.private)
    requires stage.name in db.packages ==> after.packages == db.packages
    requires stage.name !in db.packages ==> after.packages == db.packages[stage.name := after.packages[stage.name]]
    requires after.stages == db.stages[stage.id := stage]
    ensures StagesOwned(after) && OneStagePerVersion(after)
  {
  }

  lemma CreateStageKeepsVersions(db: Db, stage: Stage, after: Db)
    requires VersionsCameFromStages(db) && ApprovedArePublished(db) && TagsNameActiveVersions(db) && TombstonesMatch(db)
    requires stage.id !in db.stages && stage.status == Staged && after.stages == db.stages[stage.id := stage]
    requires after.versions == db.versions && after.tags == db.tags && after.tombstones == db.tombstones
    ensures VersionsCameFromStages(after) && ApprovedArePublished(after)
    ensures TagsNameActiveVersions(after) && TombstonesMatch(after)
  {
    hide VersionsCameFromStages, ApprovedArePublished, TagsNameActiveVersions, TombstonesMatch;
    ProvenanceKept(db, after);
    SameVersionsKeepTags(db, after);
  }

  lemma SameVersionsKeepTags(db: Db, after: Db)
    requires TagsNameActiveVersions(db) && TombstonesMatch(db)
    requires after.versions == db.versions && after.tags == db.tags && after.tombstones == db.tombstones
    ensures TagsNameActiveVersions(after) && TombstonesMatch(after)
  {
    forall t | t in after.tags ensures IsActive(after, Ref(t.name, after.tags[t])) {
      assert IsActive(db, Ref(t.name, db.tags[t]));
    }
  }

  lemma CreateStageKeepsAudit(db: Db, stage: Stage, after: Db, row: OutboxRow)
    requires StagesAudited(db) && EndingsAudited(db) && row.key == StageCreated(stage.id)
    requires stage.id !in db.stages && stage.status == Staged && after.stages == db.stages[stage.id := stage]
    requires after.versions == db.versions && after.outbox == db.outbox + [row]
    ensures StagesAudited(after) && EndingsAudited(after)
  {
    hide HasOutboxKey, StagesAudited;
    CreateStageKeepsStagesAudit(db, stage, after, row);
    KeyAfterEnqueue(db.outbox, row);
  }

  lemma CreateStageKeepsStagesAudit(db: Db, stage: Stage, after: Db, row: OutboxRow)
    requires StagesAudited(db) && row.key == StageCreated(stage.id)
    requires stage.id !in db.stages && stage.status == Staged && after.stages == db.stages[stage.id := stage]
    requires after.outbox == db.outbox + [row]
    ensures StagesAudited(after)
  {
    hide HasOutboxKey;
    KeyAfterEnqueue(db.outbox, row);
    forall id ensures HasOutboxKey(after.outbox, StageCreated(id)) <==> id in after.stages {
      assert HasOutboxKey(db.outbox, StageCreated(id)) <==> id in db.stages;
    }
  }

  /** Staging commits exactly when the quota has room, the package is free or has the same
      owner and visibility, and neither the id nor the name and version was staged before. */
  lemma CreateStageCommitsExactly(db: Db, stage: Stage, json: Bytes, limit: nat, now: nat)
    requires DbInvariant(db)
    ensures CreateStageTx(db, stage, StageCreated(stage.id), json, limit, now).Committed? <==>
            && |PendingStages(db.stages, stage.organization)| < limit
            && (stage.name in db.packages ==>
                  db.packages[stage.name] == Package(stage.organization, stage.private))
            && stage.id !in db.stages
            && !RefStaged(db.stages, RefOf(stage))
  {
    hide HasOutboxKey, RefStaged, PendingStages;
  }

  /** What staging writes: the submitted row as it is, the package if it is new, and one intent
      that is due at once. Nothing else changes. */
  lemma StagingEffects(db: Db, stage: Stage, json: Bytes, limit: nat, now: nat)
    requires CreateStageTx(db, stage, StageCreated(stage.id), json, limit, now).Committed?
    ensures var after := CreateStageTx(db, stage, StageCreated(stage.id), json, limit, now).db;
            && stage.id in after.stages && after.stages[stage.id] == stage
            && (forall id :: id != stage.id ==>
                  (id in after.stages <==> id in db.stages) && (id in db.stages ==> after.stages[id] == db.stages[id]))
            && stage.name in after.packages
            && after.packages[stage.name] == Package(stage.organization, stage.private)
            && (forall n :: n != stage.name ==>
                  (n in after.packages <==> n in db.packages)
                  && (n in db.packages ==> after.packages[n] == db.packages[n]))
            && after.versions == db.versions && after.tags == db.tags && after.tombstones == db.tombstones
            && after.outbox == db.outbox + [OutboxRow(StageCreated(stage.id), json, 0, now, false)]
  {
    hide HasOutboxKey, RefStaged, PendingStages;
  }

  /** A staging refused for its quota is told apart from one that breaks a constraint. */
  lemma QuotaRefusalIsToldApart(db: Db, stage: Stage, json: Bytes, limit: nat, now: nat)
    ensures var outcome := CreateStageTx(db, stage, StageCreated(stage.id), json, limit, now);
            outcome == RolledBack <==> |PendingStages(db.stages, stage.organization)| >= limit
  {
    hide HasOutboxKey, RefStaged, PendingStages;
  }

  /** Two stage tables that differ in one stage, undecided in the second and not so in the first. */
  lemma OneMorePending(a: map<Bytes, Stage>, b: map<Bytes, Stage>, id: Bytes, o: Bytes)
    requires forall x :: x != id ==> (x in a <==> x in b) && (x in a ==> a[x] == b[x])
    requires id in b && b[id].status == Staged && (id in a ==> a[id].status != Staged)
    ensures |PendingStages(b, o)| == |PendingStages(a, o)| + (if o == b[id].organization then 1 else 0)
  {
    var p, q := PendingStages(a, o), PendingStages(b, o);
    assert id !in p && (id in q <==> o == b[id].organization);
    hide PendingStages;
    forall x | x != id ensures x in q <==> x in p { SameStageSamePlace(a, b, x, o); }
    if o == b[id].organization { assert q == p + {id}; } else { assert q == p; }
  }

  lemma SameStageSamePlace(a: map<Bytes, Stage>, b: map<Bytes, Stage>, x: Bytes, o: Bytes)
    requires (x in a <==> x in b) && (x in a ==> a[x] == b[x])
    ensures x in PendingStages(b, o) <==> x in PendingStages(a, o)
  {
  }

  /** The quota counts what was staged and not yet decided: a staging takes a place of its own
      organization, a decision gives it back, and no other organization notices. */
  lemma StagingTakesAPlace(db: Db, stage: Stage, json: Bytes, limit: nat, now: nat, o: Bytes)
    requires CreateStageTx(db, stage, StageCreated(stage.id), json, limit, now).Committed? && stage.status == Staged
    ensures var after := CreateStageTx(db, stage, StageCreated(stage.id), json, limit, now).db;
            |PendingStages(after.stages, o)| ==
            |PendingStages(db.stages, o)| + (if o == stage.organization then 1 else 0)
  {
    StagingEffects(db, stage, json, limit, now);
    StagedIsNew(db, stage, json, limit, now);
    hide CreateStageTx, PendingStages;
    var after := CreateStageTx(db, stage, StageCreated(stage.id), json, limit, now).db;
    OneMorePending(db.stages, after.stages, stage.id, o);
  }

  lemma StagedIsNew(db: Db, stage: Stage, json: Bytes, limit: nat, now: nat)
    requires CreateStageTx(db, stage, StageCreated(stage.id), json, limit, now).Committed?
    ensures stage.id !in db.stages
  {
    hide PendingStages, RefStaged, HasOutboxKey;
  }

  lemma DecisionFreesAPlace(db: Db, stage: Stage, approve: bool, json: Bytes, now: nat, o: Bytes)
    requires ReadEarlier(db, stage)
    requires DecideStageTx(db, stage, approve, DecisionKey(stage.id, approve), json, now).Committed?
    ensures var after := DecideStageTx(db, stage, approve, DecisionKey(stage.id, approve), json, now).db;
            |PendingStages(db.stages, o)| ==
            |PendingStages(after.stages, o)| + (if o == stage.organization then 1 else 0)
  {
    hide PendingStages, HasOutboxKey;
    var after := DecideStageTx(db, stage, approve, DecisionKey(stage.id, approve), json, now).db;
    OneMorePending(after.stages, db.stages, stage.id, o);
  }

  /** A decided stage blocks its name and version for good, rejected ones included. */
  lemma StagedVersionsStayTaken(db: Db, earlier: Stage, stage: Stage, json: Bytes, limit: nat, now: nat)
    requires earlier.id in db.stages && db.stages[earlier.id] == earlier && RefOf(earlier) == RefOf(stage)
    ensures !CreateStageTx(db, stage, StageCreated(stage.id), json, limit, now).Committed?
  {
  }

  /** The quota: no organization ever has more than `limit` undecided stages. */
  ghost predicate WithinQuota(db: Db, limit: nat) {
    forall o :: |PendingStages(db.stages, o)| <= limit
  }

  lemma CreateStageKeepsQuota(db: Db, stage: Stage, json: Bytes, limit: nat, now: nat)
    requires WithinQuota(db, limit)
    ensures WithinQuota(After(db, CreateStageTx(db, stage, StageCreated(stage.id), json, limit, now)), limit)
  {
    var outcome := CreateStageTx(db, stage, StageCreated(stage.id), json, limit, now);
    if outcome.Committed? {
      forall o ensures |PendingStages(outcome.db.stages, o)| <= limit {
        var before, now_ := PendingStages(db.stages, o), PendingStages(outcome.db.stages, o);
        if o == stage.organization {
          CardinalityOfSubset(now_, before + {stage.id});
        } else {
          assert now_ <= before;
          CardinalityOfSubset(now_, before);
        }
      }
    }
  }

  lemma {:induction false} CardinalityOfSubset<T>(a: set<T>, b: set<T>)
    requires a <= b
    ensures |a| <= |b|
  {
    if a != {} {
      var x :| x in a;
      CardinalityOfSubset(a - {x}, b - {x});
    }
  }

  // ---------- deciding a stage ----------

  lemma DecideStageKeepsInvariant(db: Db, stage: Stage, approve: bool, json: Bytes, now: nat)
    requires DbInvariant(db) && ReadEarlier(db, stage)
    ensures DbInvariant(After(db, DecideStageTx(db, stage, approve, DecisionKey(stage.id, approve), json, now)))
  {
    hide HasOutboxKey, StagesOwned, OneStagePerVersion, VersionsCameFromStages, ApprovedArePublished,
         TagsNameActiveVersions, TombstonesMatch, OutboxKeysUnique, StagesAudited, EndingsAudited;
    var key := DecisionKey(stage.id, approve);
    var outcome := DecideStageTx(db, stage, approve, key, json, now);
    if outcome.Committed? {
      var row := OutboxRow(key, json, 0, now, false);
      KeysStayUnique(db.outbox, row);
      DecideKeepsStages(db, stage, outcome.db);
      DecideKeepsProvenance(db, stage, approve, outcome.db);
      DecideKeepsTags(db, stage, approve, outcome.db);
      DecideKeepsAudit(db, stage, approve, outcome.db, row);
    }
  }

  lemma DecideKeepsStages(db: Db, stage: Stage, after: Db)
    requires StagesOwned(db) && OneStagePerVersion(db) && stage.id in db.stages
    requires after.packages == db.packages && stage.id in after.stages
    requires after.stages == db.stages[stage.id := db.stages[stage.id].(status := after.stages[stage.id].status)]
    ensures StagesOwned(after) && OneStagePerVersion(after)
  {
    forall a, b | a in after.stages && b in after.stages && RefOf(after.stages[a]) == RefOf(after.stages[b])
      ensures a == b
    {
      assert RefOf(db.stages[a]) == RefOf(db.stages[b]);
    }
  }

  /** The three tables a committed decision writes. */
  ghost predicate Decided(db: Db, stage: Stage, approve: bool, after: Db) {
    && stage.id in db.stages && db.stages[stage.id].status == Staged
    && after.packages == db.packages && after.tombstones == db.tombstones
    && after.stages == db.stages[stage.id := db.stages[stage.id].(status := if approve then Approved else Rejected)]
    && if approve then
         && RefOf(stage) !in db.versions
         && after.versions == db.versions[RefOf(stage) := Publish(stage)]
         && after.tags == db.tags[TagRef(stage.name, stage.tag) := stage.version]
       else after.versions == db.versions && after.tags == db.tags
  }

  lemma DecideKeepsProvenance(db: Db, stage: Stage, approve: bool, after: Db)
    requires VersionsCameFromStages(db) && ApprovedArePublished(db) && ReadEarlier(db, stage)
    requires Decided(db, stage, approve, after)
    ensures VersionsCameFromStages(after) && ApprovedArePublished(after)
  {
    hide VersionsCameFromStages, ApprovedArePublished;
    if approve { assert CameFrom(after, RefOf(stage), stage.id); }
    ProvenanceKept(db, after);
  }

  lemma DecideKeepsTags(db: Db, stage: Stage, approve: bool, after: Db)
    requires TagsNameActiveVersions(db) && TombstonesMatch(db) && Decided(db, stage, approve, after)
    ensures TagsNameActiveVersions(after) && TombstonesMatch(after)
  {
    forall t | t in after.tags ensures IsActive(after, Ref(t.name, after.tags[t])) {
      if approve && t == TagRef(stage.name, stage.tag) {
      } else {
        assert IsActive(db, Ref(t.name, db.tags[t]));
      }
    }
  }

  lemma DecideKeepsAudit(db: Db, stage: Stage, approve: bool, after: Db, row: OutboxRow)
    requires StagesAudited(db) && EndingsAudited(db) && Decided(db, stage, approve, after)
    requires after.outbox == db.outbox + [row] && row.key == DecisionKey(stage.id, approve)
    ensures StagesAudited(after) && EndingsAudited(after)
  {
    hide HasOutboxKey, StagesAudited;
    DecideKeepsStagesAudit(db, stage, approve, after, row);
    KeyAfterEnqueue(db.outbox, row);
  }

  lemma DecidedStatuses(db: Db, stage: Stage, approve: bool, after: Db)
    requires Decided(db, stage, approve, after)
    ensures forall id :: id in after.stages <==> id in db.stages
    ensures forall id :: id in db.stages ==>
              after.stages[id].status ==
              if id == stage.id then (if approve then Approved else Rejected) else db.stages[id].status
    ensures stage.id in db.stages && db.stages[stage.id].status == Staged
  {
  }

  lemma DecideKeepsStagesAudit(db: Db, stage: Stage, approve: bool, after: Db, row: OutboxRow)
    requires StagesAudited(db) && Decided(db, stage, approve, after)
    requires after.outbox == db.outbox + [row] && row.key == DecisionKey(stage.id, approve)
    ensures StagesAudited(after)
  {
    hide HasOutboxKey, Decided;
    DecidedStatuses(db, stage, approve, after);
    KeyAfterEnqueue(db.outbox, row);
  }

  lemma UndecidedIsUnpublished(db: Db, id: Bytes)
    requires OneStagePerVersion(db) && VersionsCameFromStages(db)
    requires id in db.stages && db.stages[id].status == Staged
    ensures RefOf(db.stages[id]) !in db.versions
  {
    forall other ensures !CameFrom(db, RefOf(db.stages[id]), other) { }
  }

  /** A decision commits exactly when the stage is still undecided: at most once each. */
  lemma DecideStageCommitsExactly(db: Db, stage: Stage, approve: bool, json: Bytes, now: nat)
    requires DbInvariant(db) && ReadEarlier(db, stage)
    ensures DecideStageTx(db, stage, approve, DecisionKey(stage.id, approve), json, now).Committed? <==>
            db.stages[stage.id].status == Staged
  {
    hide HasOutboxKey;
    if db.stages[stage.id].status == Staged { UndecidedIsUnpublished(db, stage.id); }
  }

  /** An approval makes exactly this version available, under the stage's digest and tag, and
      touches no other version or tag; a rejection touches none. Either leaves one intent. */
  lemma DecisionEffects(db: Db, stage: Stage, approve: bool, json: Bytes, now: nat)
    requires DbInvariant(db) && ReadEarlier(db, stage) && db.stages[stage.id].status == Staged
    ensures var outcome := DecideStageTx(db, stage, approve, DecisionKey(stage.id, approve), json, now);
            && outcome.Committed?
            && var after := outcome.db;
            && (approve ==>
                  && CameFrom(after, RefOf(stage), stage.id) && IsActive(after, RefOf(stage))
                  && TagRef(stage.name, stage.tag) in after.tags
                  && after.tags[TagRef(stage.name, stage.tag)] == stage.version)
            && (forall r :: r in after.versions && !(approve && r == RefOf(stage)) ==>
                  r in db.versions && after.versions[r] == db.versions[r])
            && (forall t :: t in after.tags && !(approve && t == TagRef(stage.name, stage.tag)) ==>
                  t in db.tags && after.tags[t] == db.tags[t])
            && after.outbox == db.outbox + [OutboxRow(DecisionKey(stage.id, approve), json, 0, now, false)]
  {
    hide HasOutboxKey, DbInvariant;
    DecideStageCommitsExactly(db, stage, approve, json, now);
  }

  /** A decision about a stage that is unknown or decided is answered as such. */
  lemma LateDecisionIsToldApart(db: Db, stage: Stage, approve: bool, json: Bytes, now: nat)
    ensures var outcome := DecideStageTx(db, stage, approve, DecisionKey(stage.id, approve), json, now);
            outcome == RolledBack <==> stage.id !in db.stages || db.stages[stage.id].status != Staged
  {
    hide HasOutboxKey;
  }

  lemma DecideStageKeepsQuota(db: Db, stage: Stage, approve: bool, json: Bytes, now: nat, limit: nat)
    requires WithinQuota(db, limit)
    ensures WithinQuota(After(db, DecideStageTx(db, stage, approve, DecisionKey(stage.id, approve), json, now)), limit)
  {
    var after := After(db, DecideStageTx(db, stage, approve, DecisionKey(stage.id, approve), json, now));
    forall o ensures |PendingStages(after.stages, o)| <= limit {
      CardinalityOfSubset(PendingStages(after.stages, o), PendingStages(db.stages, o));
    }
  }

  // ---------- revoking a version ----------

  lemma RevokeKeepsInvariant(db: Db, parse: Bytes -> Option<Version>, r: Ref, tombstone: Tombstone, rows: seq<Bytes>,
                             json: Bytes, now: nat)
    requires DbInvariant(db) && tombstone.status != Active
    requires r in db.versions ==> Lists(rows, ActiveVersions(EndVersion(db.versions, r, tombstone.status), r.name))
    ensures DbInvariant(After(db, RevokeTx(db, parse, r, tombstone, rows, RevokeKey(r, tombstone.status), json, now)))
  {
    hide HasOutboxKey, StagesOwned, OneStagePerVersion, VersionsCameFromStages, ApprovedArePublished, Greatest,
         MoveTags, TagsNameActiveVersions, TombstonesMatch, OutboxKeysUnique, StagesAudited, EndingsAudited, Lists,
         ActiveVersions;
    var key := RevokeKey(r, tombstone.status);
    var outcome := RevokeTx(db, parse, r, tombstone, rows, key, json, now);
    if outcome.Committed? {
      var row := OutboxRow(key, json, 0, now, false);
      KeysStayUnique(db.outbox, row);
      RevokeKeepsStages(db, r, tombstone, outcome.db);
      RevokeKeepsTombstones(db, r, tombstone, outcome.db);
      RevokeKeepsTags(db, parse, r, tombstone, rows, json, now);
      RevokeKeepsAudit(db, r, tombstone, outcome.db, row);
    }
  }

  lemma RevokeKeepsStages(db: Db, r: Ref, tombstone: Tombstone, after: Db)
    requires StagesOwned(db) && OneStagePerVersion(db) && VersionsCameFromStages(db) && ApprovedArePublished(db)
    requires r in db.versions && after.versions == EndVersion(db.versions, r, tombstone.status)
    requires after.packages == db.packages && after.stages == db.stages
    ensures StagesOwned(after) && OneStagePerVersion(after)
    ensures VersionsCameFromStages(after) && ApprovedArePublished(after)
  {
    hide VersionsCameFromStages, ApprovedArePublished, CameFrom, StagesOwned, OneStagePerVersion;
    ProvenanceKept(db, after);
    SameStagesStayOwned(db, after);
  }

  lemma SameStagesStayOwned(db: Db, after: Db)
    requires StagesOwned(db) && OneStagePerVersion(db)
    requires after.packages == db.packages && after.stages == db.stages
    ensures StagesOwned(after) && OneStagePerVersion(after)
  {
  }

  lemma RevokeKeepsTombstones(db: Db, r: Ref, tombstone: Tombstone, after: Db)
    requires TombstonesMatch(db) && tombstone.status != Active
    requires r in db.versions && after.versions == EndVersion(db.versions, r, tombstone.status)
    requires after.tombstones == db.tombstones[r := tombstone]
    ensures TombstonesMatch(after)
  {
  }

  lemma RevokeKeepsAudit(db: Db, r: Ref, tombstone: Tombstone, after: Db, row: OutboxRow)
    requires StagesAudited(db) && EndingsAudited(db) && tombstone.status != Active
    requires r in db.versions && after.versions == EndVersion(db.versions, r, tombstone.status)
    requires after.stages == db.stages
    requires after.outbox == db.outbox + [row] && row.key == RevokeKey(r, tombstone.status)
    ensures StagesAudited(after) && EndingsAudited(after)
  {
    hide HasOutboxKey;
    KeyAfterEnqueue(db.outbox, row);
  }

  lemma RevokeKeepsTags(db: Db, parse: Bytes -> Option<Version>, r: Ref, tombstone: Tombstone, rows: seq<Bytes>,
                        json: Bytes, now: nat)
    requires TagsNameActiveVersions(db) && tombstone.status != Active
    requires r in db.versions && Lists(rows, ActiveVersions(EndVersion(db.versions, r, tombstone.status), r.name))
    requires RevokeTx(db, parse, r, tombstone, rows, RevokeKey(r, tombstone.status), json, now).Committed?
    ensures var key := RevokeKey(r, tombstone.status);
            TagsNameActiveVersions(RevokeTx(db, parse, r, tombstone, rows, key, json, now).db)
  {
    hide Greatest;
    var after := RevokeTx(db, parse, r, tombstone, rows, RevokeKey(r, tombstone.status), json, now).db;
    GreatestIsGreatest(parse, rows);
    forall t | t in after.tags ensures IsActive(after, Ref(t.name, after.tags[t])) {
      assert t in db.tags && IsActive(db, Ref(t.name, db.tags[t]));
      if t.name == r.name && db.tags[t] == r.version {
        assert after.tags[t] in rows;
        assert after.tags[t] in ActiveVersions(after.versions, r.name);
      } else {
        assert Ref(t.name, db.tags[t]) != r;
      }
    }
  }

  /** Rollback: after a committed revocation each tag that named the version names a
      greatest remaining active version, or is gone because none is left; every other tag
      is as it was. */
  lemma RevokeRollsTagsBack(db: Db, parse: Bytes -> Option<Version>, r: Ref, tombstone: Tombstone, rows: seq<Bytes>,
                            json: Bytes, now: nat, t: TagRef)
    requires RevokeTx(db, parse, r, tombstone, rows, RevokeKey(r, tombstone.status), json, now).Committed?
    requires tombstone.status != Active && t in db.tags
    requires Lists(rows, ActiveVersions(EndVersion(db.versions, r, tombstone.status), r.name))
    requires forall x :: x in rows ==> parse(x).Some?
    ensures var after := RevokeTx(db, parse, r, tombstone, rows, RevokeKey(r, tombstone.status), json, now).db;
            var active := ActiveVersions(after.versions, r.name);
            if t.name == r.name && db.tags[t] == r.version then
              if active == {} then t !in after.tags
              else
                && t in after.tags && after.tags[t] in active
                && forall x :: x in active ==> !Precedes(parse(after.tags[t]).value, parse(x).value)
            else t in after.tags && after.tags[t] == db.tags[t]
  {
    hide Greatest, HasOutboxKey;
    GreatestIsGreatest(parse, rows);
    var active := ActiveVersions(EndVersion(db.versions, r, tombstone.status), r.name);
    if active != {} {
      var x :| x in active;
      assert x in rows;
    }
  }

  /** A revocation commits exactly when the version exists and has not been ended with this
      very status before: the outbox key makes a repeat abort. */
  lemma RevokeCommitsExactly(db: Db, parse: Bytes -> Option<Version>, r: Ref, tombstone: Tombstone, rows: seq<Bytes>,
                             json: Bytes, now: nat)
    ensures RevokeTx(db, parse, r, tombstone, rows, RevokeKey(r, tombstone.status), json, now).Committed? <==>
            r in db.versions && !HasOutboxKey(db.outbox, RevokeKey(r, tombstone.status))
  {
  }

  /** An unknown version is told apart from one that was ended with this status before. */
  lemma UnknownVersionIsToldApart(db: Db, parse: Bytes -> Option<Version>, r: Ref, tombstone: Tombstone,
                                  rows: seq<Bytes>, json: Bytes, now: nat)
    ensures var outcome := RevokeTx(db, parse, r, tombstone, rows, RevokeKey(r, tombstone.status), json, now);
            outcome == RolledBack <==> r !in db.versions
  {
    hide HasOutboxKey, Greatest, MoveTags;
  }

  /** What a revocation writes beside the tags: the version's status, its tombstone with reason,
      actor and signature, and one intent that is due at once. Nothing else changes. */
  lemma RevocationEffects(db: Db, parse: Bytes -> Option<Version>, r: Ref, tombstone: Tombstone, rows: seq<Bytes>,
                          json: Bytes, now: nat)
    requires RevokeTx(db, parse, r, tombstone, rows, RevokeKey(r, tombstone.status), json, now).Committed?
    ensures var after := RevokeTx(db, parse, r, tombstone, rows, RevokeKey(r, tombstone.status), json, now).db;
            && r in db.versions && r in after.versions
            && after.versions[r] == db.versions[r].(status := tombstone.status)
            && r in after.tombstones && after.tombstones[r] == tombstone
            && (forall x :: x != r ==>
                  && (x in after.versions <==> x in db.versions)
                  && (x in db.versions ==> after.versions[x] == db.versions[x])
                  && (x in after.tombstones <==> x in db.tombstones)
                  && (x in db.tombstones ==> after.tombstones[x] == db.tombstones[x]))
            && after.packages == db.packages && after.stages == db.stages
            && after.outbox ==
               db.outbox + [OutboxRow(VersionEnded(tombstone.status, r.name, r.version), json, 0, now, false)]
  {
    hide HasOutboxKey, Greatest, MoveTags;
  }

  /** An active version can always be ended, with either status. */
  lemma ActiveVersionsCanBeEnded(db: Db, parse: Bytes -> Option<Version>, r: Ref, tombstone: Tombstone,
                                 rows: seq<Bytes>, json: Bytes, now: nat)
    requires DbInvariant(db) && IsActive(db, r)
    ensures RevokeTx(db, parse, r, tombstone, rows, RevokeKey(r, tombstone.status), json, now).Committed?
  {
    hide HasOutboxKey;
  }

  /** In particular, ending a version again with the status it already has always aborts. */
  lemma RepeatedRevocationAborts(db: Db, parse: Bytes -> Option<Version>, r: Ref, tombstone: Tombstone,
                                 rows: seq<Bytes>, json: Bytes, now: nat)
    requires DbInvariant(db) && r in db.versions && tombstone.status != Active
    requires db.versions[r].status == tombstone.status
    ensures RevokeTx(db, parse, r, tombstone, rows, RevokeKey(r, tombstone.status), json, now) == Aborted
  {
    hide HasOutboxKey;
  }

  // ---------- outbox bookkeeping ----------

  lemma SameKeysSameAudit(db: Db, outbox: seq<OutboxRow>)
    requires DbInvariant(db) && |outbox| == |db.outbox|
    requires forall i :: 0 <= i < |outbox| ==> outbox[i].key == db.outbox[i].key
    ensures DbInvariant(db.(outbox := outbox))
  {
    var after := db.(outbox := outbox);
    forall k ensures HasOutboxKey(outbox, k) <==> HasOutboxKey(db.outbox, k) {
      if HasOutboxKey(outbox, k) {
        var i :| 0 <= i < |outbox| && outbox[i].key == k;
        assert db.outbox[i].key == k;
      }
      if HasOutboxKey(db.outbox, k) {
        var i :| 0 <= i < |outbox| && db.outbox[i].key == k;
        assert outbox[i].key == k;
      }
    }
    SameFacts(db, after);
  }

  lemma SameFacts(db: Db, after: Db)
    requires DbInvariant(db) && after == db.(outbox := after.outbox)
    requires OutboxKeysUnique(after.outbox)
    requires forall k :: HasOutboxKey(after.outbox, k) <==> HasOutboxKey(db.outbox, k)
    ensures DbInvariant(after)
  {
    hide StagesOwned, OneStagePerVersion, VersionsCameFromStages, ApprovedArePublished, TagsNameActiveVersions,
         TombstonesMatch, OutboxKeysUnique, StagesAudited, EndingsAudited, HasOutboxKey;
    SameTables(db, after);
    SameAudit(db, after);
  }

  lemma SameTables(db: Db, after: Db)
    requires StagesOwned(db) && OneStagePerVersion(db) && VersionsCameFromStages(db) && ApprovedArePublished(db)
    requires TagsNameActiveVersions(db) && TombstonesMatch(db) && after == db.(outbox := after.outbox)
    ensures StagesOwned(after) && OneStagePerVersion(after)
    ensures VersionsCameFromStages(after) && ApprovedArePublished(after)
    ensures TagsNameActiveVersions(after) && TombstonesMatch(after)
  {
    hide VersionsCameFromStages, ApprovedArePublished, TagsNameActiveVersions, TombstonesMatch;
    ProvenanceKept(db, after);
    SameVersionsKeepTags(db, after);
  }

  lemma SameAudit(db: Db, after: Db)
    requires StagesAudited(db) && EndingsAudited(db) && after == db.(outbox := after.outbox)
    requires forall k :: HasOutboxKey(after.outbox, k) <==> HasOutboxKey(db.outbox, k)
    ensures StagesAudited(after) && EndingsAudited(after)
  {
    hide HasOutboxKey;
  }

  lemma MarkKeepsInvariant(db: Db, id: nat)
    requires DbInvariant(db)
    ensures DbInvariant(MarkDelivered(db, id))
  {
    hide DbInvariant;
    if id < |db.outbox| { SameKeysSameAudit(db, MarkDelivered(db, id).outbox); }
  }

  lemma RetryKeepsInvariant(db: Db, id: nat, now: nat)
    requires DbInvariant(db)
    ensures DbInvariant(RetryOutbox(db, id, now))
  {
    hide DbInvariant;
    if id < |db.outbox| { SameKeysSameAudit(db, RetryOutbox(db, id, now).outbox); }
  }

  // ---------- how rows change over time ----------

  ghost predicate StageEvolves(a: Stage, b: Stage) {
    b == a.(status := b.status) && (a.status != Staged ==> b.status == a.status)
  }

  ghost predicate VersionEvolves(a: VersionRow, b: VersionRow) {
    b == a.(status := b.status) && (a.status != Active ==> b.status != Active)
  }

  ghost predicate OutboxRowEvolves(a: OutboxRow, b: OutboxRow) {
    a.key == b.key && a.json == b.json && (a.delivered ==> b.delivered)
  }

  /** Nothing is ever deleted or rewritten, except that an undecided stage is decided, an
      active version is ended, an ended one is ended again, and deliveries are recorded. */
  ghost predicate Evolves(a: Db, b: Db) {
    && (forall n :: n in a.packages ==> n in b.packages && b.packages[n] == a.packages[n])
    && (forall id :: id in a.stages ==> id in b.stages && StageEvolves(a.stages[id], b.stages[id]))
    && (forall r :: r in a.versions ==> r in b.versions && VersionEvolves(a.versions[r], b.versions[r]))
    && |a.outbox| <= |b.outbox|
    && (forall i :: 0 <= i < |a.outbox| ==> OutboxRowEvolves(a.outbox[i], b.outbox[i]))
  }

  lemma EvolvesIsReflexive(a: Db)
    ensures Evolves(a, a)
  {
  }

  lemma EvolvesIsTransitive(a: Db, b: Db, c: Db)
    requires Evolves(a, b) && Evolves(b, c)
    ensures Evolves(a, c)
  {
    forall id | id in a.stages ensures id in c.stages && StageEvolves(a.stages[id], c.stages[id]) {
      assert StageEvolves(a.stages[id], b.stages[id]) && StageEvolves(b.stages[id], c.stages[id]);
    }
    forall r | r in a.versions ensures r in c.versions && VersionEvolves(a.versions[r], c.versions[r]) {
      assert VersionEvolves(a.versions[r], b.versions[r]) && VersionEvolves(b.versions[r], c.versions[r]);
    }
    forall i | 0 <= i < |a.outbox| ensures OutboxRowEvolves(a.outbox[i], c.outbox[i]) {
      assert OutboxRowEvolves(a.outbox[i], b.outbox[i]) && OutboxRowEvolves(b.outbox[i], c.outbox[i]);
    }
  }

  lemma CreateStageEvolves(db: Db, stage: Stage, key: EventKey, json: Bytes, limit: nat, now: nat)
    ensures Evolves(db, After(db, CreateStageTx(db, stage, key, json, limit, now)))
  {
    hide HasOutboxKey, PendingStages, RefStaged, StageEvolves, VersionEvolves, OutboxRowEvolves;
    RowsStaySame(db);
  }

  lemma DecideStageEvolves(db: Db, stage: Stage, approve: bool, key: EventKey, json: Bytes, now: nat)
    ensures Evolves(db, After(db, DecideStageTx(db, stage, approve, key, json, now)))
  {
    hide HasOutboxKey, StageEvolves, VersionEvolves, OutboxRowEvolves, Publish;
    var after := After(db, DecideStageTx(db, stage, approve, key, json, now));
    if after != db {
      StatusEvolves(db.stages[stage.id], after.stages[stage.id].status);
    }
    RowsStaySame(db);
  }

  lemma StatusEvolves(a: Stage, status: StageStatus)
    requires a.status == Staged
    ensures StageEvolves(a, a.(status := status))
  {
  }

  lemma RowsStaySame(db: Db)
    ensures forall id :: id in db.stages ==> StageEvolves(db.stages[id], db.stages[id])
    ensures forall r :: r in db.versions ==> VersionEvolves(db.versions[r], db.versions[r])
    ensures forall i :: 0 <= i < |db.outbox| ==> OutboxRowEvolves(db.outbox[i], db.outbox[i])
  {
  }

  lemma RevokeEvolves(db: Db, parse: Bytes -> Option<Version>, r: Ref, tombstone: Tombstone, rows: seq<Bytes>,
                      key: EventKey, json: Bytes, now: nat)
    requires tombstone.status != Active
    ensures Evolves(db, After(db, RevokeTx(db, parse, r, tombstone, rows, key, json, now)))
  {
    hide HasOutboxKey, Greatest, MoveTags, StageEvolves, VersionEvolves, OutboxRowEvolves;
    RowsStaySame(db);
    if r in db.versions { EndingEvolves(db.versions[r], tombstone.status); }
  }

  lemma EndingEvolves(a: VersionRow, status: VersionStatus)
    requires status != Active
    ensures VersionEvolves(a, a.(status := status))
  {
  }

  lemma BookkeepingEvolves(db: Db, id: nat, now: nat)
    ensures Evolves(db, MarkDelivered(db, id)) && Evolves(db, RetryOutbox(db, id, now))
  {
    hide StageEvolves, VersionEvolves, OutboxRowEvolves;
    RowsStaySame(db);
    if id < |db.outbox| { DeliveryEvolves(db.outbox[id], now); }
  }

  lemma DeliveryEvolves(row: OutboxRow, now: nat)
    ensures OutboxRowEvolves(row, row.(delivered := true))
    ensures OutboxRowEvolves(row, row.(attempts := row.attempts + 1, availableAt := now + RETRY_DELAY))
  {
  }
}
