/** The registry's tables and the transactions over them. The keys and unique constraints
    are those of the migrations; a violated one aborts the transaction. */
module ControlPlane {
  import opened Base
  import opened EventLog
  import opened SemVer

  datatype Package = Package(organization: Bytes, private: bool)

  datatype StageStatus = Staged | Approved | Rejected

  /** `verdict` is the server assessment's decision; `record` stands for the manifest, the
      assessments, the evidence, the SBOM and the provenance, which are only copied. */
  datatype Stage = Stage(id: Bytes, organization: Bytes, name: Bytes, version: Bytes, tag: Bytes, digest: Bytes,
                         status: StageStatus, private: bool, verdict: Option<Bytes>, record: Bytes)

  datatype VersionRow =
    VersionRow(organization: Bytes, digest: Bytes, status: VersionStatus, private: bool, record: Bytes)

  datatype Tombstone = Tombstone(status: VersionStatus, reason: Bytes, actor: Bytes, signature: Bytes)

  datatype OutboxRow = OutboxRow(key: EventKey, json: Bytes, attempts: nat, availableAt: nat, delivered: bool)

  datatype Ref = Ref(name: Bytes, version: Bytes)

  datatype TagRef = TagRef(name: Bytes, tag: Bytes)

  /** Outbox rows are never deleted; a row's id is its position. */
  datatype Db = Db(
    packages: map<Bytes, Package>,
    stages: map<Bytes, Stage>,
    versions: map<Ref, VersionRow>,
    tags: map<TagRef, Bytes>,
    tombstones: map<Ref, Tombstone>,
    outbox: seq<OutboxRow>)

  const EMPTY_DB: Db := Db(map[], map[], map[], map[], map[], [])

  datatype Outcome = Committed(db: Db) | RolledBack | Aborted

  function After(db: Db, outcome: Outcome): Db {
    if outcome.Committed? then outcome.db else db
  }

  function RefOf(stage: Stage): Ref { Ref(stage.name, stage.version) }

  function PendingStages(stages: map<Bytes, Stage>, organization: Bytes): set<Bytes> {
    set id | id in stages && stages[id].organization == organization && stages[id].status == Staged
  }

  predicate RefStaged(stages: map<Bytes, Stage>, r: Ref) {
    exists id :: id in stages && RefOf(stages[id]) == r
  }

  predicate HasOutboxKey(outbox: seq<OutboxRow>, key: EventKey) {
    exists i :: 0 <= i < |outbox| && outbox[i].key == key
  }

  /** `INSERT INTO registry_outbox`; the key is unique. */
  function Enqueue(db: Db, key: EventKey, json: Bytes, now: nat): Outcome {
    if HasOutboxKey(db.outbox, key) then Aborted
    else Committed(db.(outbox := db.outbox + [OutboxRow(key, json, 0, now, false)]))
  }

  function DecisionKey(id: Bytes, approve: bool): EventKey {
    if approve then StageApproved(id) else StageRejected(id)
  }

  function RevokeKey(r: Ref, status: VersionStatus): EventKey { VersionEnded(status, r.name, r.version) }

  // ---------- transactions as functions ----------

  function CreateStageTx(db: Db, stage: Stage, key: EventKey, json: Bytes, limit: nat, now: nat): Outcome {
    if |PendingStages(db.stages, stage.organization)| >= limit then RolledBack
    else
      var packages := if stage.name in db.packages then db.packages
                      else db.packages[stage.name := Package(stage.organization, stage.private)];
      if packages[stage.name] != Package(stage.organization, stage.private) then Aborted
      else if stage.id in db.stages || RefStaged(db.stages, RefOf(stage)) then Aborted
      else Enqueue(db.(packages := packages, stages := db.stages[stage.id := stage]), key, json, now)
  }

  function Publish(stage: Stage): VersionRow {
    VersionRow(stage.organization, stage.digest, Active, stage.private, stage.record)
  }

  /** `stage` is the caller's earlier reading of the row; only the status is read again. */
  function DecideStageTx(db: Db, stage: Stage, approve: bool, key: EventKey, json: Bytes, now: nat): Outcome {
    if stage.id !in db.stages || db.stages[stage.id].status != Staged then RolledBack
    else if approve then
      if RefOf(stage) in db.versions then Aborted
      else Enqueue(db.(stages := db.stages[stage.id := db.stages[stage.id].(status := Approved)],
                       versions := db.versions[RefOf(stage) := Publish(stage)],
                       tags := db.tags[TagRef(stage.name, stage.tag) := stage.version]),
                   key, json, now)
    else
      Enqueue(db.(stages := db.stages[stage.id := db.stages[stage.id].(status := Rejected)]), key, json, now)
  }

  function ActiveVersions(versions: map<Ref, VersionRow>, name: Bytes): set<Bytes> {
    set r | r in versions && r.name == name && versions[r].status == Active :: r.version
  }

  function EndVersion(versions: map<Ref, VersionRow>, r: Ref, status: VersionStatus): map<Ref, VersionRow>
    requires r in versions
  {
    versions[r := versions[r].(status := status)]
  }

  /** Every tag of the package that named `from` moves to `to`, or goes when there is none. */
  function MoveTags(tags: map<TagRef, Bytes>, name: Bytes, from: Bytes, to: Option<Bytes>): map<TagRef, Bytes> {
    match to
    case Some(target) => map t | t in tags :: if t.name == name && tags[t] == from then target else tags[t]
    case None => map t | t in tags && !(t.name == name && tags[t] == from) :: tags[t]
  }

  /** `rows` is the order in which the SELECT of active versions returned them. */
  function RevokeTx(db: Db, parse: Bytes -> Option<Version>, r: Ref, tombstone: Tombstone, rows: seq<Bytes>,
                    key: EventKey, json: Bytes, now: nat): Outcome {
    if r !in db.versions then RolledBack
    else
      Enqueue(db.(versions := EndVersion(db.versions, r, tombstone.status),
                  tombstones := db.tombstones[r := tombstone],
                  tags := MoveTags(db.tags, r.name, r.version, Greatest(parse, rows))),
              key, json, now)
  }

  /** The rows the SELECT may return after the status update: each active version once. */
  ghost predicate Lists(rows: seq<Bytes>, versions: set<Bytes>) {
    (forall x :: x in rows <==> x in versions) && |rows| == |versions|
  }

  /** `pending_outbox`: ids of undelivered rows that are due, in id order, from `at` on. */
  function PendingOutbox(outbox: seq<OutboxRow>, now: nat, limit: nat, at: nat): seq<nat>
    requires at <= |outbox|
    decreases |outbox| - at
  {
    if at == |outbox| || limit == 0 then []
    else if !outbox[at].delivered && outbox[at].availableAt <= now
    then [at] + PendingOutbox(outbox, now, limit - 1, at + 1)
    else PendingOutbox(outbox, now, limit, at + 1)
  }

  function MarkDelivered(db: Db, id: nat): Db {
    if id < |db.outbox| then db.(outbox := db.outbox[id := db.outbox[id].(delivered := true)]) else db
  }

  const RETRY_DELAY: nat := 5

  function RetryOutbox(db: Db, id: nat, now: nat): Db {
    if id < |db.outbox| then
      db.(outbox := db.outbox[id := db.outbox[id].(attempts := db.outbox[id].attempts + 1,
                                                   availableAt := now + RETRY_DELAY)])
    else db
  }

  // ---------- the same transactions, statement by statement ----------

  /** The tables as fields. A transaction works on copies and writes them back at commit. */
  class Tables {
    var packages: map<Bytes, Package>
    var stages: map<Bytes, Stage>
    var versions: map<Ref, VersionRow>
    var tags: map<TagRef, Bytes>
    var tombstones: map<Ref, Tombstone>
    var outbox: seq<OutboxRow>

    function Snapshot(): Db
      reads this
    {
      Db(packages, stages, versions, tags, tombstones, outbox)
    }

    constructor ()
      ensures Snapshot() == EMPTY_DB
    {
      packages, stages, versions, tags, tombstones, outbox := map[], map[], map[], map[], map[], [];
    }

    method CreateStage(stage: Stage, key: EventKey, json: Bytes, limit: nat, now: nat) returns (outcome: Outcome)
      modifies this
      ensures outcome == CreateStageTx(old(Snapshot()), stage, key, json, limit, now)
      ensures Snapshot() == After(old(Snapshot()), outcome)
    {
      var pending := |PendingStages(stages, stage.organization)|;
      if pending >= limit { return RolledBack; }
      var newPackages := packages;
      if stage.name !in newPackages {
        newPackages := newPackages[stage.name := Package(stage.organization, stage.private)];
      }
      var package := newPackages[stage.name];
      if package.organization != stage.organization { return Aborted; }
      if package.private != stage.private { return Aborted; }
      if stage.id in stages || RefStaged(stages, RefOf(stage)) { return Aborted; }
      var newStages := stages[stage.id := stage];
      if HasOutboxKey(outbox, key) { return Aborted; }
      packages, stages := newPackages, newStages;
      outbox := outbox + [OutboxRow(key, json, 0, now, false)];
      return Committed(Snapshot());
    }

    method DecideStage(stage: Stage, approve: bool, key: EventKey, json: Bytes, now: nat) returns (outcome: Outcome)
      modifies this
      ensures outcome == DecideStageTx(old(Snapshot()), stage, approve, key, json, now)
      ensures Snapshot() == After(old(Snapshot()), outcome)
    {
      var status: Option<StageStatus> := None;
      if stage.id in stages { status := Some(stages[stage.id].status); }
      if status != Some(Staged) { return RolledBack; }
      var newStages, newVersions, newTags := stages, versions, tags;
      if approve {
        newStages := newStages[stage.id := newStages[stage.id].(status := Approved)];
        if RefOf(stage) in newVersions { return Aborted; }
        newVersions := newVersions[RefOf(stage) := Publish(stage)];
        newTags := newTags[TagRef(stage.name, stage.tag) := stage.version];
      } else {
        newStages := newStages[stage.id := newStages[stage.id].(status := Rejected)];
      }
      if HasOutboxKey(outbox, key) { return Aborted; }
      stages, versions, tags := newStages, newVersions, newTags;
      outbox := outbox + [OutboxRow(key, json, 0, now, false)];
      return Committed(Snapshot());
    }

    /** The SELECT of active versions, in whatever order the rows come. */
    method SelectActive(rowsOf: map<Ref, VersionRow>, name: Bytes) returns (rows: seq<Bytes>)
      ensures Lists(rows, ActiveVersions(rowsOf, name))
    {
      rows := [];
      var left := ActiveVersions(rowsOf, name);
      ghost var all := left;
      while left != {}
        invariant left <= all
        invariant forall x :: x in rows <==> x in all - left
        invariant |rows| + |left| == |all|
        decreases |left|
      {
        var x :| x in left;
        rows := rows + [x];
        left := left - {x};
      }
    }

    method RevokeVersion(parse: Bytes -> Option<Version>, r: Ref, tombstone: Tombstone, key: EventKey, json: Bytes,
                         now: nat)
      returns (outcome: Outcome, ghost rows: seq<Bytes>)
      modifies this
      ensures r in old(versions) ==> Lists(rows, ActiveVersions(EndVersion(old(versions), r, tombstone.status), r.name))
      ensures outcome == RevokeTx(old(Snapshot()), parse, r, tombstone, rows, key, json, now)
      ensures Snapshot() == After(old(Snapshot()), outcome)
    {
      rows := [];
      if r !in versions { return RolledBack, []; }
      var newVersions := versions[r := versions[r].(status := tombstone.status)];
      var newTombstones := tombstones[r := tombstone];
      var active := SelectActive(newVersions, r.name);
      rows := active;
      var rollback := Greatest(parse, active);
      var newTags := MoveTags(tags, r.name, r.version, rollback);
      if HasOutboxKey(outbox, key) { return Aborted, rows; }
      versions, tombstones, tags := newVersions, newTombstones, newTags;
      outbox := outbox + [OutboxRow(key, json, 0, now, false)];
      return Committed(Snapshot()), rows;
    }

    method SelectPending(now: nat, limit: nat) returns (ids: seq<nat>)
      ensures ids == PendingOutbox(outbox, now, limit, 0)
    {
      ids := [];
      var at := 0;
      while at < |outbox| && |ids| < limit
        invariant at <= |outbox| && |ids| <= limit
        invariant ids + PendingOutbox(outbox, now, limit - |ids|, at) == PendingOutbox(outbox, now, limit, 0)
      {
        ghost var rest := PendingOutbox(outbox, now, limit - |ids|, at);
        if !outbox[at].delivered && outbox[at].availableAt <= now {
          assert rest == [at] + PendingOutbox(outbox, now, limit - |ids| - 1, at + 1);
          assert ids + rest == (ids + [at]) + PendingOutbox(outbox, now, limit - |ids| - 1, at + 1);
          ids := ids + [at];
        }
        at := at + 1;
      }
    }

    method MarkOutboxDelivered(id: nat)
      modifies this`outbox
      ensures Snapshot() == MarkDelivered(old(Snapshot()), id)
    {
      if id < |outbox| { outbox := outbox[id := outbox[id].(delivered := true)]; }
    }

    method RetryOutboxRow(id: nat, now: nat)
      modifies this`outbox
      ensures Snapshot() == RetryOutbox(old(Snapshot()), id, now)
    {
      if id < |outbox| {
        var row := outbox[id];
        outbox := outbox[id := row.(attempts := row.attempts + 1, availableAt := now + RETRY_DELAY)];
      }
    }
  }
}
