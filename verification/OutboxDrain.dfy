/** `drain_outbox` as one call: the loop over the pending rows, what it delivers, and that it
    is one of the registry's runs. */
module OutboxDrain {
  import opened Base
  import opened EventLog
  import opened ControlPlane
  import opened ControlPlaneSafety
  import opened Registry
  import opened RegistrySafety
  import opened RegistryInvariant

  /** `delivered` counts the rows marked delivered so far. */
  datatype Trail = Trail(db: Db, log: seq<Event>, delivered: nat)

  function DeliverRow(h: Hash, t: Trail, row: Pending, fault: Fault, now: nat): Trail {
    match AppendKeyed(h, t.log, row.key, row.json)
    case Ok(log) => (
      match fault
      case NoFault => Trail(MarkDelivered(t.db, row.id), log, t.delivered + 1)
      case BeforeCommit => t.(db := RetryOutbox(t.db, row.id, now))
      case AfterCommit => Trail(RetryOutbox(t.db, row.id, now), log, t.delivered)
    )
    case Err(_) => t.(db := RetryOutbox(t.db, row.id, now))
  }

  function DeliverRows(h: Hash, t: Trail, rows: seq<Pending>, faults: seq<Fault>, now: nat): Trail
    requires |faults| == |rows|
    decreases |rows|
  {
    if rows == [] then t
    else DeliverRows(h, DeliverRow(h, t, rows[0], faults[0], now), rows[1..], faults[1..], now)
  }

  function Due(db: Db, now: nat): (rows: seq<Pending>) {
    PendingAreRows(db.outbox, now, DRAIN_LIMIT, 0);
    ReadRows(db.outbox, PendingOutbox(db.outbox, now, DRAIN_LIMIT, 0))
  }

  lemma DeliverRowsSnoc(h: Hash, t: Trail, rows: seq<Pending>, faults: seq<Fault>, now: nat, row: Pending, fault: Fault)
    requires |faults| == |rows|
    ensures DeliverRows(h, t, rows + [row], faults + [fault], now) ==
            DeliverRow(h, DeliverRows(h, t, rows, faults, now), row, fault, now)
    decreases |rows|
  {
    hide DeliverRow;
    if rows == [] {
      assert DeliverRows(h, DeliverRow(h, t, row, fault, now), [], [], now) == DeliverRow(h, t, row, fault, now);
    } else {
      var next := DeliverRow(h, t, rows[0], faults[0], now);
      assert (rows + [row])[1..] == rows[1..] + [row] && (faults + [fault])[1..] == faults[1..] + [fault];
      DeliverRowsSnoc(h, next, rows[1..], faults[1..], now, row, fault);
    }
  }

  /** The part of the registry that draining touches. */
  class AuditTrail {
    const h: Hash
    var tables: Tables
    var log: seq<Event>

    constructor (h: Hash)
      ensures this.h == h && log == [] && fresh(tables) && tables.Snapshot() == EMPTY_DB
    {
      this.h := h;
      log := [];
      tables := new Tables();
    }

    /** One transaction under the advisory lock; a fault before the commit leaves nothing. */
    method AppendEventKeyed(key: EventKey, json: Bytes, fault: Fault) returns (ok: bool)
      modifies this`log
      ensures ok <==> fault.NoFault? && AppendKeyed(h, old(log), key, json).Ok?
      ensures log == if fault.BeforeCommit? || AppendKeyed(h, old(log), key, json).Err? then old(log)
                     else AppendKeyed(h, old(log), key, json).value
    {
      if fault.BeforeCommit? { return false; }
      if HasKey(log, key) { return fault.NoFault?; }
      var previous := GENESIS;
      if log != [] { previous := log[|log| - 1].hash; }
      var hash := h(previous + json);
      if HasHash(log, hash) { return false; }
      log := log + [Event(key, json, previous, hash)];
      return fault.NoFault?;
    }

    method DeliverPending(row: Pending, fault: Fault, now: nat, ghost n: nat) returns (ok: bool)
      modifies this`log, tables
      ensures Trail(tables.Snapshot(), log, if ok then n + 1 else n) ==
              DeliverRow(h, Trail(old(tables.Snapshot()), old(log), n), row, fault, now)
    {
      ok := AppendEventKeyed(row.key, row.json, fault);
      if ok {
        tables.MarkOutboxDelivered(row.id);
      } else {
        tables.RetryOutboxRow(row.id, now);
      }
    }

    /** `faults[i]` is what happens to the append of the i-th pending row. */
    method DrainOutbox(now: nat, faults: seq<Fault>) returns (delivered: nat)
      requires |faults| == DRAIN_LIMIT
      modifies this`log, tables
      ensures |Due(old(tables.Snapshot()), now)| <= DRAIN_LIMIT
      ensures var rows := Due(old(tables.Snapshot()), now);
              Trail(tables.Snapshot(), log, delivered) ==
              DeliverRows(h, Trail(old(tables.Snapshot()), old(log), 0), rows, faults[..|rows|], now)
    {
      hide DeliverRow, PendingOutbox;
      ghost var start := Trail(tables.Snapshot(), log, 0);
      var ids := tables.SelectPending(now, DRAIN_LIMIT);
      PendingIsLimited(tables.outbox, now, DRAIN_LIMIT, 0);
      PendingAreRows(tables.outbox, now, DRAIN_LIMIT, 0);
      var rows := ReadRows(tables.outbox, ids);
      delivered := 0;
      var i := 0;
      assert faults[..0] == [];
      while i < |rows|
        invariant 0 <= i <= |rows| <= DRAIN_LIMIT
        invariant Trail(tables.Snapshot(), log, delivered) == DeliverRows(h, start, rows[..i], faults[..i], now)
      {
        DeliverRowsSnoc(h, start, rows[..i], faults[..i], now, rows[i], faults[i]);
        assert rows[..i + 1] == rows[..i] + [rows[i]] && faults[..i + 1] == faults[..i] + [faults[i]];
        var ok := DeliverPending(rows[i], faults[i], now, delivered);
        if ok { delivered := delivered + 1; }
        i := i + 1;
      }
      assert rows[..i] == rows;
    }
  }

  lemma {:induction false} PendingIsLimited(outbox: seq<OutboxRow>, now: nat, limit: nat, at: nat)
    requires at <= |outbox|
    ensures |PendingOutbox(outbox, now, limit, at)| <= limit
    decreases |outbox| - at
  {
    if at < |outbox| && limit > 0 {
      PendingIsLimited(outbox, now, limit - 1, at + 1);
      PendingIsLimited(outbox, now, limit, at + 1);
    }
  }

  // ---------- what a drain achieves ----------

  ghost predicate DistinctIds(rows: seq<Pending>) {
    forall i, j :: 0 <= i < j < |rows| ==> rows[i].id != rows[j].id
  }

  /** The ids ascend and belong to undelivered rows that are due. */
  ghost predicate DueInOrder(outbox: seq<OutboxRow>, now: nat, at: nat, ids: seq<nat>) {
    && (forall i, j :: 0 <= i < j < |ids| ==> ids[i] < ids[j])
    && (forall i :: 0 <= i < |ids| ==>
          at <= ids[i] < |outbox| && !outbox[ids[i]].delivered && outbox[ids[i]].availableAt <= now)
  }

  lemma {:induction false} PendingAscend(outbox: seq<OutboxRow>, now: nat, limit: nat, at: nat)
    requires at <= |outbox|
    ensures DueInOrder(outbox, now, at, PendingOutbox(outbox, now, limit, at))
    decreases |outbox| - at
  {
    var ids := PendingOutbox(outbox, now, limit, at);
    if at < |outbox| && limit > 0 {
      if !outbox[at].delivered && outbox[at].availableAt <= now {
        PendingAscend(outbox, now, limit - 1, at + 1);
        var rest := PendingOutbox(outbox, now, limit - 1, at + 1);
        assert DueInOrder(outbox, now, at + 1, rest) && ids == [at] + rest;
      } else {
        PendingAscend(outbox, now, limit, at + 1);
        assert DueInOrder(outbox, now, at + 1, ids);
      }
    }
  }

  /** `pending_outbox` misses nothing: an undelivered due row is among the rows read, or the
      limit was reached with rows before it. */
  lemma {:induction false} PendingMissesNothing(outbox: seq<OutboxRow>, now: nat, limit: nat, at: nat, id: nat)
    requires at <= id < |outbox| && !outbox[id].delivered && outbox[id].availableAt <= now
    ensures var ids := PendingOutbox(outbox, now, limit, at);
            id in ids || (|ids| == limit && forall i :: 0 <= i < |ids| ==> ids[i] < id)
    decreases |outbox| - at
  {
    var ids := PendingOutbox(outbox, now, limit, at);
    if limit > 0 {
      if at == id {
        assert ids[0] == id;
      } else if !outbox[at].delivered && outbox[at].availableAt <= now {
        PendingMissesNothing(outbox, now, limit - 1, at + 1, id);
        var rest := PendingOutbox(outbox, now, limit - 1, at + 1);
        assert ids == [at] + rest;
      } else {
        PendingMissesNothing(outbox, now, limit, at + 1, id);
      }
    }
  }

  /** Every message the drain hashes, and those hashed before it. */
  ghost function DrainMessages(h: Hash, t: Trail, rows: seq<Pending>, faults: seq<Fault>, now: nat): set<Bytes>
    requires |faults| == |rows|
    decreases |rows|
  {
    if rows == [] then ChainMessages(t.log)
    else
      ChainMessages(t.log) + (if HasKey(t.log, rows[0].key) then {} else {LatestHash(t.log) + rows[0].json})
      + DrainMessages(h, DeliverRow(h, t, rows[0], faults[0], now), rows[1..], faults[1..], now)
  }

  /** The row as the drain leaves it. */
  ghost predicate Settled(before: OutboxRow, after: OutboxRow, now: nat) {
    || after == before.(delivered := true)
    || after == before.(attempts := before.attempts + 1, availableAt := now + RETRY_DELAY)
  }

  lemma DeliverRowEffect(h: Hash, t: Trail, row: Pending, fault: Fault, now: nat)
    requires WellLinked(h, t.log) && row.id < |t.db.outbox|
    ensures var after := DeliverRow(h, t, row, fault, now);
            && WellLinked(h, after.log) && |after.db.outbox| == |t.db.outbox|
            && (forall i :: 0 <= i < |t.db.outbox| && i != row.id ==> after.db.outbox[i] == t.db.outbox[i])
            && Settled(t.db.outbox[row.id], after.db.outbox[row.id], now)
            && (fault.NoFault? ==>
                  after.db.outbox[row.id].delivered
                  || (!HasKey(t.log, row.key) && CollisionIn(h, ChainMessages(t.log) + {LatestHash(t.log) + row.json})))
  {
    hide WellLinked, CollisionIn, ChainMessages, HasKey, HasHash;
    if AppendKeyed(h, t.log, row.key, row.json).Ok? {
      AppendKeepsChain(h, t.log, row.key, row.json);
    } else {
      DuplicateHashMeansCollision(h, t.log, row.key, row.json);
    }
  }

  /** Each row that was read is settled once, delivered if its append did not fail, and no
      other row is touched. Only a collision of hashed messages can refuse an append. */
  lemma {:induction false} DrainSettlesRows(h: Hash, t: Trail, rows: seq<Pending>, faults: seq<Fault>, now: nat)
    requires |faults| == |rows| && WellLinked(h, t.log) && DistinctIds(rows)
    requires forall i :: 0 <= i < |rows| ==> rows[i].id < |t.db.outbox|
    ensures var after := DeliverRows(h, t, rows, faults, now);
            && WellLinked(h, after.log) && |after.db.outbox| == |t.db.outbox|
            && (forall j :: 0 <= j < |t.db.outbox| && (forall i :: 0 <= i < |rows| ==> rows[i].id != j) ==>
                  after.db.outbox[j] == t.db.outbox[j])
            && (forall i :: 0 <= i < |rows| ==>
                  && Settled(t.db.outbox[rows[i].id], after.db.outbox[rows[i].id], now)
                  && (faults[i].NoFault? ==>
                        after.db.outbox[rows[i].id].delivered
                        || CollisionIn(h, DrainMessages(h, t, rows, faults, now))))
    decreases |rows|
  {
    hide WellLinked, CollisionIn, ChainMessages, DeliverRow, Settled, HasKey;
    if rows != [] {
      var next := DeliverRow(h, t, rows[0], faults[0], now);
      var M := DrainMessages(h, t, rows, faults, now);
      DeliverRowEffect(h, t, rows[0], faults[0], now);
      DrainSettlesRows(h, next, rows[1..], faults[1..], now);
      var after := DeliverRows(h, t, rows, faults, now);
      var head := ChainMessages(t.log) + {LatestHash(t.log) + rows[0].json};
      if !HasKey(t.log, rows[0].key) && CollisionIn(h, head) { CollisionGrows(h, head, M); }
      var rest := DrainMessages(h, next, rows[1..], faults[1..], now);
      if CollisionIn(h, rest) { CollisionGrows(h, rest, M); }
      forall i | 0 <= i < |rows|
        ensures Settled(t.db.outbox[rows[i].id], after.db.outbox[rows[i].id], now)
        ensures faults[i].NoFault? ==> after.db.outbox[rows[i].id].delivered || CollisionIn(h, M)
      {
        if i > 0 { assert rows[1..][i - 1] == rows[i] && faults[1..][i - 1] == faults[i]; }
      }
      forall j | 0 <= j < |t.db.outbox| && (forall i :: 0 <= i < |rows| ==> rows[i].id != j)
        ensures after.db.outbox[j] == t.db.outbox[j]
      {
        assert rows[0].id != j;
        forall i | 0 <= i < |rows[1..]| ensures rows[1..][i].id != j { assert rows[1..][i] == rows[i + 1]; }
      }
    }
  }

  // ---------- what is read, counted and logged ----------

  lemma {:induction false} AscendingBelow(ids: seq<nat>, bound: nat)
    requires forall i, j :: 0 <= i < j < |ids| ==> ids[i] < ids[j]
    requires forall i :: 0 <= i < |ids| ==> ids[i] < bound
    ensures |ids| <= bound
  {
    if ids != [] { AscendingBelow(ids[..|ids| - 1], ids[|ids| - 1]); }
  }

  /** A row that was rescheduled at some time is not read again for five seconds, and is due
      from then on. */
  lemma RetriedRowWaits(db: Db, id: nat, now: nat, later: nat)
    requires id < |db.outbox| && !db.outbox[id].delivered
    ensures var outbox := RetryOutbox(db, id, now).outbox;
            id in PendingOutbox(outbox, later, |outbox|, 0) <==> later >= now + 5
  {
    var outbox := RetryOutbox(db, id, now).outbox;
    var ids := PendingOutbox(outbox, later, |outbox|, 0);
    PendingAscend(outbox, later, |outbox|, 0);
    if later >= now + 5 {
      PendingMissesNothing(outbox, later, |outbox|, 0, id);
      hide PendingOutbox;
      if id !in ids { AscendingBelow(ids, id); }
    }
  }

  /** A drain reads a hundred rows at most, and with fewer than that every row that is due. */
  lemma DrainReadsAHundred(db: Db, now: nat, id: nat)
    requires id < |db.outbox| && !db.outbox[id].delivered && db.outbox[id].availableAt <= now
    ensures |Due(db, now)| <= 100
    ensures |Due(db, now)| < 100 ==> exists i :: 0 <= i < |Due(db, now)| && Due(db, now)[i].id == id
  {
    PendingIsLimited(db.outbox, now, 100, 0);
    PendingMissesNothing(db.outbox, now, 100, 0, id);
    PendingAreRows(db.outbox, now, 100, 0);
    hide PendingOutbox;
    var ids := PendingOutbox(db.outbox, now, 100, 0);
    if |ids| < 100 {
      var i :| 0 <= i < |ids| && ids[i] == id;
      assert Due(db, now)[i].id == id;
    }
  }

  /** Rows that count as delivered. */
  function DeliveredAmong(outbox: seq<OutboxRow>, rows: seq<Pending>): nat
    requires forall i :: 0 <= i < |rows| ==> rows[i].id < |outbox|
  {
    if rows == [] then 0 else (if outbox[rows[0].id].delivered then 1 else 0) + DeliveredAmong(outbox, rows[1..])
  }

  lemma {:induction false} SameRowsSameCount(a: seq<OutboxRow>, b: seq<OutboxRow>, rows: seq<Pending>)
    requires forall i :: 0 <= i < |rows| ==> rows[i].id < |a| && rows[i].id < |b| && a[rows[i].id] == b[rows[i].id]
    ensures DeliveredAmong(a, rows) == DeliveredAmong(b, rows)
  {
    if rows != [] { SameRowsSameCount(a, b, rows[1..]); }
  }

  /** What one row's delivery does, case by case: it counts and is marked exactly when its
      append was answered; otherwise it is rescheduled. */
  lemma DeliverRowExactly(h: Hash, t: Trail, row: Pending, fault: Fault, now: nat)
    requires row.id < |t.db.outbox|
    ensures var after := DeliverRow(h, t, row, fault, now);
            var before, answered := t.db.outbox[row.id], fault.NoFault? && AppendKeyed(h, t.log, row.key, row.json).Ok?;
            && after.delivered == t.delivered + (if answered then 1 else 0)
            && |after.db.outbox| == |t.db.outbox|
            && after.db.outbox[row.id] == (if answered then before.(delivered := true)
                                           else before.(attempts := before.attempts + 1, availableAt := now + 5))
            && (forall i :: 0 <= i < |t.db.outbox| && i != row.id ==> after.db.outbox[i] == t.db.outbox[i])
            && (fault.BeforeCommit? ==> after.log == t.log)
  {
    hide AppendKeyed;
  }

  /** The count that a drain returns is the number of rows it delivered, and a row whose append
      failed is not among them. */
  lemma {:induction false} DrainCountsDeliveries(h: Hash, t: Trail, rows: seq<Pending>, faults: seq<Fault>, now: nat)
    requires |faults| == |rows| && DistinctIds(rows)
    requires forall i :: 0 <= i < |rows| ==> rows[i].id < |t.db.outbox| && !t.db.outbox[rows[i].id].delivered
    ensures var after := DeliverRows(h, t, rows, faults, now);
            && |after.db.outbox| == |t.db.outbox|
            && after.delivered == t.delivered + DeliveredAmong(after.db.outbox, rows)
            && (forall j :: 0 <= j < |t.db.outbox| && (forall i :: 0 <= i < |rows| ==> rows[i].id != j) ==>
                  after.db.outbox[j] == t.db.outbox[j])
            && (forall i :: 0 <= i < |rows| && !faults[i].NoFault? ==>
                  var before := t.db.outbox[rows[i].id];
                  after.db.outbox[rows[i].id] == before.(attempts := before.attempts + 1, availableAt := now + 5))
    decreases |rows|
  {
    hide DeliverRow, AppendKeyed;
    if rows != [] {
      var next := DeliverRow(h, t, rows[0], faults[0], now);
      DeliverRowExactly(h, t, rows[0], faults[0], now);
      assert forall i :: 0 <= i < |rows[1..]| ==> rows[1..][i] == rows[i + 1] && faults[1..][i] == faults[i + 1];
      DrainCountsDeliveries(h, next, rows[1..], faults[1..], now);
      var after := DeliverRows(h, t, rows, faults, now);
      assert after.db.outbox[rows[0].id] == next.db.outbox[rows[0].id];
      forall i | 0 <= i < |rows| && !faults[i].NoFault?
        ensures var before := t.db.outbox[rows[i].id];
                after.db.outbox[rows[i].id] == before.(attempts := before.attempts + 1, availableAt := now + 5)
      {
        if i > 0 { assert rows[1..][i - 1] == rows[i] && faults[1..][i - 1] == faults[i]; }
      }
    }
  }

  /** Event k beyond the first n is that of row from[k], whose append reached its commit. */
  ghost predicate LoggedFrom(log: seq<Event>, n: nat, rows: seq<Pending>, faults: seq<Fault>, from: seq<nat>)
    requires |faults| == |rows|
  {
    && |log| == n + |from|
    && (forall j, k :: 0 <= j < k < |from| ==> from[j] < from[k])
    && (forall k :: 0 <= k < |from| ==>
          && from[k] < |rows| && !faults[from[k]].BeforeCommit?
          && log[n + k].key == rows[from[k]].key && log[n + k].json == rows[from[k]].json)
  }

  function Shifted(from: seq<nat>): seq<nat> {
    seq(|from|, k requires 0 <= k < |from| => from[k] + 1)
  }

  lemma LoggedFromTail(log: seq<Event>, n: nat, rows: seq<Pending>, faults: seq<Fault>, from: seq<nat>)
    requires |faults| == |rows| > 0 && LoggedFrom(log, n, rows[1..], faults[1..], from)
    ensures LoggedFrom(log, n, rows, faults, Shifted(from))
  {
    forall k | 0 <= k < |from|
      ensures rows[1..][from[k]] == rows[from[k] + 1] && faults[1..][from[k]] == faults[from[k] + 1]
    {
    }
  }

  lemma LoggedFromHead(log: seq<Event>, n: nat, rows: seq<Pending>, faults: seq<Fault>, from: seq<nat>)
    requires |faults| == |rows| > 0 && LoggedFrom(log, n + 1, rows, faults, Shifted(from)) && !faults[0].BeforeCommit?
    requires log[n].key == rows[0].key && log[n].json == rows[0].json
    ensures LoggedFrom(log, n, rows, faults, [0] + Shifted(from))
  {
    var all := [0] + Shifted(from);
    forall k | 0 < k < |all| ensures all[k] == Shifted(from)[k - 1] && log[n + k] == log[n + 1 + (k - 1)] { }
  }

  /** The events a drain adds to the log are those of its rows, texts and all, in the order of
      the rows. */
  lemma {:induction false} DrainLogsInOrder(h: Hash, t: Trail, rows: seq<Pending>, faults: seq<Fault>, now: nat)
    returns (from: seq<nat>)
    requires |faults| == |rows|
    ensures t.log <= DeliverRows(h, t, rows, faults, now).log
    ensures LoggedFrom(DeliverRows(h, t, rows, faults, now).log, |t.log|, rows, faults, from)
    decreases |rows|
  {
    hide DeliverRow, LoggedFrom;
    if rows == [] {
      from := [];
      assert LoggedFrom(t.log, |t.log|, rows, faults, []) by { NothingLogged(t.log, rows, faults); }
    } else {
      var next := DeliverRow(h, t, rows[0], faults[0], now);
      DeliveryLogs(h, t, rows[0], faults[0], now);
      var rest := DrainLogsInOrder(h, next, rows[1..], faults[1..], now);
      var log := DeliverRows(h, t, rows, faults, now).log;
      LoggedFromTail(log, |next.log|, rows, faults, rest);
      if next.log == t.log {
        from := Shifted(rest);
      } else {
        from := [0] + Shifted(rest);
        LoggedFromHead(log, |t.log|, rows, faults, rest);
      }
    }
  }

  lemma NothingLogged(log: seq<Event>, rows: seq<Pending>, faults: seq<Fault>)
    requires |faults| == |rows|
    ensures LoggedFrom(log, |log|, rows, faults, [])
  {
  }

  lemma DeliveryLogs(h: Hash, t: Trail, row: Pending, fault: Fault, now: nat)
    ensures var log := DeliverRow(h, t, row, fault, now).log;
            || log == t.log
            || (!fault.BeforeCommit? && |log| == |t.log| + 1 && t.log <= log
                && log[|t.log|].key == row.key && log[|t.log|].json == row.json)
  {
    hide HasKey, HasHash;
  }

  // ---------- a drain is one of the registry's runs ----------

  function DrainActions(w: nat, faults: seq<Fault>): seq<Action>
    decreases |faults|
  {
    if faults == [] then [] else [Append(w, faults[0]), Acknowledge(w)] + DrainActions(w, faults[1..])
  }

  ghost function WithTrail(s: State, t: Trail, w: nat, worker: Worker): State {
    Become(s.(db := t.db, log := t.log), w, worker)
  }

  lemma DeliverRowIsTwoSteps(cfg: Config, s: State, w: nat, rows: seq<Pending>, fault: Fault, n: nat)
    requires w < |s.workers| && s.workers[w] == Draining(rows, Fetched) && rows != []
    ensures AcknowledgeStep(AppendStep(cfg, s, w, fault), w) ==
            WithTrail(s, DeliverRow(cfg.h, Trail(s.db, s.log, n), rows[0], fault, s.clock), w,
                      Draining(rows[1..], Fetched))
  {
    hide AppendKeyed;
  }

  /** A worker that has read its rows and is not disturbed does what the loop does. */
  lemma {:induction false} DrainIsARun(cfg: Config, s: State, w: nat, rows: seq<Pending>, faults: seq<Fault>, n: nat)
    requires |faults| == |rows| && w < |s.workers| && s.workers[w] == Draining(rows, Fetched)
    ensures Run(cfg, s, DrainActions(w, faults)) ==
            WithTrail(s, DeliverRows(cfg.h, Trail(s.db, s.log, n), rows, faults, s.clock), w, Draining([], Fetched))
    decreases |rows|
  {
    hide DeliverRow, AppendStep, AcknowledgeStep;
    if rows == [] {
      assert s.workers[w := Draining([], Fetched)] == s.workers;
    } else {
      var t := DeliverRow(cfg.h, Trail(s.db, s.log, n), rows[0], faults[0], s.clock);
      var next := WithTrail(s, t, w, Draining(rows[1..], Fetched));
      DeliverRowIsTwoSteps(cfg, s, w, rows, faults[0], n);
      TwoSteps(cfg, s, Append(w, faults[0]), Acknowledge(w));
      RunConcat(cfg, s, [Append(w, faults[0]), Acknowledge(w)], DrainActions(w, faults[1..]));
      DrainIsARun(cfg, next, w, rows[1..], faults[1..], t.delivered);
    }
  }
}
