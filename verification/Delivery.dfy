/** The other half of delivery: from every reachable state one worker alone can bring every
    intent of the outbox into the log, unless two messages of the chain collide. */
module Delivery {
  import opened Base
  import opened EventLog
  import opened ControlPlane
  import opened ControlPlaneSafety
  import opened Registry
  import opened RegistrySafety
  import opened RegistryInvariant
  import opened RegistryRuns
  import opened OutboxDrain

  /** Time passes, or the worker drains and nothing goes wrong. */
  predicate DrainsOnly(a: Action, w: nat) {
    a == Tick || a == FetchPending(w) || a == Append(w, NoFault) || a == Acknowledge(w)
  }

  ghost predicate AllDrain(actions: seq<Action>, w: nat) {
    forall i :: 0 <= i < |actions| ==> DrainsOnly(actions[i], w)
  }

  function Undelivered(outbox: seq<OutboxRow>): (ids: set<nat>)
    ensures forall id: nat :: id in ids <==> id < |outbox| && !outbox[id].delivered
  {
    set id: nat | id < |outbox| && !outbox[id].delivered
  }

  /** The append of some undelivered row is refused. */
  ghost predicate Refused(h: Hash, s: State) {
    exists id :: id in Undelivered(s.db.outbox)
                 && AppendKeyed(h, s.log, s.db.outbox[id].key, s.db.outbox[id].json).Err?
  }

  /** Some undelivered row is still to be chained, and its message collides with one of the
      chain, or two of those collide. */
  ghost predicate RowCollides(h: Hash, s: State) {
    exists id :: id in Undelivered(s.db.outbox) && !HasKey(s.log, s.db.outbox[id].key)
                 && CollisionIn(h, ChainMessages(s.log) + {LatestHash(s.log) + s.db.outbox[id].json})
  }

  lemma RefusedMeansCollision(h: Hash, s: State)
    requires WellLinked(h, s.log) && Refused(h, s)
    ensures RowCollides(h, s)
  {
    hide HasKey, HasHash, CollisionIn, ChainMessages;
    var id :| id in Undelivered(s.db.outbox)
              && AppendKeyed(h, s.log, s.db.outbox[id].key, s.db.outbox[id].json).Err?;
    DuplicateHashMeansCollision(h, s.log, s.db.outbox[id].key, s.db.outbox[id].json);
  }

  // ---------- time passes ----------

  ghost predicate AllDue(outbox: seq<OutboxRow>, now: nat) {
    forall id :: id in Undelivered(outbox) ==> outbox[id].availableAt <= now
  }

  function LatestDue(outbox: seq<OutboxRow>): (t: nat)
    ensures forall i :: 0 <= i < |outbox| ==> outbox[i].availableAt <= t
  {
    if outbox == [] then 0
    else
      var last, before := outbox[|outbox| - 1].availableAt, LatestDue(outbox[..|outbox| - 1]);
      if last > before then last else before
  }

  lemma {:induction false} RunTicks(cfg: Config, s: State, n: nat)
    ensures Run(cfg, s, seq(n, _ => Tick)) == s.(clock := s.clock + n)
  {
    var ticks := seq(n, _ => Tick);
    if n > 0 {
      assert ticks[..n - 1] == seq(n - 1, _ => Tick);
      RunTicks(cfg, s, n - 1);
      TickIsStep(cfg, s.(clock := s.clock + n - 1));
      hide Step;
    }
  }

  lemma TickIsStep(cfg: Config, s: State)
    ensures Step(cfg, s, Tick) == s.(clock := s.clock + 1)
  {
  }

  // ---------- one drain ----------

  /** The rows a worker has read are undelivered and distinct. */
  ghost predicate Awaited(outbox: seq<OutboxRow>, rows: seq<Pending>) {
    && DistinctIds(rows)
    && forall i :: 0 <= i < |rows| ==> RowOk(outbox, rows[i]) && rows[i].id in Undelivered(outbox)
  }

  ghost predicate Named(rows: seq<Pending>, id: nat) {
    exists i :: 0 <= i < |rows| && rows[i].id == id
  }

  /** Exactly these rows have become delivered. */
  ghost predicate Delivers(a: seq<OutboxRow>, b: seq<OutboxRow>, rows: seq<Pending>) {
    |a| == |b| && forall id :: 0 <= id < |a| ==> b[id] == a[id].(delivered := a[id].delivered || Named(rows, id))
  }

  /** The registry while and after a worker drains: nothing but the outbox, the log and the
      worker has changed. */
  ghost predicate Drained(s: State, b: State, w: nat, rows: seq<Pending>) {
    && w < |s.workers| && b == s.(db := b.db, log := b.log, workers := s.workers[w := Idle])
    && b.db == s.db.(outbox := b.db.outbox) && Delivers(s.db.outbox, b.db.outbox, rows)
  }

  lemma DeliverHead(cfg: Config, s: State, w: nat, rows: seq<Pending>)
    requires w < |s.workers| && s.workers[w] == Draining(rows, Fetched) && rows != [] && Awaited(s.db.outbox, rows)
    requires AppendKeyed(cfg.h, s.log, rows[0].key, rows[0].json).Ok?
    ensures var b := Run(cfg, s, [Append(w, NoFault), Acknowledge(w)]);
            && b == s.(db := MarkDelivered(s.db, rows[0].id), log := b.log, workers := b.workers)
            && b.workers == s.workers[w := Draining(rows[1..], Fetched)]
            && Awaited(b.db.outbox, rows[1..])
  {
    hide AppendKeyed, Awaited, Step, AppendStep, AcknowledgeStep;
    DeliverRowIsTwoSteps(cfg, s, w, rows, NoFault, 0);
    TwoSteps(cfg, s, Append(w, NoFault), Acknowledge(w));
    DrainStepsAre(cfg, s, w);
    DrainStepsAre(cfg, AppendStep(cfg, s, w, NoFault), w);
    MarkKeepsAwaited(s.db, rows);
  }

  lemma DrainStepsAre(cfg: Config, s: State, w: nat)
    ensures Step(cfg, s, Append(w, NoFault)) == AppendStep(cfg, s, w, NoFault)
    ensures Step(cfg, s, Acknowledge(w)) == AcknowledgeStep(s, w)
    ensures Step(cfg, s, FetchPending(w)) == FetchPendingStep(s, w)
  {
    hide AppendStep, AcknowledgeStep, FetchPendingStep;
  }

  lemma MarkKeepsAwaited(db: Db, rows: seq<Pending>)
    requires rows != [] && Awaited(db.outbox, rows)
    ensures Awaited(MarkDelivered(db, rows[0].id).outbox, rows[1..])
  {
    var after := MarkDelivered(db, rows[0].id).outbox;
    forall i | 0 <= i < |rows[1..]|
      ensures RowOk(after, rows[1..][i]) && rows[1..][i].id in Undelivered(after)
    {
      assert rows[1..][i] == rows[i + 1] && rows[0].id != rows[i + 1].id;
    }
  }

  lemma DeliversCons(a: seq<OutboxRow>, mid: seq<OutboxRow>, b: seq<OutboxRow>, rows: seq<Pending>)
    requires rows != [] && rows[0].id < |a| && mid == a[rows[0].id := a[rows[0].id].(delivered := true)]
    requires Delivers(mid, b, rows[1..])
    ensures Delivers(a, b, rows)
  {
    forall id | 0 <= id < |a| ensures b[id] == a[id].(delivered := a[id].delivered || Named(rows, id)) {
      assert Named(rows, id) <==> id == rows[0].id || Named(rows[1..], id) by { NamedCons(rows, id); }
    }
  }

  lemma NamedCons(rows: seq<Pending>, id: nat)
    requires rows != []
    ensures Named(rows, id) <==> id == rows[0].id || Named(rows[1..], id)
  {
    if Named(rows[1..], id) {
      var i :| 0 <= i < |rows[1..]| && rows[1..][i].id == id;
      assert rows[i + 1].id == id;
    }
    if Named(rows, id) {
      var i :| 0 <= i < |rows| && rows[i].id == id;
      assert i > 0 ==> rows[1..][i - 1].id == id;
    }
  }

  /** A worker that has read its rows delivers them all, or comes to a row that is refused. */
  lemma {:induction false} DrainRows(cfg: Config, s: State, w: nat, rows: seq<Pending>)
    returns (more: seq<Action>)
    requires w < |s.workers| && s.workers[w] == Draining(rows, Fetched) && Awaited(s.db.outbox, rows)
    ensures AllDrain(more, w)
    ensures var b := Run(cfg, s, more); Refused(cfg.h, b) || Drained(s, b, w, rows)
    decreases |rows|
  {
    hide AppendKeyed, Step, MarkDelivered, Awaited, Delivers, Refused;
    if rows == [] {
      more := [Append(w, NoFault)];
      OneStep(cfg, s, Append(w, NoFault));
      DrainStepsAre(cfg, s, w);
      assert Delivers(s.db.outbox, s.db.outbox, rows) by { NothingToDeliver(s.db.outbox); }
    } else if AppendKeyed(cfg.h, s.log, rows[0].key, rows[0].json).Err? {
      more := [];
      HeadIsRefused(cfg.h, s, rows);
    } else {
      var two := [Append(w, NoFault), Acknowledge(w)];
      DeliverHead(cfg, s, w, rows);
      var next := Run(cfg, s, two);
      var rest := DrainRows(cfg, next, w, rows[1..]);
      more := two + rest;
      RunConcat(cfg, s, two, rest);
      var b := Run(cfg, s, more);
      if Drained(next, b, w, rows[1..]) {
        HeadIsMarked(s.db, rows);
        DeliversCons(s.db.outbox, next.db.outbox, b.db.outbox, rows);
        assert next.workers[w := Idle] == s.workers[w := Idle];
      }
    }
  }

  lemma NothingToDeliver(outbox: seq<OutboxRow>)
    ensures Delivers(outbox, outbox, [])
  {
  }

  lemma HeadIsRefused(h: Hash, s: State, rows: seq<Pending>)
    requires rows != [] && Awaited(s.db.outbox, rows) && AppendKeyed(h, s.log, rows[0].key, rows[0].json).Err?
    ensures Refused(h, s)
  {
    hide AppendKeyed;
    assert RowOk(s.db.outbox, rows[0]) && rows[0].id in Undelivered(s.db.outbox);
  }

  lemma HeadIsMarked(db: Db, rows: seq<Pending>)
    requires rows != [] && Awaited(db.outbox, rows)
    ensures rows[0].id < |db.outbox|
    ensures MarkDelivered(db, rows[0].id) ==
            db.(outbox := db.outbox[rows[0].id := db.outbox[rows[0].id].(delivered := true)])
  {
  }

  // ---------- drain after drain ----------

  lemma DueIsAwaited(db: Db, now: nat)
    ensures Awaited(db.outbox, Due(db, now))
  {
    PendingAreRows(db.outbox, now, DRAIN_LIMIT, 0);
    PendingAscend(db.outbox, now, DRAIN_LIMIT, 0);
    hide PendingOutbox;
  }

  /** While an undelivered row is due, a drain has a row to deliver. */
  lemma SomethingIsDue(db: Db, now: nat)
    requires Undelivered(db.outbox) != {} && AllDue(db.outbox, now)
    ensures Due(db, now) != []
  {
    var id :| id in Undelivered(db.outbox);
    PendingMissesNothing(db.outbox, now, DRAIN_LIMIT, 0, id);
    PendingAreRows(db.outbox, now, DRAIN_LIMIT, 0);
    hide PendingOutbox;
  }

  lemma DeliveryShrinks(a: seq<OutboxRow>, b: seq<OutboxRow>, rows: seq<Pending>, now: nat)
    requires Delivers(a, b, rows) && Awaited(a, rows) && AllDue(a, now)
    ensures AllDue(b, now) && Undelivered(b) <= Undelivered(a)
    ensures rows != [] ==> |Undelivered(b)| < |Undelivered(a)|
  {
    if rows != [] {
      var id := rows[0].id;
      assert Named(rows, id) && id in Undelivered(a) && id !in Undelivered(b);
      CardinalityOfSubset(Undelivered(b), Undelivered(a) - {id});
    }
  }

  /** One drain of an idle worker. */
  lemma OneDrain(cfg: Config, s: State, w: nat) returns (more: seq<Action>)
    requires w < |s.workers| && s.workers[w].Idle?
    ensures AllDrain(more, w)
    ensures var b := Run(cfg, s, more); Refused(cfg.h, b) || Drained(s, b, w, Due(s.db, s.clock))
  {
    hide Run, Step, Awaited, Refused, Delivers;
    var rows := Due(s.db, s.clock);
    var next := s.(workers := s.workers[w := Draining(rows, Fetched)]);
    OneStep(cfg, s, FetchPending(w));
    DrainStepsAre(cfg, s, w);
    assert FetchPendingStep(s, w) == next by { hide PendingOutbox; }
    DueIsAwaited(s.db, s.clock);
    var rest := DrainRows(cfg, next, w, rows);
    more := [FetchPending(w)] + rest;
    RunConcat(cfg, s, [FetchPending(w)], rest);
    assert next.workers[w := Idle] == s.workers[w := Idle];
  }

  lemma {:induction false} DrainUntilDone(cfg: Config, s: State, w: nat) returns (more: seq<Action>)
    requires w < |s.workers| && s.workers[w].Idle? && AllDue(s.db.outbox, s.clock)
    ensures AllDrain(more, w)
    ensures var b := Run(cfg, s, more); Refused(cfg.h, b) || Undelivered(b.db.outbox) == {}
    decreases |Undelivered(s.db.outbox)|
  {
    hide Step, Awaited, Refused, Delivers, Due, AllDue;
    more := [];
    if Undelivered(s.db.outbox) != {} {
      more := OneDrain(cfg, s, w);
      var b := Run(cfg, s, more);
      if !Refused(cfg.h, b) {
        var rows := Due(s.db, s.clock);
        DueIsAwaited(s.db, s.clock);
        SomethingIsDue(s.db, s.clock);
        DeliveryShrinks(s.db.outbox, b.db.outbox, rows, s.clock);
        var rest := DrainUntilDone(cfg, b, w);
        RunConcat(cfg, s, more, rest);
        more := more + rest;
      }
    }
  }

  /** Every intent can be delivered: in every reachable state with an idle worker, time and
      this worker's fault-free drains alone lead on to a state in which every outbox row is
      delivered and its event in the log, or the message of some undelivered row collides. */
  lemma EveryIntentCanBeDelivered(cfg: Config, workers: nat, replicas: nat, actions: seq<Action>, w: nat)
    returns (more: seq<Action>)
    requires var s := Run(cfg, Initial(workers, replicas), actions); w < |s.workers| && s.workers[w].Idle?
    ensures AllDrain(more, w)
    ensures var s := Run(cfg, Initial(workers, replicas), actions);
            var b := Run(cfg, Initial(workers, replicas), actions + more);
            || RowCollides(cfg.h, b)
            || (|s.db.outbox| <= |b.db.outbox| &&
                forall i :: 0 <= i < |s.db.outbox| ==>
                  b.db.outbox[i].delivered && InLog(b.log, s.db.outbox[i].key, s.db.outbox[i].json))
  {
    hide Step, Initial, Refused, RowCollides, AllDue;
    var s0 := Initial(workers, replicas);
    var s := Run(cfg, s0, actions);
    var n := LatestDue(s.db.outbox);
    var ticks := seq(n, _ => Tick);
    RunTicks(cfg, s, n);
    var later := Run(cfg, s, ticks);
    assert AllDue(later.db.outbox, later.clock) by { LaterAllDue(s.db.outbox, s.clock + n); }
    var rest := DrainUntilDone(cfg, later, w);
    more := ticks + rest;
    RunConcat(cfg, s, ticks, rest);
    RunConcat(cfg, s0, actions, more);
    var b := Run(cfg, s0, actions + more);
    assert b == Run(cfg, later, rest);
    hide Run;
    AuditDeliveredExactlyOnce(cfg, workers, replicas, actions + more);
    if Refused(cfg.h, b) {
      RefusedMeansCollision(cfg.h, b);
    } else {
      assert (actions + more)[..|actions|] == actions;
      RunGrows(cfg, workers, replicas, actions + more, |actions|);
      AllDelivered(s, b);
    }
  }

  lemma LaterAllDue(outbox: seq<OutboxRow>, now: nat)
    requires now >= LatestDue(outbox)
    ensures AllDue(outbox, now)
  {
  }

  lemma AllDelivered(s: State, b: State)
    requires Grows(s, b) && Undelivered(b.db.outbox) == {} && DeliveredAreInLog(b.db.outbox, b.log)
    ensures |s.db.outbox| <= |b.db.outbox|
    ensures forall i :: 0 <= i < |s.db.outbox| ==>
              b.db.outbox[i].delivered && InLog(b.log, s.db.outbox[i].key, s.db.outbox[i].json)
  {
    hide InLog, PrimaryKeeps;
    forall i | 0 <= i < |s.db.outbox|
      ensures b.db.outbox[i].delivered && InLog(b.log, s.db.outbox[i].key, s.db.outbox[i].json)
    {
      assert OutboxRowEvolves(s.db.outbox[i], b.db.outbox[i]);
      assert i !in Undelivered(b.db.outbox);
    }
  }
}
