/** The running registry: any number of workers serve requests and drain the outbox at the
    same time. A database transaction is one step, a store access is one step, and a worker
    may crash between any two of its steps. */
module Registry {
  import opened Base
  import opened EventLog
  import opened SemVer
  import opened ControlPlane
  import opened ArtifactStore

  /** `parse` reads a semantic version; `limit` is the quota of undecided stages. */
  datatype Config = Config(h: Hash, parse: Bytes -> Option<Version>, limit: nat)

  const DRAIN_LIMIT: nat := 100

  // "deny"
  const DENY: Bytes := [100, 101, 110, 121]

  datatype Pending = Pending(id: nat, key: EventKey, json: Bytes)

  datatype Delivery = Fetched | Appended | Failed

  /** What a worker is in the middle of; everything it read earlier may be out of date. */
  datatype Worker =
    | Idle
    | Uploading(stage: Stage, tarball: Bytes, json: Bytes, next: nat)
    | Deciding(snapshot: Stage, approve: bool, event: Bytes)
    | Draining(rows: seq<Pending>, head: Delivery)
    | Fetching(r: Ref, digest: Bytes, at: nat)
    | Repairing(of: Ref, key: Bytes, bytes: Bytes)

  datatype Download = Download(r: Ref, digest: Bytes, bytes: Bytes)

  /** The primary store is `stores[0]`. The last four fields are history: every tarball ever
      submitted, the tarball assessed for each stage, every body served, and every digest
      the primary has ever lost. */
  datatype State = State(
    db: Db, log: seq<Event>, stores: seq<Store>, workers: seq<Worker>, clock: nat,
    submitted: set<Bytes>, assessed: map<Bytes, Bytes>, served: seq<Download>, lost: set<Bytes>)

  /** An append may fail before its transaction, or after it with the answer lost. */
  datatype Fault = NoFault | BeforeCommit | AfterCommit

  datatype Action =
    | Submit(w: nat, stage: Stage, tarball: Bytes, json: Bytes)
    | Upload(w: nat)
    | CreateStage(w: nat)
    | ReadStage(w: nat, id: Bytes, approve: bool, json: Bytes)
    | Decide(w: nat)
    | Revoke(r: Ref, tombstone: Tombstone, rows: seq<Bytes>, json: Bytes)
    | FetchPending(w: nat)
    | Append(w: nat, fault: Fault)
    | Acknowledge(w: nat)
    | ReadVersion(w: nat, r: Ref)
    | Scan(w: nat)
    | Repair(w: nat)
    | Crash(w: nat)
    | DirectAppend(json: Bytes)
    | LosePrimary(digest: Bytes)
    | Tick

  function Initial(workers: nat, replicas: nat): State {
    State(EMPTY_DB, [], seq(replicas + 1, _ => map[]), seq(workers, _ => Idle), 0, {}, map[], [], {})
  }

  function At(s: State, w: nat): Worker {
    if w < |s.workers| then s.workers[w] else Idle
  }

  function Become(s: State, w: nat, worker: Worker): State {
    if w < |s.workers| then s.(workers := s.workers[w := worker]) else s
  }

  // ---------- staging ----------

  /** The handler's checks; assessment itself is an opaque function of the tarball. */
  function SubmitStep(cfg: Config, s: State, w: nat, stage: Stage, tarball: Bytes, json: Bytes): State {
    if w < |s.workers| && s.workers[w].Idle? && cfg.parse(stage.version).Some?
       && stage.digest == cfg.h(tarball) && stage.status == Staged
    then Become(s.(submitted := s.submitted + {tarball}), w, Uploading(stage, tarball, json, 0))
    else s
  }

  function UploadStep(s: State, w: nat): State {
    match At(s, w)
    case Uploading(stage, tarball, json, next) =>
      if next >= |s.stores| then s
      else (
        match PutOne(s.stores[next], stage.digest, tarball)
        case Ok(store) => Become(s.(stores := s.stores[next := store]), w, Uploading(stage, tarball, json, next + 1))
        case Err(_) => Become(s, w, Idle)
      )
    case _ => s
  }

  function CreateStageStep(cfg: Config, s: State, w: nat): State {
    match At(s, w)
    case Uploading(stage, tarball, json, next) =>
      if next != |s.stores| then s
      else
        var outcome := CreateStageTx(s.db, stage, StageCreated(stage.id), json, cfg.limit, s.clock);
        var assessed := if outcome.Committed? then s.assessed[stage.id := tarball] else s.assessed;
        Become(s.(db := After(s.db, outcome), assessed := assessed), w, Idle)
    case _ => s
  }

  // ---------- deciding and revoking ----------

  function ReadStageStep(s: State, w: nat, id: Bytes, approve: bool, json: Bytes): State {
    if At(s, w).Idle? && id in s.db.stages && !(approve && s.db.stages[id].verdict == Some(DENY))
    then Become(s, w, Deciding(s.db.stages[id], approve, json))
    else s
  }

  function DecideStep(s: State, w: nat): State {
    match At(s, w)
    case Deciding(stage, approve, json) =>
      var outcome := DecideStageTx(s.db, stage, approve, DecisionKey(stage.id, approve), json, s.clock);
      Become(s.(db := After(s.db, outcome)), w, Idle)
    case _ => s
  }

  /** `rows` is any answer the SELECT of active versions may give. */
  ghost function RevokeStep(cfg: Config, s: State, r: Ref, tombstone: Tombstone, rows: seq<Bytes>, json: Bytes): State {
    if tombstone.status != Active
       && (r in s.db.versions ==> Lists(rows, ActiveVersions(EndVersion(s.db.versions, r, tombstone.status), r.name)))
    then
      var key := RevokeKey(r, tombstone.status);
      s.(db := After(s.db, RevokeTx(s.db, cfg.parse, r, tombstone, rows, key, json, s.clock)))
    else s
  }

  // ---------- draining the outbox ----------

  function ReadRows(outbox: seq<OutboxRow>, ids: seq<nat>): (rows: seq<Pending>)
    requires forall i :: 0 <= i < |ids| ==> ids[i] < |outbox|
    ensures |rows| == |ids|
    ensures forall i :: 0 <= i < |ids| ==> rows[i] == Pending(ids[i], outbox[ids[i]].key, outbox[ids[i]].json)
  {
    seq(|ids|, i requires 0 <= i < |ids| => Pending(ids[i], outbox[ids[i]].key, outbox[ids[i]].json))
  }

  lemma {:induction false} PendingAreRows(outbox: seq<OutboxRow>, now: nat, limit: nat, at: nat)
    requires at <= |outbox|
    ensures forall i :: 0 <= i < |PendingOutbox(outbox, now, limit, at)| ==>
              at <= PendingOutbox(outbox, now, limit, at)[i] < |outbox|
    decreases |outbox| - at
  {
    if at < |outbox| && limit > 0 {
      PendingAreRows(outbox, now, limit - 1, at + 1);
      PendingAreRows(outbox, now, limit, at + 1);
    }
  }

  function FetchPendingStep(s: State, w: nat): State {
    if At(s, w).Idle? then
      var ids := PendingOutbox(s.db.outbox, s.clock, DRAIN_LIMIT, 0);
      PendingAreRows(s.db.outbox, s.clock, DRAIN_LIMIT, 0);
      Become(s, w, Draining(ReadRows(s.db.outbox, ids), Fetched))
    else s
  }

  function AppendStep(cfg: Config, s: State, w: nat, fault: Fault): State {
    match At(s, w)
    case Draining(rows, Fetched) =>
      if rows == [] then Become(s, w, Idle)
      else (
        match AppendKeyed(cfg.h, s.log, rows[0].key, rows[0].json)
        case Ok(log) =>
          if fault.BeforeCommit? then Become(s, w, Draining(rows, Failed))
          else Become(s.(log := log), w, Draining(rows, if fault.AfterCommit? then Failed else Appended))
        case Err(_) => Become(s, w, Draining(rows, Failed))
      )
    case _ => s
  }

  function AcknowledgeStep(s: State, w: nat): State {
    match At(s, w)
    case Draining(rows, head) =>
      if rows == [] || head == Fetched then s
      else
        var db := if head == Appended then MarkDelivered(s.db, rows[0].id) else RetryOutbox(s.db, rows[0].id, s.clock);
        Become(s.(db := db), w, Draining(rows[1..], Fetched))
    case _ => s
  }

  function DirectAppendStep(cfg: Config, s: State, json: Bytes): State {
    match AppendDirect(cfg.h, s.log, json)
    case Ok(log) => s.(log := log)
    case Err(_) => s
  }

  // ---------- downloading ----------

  function ReadVersionStep(s: State, w: nat, r: Ref): State {
    if At(s, w).Idle? && r in s.db.versions && s.db.versions[r].status == Active
    then Become(s, w, Fetching(r, s.db.versions[r].digest, 0))
    else s
  }

  /** One look at one store. A worker past the last store reports that nothing was found. */
  function ScanStep(s: State, w: nat): State {
    match At(s, w)
    case Fetching(r, digest, at) =>
      if at >= |s.stores| then Become(s, w, Idle)
      else if digest !in s.stores[at] then Become(s, w, Fetching(r, digest, at + 1))
      else if at > 0 then Become(s, w, Repairing(r, digest, s.stores[at][digest]))
      else Become(s.(served := s.served + [Download(r, digest, s.stores[0][digest])]), w, Idle)
    case _ => s
  }

  function RepairStep(s: State, w: nat): State {
    match At(s, w)
    case Repairing(r, digest, bytes) =>
      if s.stores == [] then s
      else (
        match PutOne(s.stores[0], digest, bytes)
        case Ok(store) =>
          Become(s.(stores := s.stores[0 := store], served := s.served + [Download(r, digest, bytes)]), w, Idle)
        case Err(_) => Become(s, w, Idle)
      )
    case _ => s
  }

  function LosePrimaryStep(s: State, digest: Bytes): State {
    if s.stores == [] then s
    else s.(stores := s.stores[0 := s.stores[0] - {digest}], lost := s.lost + {digest})
  }

  // ---------- runs ----------

  ghost function Step(cfg: Config, s: State, a: Action): State {
    match a
    case Submit(w, stage, tarball, json) => SubmitStep(cfg, s, w, stage, tarball, json)
    case Upload(w) => UploadStep(s, w)
    case CreateStage(w) => CreateStageStep(cfg, s, w)
    case ReadStage(w, id, approve, json) => ReadStageStep(s, w, id, approve, json)
    case Decide(w) => DecideStep(s, w)
    case Revoke(r, tombstone, rows, json) => RevokeStep(cfg, s, r, tombstone, rows, json)
    case FetchPending(w) => FetchPendingStep(s, w)
    case Append(w, fault) => AppendStep(cfg, s, w, fault)
    case Acknowledge(w) => AcknowledgeStep(s, w)
    case ReadVersion(w, r) => ReadVersionStep(s, w, r)
    case Scan(w) => ScanStep(s, w)
    case Repair(w) => RepairStep(s, w)
    case Crash(w) => Become(s, w, Idle)
    case DirectAppend(json) => DirectAppendStep(cfg, s, json)
    case LosePrimary(digest) => LosePrimaryStep(s, digest)
    case Tick => s.(clock := s.clock + 1)
  }

  /** The state after any sequence of steps by any workers in any order. */
  ghost function Run(cfg: Config, s: State, actions: seq<Action>): State {
    if actions == [] then s
    else Step(cfg, Run(cfg, s, actions[..|actions| - 1]), actions[|actions| - 1])
  }
  lemma {:induction false} RunConcat(cfg: Config, s: State, a: seq<Action>, b: seq<Action>)
    ensures Run(cfg, s, a + b) == Run(cfg, Run(cfg, s, a), b)
    decreases |b|
  {
    hide Step;
    if b == [] {
      assert a + b == a;
    } else {
      assert (a + b)[..|a + b| - 1] == a + b[..|b| - 1];
      RunConcat(cfg, s, a, b[..|b| - 1]);
    }
  }

  lemma TwoSteps(cfg: Config, s: State, a: Action, b: Action)
    ensures Run(cfg, s, [a, b]) == Step(cfg, Step(cfg, s, a), b)
  {
    hide Step;
    assert [a, b][..1] == [a] && [a][..0] == [];
    assert Run(cfg, s, [a]) == Step(cfg, s, a);
  }

  lemma OneStep(cfg: Config, s: State, a: Action)
    ensures Run(cfg, s, [a]) == Step(cfg, s, a)
  {
    hide Step;
    assert [a][..0] == [];
  }
}
