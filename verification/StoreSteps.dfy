/** The two forms of one store: a worker's uploads, scans and repair, undisturbed, have the
    effect of one call of `put_immutable` or `get`. */
module StoreSteps {
  import opened Base
  import opened ArtifactStore
  import opened Registry

  // ---------- uploading ----------

  /** The steps of one write from store `i` on: an upload for every store that answers, up to
      a refusal; a store that does not answer ends the request. */
  function PutActions(stores: seq<Store>, up: seq<bool>, digest: Bytes, bytes: Bytes, w: nat, i: nat): seq<Action>
    requires i <= |stores| == |up|
    decreases |stores| - i
  {
    if i == |stores| then []
    else if !up[i] then [Crash(w)]
    else if PutOne(stores[i], digest, bytes).Err? then [Upload(w)]
    else [Upload(w)] + PutActions(stores, up, digest, bytes, w, i + 1)
  }

  /** The registry after such a request: ready to create the stage, or given up. */
  function AfterPut(s: State, w: nat, after: seq<Store>, r: Result<(), StoreError>): State
    requires w < |s.workers| && s.workers[w].Uploading?
  {
    var done := if r.Ok? then s.workers[w].(next := |after|) else Idle;
    s.(stores := after, workers := s.workers[w := done])
  }

  lemma UploadOne(s: State, w: nat)
    requires w < |s.workers| && s.workers[w].Uploading? && s.workers[w].next < |s.stores|
    ensures var me := s.workers[w];
            var put := PutOne(s.stores[me.next], me.stage.digest, me.tarball);
            UploadStep(s, w) ==
            if put.Ok? then s.(stores := s.stores[me.next := put.value],
                               workers := s.workers[w := me.(next := me.next + 1)])
            else s.(workers := s.workers[w := Idle])
  {
    hide PutOne;
  }

  lemma {:induction false} UploadsFrom(cfg: Config, s: State, w: nat, before: seq<Store>, up: seq<bool>,
                                       after: seq<Store>, r: Result<(), StoreError>)
    requires w < |s.workers| && s.workers[w].Uploading? && s.workers[w].next <= |s.stores|
    requires |s.stores| == |before| == |up| == |after|
    requires WroteUpTo(before, s.stores, up, s.workers[w].stage.digest, s.workers[w].tarball, s.workers[w].next)
    requires PutEffect(before, after, up, s.workers[w].stage.digest, s.workers[w].tarball, r)
    ensures var me := s.workers[w];
            Run(cfg, s, PutActions(before, up, me.stage.digest, me.tarball, w, me.next)) == AfterPut(s, w, after, r)
    decreases |s.stores| - s.workers[w].next
  {
    hide Step, PutOne, WroteUpTo, PutEffect, AllHold, Refused;
    var me := s.workers[w];
    var digest, bytes, i := me.stage.digest, me.tarball, me.next;
    if i == |before| {
      WholePut(before, s.stores, up, digest, bytes);
      PutEffectIsUnique(before, s.stores, after, up, digest, bytes, Ok(()), r);
      assert s.workers[w := me.(next := |after|)] == s.workers;
    } else if !up[i] {
      EndedPut(before, s.stores, up, digest, bytes, i, Unavailable);
      PutEffectIsUnique(before, s.stores, after, up, digest, bytes, Err(Unavailable), r);
      OneStep(cfg, s, Crash(w));
      CrashIdles(cfg, s, w);
    } else {
      assert s.stores[i] == before[i] by { NotYetWritten(before, s.stores, up, digest, bytes, i); }
      UploadOne(s, w);
      OneStep(cfg, s, Upload(w));
      UploadIsStep(cfg, s, w);
      var put := PutOne(before[i], digest, bytes);
      if put.Err? {
        assert put == Err(DigestCollision) by { OnlyCollisions(before[i], digest, bytes); }
        EndedPut(before, s.stores, up, digest, bytes, i, DigestCollision);
        PutEffectIsUnique(before, s.stores, after, up, digest, bytes, Err(DigestCollision), r);
      } else {
        var next := UploadStep(s, w);
        OneMore(before, s.stores, up, digest, bytes, i, put.value);
        UploadsFrom(cfg, next, w, before, up, after, r);
        RunConcat(cfg, s, [Upload(w)], PutActions(before, up, digest, bytes, w, i + 1));
        assert AfterPut(next, w, after, r).workers == AfterPut(s, w, after, r).workers;
      }
    }
  }

  lemma OnlyCollisions(store: Store, digest: Bytes, bytes: Bytes)
    requires PutOne(store, digest, bytes).Err?
    ensures PutOne(store, digest, bytes) == Err(DigestCollision)
  {
  }

  lemma CrashIdles(cfg: Config, s: State, w: nat)
    requires w < |s.workers|
    ensures Step(cfg, s, Crash(w)) == s.(workers := s.workers[w := Idle])
  {
  }

  lemma UploadIsStep(cfg: Config, s: State, w: nat)
    ensures Step(cfg, s, Upload(w)) == UploadStep(s, w)
  {
  }

  lemma NotYetWritten(before: seq<Store>, now: seq<Store>, up: seq<bool>, digest: Bytes, bytes: Bytes, i: nat)
    requires |before| == |now| == |up| && i < |up| && WroteUpTo(before, now, up, digest, bytes, i)
    ensures now[i] == before[i]
  {
  }

  lemma OneMore(before: seq<Store>, now: seq<Store>, up: seq<bool>, digest: Bytes, bytes: Bytes, i: nat, store: Store)
    requires |before| == |now| == |up| && i < |up| && WroteUpTo(before, now, up, digest, bytes, i)
    requires up[i] && PutOne(before[i], digest, bytes) == Ok(store)
    ensures WroteUpTo(before, now[i := store], up, digest, bytes, i + 1)
  {
    hide PutOne;
  }

  lemma WholePut(before: seq<Store>, now: seq<Store>, up: seq<bool>, digest: Bytes, bytes: Bytes)
    requires |before| == |now| == |up| && WroteUpTo(before, now, up, digest, bytes, |up|)
    ensures PutEffect(before, now, up, digest, bytes, Ok(()))
  {
    forall k | 0 <= k < |now| ensures digest in now[k] && now[k][digest] == bytes {
      assert up[k] && PutOne(before[k], digest, bytes) == Ok(now[k]);
    }
  }

  lemma EndedPut(before: seq<Store>, now: seq<Store>, up: seq<bool>, digest: Bytes, bytes: Bytes, i: nat,
                 error: StoreError)
    requires |before| == |now| == |up| && i < |up| && WroteUpTo(before, now, up, digest, bytes, i)
    requires if up[i] then PutOne(before[i], digest, bytes) == Err(error) else error == Unavailable
    ensures PutEffect(before, now, up, digest, bytes, Err(error))
  {
    assert Refused(before[i], up[i], digest, bytes, error);
  }

  /** Whatever `put_immutable` may do and answer for the worker's tarball, the worker's own
      steps, undisturbed, bring the registry there. */
  lemma UploadIsAPut(cfg: Config, s: State, w: nat, up: seq<bool>, after: seq<Store>, r: Result<(), StoreError>)
    requires w < |s.workers| && s.workers[w].Uploading? && s.workers[w].next == 0
    requires |s.stores| == |up| == |after|
    requires PutEffect(s.stores, after, up, s.workers[w].stage.digest, s.workers[w].tarball, r)
    ensures var me := s.workers[w];
            Run(cfg, s, PutActions(s.stores, up, me.stage.digest, me.tarball, w, 0)) == AfterPut(s, w, after, r)
  {
    hide Run, PutEffect, PutActions, AfterPut;
    UploadsFrom(cfg, s, w, s.stores, up, after, r);
  }

  // ---------- downloading ----------

  /** The steps of one read from store `i` on. */
  function GetActions(stores: seq<Store>, up: seq<bool>, writable: bool, digest: Bytes, w: nat, i: nat): seq<Action>
    requires i <= |stores| == |up|
    decreases |stores| - i
  {
    if i == |stores| then [Scan(w)]
    else if !up[i] then [Crash(w)]
    else if digest !in stores[i] then [Scan(w)] + GetActions(stores, up, writable, digest, w, i + 1)
    else if i == 0 then [Scan(w)]
    else [Scan(w), if writable then Repair(w) else Crash(w)]
  }

  /** The registry after such a request: the answer, if there is one, was served. */
  function AfterGet(s: State, w: nat, after: seq<Store>, r: Result<Bytes, StoreError>): State
    requires w < |s.workers| && s.workers[w].Fetching?
  {
    var me := s.workers[w];
    var served := if r.Ok? then [Download(me.r, me.digest, r.value)] else [];
    s.(stores := after, served := s.served + served, workers := s.workers[w := Idle])
  }

  ghost predicate NoneBefore(stores: seq<Store>, up: seq<bool>, digest: Bytes, i: nat)
    requires i <= |stores| == |up|
  {
    forall k :: 0 <= k < i ==> up[k] && digest !in stores[k]
  }

  lemma NothingFound(stores: seq<Store>, up: seq<bool>, writable: bool, digest: Bytes)
    requires |stores| == |up| && stores != [] && NoneBefore(stores, up, digest, |stores|)
    ensures GetEffect(stores, stores, up, writable, digest, Err(NotFound))
  {
  }

  lemma OnlyThere(stores: seq<Store>, up: seq<bool>, digest: Bytes, i: nat, k: nat)
    requires i < |stores| == |up| && NoneBefore(stores, up, digest, i) && (up[i] ==> digest in stores[i])
    requires k < |stores| && FirstWith(stores, up, digest, k)
    ensures k == i && up[i]
  {
  }

  lemma CutShort(stores: seq<Store>, up: seq<bool>, writable: bool, digest: Bytes, i: nat)
    requires i < |stores| == |up| && NoneBefore(stores, up, digest, i)
    requires !up[i] || (digest in stores[i] && i > 0 && !writable)
    ensures GetEffect(stores, stores, up, writable, digest, Err(Unavailable))
  {
    forall k | 0 <= k < |stores| && FirstWith(stores, up, digest, k) ensures k > 0 && !writable {
      OnlyThere(stores, up, digest, i, k);
    }
  }

  lemma FoundAt(stores: seq<Store>, up: seq<bool>, writable: bool, digest: Bytes, i: nat)
    requires i < |stores| == |up| && NoneBefore(stores, up, digest, i)
    requires up[i] && digest in stores[i] && (i == 0 || writable)
    ensures GetEffect(stores, stores[0 := stores[0][digest := stores[i][digest]]], up, writable, digest,
                      Ok(stores[i][digest]))
  {
    assert FirstWith(stores, up, digest, i);
    forall k | 0 <= k < |stores| && FirstWith(stores, up, digest, k) ensures k == i {
      OnlyThere(stores, up, digest, i, k);
    }
  }

  lemma {:induction false} ScansFrom(cfg: Config, s: State, w: nat, up: seq<bool>, writable: bool,
                                     after: seq<Store>, r: Result<Bytes, StoreError>)
    requires w < |s.workers| && s.workers[w].Fetching? && s.workers[w].at <= |s.stores|
    requires |s.stores| == |up| == |after| && s.stores != []
    requires NoneBefore(s.stores, up, s.workers[w].digest, s.workers[w].at)
    requires GetEffect(s.stores, after, up, writable, s.workers[w].digest, r)
    ensures var me := s.workers[w];
            Run(cfg, s, GetActions(s.stores, up, writable, me.digest, w, me.at)) == AfterGet(s, w, after, r)
    decreases |s.stores| - s.workers[w].at
  {
    hide Step, GetEffect;
    var me := s.workers[w];
    var digest, i := me.digest, me.at;
    OneStep(cfg, s, Scan(w));
    OneStep(cfg, s, Crash(w));
    CrashIdles(cfg, s, w);
    ScanOne(cfg, s, w);
    if i == |s.stores| {
      NothingFound(s.stores, up, writable, digest);
      GetEffectIsUnique(s.stores, s.stores, after, up, writable, digest, Err(NotFound), r);
    } else if !up[i] {
      CutShort(s.stores, up, writable, digest, i);
      GetEffectIsUnique(s.stores, s.stores, after, up, writable, digest, Err(Unavailable), r);
    } else if digest !in s.stores[i] {
      var next := ScanStep(s, w);
      ScansFrom(cfg, next, w, up, writable, after, r);
      RunConcat(cfg, s, [Scan(w)], GetActions(s.stores, up, writable, digest, w, i + 1));
      assert AfterGet(next, w, after, r).workers == AfterGet(s, w, after, r).workers;
    } else if i == 0 || writable {
      var fixed := s.stores[0 := s.stores[0][digest := s.stores[i][digest]]];
      FoundAt(s.stores, up, writable, digest, i);
      GetEffectIsUnique(s.stores, fixed, after, up, writable, digest, Ok(s.stores[i][digest]), r);
      if i == 0 { assert fixed[0] == s.stores[0]; } else { RepairFound(cfg, s, w); }
    } else {
      CutShort(s.stores, up, writable, digest, i);
      GetEffectIsUnique(s.stores, s.stores, after, up, writable, digest, Err(Unavailable), r);
      TwoSteps(cfg, s, Scan(w), Crash(w));
      CrashIdles(cfg, ScanStep(s, w), w);
    }
  }

  lemma ScanOne(cfg: Config, s: State, w: nat)
    requires w < |s.workers| && s.workers[w].Fetching? && s.stores != []
    ensures Step(cfg, s, Scan(w)) == ScanStep(s, w)
  {
  }

  /** A scan that finds the object in a replica, and the repair after it. */
  lemma RepairFound(cfg: Config, s: State, w: nat)
    requires w < |s.workers| && s.workers[w].Fetching? && 0 < s.workers[w].at < |s.stores|
    requires s.workers[w].digest in s.stores[s.workers[w].at] && s.workers[w].digest !in s.stores[0]
    ensures var me := s.workers[w];
            var bytes := s.stores[me.at][me.digest];
            Run(cfg, s, [Scan(w), Repair(w)]) ==
            AfterGet(s, w, s.stores[0 := s.stores[0][me.digest := bytes]], Ok(bytes))
  {
    TwoSteps(cfg, s, Scan(w), Repair(w));
    hide Run;
  }

  /** Whatever `get` may do and answer for the digest the worker read, the worker's own steps,
      undisturbed, bring the registry there and serve just that answer. */
  lemma FetchIsAGet(cfg: Config, s: State, w: nat, up: seq<bool>, writable: bool, after: seq<Store>,
                    r: Result<Bytes, StoreError>)
    requires w < |s.workers| && s.workers[w].Fetching? && s.workers[w].at == 0
    requires |s.stores| == |up| == |after| && s.stores != []
    requires GetEffect(s.stores, after, up, writable, s.workers[w].digest, r)
    ensures Run(cfg, s, GetActions(s.stores, up, writable, s.workers[w].digest, w, 0)) == AfterGet(s, w, after, r)
  {
    hide Run, GetEffect, GetActions, AfterGet;
    ScansFrom(cfg, s, w, up, writable, after, r);
  }
}
