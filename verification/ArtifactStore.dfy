/** Content-addressed object stores: a primary and its replicas, create-only writes, and
    reads that repair the primary from a replica. */
module ArtifactStore {
  import opened Base

  type Store = map<Bytes, Bytes>

  datatype StoreError = Unavailable | DigestCollision | NotFound

  /** `put_one`: create if absent; an object already there must have the same bytes. */
  function PutOne(store: Store, digest: Bytes, bytes: Bytes): Result<Store, StoreError> {
    if digest !in store then Ok(store[digest := bytes])
    else if store[digest] == bytes then Ok(store)
    else Err(DigestCollision)
  }

  /** Every object is one of the given byte strings, stored under its own digest. */
  ghost predicate Honest(h: Hash, store: Store, submitted: set<Bytes>) {
    forall d :: d in store ==> store[d] in submitted && h(store[d]) == d
  }

  ghost predicate Keeps(before: Store, after: Store) {
    forall d :: d in before ==> d in after && after[d] == before[d]
  }

  ghost predicate AllHold(stores: seq<Store>, digest: Bytes, bytes: Bytes) {
    forall k :: 0 <= k < |stores| ==> digest in stores[k] && stores[k][digest] == bytes
  }

  /** Two stores that share a digest share its bytes, or two submitted byte strings collide. */
  lemma StoresAgree(h: Hash, a: Store, b: Store, submitted: set<Bytes>, digest: Bytes)
    requires Honest(h, a, submitted) && Honest(h, b, submitted) && digest in a && digest in b
    ensures a[digest] == b[digest] || CollisionIn(h, submitted)
  {
    if a[digest] != b[digest] { assert Collide(h, a[digest], b[digest]); }
  }

  /** A write keeps every object, leaves the bytes under their digest, and is refused only
      when two submitted byte strings collide. */
  lemma PutOneIsSafe(h: Hash, store: Store, submitted: set<Bytes>, bytes: Bytes)
    requires Honest(h, store, submitted) && bytes in submitted
    ensures var r := PutOne(store, h(bytes), bytes);
            if r.Ok? then
              && Honest(h, r.value, submitted) && Keeps(store, r.value)
              && h(bytes) in r.value && r.value[h(bytes)] == bytes
              && r.value.Keys == store.Keys + {h(bytes)}
            else CollisionIn(h, submitted)
  {
    if h(bytes) in store && store[h(bytes)] != bytes { assert Collide(h, store[h(bytes)], bytes); }
  }

  /** The first `n` stores were written, the others are as they were. */
  ghost predicate WroteUpTo(before: seq<Store>, after: seq<Store>, up: seq<bool>, digest: Bytes, bytes: Bytes, n: nat)
    requires |before| == |after| == |up| && n <= |up|
  {
    && (forall k :: 0 <= k < n ==> up[k] && PutOne(before[k], digest, bytes) == Ok(after[k]))
    && (forall k :: n <= k < |after| ==> after[k] == before[k])
  }

  /** Store `n` did not answer, or holds other bytes under the digest. */
  ghost predicate Refused(store: Store, up: bool, digest: Bytes, bytes: Bytes, error: StoreError) {
    if up then error == DigestCollision && digest in store && store[digest] != bytes else error == Unavailable
  }

  /** Store `k` has the object, no store before it has, and all of them answered. */
  ghost predicate FirstWith(stores: seq<Store>, up: seq<bool>, digest: Bytes, k: nat)
    requires |stores| == |up| && k < |stores|
  {
    digest in stores[k] && forall j :: 0 <= j <= k ==> up[j] && (j < k ==> digest !in stores[j])
  }

  /** What a write to all stores does and answers: the first failure ends it and leaves the
      rest untouched. */
  ghost predicate PutEffect(before: seq<Store>, after: seq<Store>, up: seq<bool>, digest: Bytes, bytes: Bytes,
                            r: Result<(), StoreError>)
    requires |before| == |after| == |up|
  {
    if r.Ok? then AllHold(after, digest, bytes) && WroteUpTo(before, after, up, digest, bytes, |up|)
    else exists n :: 0 <= n < |up| && WroteUpTo(before, after, up, digest, bytes, n)
                     && Refused(before[n], up[n], digest, bytes, r.error)
  }

  /** What a read does and answers: the first store with the object decides, unless a store
      before it does not answer; a replica's answer is first written back to the primary. */
  ghost predicate GetEffect(before: seq<Store>, after: seq<Store>, up: seq<bool>, writable: bool, digest: Bytes,
                            r: Result<Bytes, StoreError>)
    requires |before| == |after| == |up| && before != []
  {
    && (r.Ok? <==> exists k :: 0 <= k < |before| && FirstWith(before, up, digest, k) && (k == 0 || writable))
    && (forall k :: 0 <= k < |before| && FirstWith(before, up, digest, k) && r.Ok? ==> before[k][digest] == r.value)
    && after == (if r.Ok? then before[0 := before[0][digest := r.value]] else before)
    && (r == Err(NotFound) <==> forall k :: 0 <= k < |up| ==> up[k] && digest !in before[k])
    && r != Err(DigestCollision)
  }

  /** The effect settles both the answer and the stores. */
  lemma PutEffectIsUnique(before: seq<Store>, a: seq<Store>, b: seq<Store>, up: seq<bool>, digest: Bytes, bytes: Bytes,
                          r: Result<(), StoreError>, q: Result<(), StoreError>)
    requires |before| == |a| == |b| == |up|
    requires PutEffect(before, a, up, digest, bytes, r) && PutEffect(before, b, up, digest, bytes, q)
    ensures a == b && r == q
  {
    var n := PutReach(before, a, up, digest, bytes, r);
    var m := PutReach(before, b, up, digest, bytes, q);
    StopsThere(before, b, up, digest, bytes, m, n);
    StopsThere(before, a, up, digest, bytes, n, m);
    forall k | 0 <= k < |up| ensures a[k] == b[k] {
      if k < n { assert PutOne(before[k], digest, bytes) == Ok(a[k]) && PutOne(before[k], digest, bytes) == Ok(b[k]); }
    }
    if r.Ok? { assert r.value == () == q.value; }
  }

  /** How many stores were written. */
  lemma PutReach(before: seq<Store>, after: seq<Store>, up: seq<bool>, digest: Bytes, bytes: Bytes,
                 r: Result<(), StoreError>)
    returns (n: nat)
    requires |before| == |after| == |up| && PutEffect(before, after, up, digest, bytes, r)
    ensures n <= |up| && WroteUpTo(before, after, up, digest, bytes, n)
    ensures n == |up| <==> r.Ok?
    ensures r.Err? ==> Refused(before[n], up[n], digest, bytes, r.error)
  {
    if r.Ok? {
      n := |up|;
    } else {
      n :| 0 <= n < |up| && WroteUpTo(before, after, up, digest, bytes, n)
           && Refused(before[n], up[n], digest, bytes, r.error);
    }
  }

  lemma StopsThere(before: seq<Store>, after: seq<Store>, up: seq<bool>, digest: Bytes, bytes: Bytes, m: nat, n: nat)
    requires |before| == |after| == |up| && m <= |up| && n <= |up| && WroteUpTo(before, after, up, digest, bytes, m)
    requires n < |up| ==> !up[n] || PutOne(before[n], digest, bytes).Err?
    ensures m <= n
  {
  }

  lemma GetEffectIsUnique(before: seq<Store>, a: seq<Store>, b: seq<Store>, up: seq<bool>, writable: bool,
                          digest: Bytes, r: Result<Bytes, StoreError>, q: Result<Bytes, StoreError>)
    requires |before| == |a| == |b| == |up| && before != []
    requires GetEffect(before, a, up, writable, digest, r) && GetEffect(before, b, up, writable, digest, q)
    ensures a == b && r == q
  {
    if r.Ok? {
      var k :| 0 <= k < |before| && FirstWith(before, up, digest, k) && (k == 0 || writable);
      assert before[k][digest] == r.value == q.value;
    } else {
      assert q.Err? && (r.error.NotFound? <==> q.error.NotFound?);
      assert !r.error.DigestCollision? && !q.error.DigestCollision?;
    }
  }

  /** The stores behind one registry. `up` says which of them answer during a call, the
      primary first. */
  class ArtifactStore {
    var primary: Store
    var replicas: seq<Store>

    function All(): (stores: seq<Store>)
      reads this
    {
      [primary] + replicas
    }

    constructor (primary: Store, replicas: seq<Store>)
      ensures All() == [primary] + replicas
    {
      this.primary := primary;
      this.replicas := replicas;
    }

    /** Stores are written in order, the primary first. */
    method PutImmutable(digest: Bytes, bytes: Bytes, up: seq<bool>) returns (r: Result<(), StoreError>)
      requires |up| == |All()|
      modifies this
      ensures |All()| == |old(All())| && PutEffect(old(All()), All(), up, digest, bytes, r)
    {
      ghost var before := All();
      assert WroteUpTo(before, All(), up, digest, bytes, 0);
      if !up[0] { return Err(Unavailable); }
      var first := PutOne(primary, digest, bytes);
      if first.Err? { return Err(first.error); }
      primary := first.value;
      var i := 0;
      while i < |replicas|
        invariant 0 <= i <= |replicas| && |All()| == |before|
        invariant WroteUpTo(before, All(), up, digest, bytes, i + 1)
      {
        assert before[i + 1] == All()[i + 1] == replicas[i];
        if !up[i + 1] { return Err(Unavailable); }
        var put := PutOne(replicas[i], digest, bytes);
        if put.Err? { return Err(put.error); }
        ghost var was := All();
        replicas := replicas[i := put.value];
        assert All() == was[i + 1 := put.value];
        i := i + 1;
      }
      return Ok(());
    }

    /** `writable` says whether the write back to the primary is answered. */
    method Get(digest: Bytes, up: seq<bool>, writable: bool) returns (r: Result<Bytes, StoreError>)
      requires |up| == |All()|
      modifies this`primary
      ensures GetEffect(old(All()), All(), up, writable, digest, r)
    {
      ghost var all := All();
      if !up[0] { return Err(Unavailable); }
      if digest in primary {
        assert FirstWith(all, up, digest, 0) && primary[digest := primary[digest]] == primary;
        return Ok(primary[digest]);
      }
      assert digest !in all[0];
      var i := 0;
      while i < |replicas|
        invariant 0 <= i <= |replicas| && primary == old(primary)
        invariant forall k :: 0 <= k <= i ==> up[k] && digest !in all[k]
      {
        if !up[i + 1] { return Err(Unavailable); }
        if digest in replicas[i] {
          assert FirstWith(all, up, digest, i + 1);
          var bytes := replicas[i][digest];
          if !writable { return Err(Unavailable); }
          var put := PutOne(primary, digest, bytes);
          primary := put.value;
          return Ok(bytes);
        }
        assert digest !in all[i + 1];
        i := i + 1;
      }
      return Err(NotFound);
    }
  }
}
