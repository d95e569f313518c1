/** Values shared by every component: optional results, byte strings and the
    abstract digest function. */
module Base {

  datatype Option<+T> = None | Some(value: T)

  datatype Result<+T, +E> = Ok(value: T) | Err(error: E)

  newtype byte = x: int | 0 <= x < 256

  type Bytes = seq<byte>

  // A digest is the 64-character lower-case hexadecimal text of a SHA-256 value.
  const DIGEST_LENGTH := 64

  type Digest = s: Bytes | |s| == DIGEST_LENGTH && AllHex(s) witness seq(DIGEST_LENGTH, _ => 48 as byte)

  predicate AllHex(s: Bytes) {
    forall i :: 0 <= i < |s| ==> 48 <= s[i] <= 57 || 97 <= s[i] <= 102
  }

  // The digest function itself stays abstract: any function from byte strings to
  // 64-character texts. Nothing else is ever assumed about it; collision-freeness
  // appears as a hypothesis about an explicit finite set of hashed messages.
  type Hash = Bytes -> Digest

  /** Two different messages of M have the same digest. M is always the finite set of
      messages that the computations at hand really hash, so the statement
      is not one that a counting argument could make true. */
  ghost predicate CollisionIn(h: Hash, M: set<Bytes>) {
    exists x, y {:trigger Collide(h, x, y)} :: x in M && y in M && Collide(h, x, y)
  }

  predicate Collide(h: Hash, x: Bytes, y: Bytes) {
    x != y && h(x) == h(y)
  }

  lemma NoCollision(h: Hash, M: set<Bytes>, x: Bytes, y: Bytes)
    requires !CollisionIn(h, M) && x in M && y in M && h(x) == h(y)
    ensures x == y
  {
    assert !Collide(h, x, y);
  }

  lemma CollisionGrows(h: Hash, a: set<Bytes>, b: set<Bytes>)
    requires CollisionIn(h, a) && a <= b
    ensures CollisionIn(h, b)
  {
    var x, y :| x in a && y in a && Collide(h, x, y);
    assert x in b && y in b;
  }

  /** Concatenation of a list of lists. */
  function Flatten<T>(parts: seq<seq<T>>): (s: seq<T>) {
    if parts == [] then [] else parts[0] + Flatten(parts[1..])
  }

  lemma FlattenSnoc<T>(parts: seq<seq<T>>, last: seq<T>)
    ensures Flatten(parts + [last]) == Flatten(parts) + last
  {
    if parts == [] {
      assert Flatten([last]) == last + Flatten<T>([]);
    } else {
      assert (parts + [last])[1..] == parts[1..] + [last];
      FlattenSnoc(parts[1..], last);
      assert parts[0] + (Flatten(parts[1..]) + last) == (parts[0] + Flatten(parts[1..])) + last;
    }
  }

  lemma SameFronts<T>(a: seq<T>, b: seq<T>, i: nat)
    requires i <= |a| && i <= |b| && a[..i] == b[..i]
    ensures i > 0 ==> a[0] == b[0]
  {
    assert i > 0 ==> a[..i][0] == a[0] && b[..i][0] == b[0];
  }

  /** The bytes of a text of ASCII characters. */
  function Ascii(s: string): Bytes
    requires forall i :: 0 <= i < |s| ==> s[i] < 128 as char
  {
    seq(|s|, i requires 0 <= i < |s| => s[i] as int as byte)
  }
}
