/** The byte order of strings, as the standard library compares them. */
module ByteOrder {
  import opened Base

  predicate Before(a: Bytes, b: Bytes) {
    if b == [] then false
    else if a == [] then true
    else a[0] < b[0] || (a[0] == b[0] && Before(a[1..], b[1..]))
  }

  lemma {:induction false} BeforeIsTotal(a: Bytes, b: Bytes)
    ensures Before(a, b) || a == b || Before(b, a)
    ensures !(Before(a, b) && Before(b, a)) && !Before(a, a)
  {
    if a != [] { BeforeIsTotal(a[1..], a[1..]); }
    if a != [] && b != [] {
      BeforeIsTotal(a[1..], b[1..]);
      if a[0] == b[0] && a[1..] == b[1..] { assert a == [a[0]] + a[1..] && b == [b[0]] + b[1..]; }
    }
  }

  lemma {:induction false} BeforeIsTransitive(a: Bytes, b: Bytes, c: Bytes)
    requires Before(a, b) && Before(b, c)
    ensures Before(a, c)
  {
    if a != [] && a[0] == b[0] && b[0] == c[0] { BeforeIsTransitive(a[1..], b[1..], c[1..]); }
  }

  /** Byte b comes first at place i, and the strings agree before it. */
  predicate DiffersFirstAt(a: Bytes, b: Bytes, i: nat) {
    i < |a| && i < |b| && a[..i] == b[..i] && a[i] < b[i]
  }

  /** The first byte that differs decides, and a proper prefix comes before the longer string. */
  lemma {:induction false} BeforeExactly(a: Bytes, b: Bytes)
    ensures Before(a, b) <==> a < b || exists i: nat :: DiffersFirstAt(a, b, i)
  {
    if a != [] && b != [] && a[0] == b[0] {
      BeforeExactly(a[1..], b[1..]);
      assert a == [a[0]] + a[1..] && b == [b[0]] + b[1..];
      if i: nat :| DiffersFirstAt(a[1..], b[1..], i) {
        assert a[..i + 1] == [a[0]] + a[1..][..i] && b[..i + 1] == [b[0]] + b[1..][..i];
        assert DiffersFirstAt(a, b, i + 1);
      }
      if i: nat :| DiffersFirstAt(a, b, i) {
        assert a[1..][..i - 1] == a[..i][1..] && b[1..][..i - 1] == b[..i][1..];
        assert DiffersFirstAt(a[1..], b[1..], i - 1);
      }
    } else if a != [] && b != [] {
      assert a[0] < b[0] ==> DiffersFirstAt(a, b, 0);
      forall i: nat | DiffersFirstAt(a, b, i) ensures i == 0 { SameFronts(a, b, i); }
    }
  }
}
