/** Searching, splitting and comparing strings, as Rust's `str` methods do. */
module Strings {
  import opened Base
  import opened ByteOrder

  /** `rfind` of one character. */
  function LastIndexOf(s: string, c: char): (r: Option<nat>)
    ensures r.None? <==> c !in s
    ensures r.Some? ==> r.value < |s| && s[r.value] == c && c !in s[r.value + 1..]
  {
    if s == [] then None
    else if s[|s| - 1] == c then Some(|s| - 1)
    else
      assert s == s[..|s| - 1] + [s[|s| - 1]];
      var r := LastIndexOf(s[..|s| - 1], c);
      assert r.Some? ==> s[r.value + 1..] == s[..|s| - 1][r.value + 1..] + [s[|s| - 1]];
      r
  }

  /** The last occurrence is the only one with no later one. */
  lemma LastIndexIs(s: string, c: char, i: nat)
    requires i < |s| && s[i] == c && c !in s[i + 1..]
    ensures LastIndexOf(s, c) == Some(i)
  {
    var r := LastIndexOf(s, c);
    assert s[i] in s;
    forall k | r.value < k < |s| ensures s[k] != c { assert s[r.value + 1..][k - r.value - 1] == s[k]; }
    forall k | i < k < |s| ensures s[k] != c { assert s[i + 1..][k - i - 1] == s[k]; }
  }

  predicate OccursAt(s: string, pattern: string, i: nat) {
    i + |pattern| <= |s| && s[i..i + |pattern|] == pattern
  }

  /** An occurrence in a part is one in the whole. */
  lemma OccursInWhole(s: string, from: nat, part: string, pattern: string, j: nat)
    requires from <= |s| && part <= s[from..] && OccursAt(part, pattern, j)
    ensures OccursAt(s, pattern, from + j)
  {
    assert part[j..j + |pattern|] == s[from + j..from + j + |pattern|] by {
      assert part == s[from..from + |part|];
    }
  }

  /** One character that differs rules an occurrence out. */
  lemma DiffersAt(s: string, pattern: string, i: nat, k: nat)
    requires k < |pattern| && (i + k < |s| ==> s[i + k] != pattern[k])
    ensures !OccursAt(s, pattern, i)
  {
    assert i + |pattern| <= |s| ==> s[i..i + |pattern|][k] == s[i + k];
  }

  predicate Contains(s: string, pattern: string) {
    exists i :: 0 <= i <= |s| && OccursAt(s, pattern, i)
  }

  /** The first occurrence at or after `from`. */
  function FirstIndexFrom(s: string, pattern: string, from: nat): (r: Option<nat>)
    requires from <= |s|
    ensures r.Some? ==> from <= r.value && OccursAt(s, pattern, r.value)
                        && forall j :: from <= j < r.value ==> !OccursAt(s, pattern, j)
    ensures r.None? ==> forall j :: from <= j <= |s| ==> !OccursAt(s, pattern, j)
    decreases |s| - from
  {
    if OccursAt(s, pattern, from) then Some(from)
    else if from == |s| then None
    else FirstIndexFrom(s, pattern, from + 1)
  }

  function FirstIndexOf(s: string, pattern: string): Option<nat> { FirstIndexFrom(s, pattern, 0) }

  /** The last occurrence that starts at or before `upto`. */
  function LastOccurrence(s: string, pattern: string, upto: nat): (r: Option<nat>)
    ensures r.Some? ==> r.value <= upto && OccursAt(s, pattern, r.value)
                        && forall j :: r.value < j <= upto ==> !OccursAt(s, pattern, j)
    ensures r.None? ==> forall j :: 0 <= j <= upto ==> !OccursAt(s, pattern, j)
  {
    if OccursAt(s, pattern, upto) then Some(upto)
    else if upto == 0 then None
    else LastOccurrence(s, pattern, upto - 1)
  }

  /** `split(c).next()`: everything before the first separator. */
  function UpTo(s: string, c: char): (r: string)
    ensures r <= s && c !in r && (r == s || s[|r|] == c)
  {
    if s == [] || s[0] == c then [] else [s[0]] + UpTo(s[1..], c)
  }

  lemma UpToIs(front: string, c: char, rest: string)
    requires c !in front && (rest == "" || rest[0] == c)
    ensures UpTo(front + rest, c) == front
  {
    var s := front + rest;
    var r := UpTo(s, c);
    forall k | 0 <= k < |r| ensures s[k] != c { assert r[k] in r; }
    forall k | 0 <= k < |front| ensures s[k] != c { assert front[k] in front; }
    assert rest != "" ==> s[|front|] == c;
    assert |r| == |front|;
    assert s[..|front|] == front;
  }

  function ReplaceAll(s: string, pattern: string, with: string): string
    requires pattern != ""
    decreases |s|
  {
    match FirstIndexOf(s, pattern)
    case None => s
    case Some(i) => s[..i] + with + ReplaceAll(s[i + |pattern|..], pattern, with)
  }

  // ---------- order ----------

  /** The UTF-8 bytes of one character. */
  function Utf8Char(c: char): Bytes {
    var n := c as int;
    if n < 0x80 then [n as byte]
    else if n < 0x800 then [(0xC0 + n / 64) as byte, Continuation(n)]
    else if n < 0x1_0000 then [(0xE0 + n / 4096) as byte, Continuation(n / 64), Continuation(n)]
    else [(0xF0 + n / 262144) as byte, Continuation(n / 4096), Continuation(n / 64), Continuation(n)]
  }

  function Continuation(n: int): byte { (0x80 + n % 64) as byte }

  function Utf8(s: string): Bytes {
    if s == [] then [] else Utf8Char(s[0]) + Utf8(s[1..])
  }

  /** The first byte tells how many bytes the character has. */
  function Utf8Width(first: byte): nat {
    if first < 0x80 then 1 else if first < 0xE0 then 2 else if first < 0xF0 then 3 else 4
  }

  lemma Utf8CharWidth(c: char)
    ensures Utf8Char(c) != [] && |Utf8Char(c)| == Utf8Width(Utf8Char(c)[0])
  {
  }

  lemma Utf8CharIsInjective(c: char, d: char)
    requires Utf8Char(c) == Utf8Char(d)
    ensures c == d
  {
    var m, n := c as int, d as int;
    assert m == 64 * (m / 64) + m % 64 && n == 64 * (n / 64) + n % 64;
    assert m / 4096 == m / 64 / 64 && n / 4096 == n / 64 / 64;
    assert m / 262144 == m / 64 / 64 / 64 && n / 262144 == n / 64 / 64 / 64;
    assert m / 64 == 64 * (m / 64 / 64) + (m / 64) % 64 && n / 64 == 64 * (n / 64 / 64) + (n / 64) % 64;
    assert |Utf8Char(c)| == |Utf8Char(d)|;
  }

  lemma {:induction false} Utf8IsInjective(a: string, b: string)
    requires Utf8(a) == Utf8(b)
    ensures a == b
  {
    hide Utf8Char;
    if a != [] { Utf8CharWidth(a[0]); }
    if b != [] { Utf8CharWidth(b[0]); }
    if a != [] && b != [] {
      var p, q := Utf8Char(a[0]), Utf8Char(b[0]);
      assert p[0] == Utf8(a)[0] == q[0];
      assert p == Utf8(a)[..|p|] && q == Utf8(b)[..|q|];
      assert Utf8(a[1..]) == Utf8(a)[|p|..] && Utf8(b[1..]) == Utf8(b)[|q|..];
      Utf8CharIsInjective(a[0], b[0]);
      Utf8IsInjective(a[1..], b[1..]);
      assert a == [a[0]] + a[1..] && b == [b[0]] + b[1..];
    }
  }

  /** Strings compare by their bytes. */
  predicate Less(a: string, b: string) { Before(Utf8(a), Utf8(b)) }

  lemma LessIsTotal(a: string, b: string)
    ensures Less(a, b) || a == b || Less(b, a)
    ensures !(Less(a, b) && Less(b, a)) && !Less(a, a)
  {
    hide Before, Utf8;
    BeforeIsTotal(Utf8(a), Utf8(b));
    BeforeIsTotal(Utf8(a), Utf8(a));
    if Utf8(a) == Utf8(b) { Utf8IsInjective(a, b); }
  }

  lemma LessIsTransitive(a: string, b: string, c: string)
    requires Less(a, b) && Less(b, c)
    ensures Less(a, c)
  {
    hide Before, Utf8;
    BeforeIsTransitive(Utf8(a), Utf8(b), Utf8(c));
  }

  // ---------- the order in terms of characters ----------

  lemma {:induction false} SameFrontOrder(p: Bytes, x: Bytes, y: Bytes)
    ensures Before(p + x, p + y) <==> Before(x, y)
  {
    if p == [] {
      assert p + x == x && p + y == y;
    } else {
      assert (p + x)[1..] == p[1..] + x && (p + y)[1..] == p[1..] + y;
      SameFrontOrder(p[1..], x, y);
    }
  }

  /** A number below another has a smaller quotient, or the same one and a smaller remainder. */
  lemma SmallerParts(m: nat, n: nat)
    requires m < n
    ensures m / 64 < n / 64 || (m / 64 == n / 64 && m % 64 < n % 64)
  {
  }

  lemma Quotients(n: nat)
    ensures n / 4096 == n / 64 / 64 && n / 262144 == n / 64 / 64 / 64
  {
  }

  /** Base-64 digits of numbers in order, highest first. */
  lemma DigitsInOrder(m: nat, n: nat)
    requires m < n
    ensures var p, q, r, s := m / 64, n / 64, m / 64 / 64, n / 64 / 64;
            || r / 64 < s / 64 || (r / 64 == s / 64 && r % 64 < s % 64)
            || (r == s && p % 64 < q % 64) || (p == q && m % 64 < n % 64)
  {
    SmallerParts(m, n);
    if m / 64 < n / 64 { SmallerParts(m / 64, n / 64); }
    if m / 64 / 64 < n / 64 / 64 { SmallerParts(m / 64 / 64, n / 64 / 64); }
  }

  /** The bytes of a character by its base-64 digits. */
  lemma Utf8Digits(c: char)
    ensures var n, u := c as int, Utf8Char(c);
            && |u| == (if n < 0x80 then 1 else if n < 0x800 then 2 else if n < 0x1_0000 then 3 else 4)
            && u[0] as int == (if n < 0x80 then n else if n < 0x800 then 0xC0 + n / 64
                               else if n < 0x1_0000 then 0xE0 + n / 64 / 64 else 0xF0 + n / 64 / 64 / 64)
            && (|u| == 2 ==> u[1] as int == 0x80 + n % 64)
            && (|u| == 3 ==> u[1] as int == 0x80 + (n / 64) % 64 && u[2] as int == 0x80 + n % 64)
            && (|u| == 4 ==> u[1] as int == 0x80 + (n / 64 / 64) % 64 && u[2] as int == 0x80 + (n / 64) % 64
                             && u[3] as int == 0x80 + n % 64)
  {
    Quotients(c as int);
  }

  lemma CharsInOrder(c: char, d: char) returns (k: nat)
    requires c < d
    ensures DiffersFirstAt(Utf8Char(c), Utf8Char(d), k)
  {
    hide Utf8Char;
    var p, q := Utf8Char(c), Utf8Char(d);
    Utf8CharWidth(c);
    Utf8CharWidth(d);
    FirstByteOrder(c, d);
    if p[0] != q[0] {
      k := 0;
    } else {
      LaterByteOrder(c, d);
      if p[1] != q[1] {
        k := 1;
      } else if p[2] != q[2] {
        k := 2;
      } else {
        k := 3;
      }
      assert p[..k] == q[..k];
    }
  }

  /** Characters that begin with the same byte are told apart by a later one. */
  lemma LaterByteOrder(c: char, d: char)
    requires c < d && Utf8Char(c)[0] == Utf8Char(d)[0]
    ensures var p, q := Utf8Char(c), Utf8Char(d);
            && 1 < |p| == |q| <= 4
            && (|| p[1] < q[1]
                || (p[1] == q[1] && |p| > 2 && (p[2] < q[2] || (p[2] == q[2] && |p| > 3 && p[3] < q[3]))))
  {
    hide Utf8Char;
    Utf8Digits(c);
    Utf8Digits(d);
    FirstByteOrder(c, d);
    DigitsInOrder(c as int, d as int);
  }

  lemma FirstByteOrder(c: char, d: char)
    requires c < d
    ensures Utf8Char(c)[0] <= Utf8Char(d)[0]
    ensures Utf8Char(c)[0] == Utf8Char(d)[0] ==> |Utf8Char(c)| == |Utf8Char(d)| > 1
  {
    var m, n := c as int, d as int;
    assert m / 64 <= n / 64 && m / 4096 <= n / 4096 && m / 262144 <= n / 262144;
  }

  lemma SmallerCharFirst(c: char, d: char, x: Bytes, y: Bytes)
    requires c < d
    ensures Before(Utf8Char(c) + x, Utf8Char(d) + y)
  {
    hide Utf8Char, Before;
    var k := CharsInOrder(c, d);
    var p, q := Utf8Char(c) + x, Utf8Char(d) + y;
    assert p[..k] == Utf8Char(c)[..k] && q[..k] == Utf8Char(d)[..k];
    assert DiffersFirstAt(p, q, k);
    BeforeExactly(p, q);
  }

  predicate CharDiffersFirstAt(a: string, b: string, i: nat) {
    i < |a| && i < |b| && a[..i] == b[..i] && a[i] < b[i]
  }

  /** The order of UTF-8 texts is that of their characters: the first that differs decides, by
      its code point, and a proper prefix comes first. */
  lemma {:induction false} LessExactly(a: string, b: string)
    ensures Less(a, b) <==> a < b || exists i: nat :: CharDiffersFirstAt(a, b, i)
  {
    hide Utf8Char, Before;
    if a == [] || b == [] {
      EmptyTexts(a, b);
    } else if a[0] == b[0] {
      SameFrontOrder(Utf8Char(a[0]), Utf8(a[1..]), Utf8(b[1..]));
      LessExactly(a[1..], b[1..]);
      assert a == [a[0]] + a[1..] && b == [b[0]] + b[1..];
      if i: nat :| CharDiffersFirstAt(a[1..], b[1..], i) {
        assert a[..i + 1] == [a[0]] + a[1..][..i] && b[..i + 1] == [b[0]] + b[1..][..i];
        assert CharDiffersFirstAt(a, b, i + 1);
      }
      if i: nat :| CharDiffersFirstAt(a, b, i) {
        assert a[1..][..i - 1] == a[..i][1..] && b[1..][..i - 1] == b[..i][1..];
        assert CharDiffersFirstAt(a[1..], b[1..], i - 1);
      }
    } else {
      if a[0] < b[0] {
        SmallerCharFirst(a[0], b[0], Utf8(a[1..]), Utf8(b[1..]));
        assert CharDiffersFirstAt(a, b, 0);
      } else {
        SmallerCharFirst(b[0], a[0], Utf8(b[1..]), Utf8(a[1..]));
        BeforeIsTotal(Utf8(a), Utf8(b));
      }
      forall i: nat | CharDiffersFirstAt(a, b, i) ensures i == 0 { SameFronts(a, b, i); }
    }
  }

  lemma EmptyTexts(a: string, b: string)
    requires a == [] || b == []
    ensures Less(a, b) <==> a < b
  {
    if b != [] { Utf8CharWidth(b[0]); }
    hide Utf8Char;
  }

  predicate Ascending(s: seq<string>) {
    forall i, j :: 0 <= i < j < |s| ==> Less(s[i], s[j])
  }

  /** Insertion into a sorted list without duplicates. */
  function Insert(x: string, s: seq<string>): (r: seq<string>)
    ensures forall y :: y in r <==> y == x || y in s
  {
    if s == [] then [x]
    else if x == s[0] then s
    else if Less(x, s[0]) then [x] + s
    else [s[0]] + Insert(x, s[1..])
  }

  /** `sort` then `dedup`. */
  function SortDedup(s: seq<string>): (r: seq<string>)
    ensures forall y :: y in r <==> y in s
  {
    if s == [] then [] else Insert(s[0], SortDedup(s[1..]))
  }

  lemma {:induction false} InsertAscends(x: string, s: seq<string>)
    requires Ascending(s)
    ensures Ascending(Insert(x, s))
  {
    hide Less;
    if s != [] && x != s[0] {
      LessIsTotal(x, s[0]);
      if Less(x, s[0]) {
        forall y | y in s ensures Less(x, y) {
          if y != s[0] { LessIsTransitive(x, s[0], y); }
        }
      } else {
        InsertAscends(x, s[1..]);
        var r := Insert(x, s[1..]);
        forall i | 0 <= i < |r| ensures Less(s[0], r[i]) { assert r[i] in r; }
      }
    }
  }

  lemma {:induction false} SortDedupAscends(s: seq<string>)
    ensures Ascending(SortDedup(s))
  {
    if s != [] {
      SortDedupAscends(s[1..]);
      InsertAscends(s[0], SortDedup(s[1..]));
    }
  }

  /** A strictly ascending list is determined by its elements. */
  lemma {:induction false} AscendingIsUnique(a: seq<string>, b: seq<string>)
    requires Ascending(a) && Ascending(b) && forall y :: y in a <==> y in b
    ensures a == b
  {
    hide Less;
    assert |a| > 0 ==> a[0] in a;
    assert |b| > 0 ==> b[0] in b;
    if a != [] {
      LessIsTotal(a[0], b[0]);
      assert a[0] == b[0];
      LessIsTotal(a[0], a[0]);
      forall y ensures y in a[1..] <==> y in b[1..] {
        assert y in a <==> y == a[0] || y in a[1..];
        assert y in b <==> y == b[0] || y in b[1..];
      }
      AscendingIsUnique(a[1..], b[1..]);
      assert a == [a[0]] + a[1..] && b == [b[0]] + b[1..];
    }
  }

  lemma SortDedupIsIdempotent(s: seq<string>)
    ensures SortDedup(SortDedup(s)) == SortDedup(s)
  {
    SortDedupAscends(s);
    SortDedupAscends(SortDedup(s));
    AscendingIsUnique(SortDedup(SortDedup(s)), SortDedup(s));
  }
}
