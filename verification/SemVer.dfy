/** Version precedence (section 11 of Semantic Versioning 2.0.0) and the choice of the
    greatest version in a list of rows. */
module SemVer {
  import opened Base
  import opened ByteOrder

  datatype Identifier = Numeric(n: nat) | Alphanumeric(text: Bytes)

  /** Build metadata takes no part in precedence and is not kept. */
  datatype Version = Version(major: nat, minor: nat, patch: nat, pre: seq<Identifier>)

  predicate IdentifierBefore(a: Identifier, b: Identifier) {
    match (a, b)
    case (Numeric(m), Numeric(n)) => m < n
    case (Numeric(_), Alphanumeric(_)) => true
    case (Alphanumeric(_), Numeric(_)) => false
    case (Alphanumeric(s), Alphanumeric(t)) => Before(s, t)
  }

  predicate PreBefore(a: seq<Identifier>, b: seq<Identifier>) {
    if b == [] then false
    else if a == [] then true
    else IdentifierBefore(a[0], b[0]) || (a[0] == b[0] && PreBefore(a[1..], b[1..]))
  }

  /** A release follows all of its pre-releases. */
  predicate Precedes(a: Version, b: Version) {
    if a.major != b.major then a.major < b.major
    else if a.minor != b.minor then a.minor < b.minor
    else if a.patch != b.patch then a.patch < b.patch
    else if a.pre == [] then false
    else if b.pre == [] then true
    else PreBefore(a.pre, b.pre)
  }

  lemma IdentifierOrder(a: Identifier, b: Identifier, c: Identifier)
    ensures IdentifierBefore(a, b) || a == b || IdentifierBefore(b, a)
    ensures !(IdentifierBefore(a, b) && IdentifierBefore(b, a)) && !IdentifierBefore(a, a)
    ensures IdentifierBefore(a, b) && IdentifierBefore(b, c) ==> IdentifierBefore(a, c)
  {
    var x := if a.Alphanumeric? then a.text else [];
    var y := if b.Alphanumeric? then b.text else [];
    var z := if c.Alphanumeric? then c.text else [];
    hide Before;
    BeforeIsTotal(x, y);
    BeforeIsTotal(x, x);
    if Before(x, y) && Before(y, z) { BeforeIsTransitive(x, y, z); }
  }

  lemma {:induction false} PreOrder(a: seq<Identifier>, b: seq<Identifier>, c: seq<Identifier>)
    ensures PreBefore(a, b) || a == b || PreBefore(b, a)
    ensures !(PreBefore(a, b) && PreBefore(b, a)) && !PreBefore(a, a)
    ensures PreBefore(a, b) && PreBefore(b, c) ==> PreBefore(a, c)
    decreases |a| + |b| + |c|
  {
    hide IdentifierBefore;
    if a != [] && b != [] {
      IdentifierOrder(a[0], b[0], if c == [] then a[0] else c[0]);
      PreOrder(a[1..], b[1..], if c == [] then [] else c[1..]);
      if a[0] == b[0] && a[1..] == b[1..] { assert a == [a[0]] + a[1..] && b == [b[0]] + b[1..]; }
    } else if a != [] {
      IdentifierOrder(a[0], a[0], a[0]);
      PreOrder(a[1..], [], []);
    }
  }

  /** Precedence is a strict total order on versions without build metadata. */
  lemma PrecedenceOrder(a: Version, b: Version, c: Version)
    ensures Precedes(a, b) || a == b || Precedes(b, a)
    ensures !(Precedes(a, b) && Precedes(b, a))
    ensures Precedes(a, b) && Precedes(b, c) ==> Precedes(a, c)
  {
    hide PreBefore;
    PreOrder(a.pre, b.pre, c.pre);
  }

  // ---------- section 11, rule by rule ----------

  /** Rule 11.2: major, minor and patch are compared in this order, as numbers. */
  lemma NumbersDecideInOrder(a: Version, b: Version)
    ensures a.major < b.major ==> Precedes(a, b)
    ensures a.major == b.major && a.minor < b.minor ==> Precedes(a, b)
    ensures a.major == b.major && a.minor == b.minor && a.patch < b.patch ==> Precedes(a, b)
  {
    hide PreBefore;
  }

  predicate SameNumbers(a: Version, b: Version) {
    a.major == b.major && a.minor == b.minor && a.patch == b.patch
  }

  /** Rules 11.4.1 to 11.4.3 for one identifier: numbers by value, texts by their first
      differing byte or as prefixes, and numbers before texts. */
  lemma IdentifierRules(a: Identifier, b: Identifier)
    ensures a.Numeric? && b.Numeric? ==> (IdentifierBefore(a, b) <==> a.n < b.n)
    ensures a.Numeric? && b.Alphanumeric? ==> IdentifierBefore(a, b)
    ensures a.Alphanumeric? && b.Alphanumeric? ==>
              (IdentifierBefore(a, b) <==> a.text < b.text || exists i: nat :: DiffersFirstAt(a.text, b.text, i))
  {
    hide Before, DiffersFirstAt;
    if a.Alphanumeric? && b.Alphanumeric? { BeforeExactly(a.text, b.text); }
  }

  predicate IdentifierDecides(a: seq<Identifier>, b: seq<Identifier>, i: nat) {
    i < |a| && i < |b| && a[..i] == b[..i] && IdentifierBefore(a[i], b[i])
  }

  /** Rules 11.3 and 11.4: between versions with the same numbers a pre-release precedes its
      release; of two pre-releases the first identifier that differs decides, and with no
      such identifier the shorter list comes first. */
  lemma PreReleasesDecide(a: Version, b: Version)
    requires SameNumbers(a, b)
    ensures b.pre == [] ==> (Precedes(a, b) <==> a.pre != [])
    ensures a.pre != [] && b.pre != [] ==>
              (Precedes(a, b) <==> a.pre < b.pre || exists i: nat :: IdentifierDecides(a.pre, b.pre, i))
  {
    hide PreBefore, IdentifierDecides;
    PreBeforeExactly(a.pre, b.pre);
  }

  lemma {:induction false} PreBeforeExactly(a: seq<Identifier>, b: seq<Identifier>)
    ensures PreBefore(a, b) <==> a < b || exists i: nat :: IdentifierDecides(a, b, i)
  {
    hide IdentifierBefore;
    if a != [] && b != [] && a[0] == b[0] {
      PreBeforeExactly(a[1..], b[1..]);
      IdentifierOrder(a[0], a[0], a[0]);
      assert a == [a[0]] + a[1..] && b == [b[0]] + b[1..];
      if i: nat :| IdentifierDecides(a[1..], b[1..], i) {
        assert a[..i + 1] == [a[0]] + a[1..][..i] && b[..i + 1] == [b[0]] + b[1..][..i];
        assert IdentifierDecides(a, b, i + 1);
      }
      if i: nat :| IdentifierDecides(a, b, i) {
        assert a[1..][..i - 1] == a[..i][1..] && b[1..][..i - 1] == b[..i][1..];
        assert IdentifierDecides(a[1..], b[1..], i - 1);
      }
    } else if a != [] && b != [] {
      assert IdentifierBefore(a[0], b[0]) ==> IdentifierDecides(a, b, 0);
      forall i: nat | IdentifierDecides(a, b, i) ensures i == 0 { SameFronts(a, b, i); }
    }
  }

  /** The examples given in the standard, in ascending order. */
  lemma StandardExamples()
    ensures var alpha, beta, rc := Alphanumeric([97, 108, 112, 104, 97]), Alphanumeric([98, 101, 116, 97]),
              Alphanumeric([114, 99]);
            && Precedes(Version(1, 0, 0, [alpha]), Version(1, 0, 0, [alpha, Numeric(1)]))
            && Precedes(Version(1, 0, 0, [alpha, Numeric(1)]), Version(1, 0, 0, [alpha, beta]))
            && Precedes(Version(1, 0, 0, [alpha, beta]), Version(1, 0, 0, [beta]))
            && Precedes(Version(1, 0, 0, [beta]), Version(1, 0, 0, [beta, Numeric(2)]))
            && Precedes(Version(1, 0, 0, [beta, Numeric(2)]), Version(1, 0, 0, [beta, Numeric(11)]))
            && Precedes(Version(1, 0, 0, [beta, Numeric(11)]), Version(1, 0, 0, [rc, Numeric(1)]))
            && Precedes(Version(1, 0, 0, [rc, Numeric(1)]), Version(1, 0, 0, []))
    ensures Precedes(Version(1, 0, 0, []), Version(2, 0, 0, [])) && Precedes(Version(2, 0, 0, []), Version(2, 1, 0, []))
    ensures Precedes(Version(2, 1, 0, []), Version(2, 1, 1, []))
  {
    assert Before([97, 108, 112, 104, 97], [98, 101, 116, 97]) && Before([98, 101, 116, 97], [114, 99]);
  }

  /** `filter_map(parse).max_by(cmp)`: of the rows that parse, the last of the greatest. */
  function Greatest(parse: Bytes -> Option<Version>, rows: seq<Bytes>): (r: Option<Bytes>) {
    if rows == [] then None
    else
      var last := rows[|rows| - 1];
      var best := Greatest(parse, rows[..|rows| - 1]);
      match parse(last)
      case None => best
      case Some(v) =>
        if best.Some? && parse(best.value).Some? && Precedes(v, parse(best.value).value) then best else Some(last)
  }

  /** Row i parses, no row before it exceeds it, and every row after it that parses precedes it. */
  predicate LastGreatest(parse: Bytes -> Option<Version>, rows: seq<Bytes>, i: nat) {
    && i < |rows| && parse(rows[i]).Some?
    && (forall j :: 0 <= j < i && parse(rows[j]).Some? ==>
          !Precedes(parse(rows[i]).value, parse(rows[j]).value))
    && (forall j :: i < j < |rows| && parse(rows[j]).Some? ==>
          Precedes(parse(rows[j]).value, parse(rows[i]).value))
  }

  /** Of several greatest rows, which differ in build metadata only, the last one is chosen. */
  lemma {:induction false} GreatestIsLast(parse: Bytes -> Option<Version>, rows: seq<Bytes>)
    requires Greatest(parse, rows).Some?
    ensures exists i: nat :: LastGreatest(parse, rows, i) && rows[i] == Greatest(parse, rows).value
  {
    hide Precedes;
    var front, last := rows[..|rows| - 1], rows[|rows| - 1];
    var best := Greatest(parse, front);
    GreatestIsGreatest(parse, front);
    GreatestIsGreatest(parse, rows);
    if parse(last).None? || (best.Some? && Precedes(parse(last).value, parse(best.value).value)) {
      GreatestIsLast(parse, front);
      var i: nat :| LastGreatest(parse, front, i) && front[i] == best.value;
      assert LastGreatest(parse, rows, i);
    } else {
      forall j | 0 <= j < |front| && parse(rows[j]).Some?
        ensures !Precedes(parse(last).value, parse(rows[j]).value)
      {
        assert rows[j] in rows;
      }
      assert LastGreatest(parse, rows, |front|);
    }
  }

  /** The result is one of the rows, parses, and no row that parses exceeds it; there is
      none only when no row parses. */
  lemma {:induction false} GreatestIsGreatest(parse: Bytes -> Option<Version>, rows: seq<Bytes>)
    ensures var r := Greatest(parse, rows);
            && (r.Some? ==> r.value in rows && parse(r.value).Some?)
            && (forall x :: x in rows && parse(x).Some? ==>
                  r.Some? && !Precedes(parse(r.value).value, parse(x).value))
  {
    hide Precedes;
    if rows != [] {
      var front, last := rows[..|rows| - 1], rows[|rows| - 1];
      GreatestIsGreatest(parse, front);
      var r := Greatest(parse, rows);
      var best := Greatest(parse, front);
      assert rows == front + [last];
      forall x | x in rows && parse(x).Some?
        ensures r.Some? && !Precedes(parse(r.value).value, parse(x).value)
      {
        if parse(last).Some? {
          PrecedenceOrder(parse(last).value, parse(x).value, parse(last).value);
          if best.Some? {
            PrecedenceOrder(parse(last).value, parse(x).value, parse(best.value).value);
            PrecedenceOrder(parse(best.value).value, parse(last).value, parse(x).value);
          }
        }
      }
    }
  }
}
