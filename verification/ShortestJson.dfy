/** What singles the canonical text out among all texts with the same meaning: nothing in it can
    be written shorter, hexadecimal digits are lower case, and keys ascend. */
module ShortestJson {
  import opened Base
  import opened ByteOrder
  import opened CanonicalJson
  import opened JsonRoundTrip

  // ---------- strings ----------

  /** The digits of `\u` escapes in the body of a string are no capitals. */
  predicate LowerHex(t: Bytes) {
    if t == [] || t[0] == QUOTE then true
    else if t[0] != BACKSLASH then LowerHex(t[1..])
    else if |t| >= 2 && t[1] != 117 then LowerHex(t[2..])
    else if |t| >= 6 then LowerUnit(t[..6]) && LowerHex(t[6..])
    else true
  }

  predicate LowerUnit(unit: Bytes) {
    |unit| == 6 ==> !(65 <= unit[4] <= 70) && !(65 <= unit[5] <= 70)
  }

  /** One unit of a string's body is read as this byte. */
  predicate UnitReads(unit: Bytes, c: byte) {
    || (unit == [c] && c >= 32 && c != QUOTE && c != BACKSLASH)
    || (|unit| == 2 && unit[0] == BACKSLASH && ShortEscape(unit[1]) == Some(c))
    || (|unit| == 6 && unit[0] == BACKSLASH && unit[1] == 117 && UnicodeEscape(unit) == Some(c))
  }

  /** The printed unit is shorter than any other, capitals aside. */
  lemma UnitIsShortest(unit: Bytes, c: byte)
    requires UnitReads(unit, c)
    ensures |EscapeByte(c)| <= |unit|
    ensures |unit| == |EscapeByte(c)| && LowerUnit(unit) <==> unit == EscapeByte(c)
  {
    if |unit| == 6 && |EscapeByte(c)| == 6 {
      HexDigits(unit[4], unit[5], c);
    }
  }

  lemma HexDigits(high: byte, low: byte, c: byte)
    requires HexValue(high).Some? && HexValue(low).Some? && HexValue(high).value < 8
    requires 16 * HexValue(high).value + HexValue(low).value == c
    ensures !(65 <= high <= 70) && !(65 <= low <= 70) <==> high == HexDigit(c / 16) && low == HexDigit(c % 16)
  {
    assert c / 16 == HexValue(high).value && c % 16 == HexValue(low).value;
  }

  /** How the body of a string splits off its first unit. */
  lemma FirstUnit(t: Bytes) returns (n: nat, c: byte)
    requires ParseStringBody(t).Good? && t[0] != QUOTE
    ensures n <= |t| && UnitReads(t[..n], c) && ParseStringBody(t) == Cons(c, ParseStringBody(t[n..]))
    ensures LowerHex(t) <==> LowerUnit(t[..n]) && LowerHex(t[n..])
  {
    if t[0] != BACKSLASH {
      n, c := 1, t[0];
    } else if ShortEscape(t[1]).Some? {
      n, c := 2, ShortEscape(t[1]).value;
    } else {
      n, c := 6, UnicodeEscape(t).value;
    }
  }

  /** Of all bodies that are read as this string, the printed one is the shortest, and the only
      one of its length without capitals in escapes. */
  lemma {:induction false} StringIsShortest(t: Bytes, str: Bytes, rest: Bytes)
    requires ParseStringBody(t) == Good(str, rest)
    ensures |EscapeAll(str)| + 1 + |rest| <= |t|
    ensures |t| == |EscapeAll(str)| + 1 + |rest| && LowerHex(t) <==> t == EscapeAll(str) + [QUOTE] + rest
    decreases |t|
  {
    hide UnitReads, EscapeByte, LowerUnit;
    if t[0] == QUOTE {
      assert t == [QUOTE] + rest;
    } else {
      var n, c := FirstUnit(t);
      hide ParseStringBody, LowerHex, EscapeAll;
      var more, tail := t[n..], EscapeAll(str[1..]) + [QUOTE] + rest;
      ConsInverts(c, str, rest, more);
      UnitIsShortest(t[..n], c);
      StringIsShortest(more, str[1..], rest);
      assert t == t[..n] + more;
      assert EscapeAll(str) + [QUOTE] + rest == EscapeByte(c) + tail by { EscapeSplits(c, str, rest); }
      assert |tail| == |EscapeAll(str[1..])| + 1 + |rest|;
      assert |EscapeByte(c) + tail| == |EscapeAll(str)| + 1 + |rest|;
      BothShortest(t[..n], EscapeByte(c), LowerUnit(t[..n]), more, tail, LowerHex(more));
    }
  }

  lemma ConsInverts(c: byte, str: Bytes, rest: Bytes, more: Bytes)
    requires Cons(c, ParseStringBody(more)) == Good(str, rest)
    ensures str == [c] + str[1..] && ParseStringBody(more) == Good(str[1..], rest)
  {
    hide ParseStringBody;
  }

  lemma EscapeSplits(c: byte, str: Bytes, rest: Bytes)
    requires str != [] && str[0] == c
    ensures EscapeAll(str) + [QUOTE] + rest == EscapeByte(c) + (EscapeAll(str[1..]) + [QUOTE] + rest)
  {
    hide EscapeByte;
  }

  /** Two pieces that are each the only shortest one make up the only shortest whole. */
  lemma BothShortest(unit: Bytes, printed: Bytes, lower: bool, more: Bytes, tail: Bytes, lowerMore: bool)
    requires |printed| <= |unit| && (|unit| == |printed| && lower <==> unit == printed)
    requires |tail| <= |more| && (|more| == |tail| && lowerMore <==> more == tail)
    ensures |unit + more| == |printed + tail| && lower && lowerMore <==> unit + more == printed + tail
  {
    if unit + more == printed + tail { SamePieces(unit, printed, more, tail); }
  }

  lemma SamePieces(a: Bytes, c: Bytes, b: Bytes, d: Bytes)
    requires a + b == c + d && |a| >= |c| && |b| >= |d|
    ensures a == c && b == d
  {
    assert |a + b| == |c + d|;
    assert a == (a + b)[..|a|] && c == (c + d)[..|a|];
    assert b == (a + b)[|a|..] && d == (c + d)[|a|..];
  }

  /** A string without quotes, backslashes and control characters is printed as it is. */
  lemma {:induction false} PlainStringIsVerbatim(str: Bytes)
    requires forall i :: 0 <= i < |str| ==> str[i] >= 32 && str[i] != 34 && str[i] != 92
    ensures EscapeAll(str) == str
  {
    if str != [] {
      PlainStringIsVerbatim(str[1..]);
      assert str == [str[0]] + str[1..];
    }
  }

  // ---------- numbers ----------

  /** Digits after a number that is not zero are printed behind it. */
  lemma {:induction false} DigitsAreKept(s: Bytes, acc: nat)
    requires acc > 0
    ensures NatText(ParseDigits(s, acc).0) + ParseDigits(s, acc).1 == NatText(acc) + s
    decreases |s|
  {
    if s != [] && IsDigit(s[0]) {
      var next := 10 * acc + (s[0] - 48) as nat;
      DigitsAreKept(s[1..], next);
      assert NatText(next) == NatText(acc) + [s[0]] by { LastDigit(acc, s[0]); }
      hide NatText, ParseDigits;
      assert s == [s[0]] + s[1..];
      assert NatText(acc) + [s[0]] + s[1..] == NatText(acc) + s;
    }
  }

  lemma LastDigit(acc: nat, d: byte)
    requires acc > 0 && IsDigit(d)
    ensures NatText(10 * acc + (d - 48) as nat) == NatText(acc) + [d]
  {
    var n := 10 * acc + (d - 48) as nat;
    assert n / 10 == acc && n % 10 == (d - 48) as nat;
  }

  /** Of all digits that are read as this number, the printed ones are the fewest: leading zeros
      only add to them. */
  lemma {:induction false} DigitsAreShortest(s: Bytes)
    requires s != [] && IsDigit(s[0])
    ensures var (n, rest) := ParseDigits(s, 0);
            |NatText(n) + rest| <= |s| && (|NatText(n) + rest| == |s| ==> NatText(n) + rest == s)
    decreases |s|
  {
    var d := (s[0] - 48) as nat;
    assert s == [s[0]] + s[1..] && NatText(d) == [s[0]];
    assert ParseDigits(s, 0) == ParseDigits(s[1..], d);
    if d > 0 {
      DigitsAreKept(s[1..], d);
    } else if |s| > 1 && IsDigit(s[1]) {
      DigitsAreShortest(s[1..]);
    }
  }

  /** Of all texts that are read as this number the printed one is the shortest, and the only
      one of its length. */
  lemma NumberIsShortest(s: Bytes, n: int, rest: Bytes)
    requires ParseNumber(s) == Good(MNumber(n), rest)
    ensures |IntText(n)| + |rest| <= |s|
    ensures |IntText(n)| + |rest| == |s| <==> s == IntText(n) + rest
  {
    hide NatText, ParseDigits;
    if s[0] == MINUS {
      DigitsAreShortest(s[1..]);
      assert s == [MINUS] + s[1..];
      assert n < 0 ==> IntText(n) + rest == [MINUS] + (NatText(-n) + rest);
    } else {
      DigitsAreShortest(s);
    }
  }

  // ---------- members, in any order ----------

  function LengthOf(ghost v: Json, entries: seq<Entry>): nat
    requires MembersOf(v, entries)
  {
    if entries == [] then 0 else |MemberText(v, entries[0])| + 1 + LengthOf(v, entries[1..])
  }

  lemma {:induction false} LengthOfMembers(v: Json, entries: seq<Entry>)
    requires MembersOf(v, entries) && entries != []
    ensures |MembersText(v, entries)| + 1 == LengthOf(v, entries)
    decreases |entries|
  {
    hide MemberText;
    if |entries| > 1 { LengthOfMembers(v, entries[1..]); }
  }

  function Without(entries: seq<Entry>, i: nat): seq<Entry>
    requires i < |entries|
  {
    entries[..i] + entries[i + 1..]
  }

  lemma WithoutShifts(v: Json, entries: seq<Entry>, i: nat)
    requires MembersOf(v, entries) && i < |entries|
    ensures MembersOf(v, Without(entries, i))
    ensures i == 0 ==> Without(entries, i) == entries[1..]
    ensures i > 0 ==> Without(entries, i) == [entries[0]] + Without(entries[1..], i - 1)
  {
  }

  lemma {:induction false} LengthWithout(v: Json, entries: seq<Entry>, i: nat)
    requires MembersOf(v, entries) && i < |entries|
    ensures MembersOf(v, Without(entries, i))
    ensures LengthOf(v, entries) == |MemberText(v, entries[i])| + 1 + LengthOf(v, Without(entries, i))
    decreases i
  {
    hide MemberText, Without;
    WithoutShifts(v, entries, i);
    if i > 0 {
      LengthWithout(v, entries[1..], i - 1);
      var rest := Without(entries, i);
      assert rest[0] == entries[0] && rest[1..] == Without(entries[1..], i - 1);
    }
  }

  lemma WithoutIsDistinct(entries: seq<Entry>, i: nat)
    requires DistinctKeys(entries) && i < |entries|
    ensures DistinctKeys(Without(entries, i))
    ensures forall j :: 0 <= j < |Without(entries, i)| ==> Without(entries, i)[j].key != entries[i].key
    ensures forall j :: 0 <= j < |Without(entries, i)| ==> Without(entries, i)[j] in entries
  {
    var rest := Without(entries, i);
    assert forall j :: 0 <= j < |rest| ==> rest[j] == entries[if j < i then j else j + 1];
  }

  lemma {:induction false} MembersWithout(v: Json, entries: seq<Entry>, i: nat)
    requires MembersOf(v, entries) && DistinctKeys(entries) && i < |entries|
    ensures MembersOf(v, Without(entries, i))
    ensures DenoteMembers(v, Without(entries, i)) == DenoteMembers(v, entries) - {entries[i].key}
  {
    hide Denote, DenoteMembers;
    var rest := Without(entries, i);
    WithoutIsDistinct(entries, i);
    var m, r := DenoteMembers(v, entries), DenoteMembers(v, rest);
    forall k | k in r ensures k in m && k != entries[i].key && m[k] == r[k] {
      var j := MemberIndex(v, rest, k);
      MemberValue(v, rest, j);
      var at := if j < i then j else j + 1;
      assert entries[at] == rest[j];
      MemberValue(v, entries, at);
    }
    forall k | k in m && k != entries[i].key ensures k in r {
      var at := MemberIndex(v, entries, k);
      var j := if at < i then at else at - 1;
      assert rest[j] == entries[at];
      MemberValue(v, rest, j);
    }
    assert r == m - {entries[i].key};
  }

  // ---------- whole values ----------

  /** Of all texts with the meaning of this value, whatever the order of their members and even
      if they repeat keys, none is shorter than the canonical one. */
  lemma {:induction false} CanonicalIsShortest(s: Bytes, v: Json, rest: Bytes)
    requires WellFormed(v) && ParseValue(s) == Good(Denote(v), rest)
    ensures |Text(v)| + |rest| <= |s|
    decreases |s|, 0
  {
    hide ParseStringBody, ParseNumber, ParseElems, ParseMembers, IntText, EscapeAll, SortEntries, DenoteMembers,
         DenoteElems, ElemsText, MembersText, WellFormed;
    match v
    case Null => OnlyWords(s);
    case Bool(_) => OnlyWords(s);
    case Number(n) => NumberIsShortest(s, n, rest) by { ReadsNumber(s, n, rest); }
    case String(str) =>
      ReadsString(s, str, rest);
      StringIsShortest(s[1..], str, rest);
    case Array(elems) => ArrayIsShortest(s, v, rest);
    case Object(entries) => ObjectIsShortest(s, v, rest);
  }

  lemma OnlyWords(s: Bytes)
    requires ParseValue(s).Good?
    ensures ParseValue(s).value == MNull ==> |s| == 4 + |ParseValue(s).rest|
    ensures ParseValue(s).value == MBool(true) ==> |s| == 4 + |ParseValue(s).rest|
    ensures ParseValue(s).value == MBool(false) ==> |s| == 5 + |ParseValue(s).rest|
  {
    hide ParseStringBody, ParseElems, ParseMembers, ParseDigits;
  }

  lemma NumbersAreNumbers(s: Bytes)
    ensures ParseNumber(s).Good? ==> ParseNumber(s).value.MNumber?
  {
    hide ParseDigits;
  }

  /** The first byte tells strings, arrays, objects and the rest apart. */
  lemma ReadsByFirst(s: Bytes)
    requires s != []
    ensures s[0] == QUOTE ==>
              ParseValue(s) ==
              match ParseStringBody(s[1..]) { case Bad => Bad case Good(str, rest) => Good(MString(str), rest) }
    ensures s[0] == OPEN_ARRAY ==>
              ParseValue(s) ==
              if |s| > 1 && s[1] == CLOSE_ARRAY then Good(MArray([]), s[2..])
              else match ParseElems(s[1..]) { case Bad => Bad case Good(elems, rest) => Good(MArray(elems), rest) }
    ensures s[0] == OPEN_OBJECT ==>
              ParseValue(s) ==
              if |s| > 1 && s[1] == CLOSE_OBJECT then Good(MObject(map[]), s[2..])
              else match ParseMembers(s[1..]) { case Bad => Bad case Good(fields, rest) => Good(MObject(fields), rest) }
  {
    hide ParseStringBody, ParseElems, ParseMembers, ParseNumber, NULL_TEXT, TRUE_TEXT, FALSE_TEXT;
    if s[0] == QUOTE || s[0] == OPEN_ARRAY || s[0] == OPEN_OBJECT { NotAWord(s); }
  }

  lemma ReadsOther(s: Bytes)
    requires s == [] || (s[0] != QUOTE && s[0] != OPEN_ARRAY && s[0] != OPEN_OBJECT)
    ensures var r := ParseValue(s);
            r.Good? ==> r.value.MNull? || r.value.MBool? || (r.value.MNumber? && r == ParseNumber(s))
  {
    hide ParseStringBody, ParseElems, ParseMembers, ParseNumber, NULL_TEXT, TRUE_TEXT, FALSE_TEXT;
    NumbersAreNumbers(s);
  }

  lemma ReadsNumber(s: Bytes, n: int, rest: Bytes)
    requires ParseValue(s) == Good(MNumber(n), rest)
    ensures ParseNumber(s) == Good(MNumber(n), rest)
  {
    hide ParseValue, ParseNumber, ParseStringBody, ParseElems, ParseMembers;
    if s != [] { ReadsByFirst(s); }
    if s == [] || (s[0] != QUOTE && s[0] != OPEN_ARRAY && s[0] != OPEN_OBJECT) { ReadsOther(s); }
  }

  lemma ReadsString(s: Bytes, str: Bytes, rest: Bytes)
    requires ParseValue(s) == Good(MString(str), rest)
    ensures s != [] && ParseStringBody(s[1..]) == Good(str, rest)
  {
    hide ParseValue, ParseNumber, ParseStringBody, ParseElems, ParseMembers;
    if s != [] { ReadsByFirst(s); }
    if s == [] || (s[0] != QUOTE && s[0] != OPEN_ARRAY && s[0] != OPEN_OBJECT) { ReadsOther(s); }
  }

  lemma ReadsArray(s: Bytes, elems: seq<Meaning>, rest: Bytes)
    requires ParseValue(s) == Good(MArray(elems), rest)
    ensures s != [] && |s| >= 2 + |rest|
    ensures (elems == [] && |s| == 2 + |rest|) || ParseElems(s[1..]) == Good(elems, rest)
  {
    hide ParseValue, ParseNumber, ParseStringBody, ParseElems, ParseMembers;
    if s != [] { ReadsByFirst(s); }
    if s == [] || (s[0] != QUOTE && s[0] != OPEN_ARRAY && s[0] != OPEN_OBJECT) { ReadsOther(s); }
  }

  lemma ReadsObject(s: Bytes, fields: map<Bytes, Meaning>, rest: Bytes)
    requires ParseValue(s) == Good(MObject(fields), rest)
    ensures s != [] && |s| >= 2 + |rest|
    ensures (fields == map[] && |s| == 2 + |rest|) || ParseMembers(s[1..]) == Good(fields, rest)
  {
    hide ParseValue, ParseNumber, ParseStringBody, ParseElems, ParseMembers;
    if s != [] { ReadsByFirst(s); }
    if s == [] || (s[0] != QUOTE && s[0] != OPEN_ARRAY && s[0] != OPEN_OBJECT) { ReadsOther(s); }
  }

  lemma {:induction false} ArrayIsShortest(s: Bytes, v: Json, rest: Bytes)
    requires v.Array? && WellFormed(v) && ParseValue(s) == Good(Denote(v), rest)
    ensures |Text(v)| + |rest| <= |s|
    decreases |s|, 0, 0
  {
    hide ParseValue, ParseElems, DenoteElems, ElemsText;
    ReadsArray(s, DenoteElems(v, v.elems), rest);
    if v.elems == [] {
      assert ElemsText(v, v.elems) == [] by { NothingInside(v); }
    } else {
      ElemsLength(v, v.elems);
      ElemsAreShortest(s[1..], v, v.elems, rest);
    }
  }

  lemma NothingInside(v: Json)
    ensures ElemsText(v, []) == [] && MembersText(v, []) == []
  {
  }

  lemma {:induction false} ElemsLength(v: Json, elems: seq<Json>)
    requires ElemsOf(v, elems)
    ensures |DenoteElems(v, elems)| == |elems|
    decreases |elems|
  {
    hide Denote;
    if elems != [] { ElemsLength(v, elems[1..]); }
  }

  lemma {:induction false} ElemsAreShortest(s: Bytes, v: Json, elems: seq<Json>, rest: Bytes)
    requires ElemsOf(v, elems) && elems != [] && forall i :: 0 <= i < |elems| ==> WellFormed(elems[i])
    requires ParseElems(s) == Good(DenoteElems(v, elems), rest)
    ensures |ElemsText(v, elems)| + 1 + |rest| <= |s|
    decreases |s|, 1
  {
    hide ParseValue, WellFormed, Text, Denote;
    var first := ParseValue(s);
    var tail := DenoteElems(v, elems[1..]);
    assert DenoteElems(v, elems) == [Denote(elems[0])] + tail;
    assert first.value == DenoteElems(v, elems)[0];
    CanonicalIsShortest(s, elems[0], first.rest);
    ElemsLength(v, elems);
    if |elems| > 1 {
      assert DenoteElems(v, elems)[1..] == tail;
      ElemsAreShortest(first.rest[1..], v, elems[1..], rest);
    }
  }

  lemma {:induction false} ObjectIsShortest(s: Bytes, v: Json, rest: Bytes)
    requires v.Object? && WellFormed(v) && ParseValue(s) == Good(Denote(v), rest)
    ensures |Text(v)| + |rest| <= |s|
    decreases |s|, 0, 0
  {
    hide ParseValue, ParseMembers, DenoteMembers, MembersText, SortEntries;
    var sorted := SortEntries(v.entries);
    SortedInside(v, v.entries);
    SortKeepsMembers(v.entries);
    SortKeepsMeaning(v, v.entries);
    SortKeepsDistinct(v.entries);
    ReadsObject(s, DenoteMembers(v, sorted), rest);
    if sorted == [] {
      NothingInside(v);
    } else {
      MemberValue(v, sorted, 0);
      forall i | 0 <= i < |sorted| ensures WellFormed(sorted[i].value) { assert sorted[i] in v.entries; }
      MembersAreShortest(s[1..], v, sorted, rest);
    }
  }

  /** One member, its key first. */
  lemma {:induction false} MemberIsShortest(s: Bytes, v: Json, e: Entry, after: Bytes)
    requires e.value < v && WellFormed(e.value) && |s| > 0
    requires var key := ParseStringBody(s[1..]);
             && key.Good? && key.value == e.key && key.rest != []
             && ParseValue(key.rest[1..]) == Good(Denote(e.value), after)
    ensures |MemberText(v, e)| + |after| <= |s|
    decreases |s|, 0
  {
    hide ParseStringBody, ParseValue, Denote, WellFormed, Text, EscapeAll;
    var key := ParseStringBody(s[1..]);
    StringIsShortest(s[1..], e.key, key.rest);
    CanonicalIsShortest(key.rest[1..], e.value, after);
  }

  /** How the first member is split off. */
  lemma FirstMember(s: Bytes, m: map<Bytes, Meaning>, rest: Bytes)
    returns (k: Bytes, value: Meaning, after: Bytes, more: map<Bytes, Meaning>)
    requires ParseMembers(s) == Good(m, rest)
    ensures |s| > 0
    ensures var key := ParseStringBody(s[1..]);
            key.Good? && key.value == k && key.rest != [] && ParseValue(key.rest[1..]) == Good(value, after)
    ensures m == map[k := value] + more && 0 < |after| < |s|
    ensures (more == map[] && |after| == 1 + |rest|) || (more != map[] && ParseMembers(after[1..]) == Good(more, rest))
  {
    hide ParseStringBody, ParseValue;
    var key := ParseStringBody(s[1..]);
    k, value, after := key.value, ParseValue(key.rest[1..]).value, ParseValue(key.rest[1..]).rest;
    if after[0] == CLOSE_OBJECT {
      more := map[];
    } else {
      more := ParseMembers(after[1..]).value;
      MembersAreSome(after[1..]);
    }
  }

  lemma MembersAreSome(s: Bytes)
    requires ParseMembers(s).Good?
    ensures ParseMembers(s).value != map[]
  {
    hide ParseStringBody, ParseValue;
    var key := ParseStringBody(s[1..]);
    assert key.value in ParseMembers(s).value;
  }

  lemma {:induction false} MembersAreShortest(s: Bytes, v: Json, entries: seq<Entry>, rest: Bytes)
    requires MembersOf(v, entries) && DistinctKeys(entries) && entries != []
    requires forall i :: 0 <= i < |entries| ==> WellFormed(entries[i].value)
    requires ParseMembers(s) == Good(DenoteMembers(v, entries), rest)
    ensures |MembersText(v, entries)| + 1 + |rest| <= |s|
    decreases |s|, 1
  {
    hide ParseStringBody, ParseValue, ParseMembers, DenoteMembers, Denote, WellFormed, MembersText, DistinctKeys,
         MemberText, LengthOf, Without;
    var k, value, after, more := FirstMember(s, DenoteMembers(v, entries), rest);
    if k in more {
      assert map[k := value] + more == more;
      MembersAreShortest(after[1..], v, entries, rest);
    } else {
      var i := MemberIndex(v, entries, k);
      MemberValue(v, entries, i);
      MemberIsShortest(s, v, entries[i], after);
      LengthOfMembers(v, entries);
      LengthWithout(v, entries, i);
      MembersWithout(v, entries, i);
      WithoutIsDistinct(entries, i);
      var others := Without(entries, i);
      assert (map[k := value] + more) - {k} == more;
      OthersAreShortest(after, v, others, more, rest) by {
        forall j | 0 <= j < |others| ensures WellFormed(others[j].value) { assert others[j] in entries; }
      }
    }
  }

  /** The members behind the first one, if there are any. */
  lemma {:induction false} OthersAreShortest(after: Bytes, v: Json, others: seq<Entry>, more: map<Bytes, Meaning>,
                                             rest: Bytes)
    requires MembersOf(v, others) && DistinctKeys(others) && DenoteMembers(v, others) == more && |after| > 0
    requires forall i :: 0 <= i < |others| ==> WellFormed(others[i].value)
    requires (more == map[] && |after| == 1 + |rest|) || (more != map[] && ParseMembers(after[1..]) == Good(more, rest))
    ensures LengthOf(v, others) + 1 + |rest| <= |after|
    decreases |after|, 0
  {
    hide ParseMembers, Denote, WellFormed, MembersText, DistinctKeys, MemberText;
    if more == map[] {
      if others != [] { MemberValue(v, others, 0); }
    } else {
      assert others != [];
      MembersAreShortest(after[1..], v, others, rest);
      LengthOfMembers(v, others);
    }
  }

  // ---------- the order of keys ----------

  /** The keys of an object's members as they stand in its text. */
  function ParseKeys(s: Bytes): (r: Parsed<seq<Bytes>>)
    decreases |s|
  {
    if s == [] || s[0] != QUOTE then Bad
    else match ParseStringBody(s[1..])
      case Bad => Bad
      case Good(key, r) =>
        if r == [] || r[0] != COLON then Bad
        else match ParseValue(r[1..])
          case Bad => Bad
          case Good(_, t) =>
            if t == [] then Bad
            else if t[0] == CLOSE_OBJECT then Good([key], t[1..])
            else if t[0] == COMMA then
              match ParseKeys(t[1..]) { case Bad => Bad case Good(keys, rest) => Good([key] + keys, rest) }
            else Bad
  }

  function KeysOf(entries: seq<Entry>): seq<Bytes> {
    seq(|entries|, i requires 0 <= i < |entries| => entries[i].key)
  }

  lemma FirstKeyParses(v: Json, e: Entry, after: Bytes)
    requires e.value < v && WellFormed(e.value) && after != [] && (after[0] == CLOSE_OBJECT || after[0] == COMMA)
    ensures ParseKeys(MemberText(v, e) + after) ==
            if after[0] == CLOSE_OBJECT then Good([e.key], after[1..])
            else match ParseKeys(after[1..]) { case Bad => Bad case Good(keys, rest) => Good([e.key] + keys, rest) }
  {
    hide ParseValue, ParseStringBody, MemberText, Denote, WellFormed;
    MemberParses(v, e, after);
  }

  lemma {:induction false} KeysParse(v: Json, entries: seq<Entry>, rest: Bytes)
    requires MembersOf(v, entries) && entries != []
    requires forall i :: 0 <= i < |entries| ==> WellFormed(entries[i].value)
    ensures ParseKeys(MembersText(v, entries) + [CLOSE_OBJECT] + rest) == Good(KeysOf(entries), rest)
    decreases |entries|
  {
    hide ParseKeys, MemberText, WellFormed;
    if |entries| == 1 {
      assert MembersText(v, entries) + [CLOSE_OBJECT] + rest == MemberText(v, entries[0]) + ([CLOSE_OBJECT] + rest);
      FirstKeyParses(v, entries[0], [CLOSE_OBJECT] + rest);
      assert ([CLOSE_OBJECT] + rest)[1..] == rest;
      assert KeysOf(entries) == [entries[0].key];
    } else {
      var tail := MembersText(v, entries[1..]) + [CLOSE_OBJECT] + rest;
      assert MembersText(v, entries) + [CLOSE_OBJECT] + rest == MemberText(v, entries[0]) + ([COMMA] + tail);
      FirstKeyParses(v, entries[0], [COMMA] + tail);
      assert ([COMMA] + tail)[1..] == tail;
      KeysParse(v, entries[1..], rest);
      assert KeysOf(entries) == [entries[0].key] + KeysOf(entries[1..]);
    }
  }

  /** In the text of an object its own keys stand in strictly ascending order: of two keys the
      earlier is a proper prefix of the later or has the smaller byte where they first differ. */
  lemma KeysAscend(v: Json)
    requires v.Object? && WellFormed(v) && v.entries != []
    ensures Text(v) != []
    ensures var keys := ParseKeys(Text(v)[1..]);
            && keys.Good? && keys.rest == []
            && (forall k :: k in keys.value <==> exists e :: e in v.entries && e.key == k)
            && (forall i, j :: 0 <= i < j < |keys.value| ==>
                  keys.value[i] < keys.value[j] || exists n: nat :: DiffersFirstAt(keys.value[i], keys.value[j], n))
  {
    hide ParseKeys, MembersText, Before, DiffersFirstAt, SortEntries;
    var sorted := SortEntries(v.entries);
    SortedInside(v, v.entries);
    SortKeepsMembers(v.entries);
    SortKeepsDistinct(v.entries);
    forall i | 0 <= i < |sorted| ensures WellFormed(sorted[i].value) { assert sorted[i] in v.entries; }
    KeysParse(v, sorted, []);
    assert Text(v)[1..] == MembersText(v, sorted) + [CLOSE_OBJECT] + [];
    var keys := KeysOf(sorted);
    KeysAreThose(v.entries, sorted);
    forall i, j | 0 <= i < j < |keys|
      ensures keys[i] < keys[j] || exists n: nat :: DiffersFirstAt(keys[i], keys[j], n)
    {
      BeforeIsTotal(sorted[i].key, sorted[j].key);
      BeforeExactly(sorted[i].key, sorted[j].key);
    }
  }

  lemma KeysAreThose(entries: seq<Entry>, sorted: seq<Entry>)
    requires forall e :: e in sorted <==> e in entries
    ensures forall k :: k in KeysOf(sorted) <==> exists e :: e in entries && e.key == k
  {
    forall k ensures k in KeysOf(sorted) <==> exists e :: e in entries && e.key == k {
      if k in KeysOf(sorted) {
        var i :| 0 <= i < |sorted| && KeysOf(sorted)[i] == k;
        assert sorted[i] in entries;
      }
      if e :| e in entries && e.key == k {
        var i :| 0 <= i < |sorted| && sorted[i] == e;
        assert KeysOf(sorted)[i] == k;
      }
    }
  }
}
