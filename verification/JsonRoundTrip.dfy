/** A JSON parser (strings as in section 7 of RFC 8259) that undoes the canonical printer,
    and what follows from it: two values have the same canonical bytes exactly when they
    mean the same, whatever order their members were inserted in. */
module JsonRoundTrip {
  import opened Base
  import opened ByteOrder
  import opened CanonicalJson

  datatype Parsed<+T> = Bad | Good(value: T, rest: Bytes)

  // ---------- the parser ----------

  function HexValue(c: byte): (d: Option<byte>)
    ensures d.Some? ==> d.value < 16
  {
    if 48 <= c <= 57 then Some(c - 48)
    else if 97 <= c <= 102 then Some(c - 87)
    else if 65 <= c <= 70 then Some(c - 55)
    else None
  }

  /** A `\u` escape of an ASCII character. */
  function UnicodeEscape(s: Bytes): Option<byte>
    requires |s| >= 6
  {
    match (HexValue(s[4]), HexValue(s[5]))
    case (Some(high), Some(low)) =>
      if s[2] == 48 && s[3] == 48 && high < 8 then Some(16 * high + low) else None
    case _ => None
  }

  function ShortEscape(c: byte): Option<byte> {
    if c == QUOTE || c == BACKSLASH || c == 47 then Some(c)
    else if c == 98 then Some(8)
    else if c == 116 then Some(9)
    else if c == 110 then Some(10)
    else if c == 102 then Some(12)
    else if c == 114 then Some(13)
    else None
  }

  function Cons(c: byte, r: Parsed<Bytes>): Parsed<Bytes> {
    match r
    case Bad => Bad
    case Good(s, rest) => Good([c] + s, rest)
  }

  /** The characters of a string up to its closing quote. */
  function ParseStringBody(s: Bytes): (r: Parsed<Bytes>)
    ensures r.Good? ==> |r.rest| < |s|
  {
    if s == [] then Bad
    else if s[0] == QUOTE then Good([], s[1..])
    else if s[0] == BACKSLASH then
      if |s| >= 2 && ShortEscape(s[1]).Some? then Cons(ShortEscape(s[1]).value, ParseStringBody(s[2..]))
      else if |s| >= 6 && s[1] == 117 && UnicodeEscape(s).Some?
      then Cons(UnicodeEscape(s).value, ParseStringBody(s[6..]))
      else Bad
    else if s[0] < 32 then Bad
    else Cons(s[0], ParseStringBody(s[1..]))
  }

  function ParseDigits(s: Bytes, acc: nat): (r: (nat, Bytes))
    ensures |r.1| <= |s| && (s != [] && IsDigit(s[0]) ==> |r.1| < |s|)
    decreases |s|
  {
    if s != [] && IsDigit(s[0]) then ParseDigits(s[1..], 10 * acc + (s[0] - 48) as nat) else (acc, s)
  }

  function ParseNumber(s: Bytes): (r: Parsed<Meaning>)
    ensures r.Good? ==> |r.rest| < |s|
  {
    if s != [] && s[0] == MINUS then
      if |s| > 1 && IsDigit(s[1]) then
        var (n, rest) := ParseDigits(s[1..], 0);
        Good(MNumber(0 - n as int), rest)
      else Bad
    else if s != [] && IsDigit(s[0]) then var (n, rest) := ParseDigits(s, 0); Good(MNumber(n), rest)
    else Bad
  }

  function ParseValue(s: Bytes): (r: Parsed<Meaning>)
    ensures r.Good? ==> |r.rest| < |s|
    decreases |s|, 0
  {
    if NULL_TEXT <= s then Good(MNull, s[4..])
    else if TRUE_TEXT <= s then Good(MBool(true), s[4..])
    else if FALSE_TEXT <= s then Good(MBool(false), s[5..])
    else if s == [] then Bad
    else if s[0] == QUOTE then
      match ParseStringBody(s[1..]) { case Bad => Bad case Good(str, rest) => Good(MString(str), rest) }
    else if s[0] == OPEN_ARRAY then
      if |s| > 1 && s[1] == CLOSE_ARRAY then Good(MArray([]), s[2..])
      else match ParseElems(s[1..]) { case Bad => Bad case Good(elems, rest) => Good(MArray(elems), rest) }
    else if s[0] == OPEN_OBJECT then
      if |s| > 1 && s[1] == CLOSE_OBJECT then Good(MObject(map[]), s[2..])
      else match ParseMembers(s[1..]) { case Bad => Bad case Good(fields, rest) => Good(MObject(fields), rest) }
    else ParseNumber(s)
  }

  function ParseElems(s: Bytes): (r: Parsed<seq<Meaning>>)
    ensures r.Good? ==> |r.rest| < |s|
    decreases |s|, 1
  {
    match ParseValue(s)
    case Bad => Bad
    case Good(v, r) =>
      if r == [] then Bad
      else if r[0] == CLOSE_ARRAY then Good([v], r[1..])
      else if r[0] == COMMA then
        match ParseElems(r[1..]) { case Bad => Bad case Good(vs, rest) => Good([v] + vs, rest) }
      else Bad
  }

  function ParseMembers(s: Bytes): (r: Parsed<map<Bytes, Meaning>>)
    ensures r.Good? ==> |r.rest| < |s|
    decreases |s|, 1
  {
    if s == [] || s[0] != QUOTE then Bad
    else match ParseStringBody(s[1..])
      case Bad => Bad
      case Good(key, r) =>
        if r == [] || r[0] != COLON then Bad
        else match ParseValue(r[1..])
          case Bad => Bad
          case Good(v, t) =>
            if t == [] then Bad
            else if t[0] == CLOSE_OBJECT then Good(map[key := v], t[1..])
            else if t[0] == COMMA then
              match ParseMembers(t[1..]) { case Bad => Bad case Good(m, rest) => Good(map[key := v] + m, rest) }
            else Bad
  }

  // ---------- the parser undoes the printer ----------

  lemma HexRoundTrip(d: byte)
    requires d < 16
    ensures HexValue(HexDigit(d)) == Some(d)
  {
  }

  lemma UnescapeOne(c: byte, tail: Bytes)
    ensures ParseStringBody(EscapeByte(c) + tail) == Cons(c, ParseStringBody(tail))
  {
    var s := EscapeByte(c) + tail;
    if |EscapeByte(c)| == 6 {
      HexRoundTrip(c / 16);
      HexRoundTrip(c % 16);
      assert s[4] == HexDigit(c / 16) && s[5] == HexDigit(c % 16);
      assert UnicodeEscape(s) == Some(16 * (c / 16) + c % 16);
      assert s[6..] == tail;
    } else if |EscapeByte(c)| == 2 {
      assert s[2..] == tail;
    } else {
      assert s[1..] == tail;
    }
  }

  lemma {:induction false} StringParses(str: Bytes, rest: Bytes)
    ensures ParseStringBody(EscapeAll(str) + [QUOTE] + rest) == Good(str, rest)
  {
    if str == [] {
      assert EscapeAll(str) + [QUOTE] + rest == [QUOTE] + rest;
    } else {
      var tail := EscapeAll(str[1..]) + [QUOTE] + rest;
      assert EscapeAll(str) + [QUOTE] + rest == EscapeByte(str[0]) + tail;
      UnescapeOne(str[0], tail);
      StringParses(str[1..], rest);
      assert str == [str[0]] + str[1..];
    }
  }

  /** A printed string, from its opening quote. */
  lemma QuotedParses(str: Bytes, rest: Bytes)
    ensures StringText(str) + rest != [] && (StringText(str) + rest)[0] == QUOTE
    ensures ParseStringBody((StringText(str) + rest)[1..]) == Good(str, rest)
  {
    hide ParseStringBody, EscapeAll;
    StringParses(str, rest);
    assert (StringText(str) + rest)[1..] == EscapeAll(str) + [QUOTE] + rest;
  }

  lemma DigitParses(d: nat, rest: Bytes, acc: nat)
    requires d < 10
    ensures ParseDigits([48 + d as byte] + rest, acc) == ParseDigits(rest, 10 * acc + d)
  {
    var s := [48 + d as byte] + rest;
    assert s[0] == 48 + d as byte && s[1..] == rest;
  }

  lemma {:induction false} NatParses(n: nat, rest: Bytes)
    ensures ParseDigits(NatText(n) + rest, 0) == ParseDigits(rest, n)
  {
    hide ParseDigits, IsDigit;
    if n < 10 {
      DigitParses(n, rest, 0);
    } else {
      var d := [48 + (n % 10) as byte];
      NatParses(n / 10, d + rest);
      assert NatText(n) + rest == NatText(n / 10) + (d + rest);
      DigitParses(n % 10, rest, n / 10);
    }
  }

  predicate NoDigitAhead(rest: Bytes) { rest == [] || !IsDigit(rest[0]) }

  lemma NumberParses(n: int, rest: Bytes)
    requires NoDigitAhead(rest)
    ensures IntText(n) != [] && (IntText(n)[0] == MINUS || IsDigit(IntText(n)[0]))
    ensures ParseNumber(IntText(n) + rest) == Good(MNumber(n), rest)
  {
    hide NatText;
    if n < 0 {
      NatParses(-n, rest);
      assert (IntText(n) + rest)[1..] == NatText(-n) + rest;
    } else {
      NatParses(n, rest);
    }
  }

  /** The first byte of a value decides which branch of the parser reads it. */
  lemma TextStarts(v: Json)
    ensures Text(v) != []
    ensures Text(v)[0] != CLOSE_ARRAY && Text(v)[0] != CLOSE_OBJECT
    ensures v.Number? ==> Text(v)[0] == MINUS || IsDigit(Text(v)[0])
  {
    hide ElemsText, MembersText, SortEntries, EscapeAll, NatText;
  }

  lemma NotAWord(s: Bytes)
    requires s != [] && s[0] != 110 && s[0] != 116 && s[0] != 102
    ensures !(NULL_TEXT <= s) && !(TRUE_TEXT <= s) && !(FALSE_TEXT <= s)
  {
  }

  lemma {:induction false} TextParses(v: Json, rest: Bytes)
    requires WellFormed(v) && NoDigitAhead(rest)
    ensures ParseValue(Text(v) + rest) == Good(Denote(v), rest)
    decreases v
  {
    hide IntText, ParseNumber, ParseStringBody, ParseElems, ParseMembers, SortEntries, EscapeAll, DenoteMembers,
         DenoteElems;
    var s := Text(v) + rest;
    if v.Array? {
      ArrayParses(v, rest);
    } else if v.Object? {
      ObjectParses(v, rest);
    } else if v.Null? {
      assert s[4..] == rest;
    } else if v.Bool? {
      if v.b {
        assert s[0] == 116 && s[..4] == TRUE_TEXT && s[4..] == rest;
      } else {
        assert s[0] == 102 && s[..5] == FALSE_TEXT && s[5..] == rest;
      }
    } else if v.String? {
      QuotedParses(v.s, rest);
      NotAWord(s);
    } else {
      NumberParses(v.n, rest);
      assert v.Number? && s[0] == IntText(v.n)[0];
      NotAWord(s);
    }
  }

  lemma {:induction false} ArrayParses(v: Json, rest: Bytes)
    requires v.Array? && WellFormed(v)
    ensures ParseValue(Text(v) + rest) == Good(Denote(v), rest)
    decreases v, |v.elems| + 1
  {
    hide ParseElems, ParseMembers, ParseNumber, ParseStringBody, NULL_TEXT, TRUE_TEXT, FALSE_TEXT;
    var s := Text(v) + rest;
    var body := ElemsText(v, v.elems) + [CLOSE_ARRAY] + rest;
    assert s == [OPEN_ARRAY] + body;
    assert s[1..] == body;
    NotAWord(s);
    if v.elems == [] {
      assert s[2..] == rest;
    } else {
      ElemsParse(v, v.elems, rest);
      TextStarts(v.elems[0]);
      assert body[0] == Text(v.elems[0])[0];
    }
  }

  lemma {:induction false} ElemsParse(v: Json, elems: seq<Json>, rest: Bytes)
    requires ElemsOf(v, elems) && elems != []
    requires forall i :: 0 <= i < |elems| ==> WellFormed(elems[i])
    ensures ParseElems(ElemsText(v, elems) + [CLOSE_ARRAY] + rest) == Good(DenoteElems(v, elems), rest)
    decreases v, |elems|
  {
    hide ParseValue, Text, Denote, WellFormed;
    if |elems| == 1 {
      assert ElemsText(v, elems) + [CLOSE_ARRAY] + rest == Text(elems[0]) + ([CLOSE_ARRAY] + rest);
      TextParses(elems[0], [CLOSE_ARRAY] + rest);
      assert ([CLOSE_ARRAY] + rest)[1..] == rest;
      assert DenoteElems(v, elems) == [Denote(elems[0])];
    } else {
      var tail := ElemsText(v, elems[1..]) + [CLOSE_ARRAY] + rest;
      assert ElemsText(v, elems) + [CLOSE_ARRAY] + rest == Text(elems[0]) + ([COMMA] + tail);
      TextParses(elems[0], [COMMA] + tail);
      assert ([COMMA] + tail)[1..] == tail;
      ElemsParse(v, elems[1..], rest);
    }
  }

  lemma {:induction false} ObjectParses(v: Json, rest: Bytes)
    requires v.Object? && WellFormed(v)
    ensures ParseValue(Text(v) + rest) == Good(Denote(v), rest)
    decreases v, |v.entries| + 2
  {
    hide ParseElems, ParseMembers, ParseNumber, ParseStringBody, SortEntries, NULL_TEXT, TRUE_TEXT, FALSE_TEXT;
    SortedInside(v, v.entries);
    SortKeepsMembers(v.entries);
    var sorted := SortEntries(v.entries);
    var s := Text(v) + rest;
    var body := MembersText(v, sorted) + [CLOSE_OBJECT] + rest;
    assert s == [OPEN_OBJECT] + body;
    assert s[1..] == body;
    NotAWord(s);
    SortKeepsMeaning(v, v.entries);
    if v.entries == [] {
      assert s[2..] == rest;
    } else {
      forall i | 0 <= i < |sorted| ensures WellFormed(sorted[i].value) { assert sorted[i] in v.entries; }
      MembersParse(v, sorted, rest);
      assert body[0] == QUOTE;
    }
  }

  lemma {:induction false} MemberParses(v: Json, e: Entry, rest: Bytes)
    requires e.value < v && WellFormed(e.value) && NoDigitAhead(rest)
    ensures var s := MemberText(v, e) + rest;
            && s != [] && s[0] == QUOTE
            && var k := ParseStringBody(s[1..]);
            && k.Good? && k.value == e.key && k.rest != [] && k.rest[0] == COLON
            && ParseValue(k.rest[1..]) == Good(Denote(e.value), rest)
    decreases v, 0
  {
    hide ParseValue, ParseStringBody, StringText, Text, Denote, WellFormed;
    var after := [COLON] + Text(e.value) + rest;
    assert MemberText(v, e) + rest == StringText(e.key) + after;
    QuotedParses(e.key, after);
    assert after[1..] == Text(e.value) + rest;
    TextParses(e.value, rest);
  }

  lemma {:induction false} FirstMemberParses(v: Json, e: Entry, after: Bytes)
    requires e.value < v && WellFormed(e.value) && after != [] && (after[0] == CLOSE_OBJECT || after[0] == COMMA)
    ensures ParseMembers(MemberText(v, e) + after) ==
            if after[0] == CLOSE_OBJECT then Good(map[e.key := Denote(e.value)], after[1..])
            else
              match ParseMembers(after[1..])
              case Bad => Bad
              case Good(m, rest) => Good(map[e.key := Denote(e.value)] + m, rest)
    decreases v, 1
  {
    hide ParseValue, ParseStringBody, MemberText, Denote, WellFormed;
    MemberParses(v, e, after);
  }

  lemma {:induction false} MembersParse(v: Json, entries: seq<Entry>, rest: Bytes)
    requires MembersOf(v, entries) && entries != []
    requires forall i :: 0 <= i < |entries| ==> WellFormed(entries[i].value)
    ensures ParseMembers(MembersText(v, entries) + [CLOSE_OBJECT] + rest) == Good(DenoteMembers(v, entries), rest)
    decreases v, |entries| + 1
  {
    hide ParseMembers, MemberText, Denote, WellFormed;
    if |entries| == 1 {
      assert MembersText(v, entries) + [CLOSE_OBJECT] + rest == MemberText(v, entries[0]) + ([CLOSE_OBJECT] + rest);
      FirstMemberParses(v, entries[0], [CLOSE_OBJECT] + rest);
      assert ([CLOSE_OBJECT] + rest)[1..] == rest;
      assert DenoteMembers(v, entries) == map[entries[0].key := Denote(entries[0].value)];
    } else {
      var tail := MembersText(v, entries[1..]) + [CLOSE_OBJECT] + rest;
      assert MembersText(v, entries) + [CLOSE_OBJECT] + rest == MemberText(v, entries[0]) + ([COMMA] + tail);
      FirstMemberParses(v, entries[0], [COMMA] + tail);
      assert ([COMMA] + tail)[1..] == tail;
      MembersParse(v, entries[1..], rest);
    }
  }

  /** The round trip: the canonical text of a value reads back as its meaning. */
  lemma PrintedTextParses(v: Json)
    requires WellFormed(v)
    ensures ParseValue(Text(v)) == Good(Denote(v), [])
  {
    assert Text(v) + [] == Text(v);
    TextParses(v, []);
  }

  // ---------- members as a map ----------

  lemma {:induction false} MemberValue(v: Json, entries: seq<Entry>, i: nat)
    requires MembersOf(v, entries) && DistinctKeys(entries) && i < |entries|
    ensures var m := DenoteMembers(v, entries);
            entries[i].key in m && m[entries[i].key] == Denote(entries[i].value)
    decreases |entries|
  {
    hide Denote;
    if i == 0 {
      if entries[0].key in DenoteMembers(v, entries[1..]) {
        var j := MemberIndex(v, entries[1..], entries[0].key);
      }
    } else {
      assert entries[i] == entries[1..][i - 1];
      MemberValue(v, entries[1..], i - 1);
    }
  }

  lemma {:induction false} MemberIndex(v: Json, entries: seq<Entry>, k: Bytes) returns (i: nat)
    requires MembersOf(v, entries) && k in DenoteMembers(v, entries)
    ensures i < |entries| && entries[i].key == k
    decreases |entries|
  {
    hide Denote;
    i := 0;
    if k != entries[0].key {
      i := MemberIndex(v, entries[1..], k);
      i := i + 1;
    }
  }

  lemma {:induction false} InsertKeepsDistinct(e: Entry, entries: seq<Entry>)
    requires Sorted(entries) && DistinctKeys([e] + entries)
    ensures DistinctKeys(InsertEntry(e, entries))
  {
    if entries != [] && Before(entries[0].key, e.key) {
      var rest := entries[1..];
      forall i, j | 0 <= i < j < |[e] + rest| ensures ([e] + rest)[i].key != ([e] + rest)[j].key {
        assert ([e] + rest)[j] == ([e] + entries)[j + 1];
        assert ([e] + rest)[i] == ([e] + entries)[if i == 0 then 0 else i + 1];
      }
      InsertKeepsDistinct(e, rest);
      var r := InsertEntry(e, rest);
      forall i | 0 <= i < |r| ensures r[i].key != entries[0].key { InsertedKeys(e, entries, r[i]); }
    }
  }

  /** An entry of the longer list is the new one or one behind the first. */
  lemma InsertedKeys(e: Entry, entries: seq<Entry>, x: Entry)
    requires Sorted(entries) && entries != [] && DistinctKeys([e] + entries) && x in InsertEntry(e, entries[1..])
    ensures x.key != entries[0].key
  {
    var rest := entries[1..];
    assert x in multiset(InsertEntry(e, rest));
    hide InsertEntry;
    assert ([e] + entries)[0] == e && ([e] + entries)[1] == entries[0];
    if x != e {
      assert x in rest;
      var j :| 0 <= j < |rest| && rest[j] == x;
      assert ([e] + entries)[j + 2] == x;
    }
  }

  lemma {:induction false} SortKeepsDistinct(entries: seq<Entry>)
    requires DistinctKeys(entries)
    ensures DistinctKeys(SortEntries(entries))
  {
    if entries != [] {
      var rest := SortEntries(entries[1..]);
      SortKeepsDistinct(entries[1..]);
      SortKeepsMembers(entries[1..]);
      forall i | 0 <= i < |rest| ensures rest[i].key != entries[0].key { assert rest[i] in entries[1..]; }
      InsertKeepsDistinct(entries[0], rest);
    }
  }

  lemma SortKeepsMeaning(v: Json, entries: seq<Entry>)
    requires MembersOf(v, entries) && DistinctKeys(entries)
    ensures MembersOf(v, SortEntries(entries))
    ensures DenoteMembers(v, SortEntries(entries)) == DenoteMembers(v, entries)
  {
    hide Denote, DenoteMembers, SortEntries;
    var sorted := SortEntries(entries);
    SortedInside(v, entries);
    SortKeepsMembers(entries);
    SortKeepsDistinct(entries);
    var m, n := DenoteMembers(v, entries), DenoteMembers(v, sorted);
    forall k | k in m ensures k in n && n[k] == m[k] {
      var i := MemberIndex(v, entries, k);
      MemberValue(v, entries, i);
      assert entries[i] in sorted;
      var j :| 0 <= j < |sorted| && sorted[j] == entries[i];
      MemberValue(v, sorted, j);
    }
    forall k | k in n ensures k in m {
      var i := MemberIndex(v, sorted, k);
      assert sorted[i] in entries;
      var j :| 0 <= j < |entries| && entries[j] == sorted[i];
      MemberValue(v, entries, j);
    }
  }

  // ---------- equal text, equal meaning ----------

  lemma {:induction false} ElemsTextSame(v: Json, a: seq<Json>, w: Json, b: seq<Json>)
    requires ElemsOf(v, a) && ElemsOf(w, b) && DenoteElems(v, a) == DenoteElems(w, b)
    requires forall i :: 0 <= i < |a| ==> WellFormed(a[i])
    requires forall i :: 0 <= i < |b| ==> WellFormed(b[i])
    ensures ElemsText(v, a) == ElemsText(w, b)
    decreases v, |a|
  {
    hide Text, Denote, WellFormed;
    ElemsLength(v, a);
    ElemsLength(w, b);
    if a != [] {
      assert DenoteElems(v, a)[0] == Denote(a[0]) && DenoteElems(v, a)[1..] == DenoteElems(v, a[1..]);
      assert DenoteElems(w, b)[0] == Denote(b[0]) && DenoteElems(w, b)[1..] == DenoteElems(w, b[1..]);
      SameMeaningSameText(a[0], b[0]);
      ElemsTextSame(v, a[1..], w, b[1..]);
    }
  }

  lemma {:induction false} ElemsLength(v: Json, a: seq<Json>)
    requires ElemsOf(v, a)
    ensures |DenoteElems(v, a)| == |a|
  {
    if a != [] { ElemsLength(v, a[1..]); }
  }

  /** A sorted list of distinct keys begins with the least key of its map, and its tail
      denotes the map without that key. */
  lemma SortedHead(v: Json, entries: seq<Entry>)
    requires MembersOf(v, entries) && DistinctKeys(entries) && Sorted(entries) && entries != []
    ensures var m, k := DenoteMembers(v, entries), entries[0].key;
            && k in m && m[k] == Denote(entries[0].value)
            && (forall j :: j in m && j != k ==> Before(k, j))
            && DenoteMembers(v, entries[1..]) == m - {k}
  {
    hide Denote;
    var m, k, rest := DenoteMembers(v, entries), entries[0].key, DenoteMembers(v, entries[1..]);
    MemberValue(v, entries, 0);
    forall j | j in m && j != k ensures Before(k, j) {
      var i := MemberIndex(v, entries, j);
      BeforeIsTotal(k, j);
    }
    if k in rest {
      var i := MemberIndex(v, entries[1..], k);
    }
  }

  /** Sorted lists with the same meaning begin with the same key and meaning. */
  lemma SameHeads(v: Json, a: seq<Entry>, w: Json, b: seq<Entry>)
    requires MembersOf(v, a) && MembersOf(w, b) && DenoteMembers(v, a) == DenoteMembers(w, b) && a != [] && b != []
    requires DistinctKeys(a) && Sorted(a) && DistinctKeys(b) && Sorted(b)
    ensures a[0].key == b[0].key && Denote(a[0].value) == Denote(b[0].value)
    ensures DenoteMembers(v, a[1..]) == DenoteMembers(w, b[1..])
  {
    hide Denote, DenoteMembers, MembersOf, Sorted, DistinctKeys;
    SortedHead(v, a);
    SortedHead(w, b);
    BeforeIsTotal(a[0].key, b[0].key);
  }

  lemma TailIsSorted(v: Json, entries: seq<Entry>)
    requires MembersOf(v, entries) && DistinctKeys(entries) && Sorted(entries) && entries != []
    ensures MembersOf(v, entries[1..]) && DistinctKeys(entries[1..]) && Sorted(entries[1..])
  {
  }

  lemma {:induction false} MembersTextSame(v: Json, a: seq<Entry>, w: Json, b: seq<Entry>)
    requires MembersOf(v, a) && MembersOf(w, b) && DenoteMembers(v, a) == DenoteMembers(w, b)
    requires DistinctKeys(a) && Sorted(a) && DistinctKeys(b) && Sorted(b)
    requires forall i :: 0 <= i < |a| ==> WellFormed(a[i].value)
    requires forall i :: 0 <= i < |b| ==> WellFormed(b[i].value)
    ensures MembersText(v, a) == MembersText(w, b)
    ensures |a| == |b|
    decreases v, |a|
  {
    hide Text, Denote, WellFormed, StringText, Sorted, DistinctKeys;
    if a == [] {
      if b != [] { SortedHead(w, b); }
    } else {
      assert b != [] by { SortedHead(v, a); }
      SameHeads(v, a, w, b);
      TailIsSorted(v, a);
      TailIsSorted(w, b);
      SameMeaningSameText(a[0].value, b[0].value);
      MembersTextSame(v, a[1..], w, b[1..]);
    }
  }

  lemma {:induction false} SameMeaningSameText(v: Json, w: Json)
    requires WellFormed(v) && WellFormed(w) && Denote(v) == Denote(w)
    ensures Text(v) == Text(w)
    decreases v
  {
    hide IntText, StringText, SortEntries, ElemsText, MembersText, DenoteElems, DenoteMembers;
    if v.Array? {
      ElemsTextSame(v, v.elems, w, w.elems);
    } else if v.Object? {
      SortedForm(v);
      SortedForm(w);
      MembersTextSame(v, SortEntries(v.entries), w, SortEntries(w.entries));
    }
  }

  lemma SortedForm(v: Json)
    requires v.Object? && WellFormed(v)
    ensures var s := SortEntries(v.entries);
            && MembersOf(v, s) && DistinctKeys(s) && Sorted(s)
            && (forall i :: 0 <= i < |s| ==> WellFormed(s[i].value))
            && DenoteMembers(v, s) == DenoteMembers(v, v.entries)
  {
    hide DenoteMembers, SortEntries;
    SortKeepsMeaning(v, v.entries);
    SortKeepsDistinct(v.entries);
    SortKeepsMembers(v.entries);
    var s := SortEntries(v.entries);
    forall i | 0 <= i < |s| ensures WellFormed(s[i].value) { assert s[i] in v.entries; }
  }

  /** The encoding is canonical: two values have the same bytes exactly when they mean the
      same. Left to right is injectivity (through the parser), right to left says that the
      order in which members were inserted does not show. */
  lemma CanonicalExactly(v: Json, w: Json)
    requires WellFormed(v) && WellFormed(w)
    ensures Text(v) == Text(w) <==> Denote(v) == Denote(w)
  {
    hide Text, Denote, WellFormed, ParseValue;
    if Text(v) == Text(w) {
      PrintedTextParses(v);
      PrintedTextParses(w);
    }
    if Denote(v) == Denote(w) { SameMeaningSameText(v, w); }
  }
}
