/** The canonical encoding `oath-json-v1`: compact JSON text with object keys in byte
    order at every depth, integers only, strings escaped as in section 7 of RFC 8259. */
module CanonicalJson {
  import opened Base
  import opened ByteOrder

  datatype Entry = Entry(key: Bytes, value: Json)

  /** Object members are kept in the order the caller inserted them. */
  datatype Json =
    | Null
    | Bool(b: bool)
    | Number(n: int)
    | String(s: Bytes)
    | Array(elems: seq<Json>)
    | Object(entries: seq<Entry>)

  /** What a JSON text means: members have no order. */
  datatype Meaning =
    | MNull
    | MBool(b: bool)
    | MNumber(n: int)
    | MString(s: Bytes)
    | MArray(elems: seq<Meaning>)
    | MObject(fields: map<Bytes, Meaning>)

  predicate DistinctKeys(entries: seq<Entry>) {
    forall i, j :: 0 <= i < j < |entries| ==> entries[i].key != entries[j].key
  }

  /** A map never holds a key twice. */
  ghost predicate WellFormed(v: Json) {
    match v
    case Array(elems) => forall i :: 0 <= i < |elems| ==> WellFormed(elems[i])
    case Object(entries) => DistinctKeys(entries) && forall i :: 0 <= i < |entries| ==> WellFormed(entries[i].value)
    case _ => true
  }

  /** The values of a list, or of a list of members, that lie inside v. */
  ghost predicate ElemsOf(v: Json, elems: seq<Json>) {
    forall i :: 0 <= i < |elems| ==> elems[i] < v
  }

  ghost predicate MembersOf(v: Json, entries: seq<Entry>) {
    forall i :: 0 <= i < |entries| ==> entries[i].value < v
  }

  ghost function Denote(v: Json): Meaning
    decreases v
  {
    match v
    case Null => MNull
    case Bool(b) => MBool(b)
    case Number(n) => MNumber(n)
    case String(s) => MString(s)
    case Array(elems) => MArray(DenoteElems(v, elems))
    case Object(entries) => MObject(DenoteMembers(v, entries))
  }

  ghost function DenoteElems(v: Json, elems: seq<Json>): (r: seq<Meaning>)
    requires ElemsOf(v, elems)
    decreases v, |elems|
  {
    if elems == [] then [] else [Denote(elems[0])] + DenoteElems(v, elems[1..])
  }

  ghost function DenoteMembers(v: Json, entries: seq<Entry>): map<Bytes, Meaning>
    requires MembersOf(v, entries)
    decreases v, |entries|
  {
    if entries == [] then map[]
    else map[entries[0].key := Denote(entries[0].value)] + DenoteMembers(v, entries[1..])
  }

  // ---------- key order ----------

  ghost predicate Sorted(entries: seq<Entry>) {
    forall i, j :: 0 <= i < j < |entries| ==> !Before(entries[j].key, entries[i].key)
  }

  /** Stable insertion: before the first member with a larger key. */
  function InsertEntry(e: Entry, entries: seq<Entry>): (r: seq<Entry>)
    requires Sorted(entries)
    ensures Sorted(r) && multiset(r) == multiset(entries) + multiset{e}
  {
    if entries == [] then [e]
    else if Before(entries[0].key, e.key) then
      var rest := InsertEntry(e, entries[1..]);
      InsertedBehind(entries, e, rest);
      [entries[0]] + rest
    else
      InsertedInFront(e, entries);
      [e] + entries
  }

  lemma InsertedBehind(entries: seq<Entry>, e: Entry, rest: seq<Entry>)
    requires entries != [] && Sorted(entries) && Before(entries[0].key, e.key)
    requires Sorted(rest) && multiset(rest) == multiset(entries[1..]) + multiset{e}
    ensures Sorted([entries[0]] + rest)
    ensures multiset([entries[0]] + rest) == multiset(entries) + multiset{e}
  {
    var r := [entries[0]] + rest;
    assert entries == [entries[0]] + entries[1..];
    forall i, j | 0 <= i < j < |r| ensures !Before(r[j].key, r[i].key) {
      if i == 0 {
        assert r[j] == rest[j - 1] && rest[j - 1] in multiset(rest);
        BeforeIsTotal(r[j].key, entries[0].key);
        if r[j] != e {
          assert r[j] in entries[1..];
        }
      } else {
        assert r[i] == rest[i - 1] && r[j] == rest[j - 1];
      }
    }
  }

  lemma InsertedInFront(e: Entry, entries: seq<Entry>)
    requires entries != [] && Sorted(entries) && !Before(entries[0].key, e.key)
    ensures Sorted([e] + entries)
    ensures multiset([e] + entries) == multiset(entries) + multiset{e}
  {
    var r := [e] + entries;
    forall i, j | 0 <= i < j < |r| ensures !Before(r[j].key, r[i].key) {
      if i == 0 && j > 1 {
        if Before(r[j].key, e.key) {
          BeforeIsTotal(entries[0].key, r[j].key);
          BeforeIsTotal(entries[0].key, e.key);
          if Before(entries[0].key, r[j].key) { BeforeIsTransitive(entries[0].key, r[j].key, e.key); }
        }
      }
    }
  }

  /** `sort_by_key`. */
  function SortEntries(entries: seq<Entry>): (r: seq<Entry>)
    ensures Sorted(r) && multiset(r) == multiset(entries)
  {
    if entries == [] then []
    else
      assert entries == [entries[0]] + entries[1..];
      InsertEntry(entries[0], SortEntries(entries[1..]))
  }

  lemma SortKeepsMembers(entries: seq<Entry>)
    ensures |SortEntries(entries)| == |entries|
    ensures forall e :: e in SortEntries(entries) <==> e in entries
  {
    var r := SortEntries(entries);
    assert |r| == |multiset(r)| == |multiset(entries)| == |entries|;
    forall e ensures e in r <==> e in entries {
      assert e in r <==> e in multiset(r);
      assert e in entries <==> e in multiset(entries);
    }
  }

  lemma SortedInside(v: Json, entries: seq<Entry>)
    requires MembersOf(v, entries)
    ensures MembersOf(v, SortEntries(entries))
  {
    SortKeepsMembers(entries);
    var r := SortEntries(entries);
    forall i | 0 <= i < |r| ensures r[i].value < v { assert r[i] in entries; }
  }

  // ---------- the printer ----------

  const QUOTE: byte := 34
  const BACKSLASH: byte := 92
  const COMMA: byte := 44
  const COLON: byte := 58
  const MINUS: byte := 45
  const OPEN_ARRAY: byte := 91
  const CLOSE_ARRAY: byte := 93
  const OPEN_OBJECT: byte := 123
  const CLOSE_OBJECT: byte := 125
  const NULL_TEXT: Bytes := [110, 117, 108, 108]
  const TRUE_TEXT: Bytes := [116, 114, 117, 101]
  const FALSE_TEXT: Bytes := [102, 97, 108, 115, 101]

  function HexDigit(d: byte): byte
    requires d < 16
  {
    if d < 10 then 48 + d else 87 + d
  }

  /** One byte of a string: the short escapes, `\u00xx` for other control characters,
      everything else (UTF-8 included) verbatim. */
  function EscapeByte(c: byte): (r: Bytes)
    ensures r != []
  {
    if c == QUOTE || c == BACKSLASH then [BACKSLASH, c]
    else if c == 8 then [BACKSLASH, 98]
    else if c == 9 then [BACKSLASH, 116]
    else if c == 10 then [BACKSLASH, 110]
    else if c == 12 then [BACKSLASH, 102]
    else if c == 13 then [BACKSLASH, 114]
    else if c < 32 then [BACKSLASH, 117, 48, 48, HexDigit(c / 16), HexDigit(c % 16)]
    else [c]
  }

  function EscapeAll(s: Bytes): Bytes {
    if s == [] then [] else EscapeByte(s[0]) + EscapeAll(s[1..])
  }

  function StringText(s: Bytes): Bytes { [QUOTE] + EscapeAll(s) + [QUOTE] }

  function NatText(n: nat): (r: Bytes)
    ensures r != [] && IsDigit(r[0])
  {
    if n < 10 then [48 + n as byte] else NatText(n / 10) + [48 + (n % 10) as byte]
  }

  function IntText(n: int): Bytes {
    if n < 0 then [MINUS] + NatText(-n) else NatText(n)
  }

  function Text(v: Json): (r: Bytes)
    decreases v
  {
    match v
    case Null => NULL_TEXT
    case Bool(b) => if b then TRUE_TEXT else FALSE_TEXT
    case Number(n) => IntText(n)
    case String(s) => StringText(s)
    case Array(elems) => [OPEN_ARRAY] + ElemsText(v, elems) + [CLOSE_ARRAY]
    case Object(entries) =>
      SortedInside(v, entries);
      [OPEN_OBJECT] + MembersText(v, SortEntries(entries)) + [CLOSE_OBJECT]
  }

  function ElemsText(ghost v: Json, elems: seq<Json>): Bytes
    requires ElemsOf(v, elems)
    decreases v, |elems|
  {
    if elems == [] then []
    else if |elems| == 1 then Text(elems[0])
    else Text(elems[0]) + [COMMA] + ElemsText(v, elems[1..])
  }

  function MemberText(ghost v: Json, e: Entry): Bytes
    requires e.value < v
    decreases v, 0
  {
    StringText(e.key) + [COLON] + Text(e.value)
  }

  function MembersText(ghost v: Json, entries: seq<Entry>): Bytes
    requires MembersOf(v, entries)
    decreases v, |entries|
  {
    if entries == [] then []
    else if |entries| == 1 then MemberText(v, entries[0])
    else MemberText(v, entries[0]) + [COMMA] + MembersText(v, entries[1..])
  }

  class ByteBuffer {
    var bytes: Bytes

    constructor ()
      ensures bytes == []
    {
      bytes := [];
    }

    method Extend(more: Bytes)
      modifies this
      ensures bytes == old(bytes) + more
    {
      bytes := bytes + more;
    }
  }

  /** The recursive `write`, appending to the caller's buffer. */
  method Write(value: Json, output: ByteBuffer)
    modifies output
    ensures output.bytes == old(output.bytes) + Text(value)
    decreases value
  {
    hide ElemsText, MembersText, SortEntries, StringText, IntText;
    match value
    case Null => output.Extend(NULL_TEXT);
    case Bool(b) => output.Extend(if b then TRUE_TEXT else FALSE_TEXT);
    case Number(n) => output.Extend(IntText(n));
    case String(s) => output.Extend(StringText(s));
    case Array(elems) =>
      output.Extend([OPEN_ARRAY]);
      WriteElems(value, elems, output);
      output.Extend([CLOSE_ARRAY]);
    case Object(entries) =>
      output.Extend([OPEN_OBJECT]);
      SortedInside(value, entries);
      WriteMembers(value, SortEntries(entries), output);
      output.Extend([CLOSE_OBJECT]);
  }

  method WriteElems(ghost v: Json, elems: seq<Json>, output: ByteBuffer)
    requires ElemsOf(v, elems)
    modifies output
    ensures output.bytes == old(output.bytes) + ElemsText(v, elems)
    decreases v, 0
  {
    hide Text, ElemsText, ElemsTail;
    ghost var start := output.bytes;
    ElemsTailEnds(v, elems);
    for i := 0 to |elems|
      invariant output.bytes + ElemsTail(v, elems, i) == start + ElemsText(v, elems)
    {
      ghost var before := output.bytes;
      ghost var tail := ElemsTail(v, elems, i + 1);
      ElemsTailStep(v, elems, i);
      if i > 0 { output.Extend([COMMA]); }
      Write(elems[i], output);
      assert output.bytes == before + Separator(i) + Text(elems[i]);
      Associate(before, Separator(i), Text(elems[i]), tail);
    }
  }

  method WriteMember(ghost v: Json, e: Entry, output: ByteBuffer)
    requires e.value < v
    modifies output
    ensures output.bytes == old(output.bytes) + MemberText(v, e)
    decreases v, 0
  {
    hide Text, StringText;
    output.Extend(StringText(e.key));
    output.Extend([COLON]);
    Write(e.value, output);
  }

  method WriteMembers(ghost v: Json, entries: seq<Entry>, output: ByteBuffer)
    requires MembersOf(v, entries)
    modifies output
    ensures output.bytes == old(output.bytes) + MembersText(v, entries)
    decreases v, 1
  {
    hide Text, MemberText, MembersText, MembersTail;
    ghost var start := output.bytes;
    MembersTailEnds(v, entries);
    for i := 0 to |entries|
      invariant output.bytes + MembersTail(v, entries, i) == start + MembersText(v, entries)
    {
      ghost var before := output.bytes;
      ghost var tail := MembersTail(v, entries, i + 1);
      MembersTailStep(v, entries, i);
      if i > 0 { output.Extend([COMMA]); }
      WriteMember(v, entries[i], output);
      assert output.bytes == before + Separator(i) + MemberText(v, entries[i]);
      Associate(before, Separator(i), MemberText(v, entries[i]), tail);
    }
  }

  function Separator(i: nat): Bytes { if i == 0 then [] else [COMMA] }

  lemma Associate(a: Bytes, b: Bytes, c: Bytes, d: Bytes)
    ensures a + b + c + d == a + (b + c + d)
  {
  }

  lemma ElemsTailEnds(v: Json, elems: seq<Json>)
    requires ElemsOf(v, elems)
    ensures ElemsTail(v, elems, 0) == ElemsText(v, elems) && ElemsTail(v, elems, |elems|) == []
  {
    assert elems[0..] == elems;
  }

  lemma ElemsTailStep(v: Json, elems: seq<Json>, i: nat)
    requires ElemsOf(v, elems) && i < |elems|
    ensures ElemsTail(v, elems, i) == Separator(i) + Text(elems[i]) + ElemsTail(v, elems, i + 1)
  {
    hide Text;
    assert elems[i..][1..] == elems[i + 1..];
  }

  lemma MembersTailEnds(v: Json, entries: seq<Entry>)
    requires MembersOf(v, entries)
    ensures MembersTail(v, entries, 0) == MembersText(v, entries) && MembersTail(v, entries, |entries|) == []
  {
    assert entries[0..] == entries;
  }

  lemma MembersTailStep(v: Json, entries: seq<Entry>, i: nat)
    requires MembersOf(v, entries) && i < |entries|
    ensures MembersTail(v, entries, i) == Separator(i) + MemberText(v, entries[i]) + MembersTail(v, entries, i + 1)
  {
    hide Text, MemberText;
    assert entries[i..][1..] == entries[i + 1..];
  }

  /** What is still to be written after the first i elements. */
  ghost function ElemsTail(v: Json, elems: seq<Json>, i: nat): Bytes
    requires ElemsOf(v, elems) && i <= |elems|
  {
    if i == 0 || i == |elems| then ElemsText(v, elems[i..]) else [COMMA] + ElemsText(v, elems[i..])
  }

  ghost function MembersTail(v: Json, entries: seq<Entry>, i: nat): Bytes
    requires MembersOf(v, entries) && i <= |entries|
  {
    if i == 0 || i == |entries| then MembersText(v, entries[i..]) else [COMMA] + MembersText(v, entries[i..])
  }

  predicate IsDigit(c: byte) { 48 <= c <= 57 }
}
