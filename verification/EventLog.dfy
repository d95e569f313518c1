/** The hash-chained audit log and its idempotent append. */
module EventLog {
  import opened Base

  datatype VersionStatus = Active | Revoked | Quarantined

  /** What an event is about; `KeyText` is the text stored as its key. */
  datatype EventKey =
    | StageCreated(id: Bytes)
    | StageApproved(id: Bytes)
    | StageRejected(id: Bytes)
    | VersionEnded(status: VersionStatus, name: Bytes, version: Bytes)
    | Direct(digest: Bytes)

  datatype Event = Event(key: EventKey, json: Bytes, previous: Bytes, hash: Digest)

  // "GENESIS"
  const GENESIS: Bytes := [71, 69, 78, 69, 83, 73, 83]

  function LatestHash(log: seq<Event>): Bytes {
    if log == [] then GENESIS else log[|log| - 1].hash
  }

  predicate HasKey(log: seq<Event>, key: EventKey) {
    exists i :: 0 <= i < |log| && log[i].key == key
  }

  predicate HasHash(log: seq<Event>, hash: Bytes) {
    exists i :: 0 <= i < |log| && log[i].hash == hash
  }

  function NextEvent(h: Hash, log: seq<Event>, key: EventKey, json: Bytes): Event {
    Event(key, json, LatestHash(log), h(LatestHash(log) + json))
  }

  datatype AppendError = DuplicateHash

  /** `append_event_keyed`, one transaction under the advisory lock: nothing when the key
      is present, otherwise one linked row; the unique index on hashes may refuse it. */
  function AppendKeyed(h: Hash, log: seq<Event>, key: EventKey, json: Bytes): Result<seq<Event>, AppendError> {
    if HasKey(log, key) then Ok(log)
    else
      var event := NextEvent(h, log, key, json);
      if HasHash(log, event.hash) then Err(DuplicateHash) else Ok(log + [event])
  }

  /** `append_event`: the key is the digest of the event's own text. */
  function AppendDirect(h: Hash, log: seq<Event>, json: Bytes): Result<seq<Event>, AppendError> {
    AppendKeyed(h, log, Direct(h(json)), json)
  }

  lemma GenesisSpelledOut()
    ensures GENESIS == Ascii("GENESIS")
  {
  }

  // ---------- the chain ----------

  predicate Linked(h: Hash, log: seq<Event>) {
    forall i :: 0 <= i < |log| ==>
      && log[i].previous == LatestHash(log[..i])
      && log[i].hash == h(log[i].previous + log[i].json)
  }

  predicate UniqueKeys(log: seq<Event>) {
    forall i, j :: 0 <= i < j < |log| ==> log[i].key != log[j].key
  }

  predicate UniqueHashes(log: seq<Event>) {
    forall i, j :: 0 <= i < j < |log| ==> log[i].hash != log[j].hash
  }

  predicate WellLinked(h: Hash, log: seq<Event>) {
    Linked(h, log) && UniqueKeys(log) && UniqueHashes(log)
  }

  lemma LinkedSnoc(h: Hash, log: seq<Event>, key: EventKey, json: Bytes)
    requires Linked(h, log)
    ensures Linked(h, log + [NextEvent(h, log, key, json)])
  {
    var after := log + [NextEvent(h, log, key, json)];
    forall i | 0 <= i < |after| ensures after[i].previous == LatestHash(after[..i]) {
      assert after[..i] == log[..i];
      if i == |log| { assert log[..i] == log; }
    }
  }

  /** An append keeps the chain and never touches what is there. */
  lemma AppendKeepsChain(h: Hash, log: seq<Event>, key: EventKey, json: Bytes)
    requires WellLinked(h, log)
    ensures var r := AppendKeyed(h, log, key, json);
            r.Ok? ==> WellLinked(h, r.value) && log <= r.value && HasKey(r.value, key)
  {
    var r := AppendKeyed(h, log, key, json);
    if r.Ok? && !HasKey(log, key) {
      LinkedSnoc(h, log, key, json);
      assert r.value[|log|].key == key;
    }
  }

  /** Appending the same key again changes nothing, whatever text comes with it. */
  lemma AppendIsIdempotent(h: Hash, log: seq<Event>, key: EventKey, json: Bytes, again: Bytes)
    requires AppendKeyed(h, log, key, json).Ok?
    ensures var after := AppendKeyed(h, log, key, json).value;
            AppendKeyed(h, after, key, again) == Ok(after)
  {
    var after := AppendKeyed(h, log, key, json).value;
    if !HasKey(log, key) { assert after[|log|].key == key; }
  }

  /** The messages hashed by the chain. */
  function ChainMessages(log: seq<Event>): set<Bytes> {
    set i | 0 <= i < |log| :: log[i].previous + log[i].json
  }

  function Texts(log: seq<Event>): seq<Bytes> {
    seq(|log|, i requires 0 <= i < |log| => log[i].json)
  }

  lemma DigestIsNotGenesis(d: Digest, a: Bytes, b: Bytes)
    ensures d + a != GENESIS + b
  {
    assert (d + a)[0] == d[0] && (GENESIS + b)[0] == 71;
  }

  /** `previous` is GENESIS or a digest, so the delimiter-free message splits one way. */
  lemma ChainMessageSplits(h: Hash, a: seq<Event>, b: seq<Event>, i: nat, j: nat)
    requires Linked(h, a) && Linked(h, b) && i < |a| && j < |b|
    requires a[i].previous + a[i].json == b[j].previous + b[j].json
    ensures a[i].previous == b[j].previous && a[i].json == b[j].json
    ensures i == 0 <==> j == 0
  {
    var p, q := a[i].previous, b[j].previous;
    if i == 0 && j > 0 { DigestIsNotGenesis(b[..j][j - 1].hash, b[j].json, a[i].json); }
    if i > 0 && j == 0 { DigestIsNotGenesis(a[..i][i - 1].hash, a[i].json, b[j].json); }
    assert |p| == |q|;
    assert a[i].json == (p + a[i].json)[|p|..] && b[j].json == (q + b[j].json)[|q|..];
    assert p == (p + a[i].json)[..|p|] && q == (q + b[j].json)[..|q|];
  }

  lemma TextsStep(log: seq<Event>, i: nat)
    requires i < |log|
    ensures Texts(log[..i + 1]) == Texts(log[..i]) + [log[i].json]
  {
  }

  lemma LinkAt(h: Hash, log: seq<Event>, i: nat)
    requires Linked(h, log) && i < |log|
    ensures i > 0 ==> log[i].previous == log[i - 1].hash
    ensures log[i].hash == h(log[i].previous + log[i].json)
    ensures log[i].previous + log[i].json in ChainMessages(log)
  {
    if i > 0 { assert log[..i][i - 1] == log[i - 1]; }
  }

  lemma {:induction false} EqualEventsEqualPasts(h: Hash, M: set<Bytes>, a: seq<Event>, b: seq<Event>, i: nat, j: nat)
    requires Linked(h, a) && Linked(h, b) && i < |a| && j < |b|
    requires !CollisionIn(h, M) && ChainMessages(a) <= M && ChainMessages(b) <= M
    requires a[i].hash == b[j].hash
    ensures i == j && Texts(a[..i + 1]) == Texts(b[..j + 1])
    decreases i
  {
    hide CollisionIn, Linked, ChainMessages, Texts;
    LinkAt(h, a, i);
    LinkAt(h, b, j);
    NoCollision(h, M, a[i].previous + a[i].json, b[j].previous + b[j].json);
    ChainMessageSplits(h, a, b, i, j);
    TextsStep(a, i);
    TextsStep(b, j);
    if i > 0 {
      EqualEventsEqualPasts(h, M, a, b, i - 1, j - 1);
    } else {
      assert a[..0] == b[..0];
    }
  }

  /** Equal latest hashes mean equal histories of event texts, of equal length, or two of
      the hashed messages collide. */
  lemma LatestHashBindsHistory(h: Hash, a: seq<Event>, b: seq<Event>)
    requires Linked(h, a) && Linked(h, b) && LatestHash(a) == LatestHash(b)
    ensures Texts(a) == Texts(b) || CollisionIn(h, ChainMessages(a) + ChainMessages(b))
  {
    hide CollisionIn;
    var M := ChainMessages(a) + ChainMessages(b);
    if !CollisionIn(h, M) {
      if a != [] && b != [] {
        EqualEventsEqualPasts(h, M, a, b, |a| - 1, |b| - 1);
        assert a[..|a|] == a && b[..|b|] == b;
      }
    }
  }

  /** The unique index on hashes refuses an append only if two hashed messages collide. */
  lemma DuplicateHashMeansCollision(h: Hash, log: seq<Event>, key: EventKey, json: Bytes)
    requires WellLinked(h, log) && AppendKeyed(h, log, key, json).Err?
    ensures CollisionIn(h, ChainMessages(log) + {LatestHash(log) + json})
  {
    hide CollisionIn, Linked;
    var M := ChainMessages(log) + {LatestHash(log) + json};
    var longer := log + [NextEvent(h, log, key, json)];
    var n := |log|;
    if !CollisionIn(h, M) {
      LinkedSnoc(h, log, key, json);
      assert ChainMessages(longer) <= M;
      var i :| 0 <= i < n && log[i].hash == longer[n].hash;
      assert longer[i] == log[i];
      EqualEventsEqualPasts(h, M, longer, longer, i, n);
    }
  }

  // ---------- key texts ----------

  const AT: byte := 64

  function KeyPrefix(key: EventKey): Bytes {
    match key
    case StageCreated(_) => Ascii("stage.created:")
    case StageApproved(_) => Ascii("stage.approved:")
    case StageRejected(_) => Ascii("stage.rejected:")
    case VersionEnded(Quarantined, _, _) => Ascii("version.quarantined:")
    case VersionEnded(_, _, _) => Ascii("version.revoked:")
    case Direct(_) => Ascii("direct:")
  }

  function KeyBody(key: EventKey): Bytes {
    match key
    case VersionEnded(_, name, version) => name + [AT] + version
    case Direct(digest) => digest
    case _ => key.id
  }

  /** "stage.created:<id>", "version.revoked:<name>@<version>", "direct:<digest>", ... */
  function KeyText(key: EventKey): Bytes { KeyPrefix(key) + KeyBody(key) }

  /** The texts of the keys, written out. */
  lemma StageKeyTexts(id: Bytes)
    ensures KeyText(StageCreated(id)) == Ascii("stage.created:") + id
    ensures KeyText(StageApproved(id)) == Ascii("stage.approved:") + id
    ensures KeyText(StageRejected(id)) == Ascii("stage.rejected:") + id
  {
  }

  lemma OtherKeyTexts(digest: Bytes, name: Bytes, version: Bytes)
    ensures KeyText(VersionEnded(Revoked, name, version)) == Ascii("version.revoked:") + (name + [64] + version)
    ensures KeyText(VersionEnded(Quarantined, name, version)) == Ascii("version.quarantined:") + (name + [64] + version)
    ensures KeyText(Direct(digest)) == Ascii("direct:") + digest
  {
  }

  ghost predicate PlainKey(key: EventKey) {
    key.VersionEnded? ==> key.status != Active && AT !in key.version
  }

  /** Names may hold an `@`, versions do not, so distinct keys have distinct texts. */
  lemma KeyTextsDiffer(a: EventKey, b: EventKey)
    requires PlainKey(a) && PlainKey(b) && KeyText(a) == KeyText(b)
    ensures a == b
  {
    PrefixesDiffer(a, b);
    var n := |KeyPrefix(a)|;
    assert KeyBody(a) == KeyText(a)[n..] && KeyBody(b) == KeyText(b)[n..];
    if a.VersionEnded? { NameSplitsOff(a.name, a.version, b.name, b.version); }
  }

  lemma PrefixesDiffer(a: EventKey, b: EventKey)
    requires PlainKey(a) && PlainKey(b) && KeyText(a) == KeyText(b)
    ensures KeyPrefix(a) == KeyPrefix(b)
    ensures match a
            case StageCreated(_) => b.StageCreated?
            case StageApproved(_) => b.StageApproved?
            case StageRejected(_) => b.StageRejected?
            case VersionEnded(status, _, _) => b.VersionEnded? && b.status == status
            case Direct(_) => b.Direct?
  {
    hide KeyPrefix, KeyBody;
    PrefixBytes(a);
    PrefixBytes(b);
    var s, t := KeyText(a), KeyText(b);
    assert s[0] == KeyPrefix(a)[0] && t[0] == KeyPrefix(b)[0];
    assert s[6] == KeyPrefix(a)[6] && t[6] == KeyPrefix(b)[6];
    if a.VersionEnded? && b.VersionEnded? {
      assert s[8] == KeyPrefix(a)[8] && t[8] == KeyPrefix(b)[8];
    }
    SamePrefix(a, b);
  }

  /** The bytes of a prefix that tell it from the others. */
  lemma PrefixBytes(key: EventKey)
    requires PlainKey(key)
    ensures |KeyPrefix(key)| >= 7
    ensures var p := KeyPrefix(key);
            match key
            case StageCreated(_) => p[0] == 115 && p[6] == 99
            case StageApproved(_) => p[0] == 115 && p[6] == 97
            case StageRejected(_) => p[0] == 115 && p[6] == 114
            case VersionEnded(status, _, _) => p[0] == 118 && |p| > 8 && p[8] == if status == Revoked then 114 else 113
            case Direct(_) => p[0] == 100
  {
  }

  lemma SamePrefix(a: EventKey, b: EventKey)
    requires match a
             case StageCreated(_) => b.StageCreated?
             case StageApproved(_) => b.StageApproved?
             case StageRejected(_) => b.StageRejected?
             case VersionEnded(status, _, _) => b.VersionEnded? && b.status == status
             case Direct(_) => b.Direct?
    ensures KeyPrefix(a) == KeyPrefix(b)
  {
    hide Ascii;
  }

  lemma NameSplitsOff(a: Bytes, v: Bytes, b: Bytes, w: Bytes)
    requires a + [AT] + v == b + [AT] + w && AT !in v && AT !in w
    ensures a == b && v == w
  {
    var s := a + [AT] + v;
    assert s[|a|] == AT && s[|b|] == (b + [AT] + w)[|b|] == AT;
    forall k | |a| < k < |s| ensures s[k] != AT { assert s[k] == v[k - |a| - 1]; assert v[k - |a| - 1] in v; }
    forall k | |b| < k < |s| ensures s[k] != AT {
      assert s[k] == w[k - |b| - 1];
      assert w[k - |b| - 1] in w;
    }
    assert |a| == |b|;
    assert a == s[..|a|] && b == (b + [AT] + w)[..|a|];
    assert v == s[|a| + 1..] && w == (b + [AT] + w)[|a| + 1..];
  }
}
