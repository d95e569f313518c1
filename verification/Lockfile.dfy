/** The lockfile: what it keeps of a resolved graph, and what reading it back gives. */
module Lockfile {
  import opened Base
  import opened DependencyGraph
  import opened Strings

  datatype LockEntry = LockEntry(
    name: Option<string>, version: string, resolved: string, integrity: Option<string>,
    dependencies: map<string, string>, dev: bool, isOptional: bool, hasInstallScript: bool, alias: Option<string>,
    peerDependencies: map<string, string>, resolvedPeers: map<string, string>)

  datatype Lockfile = Lockfile(
    lockfileVersion: nat, name: string, version: string, roots: seq<string>,
    rootDependencies: map<string, string>, rootDevDependencies: map<string, string>,
    packages: map<string, LockEntry>)

  const LOCKFILE_VERSION: nat := 2

  const NODE_MODULES := "node_modules/"
  const SEPARATOR := "/-/"

  // ---------- package names ----------

  function CanonicalKey(node: Node): string { node.name + "@" + node.version }

  function StartsWithAt(s: string): bool { s != "" && s[0] == '@' }

  /** The path below the last "node_modules/". The slice is the source's own: for a scoped
      name it ends one character early. */
  function LocationName(rest: string): (r: string)
    ensures r <= rest
  {
    if StartsWithAt(rest) then
      var scopeRest := rest[1..];
      var scope := UpTo(scopeRest, '/');
      if scope == scopeRest then UpTo(rest, '/')
      else
        var package := UpTo(scopeRest[|scope| + 1..], '/');
        rest[..|scope| + 1 + |package|]
    else UpTo(rest, '/')
  }

  function LockKeyPackageName(key: string): string {
    match LastOccurrence(key, NODE_MODULES, |key|)
    case Some(i) => LocationName(key[i + |NODE_MODULES|..])
    case None =>
      match LastIndexOf(key, '@')
      case Some(at) => if at > 0 then key[..at] else key
      case None => key
  }

  function LastSegment(path: string): string {
    match LastIndexOf(path, '/')
    case Some(i) => path[i + 1..]
    case None => path
  }

  /** The segment before the last one, empty when there is none. */
  function PreviousSegment(path: string): string {
    match LastIndexOf(path, '/')
    case Some(i) => LastSegment(path[..i])
    case None => ""
  }

  function Decode(segment: string): string {
    ReplaceAll(ReplaceAll(segment, "%2f", "/"), "%2F", "/")
  }

  /** The package a registry tarball URL is about; none when the URL has no "/-/". */
  function TarballPackageName(resolved: string): Option<string> {
    var path := UpTo(UpTo(resolved, '?'), '#');
    match FirstIndexOf(path, SEPARATOR)
    case None => None
    case Some(i) =>
      var last := Decode(LastSegment(path[..i]));
      var previous := PreviousSegment(path[..i]);
      if StartsWithAt(last) && '/' in last then Some(last)
      else if StartsWithAt(previous) then Some(previous + "/" + last)
      else Some(last)
  }

  function PackageNameForKey(entry: LockEntry, key: string): string {
    match entry.name
    case Some(name) => name
    case None =>
      match TarballPackageName(entry.resolved)
      case Some(name) => name
      case None => LockKeyPackageName(key)
  }

  // ---------- from the graph and back ----------

  function EntryFor(key: string, node: Node): LockEntry {
    LockEntry(if key != CanonicalKey(node) then Some(node.name) else None, node.version, node.resolved, node.integrity,
              node.dependencies, node.dev, node.isOptional, node.hasInstallScript, node.alias, node.peerDependencies,
              node.resolvedPeers)
  }

  function NodeFor(key: string, entry: LockEntry): Node {
    Node(PackageNameForKey(entry, key), entry.alias, entry.version, entry.resolved, entry.integrity,
         entry.dependencies, entry.hasInstallScript, entry.dev, entry.isOptional, entry.peerDependencies, {},
         entry.resolvedPeers)
  }

  function Entries(nodes: Nodes): map<string, LockEntry> {
    map key | key in nodes :: EntryFor(key, nodes[key])
  }

  function GraphNodes(packages: map<string, LockEntry>): Nodes {
    map key | key in packages :: NodeFor(key, packages[key])
  }

  method FromGraph(nodes: Nodes, roots: seq<string>, name: string, version: string,
                   rootDependencies: map<string, string>, rootDevDependencies: map<string, string>)
    returns (lock: Lockfile)
    ensures lock == Lockfile(LOCKFILE_VERSION, name, version, SortDedup(roots), rootDependencies, rootDevDependencies,
                             Entries(nodes))
    ensures lock.lockfileVersion == 2
  {
    hide EntryFor;
    var packages := map[];
    var left := nodes.Keys;
    while left != {}
      invariant left <= nodes.Keys
      invariant packages.Keys == nodes.Keys - left
      invariant forall key :: key in packages ==> packages[key] == EntryFor(key, nodes[key])
      decreases |left|
    {
      var key :| key in left;
      packages := packages[key := EntryFor(key, nodes[key])];
      left := left - {key};
    }
    return Lockfile(LOCKFILE_VERSION, name, version, SortDedup(roots), rootDependencies, rootDevDependencies, packages);
  }

  method ToGraph(lock: Lockfile) returns (nodes: Nodes, roots: seq<string>)
    ensures nodes == GraphNodes(lock.packages) && roots == lock.roots
  {
    hide NodeFor;
    roots := lock.roots;
    nodes := map[];
    var left := lock.packages.Keys;
    while left != {}
      invariant left <= lock.packages.Keys
      invariant nodes.Keys == lock.packages.Keys - left
      invariant forall key :: key in nodes ==> nodes[key] == NodeFor(key, lock.packages[key])
      decreases |left|
    {
      var key :| key in left;
      nodes := nodes[key := NodeFor(key, lock.packages[key])];
      left := left - {key};
    }
  }

  // ---------- names read back from canonical keys ----------

  /** The marker holds no '@', so an occurrence in the key lies in the name or in the version. */
  lemma MarkerIsOnOneSide(name: string, version: string, i: nat)
    requires OccursAt(name + "@" + version, NODE_MODULES, i)
    ensures if i <= |name| then OccursAt(name, NODE_MODULES, i) else OccursAt(version, NODE_MODULES, i - |name| - 1)
  {
    var key := name + "@" + version;
    var n := |NODE_MODULES|;
    assert key[i..i + n] == NODE_MODULES;
    forall k | i <= k < i + n ensures key[k] != '@' { assert key[k] == NODE_MODULES[k - i]; }
    assert key[|name|] == '@';
    if i <= |name| {
      assert name[i..i + n] == key[i..i + n];
    } else {
      var j := i - |name| - 1;
      assert version[j..j + n] == key[i..i + n];
    }
  }

  lemma MarkerIsInKey(name: string, version: string, i: nat)
    requires OccursAt(name, NODE_MODULES, i)
    ensures OccursAt(name + "@" + version, NODE_MODULES, i)
  {
    assert (name + "@" + version)[i..i + |NODE_MODULES|] == name[i..i + |NODE_MODULES|];
  }

  /** No marker lies below the last one. */
  lemma NoLaterMarker(key: string, i: nat, r: string)
    requires LastOccurrence(key, NODE_MODULES, |key|) == Some(i) && r <= key[i + |NODE_MODULES|..]
    ensures !Contains(r, NODE_MODULES)
  {
    var from := i + |NODE_MODULES|;
    assert from + |r| <= |key|;
    hide OccursAt;
    forall j: nat | j <= |r| ensures OccursAt(r, NODE_MODULES, j) ==> OccursAt(key, NODE_MODULES, from + j) {
      if OccursAt(r, NODE_MODULES, j) { OccursInWhole(key, from, r, NODE_MODULES, j); }
    }
    forall j: nat | j <= |r| ensures !OccursAt(r, NODE_MODULES, j) { assert from + j > i; }
  }

  /** A name that contains the marker is never read back: what comes out lies below the last
      marker and holds none itself. */
  lemma MarkedNameIsLost(name: string, version: string)
    requires Contains(name, NODE_MODULES)
    ensures LockKeyPackageName(name + "@" + version) != name
  {
    hide LocationName, LastIndexOf;
    var key := name + "@" + version;
    var j :| 0 <= j <= |name| && OccursAt(name, NODE_MODULES, j);
    MarkerIsInKey(name, version, j);
    var i := LastOccurrence(key, NODE_MODULES, |key|).value;
    NoLaterMarker(key, i, LocationName(key[i + |NODE_MODULES|..]));
    hide LastOccurrence, OccursAt;
  }

  /** What a key with this version is read as when the version holds the marker: the name of
      the location that follows its last marker. */
  function NameInVersion(version: string): string {
    match LastOccurrence(version, NODE_MODULES, |version|)
    case Some(i) => LocationName(version[i + |NODE_MODULES|..])
    case None => version
  }

  /** When `name@version` is read back as the name. */
  predicate SplitsBack(name: string, version: string) {
    if Contains(version, NODE_MODULES) then name == NameInVersion(version)
    else name != "" && '@' !in version && !Contains(name, NODE_MODULES)
  }

  /** A version that holds the marker decides alone what is read back. */
  lemma MarkedVersionDecides(name: string, version: string)
    requires Contains(version, NODE_MODULES)
    ensures LockKeyPackageName(name + "@" + version) == NameInVersion(version)
  {
    hide LocationName, OccursAt, LastIndexOf;
    var key, n := name + "@" + version, |NODE_MODULES|;
    var j :| 0 <= j <= |version| && OccursAt(version, NODE_MODULES, j);
    var last := LastOccurrence(version, NODE_MODULES, |version|).value;
    var at := |name| + 1 + last;
    assert key[|name| + 1..] == version;
    OccursInWhole(key, |name| + 1, version, NODE_MODULES, last);
    forall i | at < i <= |key| ensures !OccursAt(key, NODE_MODULES, i) {
      if OccursAt(key, NODE_MODULES, i) { MarkerIsOnOneSide(name, version, i); }
    }
    assert LastOccurrence(key, NODE_MODULES, |key|) == Some(at);
    assert last + n <= |version| by { MarkerFits(version, last); }
    assert key[at + n..] == version[last + n..];
  }

  lemma MarkerFits(s: string, i: nat)
    requires OccursAt(s, NODE_MODULES, i)
    ensures i + |NODE_MODULES| <= |s|
  {
  }

  /** The name read back from a canonical key is right exactly when, the version being free of
      "node_modules/" and of '@', the name is not empty and holds no "node_modules/" either,
      or when the version holds the marker and the location after it has this very name. */
  lemma KeyNameExactly(name: string, version: string)
    ensures LockKeyPackageName(name + "@" + version) == name <==> SplitsBack(name, version)
  {
    hide LocationName, NameInVersion;
    var key := name + "@" + version;
    if Contains(version, NODE_MODULES) {
      MarkedVersionDecides(name, version);
    } else if Contains(name, NODE_MODULES) {
      MarkedNameIsLost(name, version);
    } else {
      forall i: nat ensures !OccursAt(key, NODE_MODULES, i) {
        if OccursAt(key, NODE_MODULES, i) { MarkerIsOnOneSide(name, version, i); }
      }
      assert LastOccurrence(key, NODE_MODULES, |key|) == None;
      assert key[|name|] == '@' && key[|name| + 1..] == version && key[..|name|] == name;
      if '@' !in version { LastIndexIs(key, '@', |name|); }
    }
  }

  // ---------- names read back from tarball URLs ----------

  /** Behind a query or a fragment "/-/" means nothing. */
  lemma NoNameBehindQuery(resolved: string)
    requires forall j: nat :: OccursAt(resolved, SEPARATOR, j) ==> '?' in resolved[..j] || '#' in resolved[..j]
    ensures TarballPackageName(resolved) == None
  {
    hide OccursAt, FirstIndexFrom, UpTo, Decode, LastSegment, PreviousSegment;
    var path := UpTo(UpTo(resolved, '?'), '#');
    assert path <= resolved && '?' !in path && '#' !in path;
    match FirstIndexOf(path, SEPARATOR)
    case Some(i) =>
      assert path <= resolved[0..];
      OccursInWhole(resolved, 0, path, SEPARATOR, i);
      CleanFront(path, resolved, i);
    case None =>
  }

  lemma CleanFront(path: string, resolved: string, i: nat)
    requires path <= resolved && '?' !in path && '#' !in path && OccursAt(path, SEPARATOR, i)
    ensures i <= |resolved| && '?' !in resolved[..i] && '#' !in resolved[..i]
  {
    assert resolved[..i] == path[..i];
  }

  /** `base/segment/-/file` where the first "/-/" is the one after the segment and no query or
      fragment comes before it. */
  ghost predicate RegistryUrl(resolved: string, base: string, segment: string) {
    var front := base + "/" + segment;
    && front + SEPARATOR <= resolved && '/' !in segment && '?' !in front && '#' !in front
    && forall j :: 0 <= j < |front| ==> !OccursAt(front + SEPARATOR, SEPARATOR, j)
  }

  lemma CutAfter(s: string, front: string, c: char)
    requires front <= s && c !in front
    ensures front <= UpTo(s, c)
  {
    var r := UpTo(s, c);
    forall k | 0 <= k < |front| ensures s[k] != c { assert s[k] == front[k]; assert front[k] in front; }
    assert |r| >= |front|;
    assert r == s[..|r|] && front == s[..|front|];
  }

  lemma FirstSeparator(path: string, front: string)
    requires front + SEPARATOR <= path
    requires forall j :: 0 <= j < |front| ==> !OccursAt(front + SEPARATOR, SEPARATOR, j)
    ensures FirstIndexOf(path, SEPARATOR) == Some(|front|)
  {
    hide FirstIndexFrom;
    var whole, n := front + SEPARATOR, |SEPARATOR|;
    assert path[..|whole|] == whole;
    assert path[|front|..|front| + n] == whole[|front|..] == SEPARATOR;
    assert OccursAt(path, SEPARATOR, |front|);
    forall j | 0 <= j < |front| ensures !OccursAt(path, SEPARATOR, j) {
      assert path[j..j + n] == whole[j..j + n];
      assert !OccursAt(whole, SEPARATOR, j);
    }
  }

  lemma UrlSegments(resolved: string, base: string, segment: string)
    requires RegistryUrl(resolved, base, segment)
    ensures var path := UpTo(UpTo(resolved, '?'), '#');
            && FirstIndexOf(path, SEPARATOR) == Some(|base| + 1 + |segment|)
            && path[..|base| + 1 + |segment|] == base + "/" + segment
            && LastSegment(base + "/" + segment) == segment
            && PreviousSegment(base + "/" + segment) == LastSegment(base)
  {
    hide UpTo, OccursAt, LastIndexOf;
    var front := base + "/" + segment;
    CutAfter(resolved, front + SEPARATOR, '?');
    CutAfter(UpTo(resolved, '?'), front + SEPARATOR, '#');
    var path := UpTo(UpTo(resolved, '?'), '#');
    FirstSeparator(path, front);
    assert path[..|front|] == front;
    assert front[|base| + 1..] == segment && front[|base|] == '/' && front[..|base|] == base;
    LastIndexIs(front, '/', |base|);
  }

  /** `base/name/-/file` for an unscoped name below a segment that is no scope. */
  lemma PlainUrlNamesPackage(resolved: string, base: string, name: string)
    requires RegistryUrl(resolved, base, name) && '%' !in name && !StartsWithAt(LastSegment(base))
    ensures TarballPackageName(resolved) == Some(name)
  {
    hide UpTo, OccursAt, LastIndexOf, FirstIndexFrom, LastSegment, PreviousSegment, Decode;
    UrlSegments(resolved, base, name);
    NothingToDecode(name);
  }

  /** `base/@scope/package/-/file`. */
  lemma ScopedUrlNamesPackage(resolved: string, base: string, scope: string, package: string)
    requires StartsWithAt(scope) && '/' !in scope && '%' !in package
    requires RegistryUrl(resolved, base + "/" + scope, package)
    ensures TarballPackageName(resolved) == Some(scope + "/" + package)
  {
    hide UpTo, OccursAt, FirstIndexFrom, PreviousSegment, LastIndexOf, LastSegment, Decode;
    UrlSegments(resolved, base + "/" + scope, package);
    LastSegmentIs(base, scope);
    NothingToDecode(package);
  }

  lemma LastSegmentIs(base: string, segment: string)
    requires '/' !in segment
    ensures LastSegment(base + "/" + segment) == segment
  {
    hide LastIndexOf;
    var front := base + "/" + segment;
    assert front[|base|] == '/' && front[|base| + 1..] == segment;
    LastIndexIs(front, '/', |base|);
  }

  /** `base/@scope%2fpackage/-/file`, as the npm registry writes scoped names. */
  lemma EncodedUrlNamesPackage(resolved: string, base: string, scope: string, package: string)
    requires StartsWithAt(scope) && '/' !in scope && '%' !in scope && '/' !in package && '%' !in package
    requires || RegistryUrl(resolved, base, scope + "%2f" + package)
             || RegistryUrl(resolved, base, scope + "%2F" + package)
    ensures TarballPackageName(resolved) == Some(scope + "/" + package)
  {
    hide UpTo, OccursAt, LastIndexOf, FirstIndexFrom, LastSegment, PreviousSegment, RegistryUrl;
    DecodedScope(scope, package);
    var lower, upper := scope + "%2f" + package, scope + "%2F" + package;
    UrlSegments(resolved, base, if RegistryUrl(resolved, base, lower) then lower else upper);
    var name := scope + "/" + package;
    assert name[|scope|] == '/' && name[0] == scope[0];
  }

  /** An escape begins with a percent sign. */
  lemma NoEscape(s: string, pattern: string)
    requires |pattern| == 3 && pattern[0] == '%' && '%' !in s
    ensures FirstIndexOf(s, pattern) == None && ReplaceAll(s, pattern, "/") == s
  {
    forall j: nat ensures !OccursAt(s, pattern, j) {
      if j + 3 <= |s| { assert s[j] in s && s[j..j + 3][0] == s[j]; }
    }
    hide FirstIndexFrom;
  }

  lemma NothingToDecode(segment: string)
    requires '%' !in segment
    ensures Decode(segment) == segment
  {
    NoEscape(segment, "%2f");
    NoEscape(segment, "%2F");
  }

  lemma FirstEscape(front: string, pattern: string, back: string)
    requires |pattern| == 3 && pattern[0] == '%' && '%' !in front
    ensures FirstIndexOf(front + pattern + back, pattern) == Some(|front|)
  {
    hide FirstIndexFrom;
    var s := front + pattern + back;
    assert s[|front|..|front| + 3] == pattern;
    assert OccursAt(s, pattern, |front|);
    forall j: nat | j < |front| ensures !OccursAt(s, pattern, j) {
      assert s[j] == front[j] && front[j] in front;
      assert j + 3 <= |s| && s[j..j + 3][0] == s[j];
    }
  }

  lemma ReplaceOne(front: string, pattern: string, back: string)
    requires |pattern| == 3 && pattern[0] == '%' && '%' !in front && '%' !in back
    ensures ReplaceAll(front + pattern + back, pattern, "/") == front + "/" + back
  {
    hide FirstIndexOf;
    var s := front + pattern + back;
    FirstEscape(front, pattern, back);
    NoEscape(back, pattern);
    assert s[..|front|] == front && s[|front| + 3..] == back;
  }

  /** The other spelling does not occur and is left alone. */
  lemma OtherEscape(front: string, back: string)
    requires '%' !in front && '%' !in back
    ensures ReplaceAll(front + "%2F" + back, "%2f", "/") == front + "%2F" + back
  {
    var s := front + "%2F" + back;
    hide OccursAt;
    forall j: nat ensures !OccursAt(s, "%2f", j) {
      if j == |front| {
        DiffersAt(s, "%2f", j, 2);
      } else {
        if j < |front| { assert s[j] == front[j] && front[j] in front; }
        if |front| + 2 < j < |s| { assert s[j] == back[j - |front| - 3] && back[j - |front| - 3] in back; }
        DiffersAt(s, "%2f", j, 0);
      }
    }
    hide FirstIndexFrom;
  }

  lemma DecodedScope(scope: string, package: string)
    requires '%' !in scope && '%' !in package
    ensures Decode(scope + "%2f" + package) == scope + "/" + package
    ensures Decode(scope + "%2F" + package) == scope + "/" + package
  {
    hide ReplaceAll;
    ReplaceOne(scope, "%2f", package);
    NoEscape(scope + "/" + package, "%2F");
    OtherEscape(scope, package);
    ReplaceOne(scope, "%2F", package);
  }
}
