/** Which graphs survive being written to a lockfile and read back. */
module LockfileRoundTrip {
  import opened Base
  import opened DependencyGraph
  import opened Strings
  import opened Lockfile

  /** The lockfile does not keep which peers are optional. */
  function Cleared(nodes: Nodes): Nodes {
    map key | key in nodes :: nodes[key].(optionalPeers := {})
  }

  /** What decides whether the name of a node under its canonical key is read back. */
  predicate NameReadBack(node: Node) {
    match TarballPackageName(node.resolved)
    case Some(name) => name == node.name
    case None => SplitsBack(node.name, node.version)
  }

  /** The name survives under a key that is not canonical always, and under the canonical key
      exactly when the tarball URL does not speak of another package or, having none, the
      key splits back into name and version. */
  lemma NameExactly(key: string, node: Node)
    ensures PackageNameForKey(EntryFor(key, node), key) == node.name <==>
            key != CanonicalKey(node) || NameReadBack(node)
  {
    hide LockKeyPackageName, TarballPackageName, SplitsBack;
    if key == CanonicalKey(node) { KeyNameExactly(node.name, node.version); }
  }

  ghost predicate Survives(key: string, node: Node) {
    key != CanonicalKey(node) || NameReadBack(node)
  }

  lemma NodeExactly(key: string, node: Node)
    ensures NodeFor(key, EntryFor(key, node)) == node.(optionalPeers := {}) <==> Survives(key, node)
    ensures EntryFor(key, NodeFor(key, EntryFor(key, node))) == EntryFor(key, node) <==> Survives(key, node)
  {
    hide PackageNameForKey, NameReadBack;
    NameExactly(key, node);
    var back := NodeFor(key, EntryFor(key, node));
    if key == CanonicalKey(node) && back.name != node.name {
      assert CanonicalKey(back) != key by {
        if CanonicalKey(back) == key { SameNames(back.name, node.name, node.version); }
      }
    }
  }

  lemma SameNames(a: string, b: string, version: string)
    requires a + "@" + version == b + "@" + version
    ensures a == b
  {
    var s := a + "@" + version;
    assert |a| == |b|;
    assert a == s[..|a|] && b == (b + "@" + version)[..|b|];
  }

  /** The round trip: the graph comes back with its nodes intact but for the optional peers,
      and writing it again gives the same packages, exactly when every name survives. */
  lemma RoundTripExactly(nodes: Nodes)
    ensures GraphNodes(Entries(nodes)) == Cleared(nodes) <==> forall key :: key in nodes ==> Survives(key, nodes[key])
    ensures Entries(GraphNodes(Entries(nodes))) == Entries(nodes) <==>
            forall key :: key in nodes ==> Survives(key, nodes[key])
  {
    hide Survives, NodeFor, EntryFor;
    forall key | key in nodes
      ensures NodeFor(key, EntryFor(key, nodes[key])) == nodes[key].(optionalPeers := {}) <==> Survives(key, nodes[key])
      ensures EntryFor(key, NodeFor(key, EntryFor(key, nodes[key]))) == EntryFor(key, nodes[key]) <==>
              Survives(key, nodes[key])
    {
      NodeExactly(key, nodes[key]);
    }
    var back, again := GraphNodes(Entries(nodes)), Entries(GraphNodes(Entries(nodes)));
    if back == Cleared(nodes) {
      forall key | key in nodes ensures Survives(key, nodes[key]) { assert back[key] == Cleared(nodes)[key]; }
    }
    if again == Entries(nodes) {
      forall key | key in nodes ensures Survives(key, nodes[key]) { assert again[key] == Entries(nodes)[key]; }
    }
  }

  // ---------- graphs as the resolver builds them ----------

  /** A tarball URL of the registry's for this very package, in one of its spellings. */
  ghost predicate HasOwnUrl(node: Node) {
    || (exists base :: OwnPlainUrl(node, base))
    || (exists base, scope, package :: OwnScopedUrl(node, base, scope, package))
  }

  ghost predicate OwnPlainUrl(node: Node, base: string) {
    RegistryUrl(node.resolved, base, node.name) && '%' !in node.name && !StartsWithAt(LastSegment(base))
  }

  ghost predicate OwnScopedUrl(node: Node, base: string, scope: string, package: string) {
    && node.name == scope + "/" + package && StartsWithAt(scope)
    && '/' !in scope && '%' !in scope && '/' !in package && '%' !in package
    && (RegistryUrl(node.resolved, base + "/" + scope, package)
        || RegistryUrl(node.resolved, base, scope + "%2f" + package)
        || RegistryUrl(node.resolved, base, scope + "%2F" + package))
  }

  /** A URL of another kind, say of a git host, and a key that splits back. */
  predicate HasPlainKey(node: Node) {
    TarballPackageName(node.resolved) == None && SplitsBack(node.name, node.version)
  }

  lemma OwnUrlReadsBack(node: Node)
    requires HasOwnUrl(node)
    ensures NameReadBack(node)
  {
    hide RegistryUrl, TarballPackageName, LastSegment;
    if base :| OwnPlainUrl(node, base) {
      PlainUrlNamesPackage(node.resolved, base, node.name);
    } else {
      var base, scope, package :| OwnScopedUrl(node, base, scope, package);
      if RegistryUrl(node.resolved, base + "/" + scope, package) {
        ScopedUrlNamesPackage(node.resolved, base, scope, package);
      } else {
        EncodedUrlNamesPackage(node.resolved, base, scope, package);
      }
    }
  }

  /** Every graph whose canonically keyed nodes have their own registry URL, in any of its
      spellings, or no registry URL and a key that splits back, makes the round trip; the
      roots come back sorted and without duplicates, and stay so. */
  lemma RegistryGraphsRoundTrip(nodes: Nodes, roots: seq<string>)
    requires forall key :: key in nodes && key == CanonicalKey(nodes[key]) ==>
               HasOwnUrl(nodes[key]) || HasPlainKey(nodes[key])
    ensures GraphNodes(Entries(nodes)) == Cleared(nodes) && Entries(GraphNodes(Entries(nodes))) == Entries(nodes)
    ensures Ascending(SortDedup(roots)) && (forall r :: r in SortDedup(roots) <==> r in roots)
    ensures SortDedup(SortDedup(roots)) == SortDedup(roots)
  {
    hide HasOwnUrl, NameReadBack, GraphNodes, Entries, Cleared, SortDedup, Ascending;
    SortDedupAscends(roots);
    SortDedupIsIdempotent(roots);
    forall key | key in nodes ensures Survives(key, nodes[key]) {
      if key == CanonicalKey(nodes[key]) {
        if HasOwnUrl(nodes[key]) { OwnUrlReadsBack(nodes[key]); } else { PlainKeyReadsBack(nodes[key]); }
      }
    }
    RoundTripExactly(nodes);
  }

  lemma PlainKeyReadsBack(node: Node)
    requires HasPlainKey(node)
    ensures NameReadBack(node)
  {
  }

  // ---------- where names go wrong ----------

  lemma NoHyphenNoSeparator(front: string)
    requires '-' !in front
    ensures forall j :: 0 <= j < |front| ==> !OccursAt(front + SEPARATOR, SEPARATOR, j)
  {
    forall j | 0 <= j < |front| ensures !OccursAt(front + SEPARATOR, SEPARATOR, j) {
      assert (front + SEPARATOR)[j + 1] == if j + 1 < |front| then front[j + 1] else '/';
      DiffersAt(front + SEPARATOR, SEPARATOR, j, 1);
    }
  }

  /** A node whose tarball is another package's, as with a dependency on a fork's archive:
      it is read back under the other name. */
  lemma ForeignTarballRenames(node: Node)
    requires node.name == "left" && node.version == "1.0.0" && node.resolved == "r/right/-/f"
    ensures GraphNodes(Entries(map["left@1.0.0" := node]))["left@1.0.0"].name == "right"
  {
    hide TarballPackageName, LockKeyPackageName, OccursAt, LastSegment;
    NoHyphenNoSeparator("r/right");
    assert "r" + "/" + "right" == "r/right" && "r/right" + SEPARATOR <= "r/right/-/f";
    assert LastSegment("r") == "r" by { NoSlashLastSegment("r"); }
    PlainUrlNamesPackage("r/right/-/f", "r", "right");
    assert CanonicalKey(node) == "left@1.0.0";
  }

  lemma NoSlashLastSegment(s: string)
    requires '/' !in s
    ensures LastSegment(s) == s
  {
  }

  lemma OnlyMarker(prefix: string, rest: string)
    requires !Contains(rest, NODE_MODULES)
    ensures var key := prefix + NODE_MODULES + rest;
            LastOccurrence(key, NODE_MODULES, |key|) == Some(|prefix|)
  {
    hide LastOccurrence;
    var key, n := prefix + NODE_MODULES + rest, |NODE_MODULES|;
    assert key[|prefix|..|prefix| + n] == NODE_MODULES;
    assert OccursAt(key, NODE_MODULES, |prefix|);
    hide OccursAt;
    forall j | |prefix| < j <= |key| ensures !OccursAt(key, NODE_MODULES, j) {
      if j < |prefix| + n {
        MarkerHasOneN(j - |prefix|);
        assert key[j] == NODE_MODULES[j - |prefix|];
        DiffersAt(key, NODE_MODULES, j, 0);
      } else {
        assert rest == key[|prefix| + n..] && !OccursAt(rest, NODE_MODULES, j - |prefix| - n);
        NotInSuffix(key, |prefix| + n, NODE_MODULES, j - |prefix| - n);
      }
    }
  }

  lemma MarkerHasOneN(i: nat)
    requires 0 < i < |NODE_MODULES|
    ensures NODE_MODULES[i] != NODE_MODULES[0]
  {
  }

  lemma NotInSuffix(s: string, from: nat, pattern: string, k: nat)
    requires from <= |s| && !OccursAt(s[from..], pattern, k)
    ensures !OccursAt(s, pattern, from + k)
  {
    assert from + k + |pattern| <= |s| ==>
             s[from..][k..k + |pattern|] == s[from + k..from + k + |pattern|];
  }

  lemma NoSlashNoMarker(s: string)
    requires '/' !in s
    ensures !Contains(s, NODE_MODULES)
  {
    forall j: nat ensures !OccursAt(s, NODE_MODULES, j) { DiffersAt(s, NODE_MODULES, j, |NODE_MODULES| - 1); }
  }

  /** A git package's version is any text. One that holds the marker can rename the package:
      "left" at version "node_modules/x" is read back as "x". */
  lemma MarkedVersionRenames(node: Node)
    requires node.name == "left" && node.version == "node_modules/x" && TarballPackageName(node.resolved) == None
    ensures GraphNodes(Entries(map["left@node_modules/x" := node]))["left@node_modules/x"].name == "x"
  {
    hide TarballPackageName, LockKeyPackageName;
    UnscopedLocationName("left@", "x");
    assert "left@" + NODE_MODULES + "x" == "left@node_modules/x";
    assert CanonicalKey(node) == "left@node_modules/x";
  }

  /** A node alone in its graph, whose version is too short to hold the marker. */
  lemma ShortVersionSurvives(node: Node)
    requires TarballPackageName(node.resolved) == None && node.name != "" && '/' !in node.name
    requires '@' !in node.version && |node.version| < |NODE_MODULES|
    ensures GraphNodes(Entries(map[CanonicalKey(node) := node])) == Cleared(map[CanonicalKey(node) := node])
  {
    hide TarballPackageName, Contains, CanonicalKey;
    NoSlashNoMarker(node.name);
    ShortHasNoMarker(node.version);
    RoundTripExactly(map[CanonicalKey(node) := node]);
  }

  /** A slash alone does no harm: "left" at version "2024/05" comes back. */
  lemma SlashedVersionSurvives(node: Node)
    requires node.name == "left" && node.version == "2024/05" && TarballPackageName(node.resolved) == None
    ensures GraphNodes(Entries(map["left@2024/05" := node])) == Cleared(map["left@2024/05" := node])
  {
    hide TarballPackageName, GraphNodes, Entries, Cleared;
    ShortVersionSurvives(node);
    assert CanonicalKey(node) == "left@2024/05";
  }

  lemma ShortHasNoMarker(s: string)
    requires |s| < |NODE_MODULES|
    ensures !Contains(s, NODE_MODULES)
  {
  }

  /** A location key without a recorded name: right for an unscoped package. */
  lemma UnscopedLocationName(prefix: string, name: string)
    requires '/' !in name && !StartsWithAt(name)
    ensures LockKeyPackageName(prefix + NODE_MODULES + name) == name
  {
    hide LastOccurrence, LastIndexOf, Contains, UpTo;
    NoSlashNoMarker(name);
    OnlyMarker(prefix, name);
    UpToIs(name, '/', "");
    assert name + "" == name;
    assert (prefix + NODE_MODULES + name)[|prefix| + |NODE_MODULES|..] == name;
  }

  /** For a scoped package it is always wrong: the last character is lost. Lockfiles written
      from a graph record the name under such keys, so only entries that come without a
      name and without a registry URL are affected. */
  lemma ScopedLocationLosesCharacter(prefix: string, scope: string, package: string)
    requires StartsWithAt(scope) && '/' !in scope && '/' !in package && package != ""
    requires !Contains(scope + "/" + package, NODE_MODULES)
    ensures LockKeyPackageName(prefix + NODE_MODULES + (scope + "/" + package)) ==
            scope + "/" + package[..|package| - 1]
  {
    hide LastOccurrence, LastIndexOf, Contains, LocationName;
    var rest := scope + "/" + package;
    OnlyMarker(prefix, rest);
    assert (prefix + NODE_MODULES + rest)[|prefix| + |NODE_MODULES|..] == rest;
    ScopedLocation(scope, package);
  }

  lemma ScopedLocation(scope: string, package: string)
    requires StartsWithAt(scope) && '/' !in scope && '/' !in package && package != ""
    ensures LocationName(scope + "/" + package) == scope + "/" + package[..|package| - 1]
  {
    hide UpTo;
    var rest := scope + "/" + package;
    var bare := scope[1..];
    assert rest[1..] == bare + ("/" + package);
    UpToIs(bare, '/', "/" + package);
    assert rest[1..][|bare| + 1..] == package;
    UpToIs(package, '/', "");
    assert package + "" == package;
    assert |bare| + 1 + |package| == |rest| - 1;
    assert rest[..|rest| - 1] == scope + "/" + package[..|package| - 1];
  }

  /** A scope, if there is one, and a package name, without the characters that separate
      them. */
  predicate WellFormedName(scope: string, package: string) {
    && package != "" && '/' !in package && '/' !in scope
    && (if scope == "" then !StartsWithAt(package)
        else StartsWithAt(scope) && !Contains(scope + "/" + package, NODE_MODULES))
  }

  function FullName(scope: string, package: string): string {
    if scope == "" then package else scope + "/" + package
  }

  /** Over all well-formed names, a location key gives the name exactly when it is unscoped. */
  lemma LocationNameExactly(prefix: string, scope: string, package: string)
    requires WellFormedName(scope, package)
    ensures LockKeyPackageName(prefix + NODE_MODULES + FullName(scope, package)) == FullName(scope, package) <==>
            scope == ""
  {
    hide LockKeyPackageName, Contains;
    if scope == "" {
      UnscopedLocationName(prefix, package);
    } else {
      ScopedLocationLosesCharacter(prefix, scope, package);
      assert |scope + "/" + package[..|package| - 1]| < |scope + "/" + package|;
    }
  }
}
