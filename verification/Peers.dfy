/** The peer-dependency pass: an upward breadth-first search for each declared peer, and the
    report it fills. */
module Peers {
  import opened Base
  import opened DependencyGraph
  import opened Strings

  /** `semver_satisfies(version, range)`. */
  type Satisfies = (string, string) -> bool

  type ParentMap = map<string, seq<string>>

  datatype Lookup = Found(key: string) | Conflict(version: string) | Missing

  function ParentsOf(parents: ParentMap, x: string): seq<string> {
    if x in parents then parents[x] else []
  }

  /** `p` depends on `c` directly. */
  predicate DependsOn(nodes: Nodes, p: string, c: string) {
    p in nodes && c in nodes[p].dependencies.Values
  }

  /** Dependents are found by the keys that packages have for their dependencies, not by the
      names they have them under. */
  lemma DependsOnExactly(nodes: Nodes, p: string, c: string)
    ensures DependsOn(nodes, p, c) <==>
            p in nodes && exists name :: name in nodes[p].dependencies && nodes[p].dependencies[name] == c
  {
  }

  ghost predicate IsParentMap(nodes: Nodes, parents: ParentMap) {
    forall p, c :: p in ParentsOf(parents, c) <==> DependsOn(nodes, p, c)
  }

  /** The map of direct dependents, whatever order the hash maps are walked in. */
  method BuildParentMap(nodes: Nodes) returns (parents: ParentMap)
    ensures IsParentMap(nodes, parents)
  {
    parents := map[];
    var left := nodes.Keys;
    while left != {}
      invariant left <= nodes.Keys
      invariant forall p, c :: p in ParentsOf(parents, c) <==> p !in left && DependsOn(nodes, p, c)
      decreases |left|
    {
      var key :| key in left;
      var dependencies := nodes[key].dependencies;
      var names := dependencies.Keys;
      ghost var before := parents;
      while names != {}
        invariant names <= dependencies.Keys
        invariant forall p, c :: p in ParentsOf(parents, c) <==>
                    || p in ParentsOf(before, c)
                    || (p == key && exists n :: n in dependencies && n !in names && dependencies[n] == c)
        decreases |names|
      {
        var n :| n in names;
        var child := dependencies[n];
        ghost var was := parents;
        parents := parents[child := ParentsOf(parents, child) + [key]];
        forall p, c
          ensures p in ParentsOf(parents, c) <==> p in ParentsOf(was, c) || (p == key && c == child)
        {
        }
        names := names - {n};
      }
      left := left - {key};
    }
  }

  // ---------- where a peer may be found ----------

  /** How many ranks one step upward is worth: one for the direct dependents of the package
      and one for each root. */
  function Width(roots: seq<string>): nat { 1 + |roots| }

  /** The search starts from the direct dependents of the package, which have rank 0, and
      then from the roots in their order, which have ranks 1, 2, and so on. Each step upward,
      always from a package of the graph, adds a width, so every key one step up comes after
      all keys below it. */
  ghost predicate AtHeight(nodes: Nodes, roots: seq<string>, pkg: string, x: string, n: nat)
    decreases n
  {
    if n == 0 then DependsOn(nodes, x, pkg)
    else if n <= |roots| then x == roots[n - 1]
    else exists y :: y in nodes && AtHeight(nodes, roots, pkg, y, n - Width(roots)) && DependsOn(nodes, x, y)
  }

  predicate Lists(nodes: Nodes, x: string, peer: string) {
    x in nodes && peer in nodes[x].dependencies
  }

  ghost predicate NearestLister(nodes: Nodes, roots: seq<string>, pkg: string, peer: string, x: string) {
    Lists(nodes, x, peer) &&
    exists n: nat :: AtHeight(nodes, roots, pkg, x, n) &&
      forall y, m: nat :: AtHeight(nodes, roots, pkg, y, m) && Lists(nodes, y, peer) ==> n <= m
  }

  ghost predicate NoLister(nodes: Nodes, roots: seq<string>, pkg: string, peer: string) {
    forall x, n: nat :: AtHeight(nodes, roots, pkg, x, n) ==> !Lists(nodes, x, peer)
  }

  function InstallName(node: Node): string {
    if node.alias.Some? then node.alias.value else node.name
  }

  predicate RootCarries(nodes: Nodes, root: string, peer: string) {
    root in nodes && (InstallName(nodes[root]) == peer || nodes[root].name == peer)
  }

  function VersionOfKey(key: string): string {
    match LastIndexOf(key, '@')
    case Some(at) => if at > 0 then key[at + 1..] else key
    case None => key
  }

  function Judge(satisfies: Satisfies, key: string, version: string, range: string): Lookup {
    if satisfies(version, range) then Found(key) else Conflict(version)
  }

  function AnswerAt(nodes: Nodes, satisfies: Satisfies, x: string, peer: string, range: string): Lookup
    requires Lists(nodes, x, peer)
  {
    var key := nodes[x].dependencies[peer];
    Judge(satisfies, key, VersionOfKey(key), range)
  }

  /** The answers the search may give: from a nearest ancestor that lists the peer; else from
      the first root that carries its name; else none. */
  ghost predicate Answers(nodes: Nodes, roots: seq<string>, satisfies: Satisfies, pkg: string, peer: string,
                          range: string, r: Lookup) {
    || (exists x :: NearestLister(nodes, roots, pkg, peer, x) && r == AnswerAt(nodes, satisfies, x, peer, range))
    || (NoLister(nodes, roots, pkg, peer) && AnswersFromRoots(nodes, roots, satisfies, peer, range, r))
  }

  ghost predicate AnswersFromRoots(nodes: Nodes, roots: seq<string>, satisfies: Satisfies, peer: string, range: string,
                                   r: Lookup) {
    || (exists i :: 0 <= i < |roots| && RootCarries(nodes, roots[i], peer)
          && (forall j :: 0 <= j < i ==> !RootCarries(nodes, roots[j], peer))
          && r == Judge(satisfies, roots[i], nodes[roots[i]].version, range))
    || (r == Missing && forall i :: 0 <= i < |roots| ==> !RootCarries(nodes, roots[i], peer))
  }

  /** Missing exactly when nothing above lists the peer and no root carries its name. */
  lemma MissingExactly(nodes: Nodes, roots: seq<string>, satisfies: Satisfies, pkg: string, peer: string, range: string,
                       r: Lookup)
    requires Answers(nodes, roots, satisfies, pkg, peer, range, r)
    ensures r == Missing <==>
            && NoLister(nodes, roots, pkg, peer)
            && forall i :: 0 <= i < |roots| ==> !RootCarries(nodes, roots[i], peer)
  {
  }

  lemma RootHeight(nodes: Nodes, roots: seq<string>, pkg: string, i: nat)
    requires i < |roots|
    ensures AtHeight(nodes, roots, pkg, roots[i], 1 + i)
  {
  }

  /** Direct dependents of the package decide before anything else, and if none of them lists the
      peer the first root that does. */
  lemma NearestListersAre(nodes: Nodes, roots: seq<string>, pkg: string, peer: string, x: string)
    requires NearestLister(nodes, roots, pkg, peer, x)
    ensures (exists p :: DependsOn(nodes, p, pkg) && Lists(nodes, p, peer)) ==> DependsOn(nodes, x, pkg)
    ensures forall i :: 0 <= i < |roots| && Lists(nodes, roots[i], peer) && !DependsOn(nodes, x, pkg) ==>
              exists k :: 0 <= k <= i && roots[k] == x
  {
    hide Lists, DependsOn;
    var n: nat :| AtHeight(nodes, roots, pkg, x, n) &&
      forall y, m: nat :: AtHeight(nodes, roots, pkg, y, m) && Lists(nodes, y, peer) ==> n <= m;
    if p :| DependsOn(nodes, p, pkg) && Lists(nodes, p, peer) {
      assert AtHeight(nodes, roots, pkg, p, 0);
    }
    forall i | 0 <= i < |roots| && Lists(nodes, roots[i], peer) && !DependsOn(nodes, x, pkg)
      ensures exists k :: 0 <= k <= i && roots[k] == x
    {
      RootHeight(nodes, roots, pkg, i);
      assert 0 < n <= 1 + i && roots[n - 1] == x;
    }
  }

  // ---------- keys and what an answer says of them ----------

  /** `key` is a package's name, which may be scoped, then '@', then its version. */
  predicate IsKeyOf(key: string, name: string, version: string) {
    name != "" && '@' !in version && key == name + "@" + version
  }

  /** A key without '@', or with its only one in front, is taken for a version as a whole. */
  predicate IsBare(key: string) { key == "" || '@' !in key[1..] }

  ghost predicate HasVersion(key: string, version: string) {
    (exists name :: IsKeyOf(key, name, version)) || (IsBare(key) && version == key)
  }

  lemma KeyHasVersion(key: string, name: string, version: string)
    requires IsKeyOf(key, name, version)
    ensures VersionOfKey(key) == version
  {
    assert key[|name|] == '@' && key[|name| + 1..] == version;
    LastIndexIs(key, '@', |name|);
  }

  lemma BareKeyIsVersion(key: string)
    requires IsBare(key)
    ensures VersionOfKey(key) == key
  {
    match LastIndexOf(key, '@')
    case Some(at) => if at > 0 { LaterCharIsBehind(key, at); }
    case None =>
  }

  lemma LaterCharIsBehind(key: string, at: nat)
    requires 0 < at < |key|
    ensures key[at] in key[1..]
  {
    assert key[1..][at - 1] == key[at];
  }

  lemma EveryKeyHasVersion(key: string)
    ensures HasVersion(key, VersionOfKey(key))
  {
    match LastIndexOf(key, '@')
    case Some(at) =>
      if at > 0 {
        assert key == key[..at] + "@" + key[at + 1..];
        assert IsKeyOf(key, key[..at], key[at + 1..]);
      } else {
        assert IsBare(key);
      }
    case None => assert IsBare(key);
  }

  /** The version that is read from a key, scoped names included. */
  lemma VersionOfKeyExactly(key: string, version: string)
    ensures VersionOfKey(key) == version <==> HasVersion(key, version)
  {
    hide VersionOfKey, IsKeyOf, IsBare;
    EveryKeyHasVersion(key);
    if name :| IsKeyOf(key, name, version) { KeyHasVersion(key, name, version); }
    if IsBare(key) { BareKeyIsVersion(key); }
  }

  /** A root carries a peer under its alias or under its own name. */
  lemma RootCarriesExactly(nodes: Nodes, root: string, peer: string)
    ensures RootCarries(nodes, root, peer) <==>
            root in nodes && (nodes[root].alias == Some(peer) || nodes[root].name == peer)
  {
  }

  /** The first root that carries the peer. */
  ghost predicate FirstCarrier(nodes: Nodes, roots: seq<string>, peer: string, i: nat) {
    && i < |roots| && roots[i] in nodes && RootCarries(nodes, roots[i], peer)
    && forall j :: 0 <= j < i ==> !RootCarries(nodes, roots[j], peer)
  }

  /** Where an answer that names a version may come from: the key that a nearest lister has for
      the peer, or with no lister the first root that carries it. */
  ghost predicate Met(nodes: Nodes, roots: seq<string>, pkg: string, peer: string, key: string, version: string) {
    || (exists x :: NearestLister(nodes, roots, pkg, peer, x) && nodes[x].dependencies[peer] == key
                    && HasVersion(key, version))
    || (NoLister(nodes, roots, pkg, peer)
        && exists i: nat :: FirstCarrier(nodes, roots, peer, i) && roots[i] == key && nodes[key].version == version)
  }

  /** Found exactly when a key that may be met has a version that satisfies the range. */
  lemma FoundSatisfies(nodes: Nodes, roots: seq<string>, satisfies: Satisfies, pkg: string, peer: string, range: string,
                       key: string)
    ensures Answers(nodes, roots, satisfies, pkg, peer, range, Found(key)) <==>
            exists version :: Met(nodes, roots, pkg, peer, key, version) && satisfies(version, range)
  {
    hide NearestLister, NoLister, RootCarries, HasVersion, VersionOfKey;
    if Answers(nodes, roots, satisfies, pkg, peer, range, Found(key)) {
      var version := AnswerWasMet(nodes, roots, satisfies, pkg, peer, range, Found(key));
      assert satisfies(version, range);
    }
    if version :| Met(nodes, roots, pkg, peer, key, version) && satisfies(version, range) {
      MetIsJudged(nodes, roots, satisfies, pkg, peer, range, key, version);
    }
  }

  /** A conflict exactly when a key that may be met has this very version and the version does
      not satisfy the range. */
  lemma ConflictExplains(nodes: Nodes, roots: seq<string>, satisfies: Satisfies, pkg: string, peer: string,
                         range: string, version: string)
    ensures Answers(nodes, roots, satisfies, pkg, peer, range, Conflict(version)) <==>
            !satisfies(version, range) && exists key :: Met(nodes, roots, pkg, peer, key, version)
  {
    hide NearestLister, NoLister, RootCarries, HasVersion, VersionOfKey, Met;
    if Answers(nodes, roots, satisfies, pkg, peer, range, Conflict(version)) {
      var v := AnswerWasMet(nodes, roots, satisfies, pkg, peer, range, Conflict(version));
      assert v == version;
    }
    if key :| Met(nodes, roots, pkg, peer, key, version) {
      MetIsJudged(nodes, roots, satisfies, pkg, peer, range, key, version);
    }
  }

  lemma AnswerWasMet(nodes: Nodes, roots: seq<string>, satisfies: Satisfies, pkg: string, peer: string, range: string,
                     r: Lookup)
    returns (version: string)
    requires Answers(nodes, roots, satisfies, pkg, peer, range, r) && r != Missing
    ensures r.Found? ==> satisfies(version, range) && Met(nodes, roots, pkg, peer, r.key, version)
    ensures r.Conflict? ==>
              && version == r.version && !satisfies(version, range)
              && exists key :: Met(nodes, roots, pkg, peer, key, version)
  {
    hide NoLister, AtHeight, HasVersion, VersionOfKey;
    if x :| NearestLister(nodes, roots, pkg, peer, x) && r == AnswerAt(nodes, satisfies, x, peer, range) {
      var key := nodes[x].dependencies[peer];
      version := VersionOfKey(key);
      EveryKeyHasVersion(key);
      assert Met(nodes, roots, pkg, peer, key, version);
    } else {
      var i :| 0 <= i < |roots| && RootCarries(nodes, roots[i], peer)
               && (forall j :: 0 <= j < i ==> !RootCarries(nodes, roots[j], peer))
               && r == Judge(satisfies, roots[i], nodes[roots[i]].version, range);
      version := nodes[roots[i]].version;
      assert FirstCarrier(nodes, roots, peer, i);
      assert Met(nodes, roots, pkg, peer, roots[i], version);
    }
  }

  lemma MetIsJudged(nodes: Nodes, roots: seq<string>, satisfies: Satisfies, pkg: string, peer: string, range: string,
                    key: string, version: string)
    requires Met(nodes, roots, pkg, peer, key, version)
    ensures Answers(nodes, roots, satisfies, pkg, peer, range,
                    if satisfies(version, range) then Found(key) else Conflict(version))
  {
    hide NoLister, AtHeight, HasVersion, VersionOfKey;
    if x :| NearestLister(nodes, roots, pkg, peer, x) && nodes[x].dependencies[peer] == key
            && HasVersion(key, version)
    {
      VersionOfKeyExactly(key, version);
      assert AnswerAt(nodes, satisfies, x, peer, range) == Judge(satisfies, key, version, range);
    } else {
      var i: nat :| FirstCarrier(nodes, roots, peer, i) && roots[i] == key && nodes[key].version == version;
      assert AnswersFromRoots(nodes, roots, satisfies, peer, range, Judge(satisfies, key, version, range));
    }
  }

  // ---------- the search ----------

  ghost predicate QueuedBy(queue: seq<string>, depths: seq<nat>, x: string, depth: nat)
    requires |depths| == |queue|
  {
    exists i :: 0 <= i < |queue| && queue[i] == x && depths[i] <= depth
  }

  ghost predicate DepthsOk(nodes: Nodes, roots: seq<string>, pkg: string, queue: seq<string>, depths: seq<nat>,
                           d: nat) {
    && |depths| == |queue|
    && (forall i :: 0 <= i < |queue| ==> d <= depths[i] <= d + Width(roots))
    && (forall i, j :: 0 <= i < j < |queue| ==> depths[i] <= depths[j])
    && (forall i :: 0 <= i < |queue| ==> AtHeight(nodes, roots, pkg, queue[i], depths[i]))
  }

  /** `heights` records at what depth each visited key was reached: never too late. */
  ghost predicate VisitedOk(nodes: Nodes, roots: seq<string>, pkg: string, peer: string, heights: map<string, nat>) {
    && (forall x :: x in heights ==> !Lists(nodes, x, peer))
    && (forall x, n: nat :: x in heights && AtHeight(nodes, roots, pkg, x, n) ==> heights[x] <= n)
    && (forall x :: x in heights ==> x in nodes || x in roots)
  }

  ghost predicate SeedsCovered(nodes: Nodes, roots: seq<string>, pkg: string, queue: seq<string>, depths: seq<nat>,
                               heights: map<string, nat>)
    requires |depths| == |queue|
  {
    && (forall x :: DependsOn(nodes, x, pkg) ==> x in heights || QueuedBy(queue, depths, x, 0))
    && (forall i :: 0 <= i < |roots| ==> roots[i] in heights || QueuedBy(queue, depths, roots[i], 1 + i))
  }

  ghost predicate ParentsCovered(nodes: Nodes, width: nat, queue: seq<string>, depths: seq<nat>,
                                 heights: map<string, nat>)
    requires |depths| == |queue|
  {
    forall x, y :: x in heights && x in nodes && DependsOn(nodes, y, x) ==>
      y in heights || QueuedBy(queue, depths, y, heights[x] + width)
  }

  ghost predicate HeightsDone(nodes: Nodes, roots: seq<string>, pkg: string, heights: map<string, nat>, d: nat) {
    forall x, n: nat :: n < d && AtHeight(nodes, roots, pkg, x, n) ==> x in heights
  }

  ghost predicate Searching(nodes: Nodes, roots: seq<string>, pkg: string, peer: string, queue: seq<string>,
                            depths: seq<nat>, heights: map<string, nat>, d: nat) {
    && DepthsOk(nodes, roots, pkg, queue, depths, d) && VisitedOk(nodes, roots, pkg, peer, heights)
    && SeedsCovered(nodes, roots, pkg, queue, depths, heights)
    && ParentsCovered(nodes, Width(roots), queue, depths, heights)
    && HeightsDone(nodes, roots, pkg, heights, d)
  }

  lemma HeightIsCovered(nodes: Nodes, roots: seq<string>, pkg: string, peer: string, queue: seq<string>,
                        depths: seq<nat>, heights: map<string, nat>, d: nat, x: string)
    requires Searching(nodes, roots, pkg, peer, queue, depths, heights, d) && AtHeight(nodes, roots, pkg, x, d)
    ensures x in heights || QueuedBy(queue, depths, x, d)
  {
    hide QueuedBy, DependsOn;
    if d > |roots| {
      var w := Width(roots);
      var y :| y in nodes && AtHeight(nodes, roots, pkg, y, d - w) && DependsOn(nodes, x, y);
      assert y in heights && heights[y] <= d - w;
      assert QueuedBy(queue, depths, x, heights[y] + w) ==> QueuedBy(queue, depths, x, d) by {
        if QueuedBy(queue, depths, x, heights[y] + w) { QueuedLater(queue, depths, x, heights[y] + w, d); }
      }
    }
  }

  lemma QueuedLater(queue: seq<string>, depths: seq<nat>, x: string, depth: nat, later: nat)
    requires |depths| == |queue| && QueuedBy(queue, depths, x, depth) && depth <= later
    ensures QueuedBy(queue, depths, x, later)
  {
  }

  /** When every queued depth is beyond d, height d has been visited. */
  lemma HeightCompletes(nodes: Nodes, roots: seq<string>, pkg: string, peer: string, queue: seq<string>,
                        depths: seq<nat>, heights: map<string, nat>, d: nat)
    requires Searching(nodes, roots, pkg, peer, queue, depths, heights, d)
    requires forall i :: 0 <= i < |queue| ==> depths[i] > d
    ensures Searching(nodes, roots, pkg, peer, queue, depths, heights, d + 1)
  {
    hide AtHeight, SeedsCovered, ParentsCovered, VisitedOk, DependsOn;
    forall x | AtHeight(nodes, roots, pkg, x, d) ensures x in heights {
      HeightIsCovered(nodes, roots, pkg, peer, queue, depths, heights, d, x);
    }
  }

  /** A key taken from the queue for the second time. */
  lemma SkipKeepsSearching(nodes: Nodes, roots: seq<string>, pkg: string, peer: string, queue: seq<string>,
                           depths: seq<nat>, heights: map<string, nat>, d: nat)
    requires queue != [] && Searching(nodes, roots, pkg, peer, queue, depths, heights, d) && queue[0] in heights
    ensures Searching(nodes, roots, pkg, peer, queue[1..], depths[1..], heights, d)
  {
    hide AtHeight, DependsOn, VisitedOk, HeightsDone;
    forall x, k: nat | x !in heights && QueuedBy(queue, depths, x, k) ensures QueuedBy(queue[1..], depths[1..], x, k) {
      QueuedInRest(queue, depths, x, k);
    }
    hide QueuedBy;
  }

  lemma QueuedInRest(queue: seq<string>, depths: seq<nat>, x: string, k: nat)
    requires |depths| == |queue| > 0 && QueuedBy(queue, depths, x, k) && x != queue[0]
    ensures QueuedBy(queue[1..], depths[1..], x, k)
  {
    var i :| 0 <= i < |queue| && queue[i] == x && depths[i] <= k;
    assert queue[1..][i - 1] == x && depths[1..][i - 1] <= k;
  }

  /** The keys to look at next: the dependents that have not been visited. */
  function Unvisited(list: seq<string>, visited: set<string>): (r: seq<string>)
    ensures forall x :: x in r <==> x in list && x !in visited
  {
    if list == [] then []
    else if list[|list| - 1] in visited then Unvisited(list[..|list| - 1], visited)
    else Unvisited(list[..|list| - 1], visited) + [list[|list| - 1]]
  }

  lemma UnvisitedStep(list: seq<string>, visited: set<string>, i: nat)
    requires i < |list|
    ensures Unvisited(list[..i + 1], visited) ==
            Unvisited(list[..i], visited) + (if list[i] in visited then [] else [list[i]])
  {
    assert list[..i + 1][..i] == list[..i];
  }

  function Deeper(n: nat, d: nat, width: nat): seq<nat> { seq(n, _ => d + width) }

  /** A key taken for the first time that does not list the peer. `above` are its unvisited
      dependents, none when the key is not in the graph. */
  lemma VisitKeepsSearching(nodes: Nodes, roots: seq<string>, pkg: string, peer: string, queue: seq<string>,
                            depths: seq<nat>, heights: map<string, nat>, d: nat, above: seq<string>)
    requires queue != [] && Searching(nodes, roots, pkg, peer, queue, depths, heights, d) && depths[0] == d
    requires queue[0] !in heights && !Lists(nodes, queue[0], peer)
    requires queue[0] in nodes ==>
               forall y :: y in above <==> DependsOn(nodes, y, queue[0]) && y !in heights && y != queue[0]
    requires queue[0] !in nodes ==> above == []
    ensures var after := depths[1..] + Deeper(|above|, d, Width(roots));
            Searching(nodes, roots, pkg, peer, queue[1..] + above, after, heights[queue[0] := d], d)
  {
    hide Lists, QueuedBy, DependsOn, SeedsCovered, ParentsCovered;
    var seen := heights[queue[0] := d];
    var next, after := queue[1..] + above, depths[1..] + Deeper(|above|, d, Width(roots));
    forall i | 0 <= i < |next| ensures AtHeight(nodes, roots, pkg, next[i], after[i]) {
      if i < |queue| - 1 {
        assert next[i] == queue[i + 1] && after[i] == depths[i + 1];
      } else {
        assert next[i] in above && after[i] == d + Width(roots);
        assert AtHeight(nodes, roots, pkg, queue[0], d);
      }
    }
    HeightIsInGraph(nodes, roots, pkg, queue[0], d);
    VisitCovers(nodes, roots, pkg, queue, depths, heights, d, above);
  }

  lemma HeightIsInGraph(nodes: Nodes, roots: seq<string>, pkg: string, x: string, n: nat)
    requires AtHeight(nodes, roots, pkg, x, n)
    ensures x in nodes || x in roots
  {
  }

  lemma VisitCovers(nodes: Nodes, roots: seq<string>, pkg: string, queue: seq<string>, depths: seq<nat>,
                    heights: map<string, nat>, d: nat, above: seq<string>)
    requires queue != [] && |depths| == |queue| && queue[0] !in heights
    requires SeedsCovered(nodes, roots, pkg, queue, depths, heights)
    requires ParentsCovered(nodes, Width(roots), queue, depths, heights)
    requires queue[0] in nodes ==>
               forall y :: y in above <==> DependsOn(nodes, y, queue[0]) && y !in heights && y != queue[0]
    ensures var after := depths[1..] + Deeper(|above|, d, Width(roots));
            && SeedsCovered(nodes, roots, pkg, queue[1..] + above, after, heights[queue[0] := d])
            && ParentsCovered(nodes, Width(roots), queue[1..] + above, after, heights[queue[0] := d])
  {
    hide DependsOn;
    var seen, w := heights[queue[0] := d], Width(roots);
    var next, after := queue[1..] + above, depths[1..] + Deeper(|above|, d, w);
    forall x, k: nat | x !in seen && QueuedBy(queue, depths, x, k) ensures QueuedBy(next, after, x, k) {
      QueuedInRest(queue, depths, x, k);
      QueuedInFront(queue[1..], depths[1..], above, Deeper(|above|, d, w), x, k);
    }
    forall y | y in above ensures QueuedBy(next, after, y, d + w) {
      var i :| 0 <= i < |above| && above[i] == y;
      assert next[|queue| - 1 + i] == y && after[|queue| - 1 + i] == d + w;
    }
    hide QueuedBy;
  }

  lemma QueuedInFront(queue: seq<string>, depths: seq<nat>, more: seq<string>, deeper: seq<nat>, x: string, k: nat)
    requires |depths| == |queue| && |deeper| == |more| && QueuedBy(queue, depths, x, k)
    ensures QueuedBy(queue + more, depths + deeper, x, k)
  {
    var i :| 0 <= i < |queue| && queue[i] == x && depths[i] <= k;
    assert (queue + more)[i] == x && (depths + deeper)[i] <= k;
  }

  /** A lister at the present depth is a nearest one. */
  lemma ListerIsNearest(nodes: Nodes, roots: seq<string>, pkg: string, peer: string, queue: seq<string>,
                        depths: seq<nat>, heights: map<string, nat>, d: nat)
    requires queue != [] && Searching(nodes, roots, pkg, peer, queue, depths, heights, d) && depths[0] == d
    requires Lists(nodes, queue[0], peer)
    ensures NearestLister(nodes, roots, pkg, peer, queue[0])
  {
    hide Lists, SeedsCovered, ParentsCovered;
    assert AtHeight(nodes, roots, pkg, queue[0], d);
    hide AtHeight;
  }

  lemma {:induction false} AllHeightsDone(nodes: Nodes, roots: seq<string>, pkg: string, peer: string,
                                          heights: map<string, nat>, d: nat, n: nat)
    requires Searching(nodes, roots, pkg, peer, [], [], heights, d)
    ensures exists e: nat :: e >= n && Searching(nodes, roots, pkg, peer, [], [], heights, e)
    decreases if n > d then n - d else 0
  {
    if d >= n {
    } else {
      HeightCompletes(nodes, roots, pkg, peer, [], [], heights, d);
      AllHeightsDone(nodes, roots, pkg, peer, heights, d + 1, n);
    }
  }

  /** An empty queue: nothing above lists the peer. */
  lemma SearchExhausted(nodes: Nodes, roots: seq<string>, pkg: string, peer: string, heights: map<string, nat>, d: nat)
    requires Searching(nodes, roots, pkg, peer, [], [], heights, d)
    ensures NoLister(nodes, roots, pkg, peer)
  {
    hide AtHeight, Lists, SeedsCovered, ParentsCovered;
    forall x, n: nat | AtHeight(nodes, roots, pkg, x, n) ensures !Lists(nodes, x, peer) {
      AllHeightsDone(nodes, roots, pkg, peer, heights, d, n + 1);
      var e: nat :| e >= n + 1 && Searching(nodes, roots, pkg, peer, [], [], heights, e);
      assert x in heights;
    }
  }

  lemma StartSearching(nodes: Nodes, roots: seq<string>, parents: ParentMap, pkg: string, peer: string)
    requires IsParentMap(nodes, parents)
    ensures var direct := ParentsOf(parents, pkg);
            Searching(nodes, roots, pkg, peer, direct + roots, StartDepths(|direct|, |roots|), map[], 0)
  {
    hide DependsOn, AtHeight, SeedsCovered, DepthsOk;
    StartSeeds(nodes, roots, parents, pkg);
    StartIsDeepEnough(nodes, roots, parents, pkg);
  }

  lemma StartSeeds(nodes: Nodes, roots: seq<string>, parents: ParentMap, pkg: string)
    requires IsParentMap(nodes, parents)
    ensures var direct := ParentsOf(parents, pkg);
            SeedsCovered(nodes, roots, pkg, direct + roots, StartDepths(|direct|, |roots|), map[])
  {
    hide DependsOn;
    var direct := ParentsOf(parents, pkg);
    var queue, depths := direct + roots, StartDepths(|direct|, |roots|);
    forall x | DependsOn(nodes, x, pkg) ensures QueuedBy(queue, depths, x, 0) {
      assert x in direct;
      var i :| 0 <= i < |direct| && direct[i] == x;
      assert queue[i] == x && depths[i] == 0;
    }
    forall i | 0 <= i < |roots| ensures QueuedBy(queue, depths, roots[i], 1 + i) {
      assert queue[|direct| + i] == roots[i] && depths[|direct| + i] == 1 + i;
    }
  }

  lemma StartIsDeepEnough(nodes: Nodes, roots: seq<string>, parents: ParentMap, pkg: string)
    requires IsParentMap(nodes, parents)
    ensures var direct := ParentsOf(parents, pkg);
            DepthsOk(nodes, roots, pkg, direct + roots, StartDepths(|direct|, |roots|), 0)
  {
    hide DependsOn;
    var direct := ParentsOf(parents, pkg);
    var queue, depths := direct + roots, StartDepths(|direct|, |roots|);
    forall i | 0 <= i < |queue| ensures AtHeight(nodes, roots, pkg, queue[i], depths[i]) {
      if i < |direct| {
        assert queue[i] in direct;
      } else {
        RootHeight(nodes, roots, pkg, i - |direct|);
      }
    }
    hide AtHeight;
  }

  function StartDepths(direct: nat, roots: nat): seq<nat> {
    seq(direct, _ => 0) + seq(roots, i => 1 + i)
  }

  /** The unvisited entries of a list are queued one after the other. */
  method PushUnvisited(queue: seq<string>, list: seq<string>, visited: set<string>) returns (next: seq<string>)
    ensures next == queue + Unvisited(list, visited)
  {
    hide Unvisited;
    next := queue;
    var i := 0;
    assert Unvisited(list[..0], visited) == [] by { NothingUnvisited(visited); }
    while i < |list|
      invariant 0 <= i <= |list|
      invariant next == queue + Unvisited(list[..i], visited)
    {
      UnvisitedStep(list, visited, i);
      if list[i] !in visited { next := next + [list[i]]; }
      i := i + 1;
    }
    assert list[..i] == list;
  }

  lemma NothingUnvisited(visited: set<string>)
    ensures forall list :: list == [] ==> Unvisited(list, visited) == []
  {
  }

  method JudgeDependency(nodes: Nodes, satisfies: Satisfies, x: string, peer: string, range: string) returns (r: Lookup)
    requires Lists(nodes, x, peer)
    ensures r == AnswerAt(nodes, satisfies, x, peer, range)
  {
    var key := nodes[x].dependencies[peer];
    var version := VersionOfKey(key);
    if satisfies(version, range) { return Found(key); }
    return Conflict(version);
  }

  /** Terminates on cyclic graphs. The answer comes from a lister of the lowest rank: direct
      dependents first, then the roots in their order, then whatever is one step up. */
  method FindPeerInContext(nodes: Nodes, roots: seq<string>, parents: ParentMap, satisfies: Satisfies, pkg: string,
                           peer: string, range: string)
    returns (r: Lookup)
    requires IsParentMap(nodes, parents)
    ensures Answers(nodes, roots, satisfies, pkg, peer, range, r)
  {
    hide Searching, NearestLister, NoLister, AnswersFromRoots, Answers, Unvisited, IsParentMap, ParentsOf, DependsOn,
         AnswerAt, Universe, Deeper, StartDepths;
    var visited: set<string> := {};
    var queue := ParentsOf(parents, pkg) + roots;
    ghost var depths: seq<nat> := StartDepths(|ParentsOf(parents, pkg)|, |roots|);
    ghost var heights: map<string, nat>, d: nat := map[], 0;
    ghost var universe := Universe(nodes, roots);
    StartSearching(nodes, roots, parents, pkg, peer);
    while queue != []
      invariant Searching(nodes, roots, pkg, peer, queue, depths, heights, d)
      invariant heights.Keys == visited
      decreases |universe - visited|, |queue|
    {
      d := FrontDepth(nodes, roots, pkg, peer, queue, depths, heights, d);
      var ancestor := queue[0];
      if ancestor in visited {
        SkipKeepsSearching(nodes, roots, pkg, peer, queue, depths, heights, d);
        queue, depths := queue[1..], depths[1..];
        continue;
      }
      FrontIsInGraph(nodes, roots, pkg, peer, queue, depths, heights, d);
      FewerLeft(universe, visited, ancestor);
      if ancestor in nodes && peer in nodes[ancestor].dependencies {
        ListerIsNearest(nodes, roots, pkg, peer, queue, depths, heights, d);
        AnswerFromLister(nodes, roots, satisfies, pkg, peer, range, ancestor);
        r := JudgeDependency(nodes, satisfies, ancestor, peer, range);
        return;
      }
      visited := visited + {ancestor};
      ghost var above := if ancestor in nodes then Unvisited(ParentsOf(parents, ancestor), visited) else [];
      AboveAreDependents(nodes, parents, heights.Keys, ancestor);
      VisitKeepsSearching(nodes, roots, pkg, peer, queue, depths, heights, d, above);
      depths := depths[1..] + Deeper(|above|, d, Width(roots));
      heights := heights[ancestor := d];
      queue := queue[1..];
      if ancestor in nodes {
        queue := PushUnvisited(queue, ParentsOf(parents, ancestor), visited);
      } else {
        assert queue + above == queue;
      }
    }
    QueueIsEmpty(nodes, roots, pkg, peer, depths, heights, d);
    r := FindPeerAmongRoots(nodes, roots, satisfies, peer, range);
    AnswerFromRoots(nodes, roots, satisfies, pkg, peer, range, r);
  }

  function Universe(nodes: Nodes, roots: seq<string>): set<string> {
    nodes.Keys + set i | 0 <= i < |roots| :: roots[i]
  }

  lemma AnswerFromLister(nodes: Nodes, roots: seq<string>, satisfies: Satisfies, pkg: string, peer: string,
                         range: string, x: string)
    requires NearestLister(nodes, roots, pkg, peer, x)
    ensures Lists(nodes, x, peer)
    ensures Answers(nodes, roots, satisfies, pkg, peer, range, AnswerAt(nodes, satisfies, x, peer, range))
  {
  }

  lemma AnswerFromRoots(nodes: Nodes, roots: seq<string>, satisfies: Satisfies, pkg: string, peer: string,
                        range: string, r: Lookup)
    requires NoLister(nodes, roots, pkg, peer) && AnswersFromRoots(nodes, roots, satisfies, peer, range, r)
    ensures Answers(nodes, roots, satisfies, pkg, peer, range, r)
  {
  }

  lemma QueueIsEmpty(nodes: Nodes, roots: seq<string>, pkg: string, peer: string, depths: seq<nat>,
                     heights: map<string, nat>, d: nat)
    requires Searching(nodes, roots, pkg, peer, [], depths, heights, d)
    ensures NoLister(nodes, roots, pkg, peer)
  {
    hide NoLister;
    assert depths == [];
    SearchExhausted(nodes, roots, pkg, peer, heights, d);
  }

  lemma FrontDepth(nodes: Nodes, roots: seq<string>, pkg: string, peer: string, queue: seq<string>, depths: seq<nat>,
                   heights: map<string, nat>, d: nat)
    returns (e: nat)
    requires queue != [] && Searching(nodes, roots, pkg, peer, queue, depths, heights, d)
    ensures Searching(nodes, roots, pkg, peer, queue, depths, heights, e)
    ensures |depths| == |queue| && depths[0] == e
  {
    e := d;
    while e < depths[0]
      invariant e <= depths[0] && Searching(nodes, roots, pkg, peer, queue, depths, heights, e)
    {
      HeightCompletes(nodes, roots, pkg, peer, queue, depths, heights, e);
      e := e + 1;
    }
  }

  lemma FrontIsInGraph(nodes: Nodes, roots: seq<string>, pkg: string, peer: string, queue: seq<string>,
                       depths: seq<nat>, heights: map<string, nat>, d: nat)
    requires queue != [] && Searching(nodes, roots, pkg, peer, queue, depths, heights, d)
    ensures queue[0] in Universe(nodes, roots)
  {
    HeightIsInGraph(nodes, roots, pkg, queue[0], depths[0]);
    if queue[0] in roots {
      var i :| 0 <= i < |roots| && roots[i] == queue[0];
    }
  }

  lemma FewerLeft(universe: set<string>, visited: set<string>, x: string)
    requires x in universe && x !in visited
    ensures |universe - (visited + {x})| < |universe - visited|
  {
    assert universe - visited == (universe - (visited + {x})) + {x};
  }

  lemma AboveAreDependents(nodes: Nodes, parents: ParentMap, visited: set<string>, x: string)
    requires IsParentMap(nodes, parents)
    ensures forall y :: y in Unvisited(ParentsOf(parents, x), visited + {x}) <==>
              DependsOn(nodes, y, x) && y !in visited && y != x
  {
    hide Unvisited, DependsOn, ParentsOf;
  }

  /** The last resort: the first root that goes by the peer's name. */
  method FindPeerAmongRoots(nodes: Nodes, roots: seq<string>, satisfies: Satisfies, peer: string, range: string)
    returns (r: Lookup)
    ensures AnswersFromRoots(nodes, roots, satisfies, peer, range, r)
  {
    var i := 0;
    while i < |roots|
      invariant 0 <= i <= |roots|
      invariant forall j :: 0 <= j < i ==> !RootCarries(nodes, roots[j], peer)
    {
      if roots[i] in nodes {
        var root := nodes[roots[i]];
        if InstallName(root) == peer || root.name == peer {
          return if satisfies(root.version, range) then Found(roots[i]) else Conflict(root.version);
        }
      }
      i := i + 1;
    }
    return Missing;
  }
}
