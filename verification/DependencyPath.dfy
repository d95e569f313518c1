/** `find_dep_path`: breadth-first search from a package upward through its dependents to a
    package that nothing depends on. */
module DependencyPath {
  import opened Base

  /** For each package key the keys of the packages that depend on it; cycles may occur. */
  type Graph = map<Bytes, seq<Bytes>>

  function Parents(g: Graph, x: Bytes): seq<Bytes> {
    if x in g then g[x] else []
  }

  predicate IsRoot(g: Graph, x: Bytes) { Parents(g, x) == [] }

  /** Where a chain up from `start` has got to: its first element. */
  function Top(start: Bytes, path: seq<Bytes>): Bytes { if path == [] then start else path[0] }

  /** A reverse-dependency chain: every element is a direct parent of the next one, and the
      last is a direct parent of `start`. */
  predicate IsChain(g: Graph, start: Bytes, path: seq<Bytes>) {
    path == [] || (path[0] in Parents(g, Top(start, path[1..])) && IsChain(g, start, path[1..]))
  }

  ghost predicate IsRootChain(g: Graph, start: Bytes, path: seq<Bytes>) {
    path != [] && IsChain(g, start, path) && IsRoot(g, path[0])
  }

  /** Element i depends directly on the one behind it. */
  predicate LinkAt(g: Graph, path: seq<Bytes>, i: nat)
    requires i + 1 < |path|
  {
    path[i + 1] in g && path[i] in g[path[i + 1]]
  }

  /** The chain link by link: nothing depends on its first element, each element depends on the
      next one directly, and the last on `start`. */
  lemma RootChainExactly(g: Graph, start: Bytes, path: seq<Bytes>)
    ensures IsRootChain(g, start, path) <==>
            && path != [] && (path[0] in g ==> g[path[0]] == [])
            && (forall i: nat :: i + 1 < |path| ==> LinkAt(g, path, i))
            && start in g && path[|path| - 1] in g[start]
  {
    hide LinkAt, IsChain;
    if path != [] { ChainExactly(g, start, path); }
  }

  lemma {:induction false} ChainExactly(g: Graph, start: Bytes, path: seq<Bytes>)
    requires path != []
    ensures IsChain(g, start, path) <==>
            && (forall i: nat :: i + 1 < |path| ==> LinkAt(g, path, i))
            && start in g && path[|path| - 1] in g[start]
  {
    if |path| > 1 {
      ChainExactly(g, start, path[1..]);
      LinksBehind(g, path);
      assert LinkAt(g, path, 0) <==> path[0] in Parents(g, Top(start, path[1..]));
    }
  }

  lemma LinksBehind(g: Graph, path: seq<Bytes>)
    requires |path| > 1
    ensures (forall i: nat :: i + 1 < |path| ==> LinkAt(g, path, i)) <==>
            LinkAt(g, path, 0) && forall i: nat :: i + 1 < |path[1..]| ==> LinkAt(g, path[1..], i)
  {
    var tail := path[1..];
    assert forall i: nat :: i + 1 < |tail| ==> (LinkAt(g, tail, i) <==> LinkAt(g, path, i + 1));
    if LinkAt(g, path, 0) && forall i: nat :: i + 1 < |tail| ==> LinkAt(g, tail, i) {
      forall i: nat | i + 1 < |path| ensures LinkAt(g, path, i) {
        if i > 0 { assert LinkAt(g, tail, i - 1); }
      }
    }
  }

  // ---------- levels ----------

  /** The packages that some chain of exactly n links leads to. */
  ghost function Level(g: Graph, start: Bytes, n: nat): set<Bytes> {
    if n == 0 then {start}
    else set x, i | x in Level(g, start, n - 1) && 0 <= i < |Parents(g, x)| :: Parents(g, x)[i]
  }

  lemma {:induction false} ChainEndsInLevel(g: Graph, start: Bytes, path: seq<Bytes>)
    requires IsChain(g, start, path)
    ensures Top(start, path) in Level(g, start, |path|)
  {
    if path != [] {
      ChainEndsInLevel(g, start, path[1..]);
      var x := Top(start, path[1..]);
      var i :| 0 <= i < |Parents(g, x)| && Parents(g, x)[i] == path[0];
      assert path[0] in Level(g, start, |path|);
    }
  }

  lemma ExtendChain(g: Graph, start: Bytes, path: seq<Bytes>, parent: Bytes)
    requires IsChain(g, start, path) && parent in Parents(g, Top(start, path))
    ensures IsChain(g, start, [parent] + path) && Top(start, [parent] + path) == parent
  {
    assert ([parent] + path)[1..] == path;
  }

  // ---------- the state of the search ----------

  datatype Entry = Entry(node: Bytes, path: seq<Bytes>)

  function Pending(queue: seq<Entry>): set<Bytes> {
    set i | 0 <= i < |queue| :: queue[i].node
  }

  function Universe(g: Graph, start: Bytes): set<Bytes> {
    {start} + g.Keys + set x, i | x in g && 0 <= i < |g[x]| :: g[x][i]
  }

  ghost predicate EntryOk(g: Graph, start: Bytes, visited: set<Bytes>, e: Entry) {
    && IsChain(g, start, e.path) && Top(start, e.path) == e.node && e.node in visited
    && (e.path == [] || (e.node != start && !IsRoot(g, e.node)))
  }

  ghost predicate EntriesOk(g: Graph, start: Bytes, visited: set<Bytes>, queue: seq<Entry>) {
    forall i :: 0 <= i < |queue| ==> EntryOk(g, start, visited, queue[i])
  }

  /** The queue holds depths d and then d + 1. */
  ghost predicate DepthsAscend(queue: seq<Entry>, d: nat) {
    && (forall i :: 0 <= i < |queue| ==> d <= |queue[i].path| <= d + 1)
    && (forall i, j :: 0 <= i < j < |queue| ==> |queue[i].path| <= |queue[j].path|)
  }

  ghost predicate EntryMinimal(g: Graph, start: Bytes, e: Entry) {
    forall n: nat :: e.node in Level(g, start, n) ==> |e.path| <= n
  }

  /** No chain to a queued package is shorter than its entry. */
  ghost predicate DepthsMinimal(g: Graph, start: Bytes, queue: seq<Entry>) {
    forall i :: 0 <= i < |queue| ==> EntryMinimal(g, start, queue[i])
  }

  ghost predicate ParentsVisited(g: Graph, visited: set<Bytes>, x: Bytes) {
    forall i :: 0 <= i < |Parents(g, x)| ==> Parents(g, x)[i] in visited && !IsRoot(g, Parents(g, x)[i])
  }

  /** Whoever has been dealt with has all its parents visited, and none of them is a root. */
  ghost predicate Closed(g: Graph, visited: set<Bytes>, pending: set<Bytes>) {
    forall x :: x in visited && x !in pending ==> ParentsVisited(g, visited, x)
  }

  ghost predicate LevelsDone(g: Graph, start: Bytes, visited: set<Bytes>, pending: set<Bytes>, d: nat) {
    forall n :: 0 <= n < d ==> Level(g, start, n) <= visited - pending
  }

  ghost predicate LevelsVisited(g: Graph, start: Bytes, visited: set<Bytes>, d: nat) {
    forall n :: 0 <= n <= d ==> Level(g, start, n) <= visited
  }

  /** Visited packages other than the start are not roots. */
  ghost predicate NoRootVisited(g: Graph, start: Bytes, visited: set<Bytes>) {
    start in visited && forall x :: x in visited && x != start ==> !IsRoot(g, x)
  }

  ghost predicate Searching(g: Graph, start: Bytes, queue: seq<Entry>, visited: set<Bytes>, pending: set<Bytes>,
                            d: nat) {
    && EntriesOk(g, start, visited, queue) && DepthsAscend(queue, d) && DepthsMinimal(g, start, queue)
    && Closed(g, visited, pending) && LevelsDone(g, start, visited, pending, d)
    && NoRootVisited(g, start, visited) && visited <= Universe(g, start)
  }

  lemma DoneLevelsAreVisited(g: Graph, start: Bytes, visited: set<Bytes>, pending: set<Bytes>, d: nat)
    requires LevelsDone(g, start, visited, pending, d) && Closed(g, visited, pending) && start in visited
    ensures LevelsVisited(g, start, visited, d)
  {
    forall n, y | 0 <= n <= d && y in Level(g, start, n) ensures y in visited {
      if n > 0 {
        var x, i :| x in Level(g, start, n - 1) && 0 <= i < |Parents(g, x)| && Parents(g, x)[i] == y;
        assert Level(g, start, n - 1) <= visited - pending;
        assert ParentsVisited(g, visited, x);
      }
    }
  }

  /** When the front of the queue is deeper, the whole level before it has been dealt with. */
  lemma LevelCompletes(g: Graph, start: Bytes, queue: seq<Entry>, visited: set<Bytes>, d: nat)
    requires Searching(g, start, queue, visited, Pending(queue), d)
    requires forall i :: 0 <= i < |queue| ==> |queue[i].path| == d + 1
    ensures Searching(g, start, queue, visited, Pending(queue), d + 1)
  {
    hide EntriesOk, Closed, Level, Universe;
    DoneLevelsAreVisited(g, start, visited, Pending(queue), d);
    assert Level(g, start, d) <= visited;
    forall i | 0 <= i < |queue| ensures queue[i].node !in Level(g, start, d) {
      assert EntryMinimal(g, start, queue[i]);
    }
    assert Level(g, start, d) <= visited - Pending(queue);
  }

  lemma {:induction false} ChainMeansParents(g: Graph, start: Bytes, path: seq<Bytes>)
    requires IsChain(g, start, path) && path != []
    ensures !IsRoot(g, start)
  {
    if |path| > 1 { ChainMeansParents(g, start, path[1..]); }
  }

  /** No chain to a root is as short as the levels already visited. */
  lemma RootsAreDeeper(g: Graph, start: Bytes, visited: set<Bytes>, d: nat, path: seq<Bytes>)
    requires LevelsVisited(g, start, visited, d) && NoRootVisited(g, start, visited)
    requires IsRootChain(g, start, path)
    ensures |path| > d
  {
    ChainEndsInLevel(g, start, path);
    ChainMeansParents(g, start, path);
  }

  lemma {:induction false} AllLevelsVisited(g: Graph, start: Bytes, visited: set<Bytes>, n: nat)
    requires Closed(g, visited, {}) && start in visited
    ensures LevelsDone(g, start, visited, {}, n)
  {
    if n > 0 {
      AllLevelsVisited(g, start, visited, n - 1);
      DoneLevelsAreVisited(g, start, visited, {}, n - 1);
    }
  }

  /** An exhausted search: no root is above the start at all. */
  lemma ExhaustedMeansNoRoot(g: Graph, start: Bytes, visited: set<Bytes>)
    requires Closed(g, visited, {}) && NoRootVisited(g, start, visited)
    ensures forall path :: !IsRootChain(g, start, path)
  {
    forall path ensures !IsRootChain(g, start, path) {
      if IsRootChain(g, start, path) {
        AllLevelsVisited(g, start, visited, |path|);
        DoneLevelsAreVisited(g, start, visited, {}, |path|);
        RootsAreDeeper(g, start, visited, |path|, path);
      }
    }
  }

  // ---------- queueing one more parent ----------

  lemma PendingGrows(queue: seq<Entry>, e: Entry)
    ensures Pending(queue + [e]) == Pending(queue) + {e.node}
  {
    var after := queue + [e];
    forall x | x in Pending(queue) ensures x in Pending(after) {
      var i :| 0 <= i < |queue| && queue[i].node == x;
      assert after[i].node == x;
    }
    assert after[|queue|] == e;
  }

  lemma NewEntryOk(g: Graph, start: Bytes, visited: set<Bytes>, current: Entry, parent: Bytes, d: nat)
    requires EntryOk(g, start, visited, current) && |current.path| == d && start in visited
    requires parent in Parents(g, current.node) && parent !in visited && !IsRoot(g, parent)
    requires LevelsVisited(g, start, visited, d)
    ensures var e := Entry(parent, [parent] + current.path);
            EntryOk(g, start, visited + {parent}, e) && EntryMinimal(g, start, e)
  {
    hide Level, IsRoot, IsChain;
    ExtendChain(g, start, current.path, parent);
  }

  lemma QueueGrows(g: Graph, start: Bytes, queue: seq<Entry>, visited: set<Bytes>, e: Entry, d: nat)
    requires EntriesOk(g, start, visited, queue) && DepthsAscend(queue, d) && DepthsMinimal(g, start, queue)
    requires EntryOk(g, start, visited + {e.node}, e) && EntryMinimal(g, start, e) && |e.path| == d + 1
    ensures EntriesOk(g, start, visited + {e.node}, queue + [e])
    ensures DepthsAscend(queue + [e], d) && DepthsMinimal(g, start, queue + [e])
  {
    hide EntryMinimal, IsChain;
    var after := queue + [e];
    forall i | 0 <= i < |after| ensures EntryOk(g, start, visited + {e.node}, after[i]) {
      if i < |queue| { assert EntryOk(g, start, visited, queue[i]); }
    }
  }

  lemma ParentsVisitedGrows(g: Graph, visited: set<Bytes>, more: set<Bytes>, x: Bytes)
    requires ParentsVisited(g, visited, x) && visited <= more
    ensures ParentsVisited(g, more, x)
  {
  }

  lemma VisitedGrows(g: Graph, start: Bytes, visited: set<Bytes>, pending: set<Bytes>, parent: Bytes, d: nat)
    requires Closed(g, visited, pending) && LevelsDone(g, start, visited, pending, d)
    requires NoRootVisited(g, start, visited) && parent !in visited && !IsRoot(g, parent)
    ensures Closed(g, visited + {parent}, pending + {parent})
    ensures LevelsDone(g, start, visited + {parent}, pending + {parent}, d)
    ensures NoRootVisited(g, start, visited + {parent})
  {
    hide Level, IsRoot, ParentsVisited;
    var seen := visited + {parent};
    forall x | x in seen && x !in pending + {parent} ensures ParentsVisited(g, seen, x) {
      ParentsVisitedGrows(g, visited, seen, x);
    }
  }

  lemma ParentsAreInUniverse(g: Graph, start: Bytes, x: Bytes, parent: Bytes)
    requires parent in Parents(g, x)
    ensures parent in Universe(g, start)
  {
    var i :| 0 <= i < |g[x]| && g[x][i] == parent;
  }

  lemma EnqueueKeepsSearching(g: Graph, start: Bytes, queue: seq<Entry>, visited: set<Bytes>, current: Entry,
                              parent: Bytes, d: nat)
    requires Searching(g, start, queue, visited, Pending(queue) + {current.node}, d)
    requires EntryOk(g, start, visited, current) && |current.path| == d
    requires parent in Parents(g, current.node) && parent !in visited && !IsRoot(g, parent)
    requires LevelsVisited(g, start, visited, d)
    ensures var e := Entry(parent, [parent] + current.path);
            Searching(g, start, queue + [e], visited + {parent}, Pending(queue + [e]) + {current.node}, d)
  {
    hide Level, Universe, IsRoot, EntryOk, EntriesOk, EntryMinimal, DepthsAscend, DepthsMinimal, Closed, LevelsDone,
         LevelsVisited, Pending;
    var e := Entry(parent, [parent] + current.path);
    ParentsAreInUniverse(g, start, current.node, parent);
    NewEntryOk(g, start, visited, current, parent, d);
    QueueGrows(g, start, queue, visited, e, d);
    VisitedGrows(g, start, visited, Pending(queue) + {current.node}, parent, d);
    PendingGrows(queue, e);
    assert Pending(queue) + {current.node} + {parent} == Pending(queue + [e]) + {current.node};
  }

  // ---------- the first of the shortest chains ----------

  /** Where x stands first in the list. */
  function Place(list: seq<Bytes>, x: Bytes): (i: nat)
    ensures x in list ==> i < |list| && list[i] == x && forall k :: 0 <= k < i ==> list[k] != x
  {
    if list == [] || list[0] == x then 0 else 1 + Place(list[1..], x)
  }

  /** Chains of one length, compared from `start` upward: where they part, the parent that is
      listed first comes first. */
  predicate Sooner(g: Graph, start: Bytes, p: seq<Bytes>, q: seq<Bytes>) {
    && |p| == |q| > 0
    && (|| Sooner(g, start, p[1..], q[1..])
        || (p[1..] == q[1..]
            && var parents := Parents(g, Top(start, p[1..])); Place(parents, p[0]) < Place(parents, q[0])))
  }

  lemma {:induction false} SoonerIsTransitive(g: Graph, start: Bytes, p: seq<Bytes>, q: seq<Bytes>, r: seq<Bytes>)
    requires Sooner(g, start, p, q) && Sooner(g, start, q, r)
    ensures Sooner(g, start, p, r)
  {
    hide Place;
    if Sooner(g, start, p[1..], q[1..]) && Sooner(g, start, q[1..], r[1..]) {
      SoonerIsTransitive(g, start, p[1..], q[1..], r[1..]);
    }
  }

  /** No chain of this length to the same package is sooner. */
  ghost predicate Soonest(g: Graph, start: Bytes, path: seq<Bytes>) {
    forall q :: IsChain(g, start, q) && |q| == |path| && Top(start, q) == Top(start, path) ==>
      q == path || Sooner(g, start, path, q)
  }

  /** Paths in the queue are soonest and in order, and one that is longer by a link was made
      from a path sooner than all that are still to be dealt with. */
  ghost predicate InOrder(g: Graph, start: Bytes, queue: seq<Entry>) {
    && (forall i :: 0 <= i < |queue| ==> Soonest(g, start, queue[i].path))
    && (forall i, j :: 0 <= i < j < |queue| && |queue[i].path| == |queue[j].path| ==>
          Sooner(g, start, queue[i].path, queue[j].path))
    && (forall i, j :: 0 <= i < j < |queue| && |queue[i].path| + 1 == |queue[j].path| ==>
          Sooner(g, start, queue[j].path[1..], queue[i].path))
  }

  /** `path` was taken from the front, and the first i parents of its top have been queued. */
  ghost predicate Taken(g: Graph, start: Bytes, queue: seq<Entry>, path: seq<Bytes>, i: nat) {
    && Soonest(g, start, path)
    && (forall j :: 0 <= j < |queue| && |queue[j].path| == |path| ==> Sooner(g, start, path, queue[j].path))
    && (forall j :: 0 <= j < |queue| && |queue[j].path| == |path| + 1 ==>
          var q := queue[j].path;
          || Sooner(g, start, q[1..], path)
          || (q[1..] == path && Place(Parents(g, Top(start, path)), q[0]) < i))
  }

  lemma StartInOrder(g: Graph, start: Bytes)
    ensures InOrder(g, start, [Entry(start, [])])
  {
  }

  lemma PopInOrder(g: Graph, start: Bytes, queue: seq<Entry>)
    requires queue != [] && InOrder(g, start, queue)
    ensures InOrder(g, start, queue[1..]) && Taken(g, start, queue[1..], queue[0].path, 0)
  {
    hide Soonest, Sooner;
    var rest := queue[1..];
    assert forall j :: 0 <= j < |rest| ==> rest[j] == queue[j + 1];
  }

  lemma TakenMore(g: Graph, start: Bytes, queue: seq<Entry>, path: seq<Bytes>, i: nat)
    requires Taken(g, start, queue, path, i)
    ensures Taken(g, start, queue, path, i + 1)
  {
    hide Soonest, Sooner;
  }

  /** A chain as long as the path at hand leads to a package that has been dealt with, or is
      that path, or comes later. */
  lemma ChainsOfThisLength(g: Graph, start: Bytes, queue: seq<Entry>, visited: set<Bytes>, current: Entry, d: nat,
                           i: nat, q: seq<Bytes>)
    requires Searching(g, start, queue, visited, Pending(queue) + {current.node}, d)
    requires EntryOk(g, start, visited, current) && |current.path| == d && LevelsVisited(g, start, visited, d)
    requires InOrder(g, start, queue) && Taken(g, start, queue, current.path, i)
    requires IsChain(g, start, q) && |q| == d
    ensures || ParentsVisited(g, visited, Top(start, q))
            || q == current.path || Sooner(g, start, current.path, q)
  {
    hide Sooner, Level, ParentsVisited, Universe, LevelsDone, NoRootVisited;
    var y := Top(start, q);
    ChainEndsInLevel(g, start, q);
    assert y in visited;
    if y in Pending(queue) && y != current.node {
      var j :| 0 <= j < |queue| && queue[j].node == y;
      assert EntryMinimal(g, start, queue[j]) && EntryOk(g, start, visited, queue[j]);
      assert |queue[j].path| == d;
      if q != queue[j].path { SoonerIsTransitive(g, start, current.path, queue[j].path, q); }
    }
  }

  /** A parent listed after i others that have been visited stands at place i. */
  lemma NewParentPlace(g: Graph, start: Bytes, visited: set<Bytes>, current: Entry, i: nat)
    requires i < |Parents(g, current.node)| && Parents(g, current.node)[i] !in visited
    requires forall k :: 0 <= k < i ==> Parents(g, current.node)[k] in visited
    ensures Place(Parents(g, current.node), Parents(g, current.node)[i]) == i
  {
  }

  lemma NewPathIsSoonest(g: Graph, start: Bytes, queue: seq<Entry>, visited: set<Bytes>, current: Entry, d: nat,
                         i: nat, parent: Bytes)
    requires Searching(g, start, queue, visited, Pending(queue) + {current.node}, d)
    requires EntryOk(g, start, visited, current) && |current.path| == d && LevelsVisited(g, start, visited, d)
    requires InOrder(g, start, queue) && Taken(g, start, queue, current.path, i) && parent !in visited
    ensures Soonest(g, start, [parent] + current.path)
  {
    hide Searching, EntryOk, LevelsVisited, InOrder, Taken, Level, Universe, Pending;
    var path := [parent] + current.path;
    forall q | IsChain(g, start, q) && |q| == |path| && Top(start, q) == Top(start, path)
      ensures q == path || Sooner(g, start, path, q)
    {
      ChainsOfThisLength(g, start, queue, visited, current, d, i, q[1..]);
      assert q == [parent] + q[1..] && path[1..] == current.path;
      assert parent in Parents(g, Top(start, q[1..]));
    }
  }

  lemma QueueStaysInOrder(g: Graph, start: Bytes, queue: seq<Entry>, current: Entry, d: nat, i: nat, parent: Bytes)
    requires InOrder(g, start, queue) && Taken(g, start, queue, current.path, i) && DepthsAscend(queue, d)
    requires |current.path| == d && Top(start, current.path) == current.node
    requires Place(Parents(g, current.node), parent) == i && Soonest(g, start, [parent] + current.path)
    ensures var after := queue + [Entry(parent, [parent] + current.path)];
            InOrder(g, start, after) && Taken(g, start, after, current.path, i + 1)
  {
    hide Soonest, Sooner, Place, InOrder;
    var e := Entry(parent, [parent] + current.path);
    assert e.path[1..] == current.path && e.path[0] == parent;
    forall j | 0 <= j < |queue| && |queue[j].path| == |e.path| ensures Sooner(g, start, queue[j].path, e.path) {
      SoonerStep(g, start, queue[j].path, e.path);
    }
    AppendInOrder(g, start, queue, e);
    AppendTaken(g, start, queue, current.path, e, i);
  }

  lemma AppendInOrder(g: Graph, start: Bytes, queue: seq<Entry>, e: Entry)
    requires InOrder(g, start, queue) && Soonest(g, start, e.path) && e.path != []
    requires forall j :: 0 <= j < |queue| ==> |queue[j].path| <= |e.path|
    requires forall j :: 0 <= j < |queue| && |queue[j].path| == |e.path| ==> Sooner(g, start, queue[j].path, e.path)
    requires forall j :: 0 <= j < |queue| && |queue[j].path| + 1 == |e.path| ==>
               Sooner(g, start, e.path[1..], queue[j].path)
    ensures InOrder(g, start, queue + [e])
  {
    hide Soonest, Sooner;
    var after := queue + [e];
    assert forall j :: 0 <= j < |queue| ==> after[j] == queue[j];
    assert after[|queue|] == e;
  }

  lemma AppendTaken(g: Graph, start: Bytes, queue: seq<Entry>, path: seq<Bytes>, e: Entry, i: nat)
    requires Taken(g, start, queue, path, i) && |e.path| == |path| + 1 && e.path[1..] == path
    requires Place(Parents(g, Top(start, path)), e.path[0]) == i
    ensures Taken(g, start, queue + [e], path, i + 1)
  {
    hide Soonest, Sooner, Place;
    var after := queue + [e];
    assert forall j :: 0 <= j < |queue| ==> after[j] == queue[j];
    assert after[|queue|] == e;
  }

  /** A root met at this point ends the first of all shortest chains. */
  lemma FirstRootIsSoonest(g: Graph, start: Bytes, queue: seq<Entry>, visited: set<Bytes>, current: Entry, d: nat,
                           i: nat)
    requires Searching(g, start, queue, visited, Pending(queue) + {current.node}, d)
    requires EntryOk(g, start, visited, current) && |current.path| == d && LevelsVisited(g, start, visited, d)
    requires InOrder(g, start, queue) && Taken(g, start, queue, current.path, i)
    requires i < |Parents(g, current.node)| && Parents(g, current.node)[i] !in visited
    requires forall k :: 0 <= k < i ==>
               Parents(g, current.node)[k] in visited && !IsRoot(g, Parents(g, current.node)[k])
    ensures var path := [Parents(g, current.node)[i]] + current.path;
            forall q :: IsRootChain(g, start, q) && |q| == |path| ==> q == path || Sooner(g, start, path, q)
  {
    hide Searching, LevelsVisited, InOrder, Taken, Level, Universe, Pending, Sooner, Place;
    var parents := Parents(g, current.node);
    var path := [parents[i]] + current.path;
    NewParentPlace(g, start, visited, current, i);
    forall q | IsRootChain(g, start, q) && |q| == |path| ensures q == path || Sooner(g, start, path, q) {
      ChainsOfThisLength(g, start, queue, visited, current, d, i, q[1..]);
      assert q == [q[0]] + q[1..] && path == [parents[i]] + current.path;
      RootsAreNotVisited(g, visited, Top(start, q[1..]), q[0]);
      if q[1..] == current.path { FirstRootPlace(g, parents, i, q[0]); }
      if q != path { SoonerStep(g, start, path, q); }
    }
  }

  lemma RootsAreNotVisited(g: Graph, visited: set<Bytes>, x: Bytes, root: Bytes)
    requires root in Parents(g, x) && IsRoot(g, root)
    ensures !ParentsVisited(g, visited, x)
  {
    var k := Place(Parents(g, x), root);
    assert Parents(g, x)[k] == root;
  }

  lemma FirstRootPlace(g: Graph, parents: seq<Bytes>, i: nat, root: Bytes)
    requires i < |parents| && root in parents && IsRoot(g, root)
    requires forall k :: 0 <= k < i ==> !IsRoot(g, parents[k])
    ensures i <= Place(parents, root) && (Place(parents, root) == i ==> parents[i] == root)
  {
    hide IsRoot;
  }

  lemma SoonerStep(g: Graph, start: Bytes, p: seq<Bytes>, q: seq<Bytes>)
    requires |p| == |q| > 0
    requires || Sooner(g, start, p[1..], q[1..])
             || (p[1..] == q[1..]
                 && var parents := Parents(g, Top(start, p[1..])); Place(parents, p[0]) < Place(parents, q[0]))
    ensures Sooner(g, start, p, q)
  {
    hide Place;
  }

  // ---------- the search ----------

  lemma StartSearching(g: Graph, start: Bytes)
    ensures var queue := [Entry(start, [])];
            Searching(g, start, queue, {start}, Pending(queue), 0)
  {
    var queue := [Entry(start, [])];
    assert queue[0].node == start;
    assert start in Pending(queue);
  }

  lemma PopKeepsSearching(g: Graph, start: Bytes, queue: seq<Entry>, visited: set<Bytes>, d: nat)
    requires queue != [] && Searching(g, start, queue, visited, Pending(queue), d)
    ensures Searching(g, start, queue[1..], visited, Pending(queue[1..]) + {queue[0].node}, d)
  {
    hide Level, Universe, EntryOk, EntryMinimal, NoRootVisited, ParentsVisited;
    var rest := queue[1..];
    forall x ensures x in Pending(queue) <==> x in Pending(rest) + {queue[0].node} {
      if x in Pending(rest) {
        var i :| 0 <= i < |rest| && rest[i].node == x;
        assert queue[i + 1].node == x;
      }
      if x in Pending(queue) {
        var i :| 0 <= i < |queue| && queue[i].node == x;
        if i > 0 { assert rest[i - 1].node == x; }
      }
    }
    assert Pending(queue) == Pending(rest) + {queue[0].node};
  }

  lemma FinishKeepsSearching(g: Graph, start: Bytes, queue: seq<Entry>, visited: set<Bytes>, x: Bytes, d: nat)
    requires Searching(g, start, queue, visited, Pending(queue) + {x}, d) && ParentsVisited(g, visited, x)
    ensures Searching(g, start, queue, visited, Pending(queue), d)
  {
    hide Level, Universe, EntriesOk, DepthsAscend, DepthsMinimal, NoRootVisited, ParentsVisited, Pending;
  }

  /** A root among the parents ends the search, and no chain to a root is shorter. */
  lemma RootFound(g: Graph, start: Bytes, visited: set<Bytes>, current: Entry, parent: Bytes, d: nat)
    requires EntryOk(g, start, visited, current) && |current.path| == d
    requires parent in Parents(g, current.node) && IsRoot(g, parent)
    requires LevelsVisited(g, start, visited, d) && NoRootVisited(g, start, visited)
    ensures IsRootChain(g, start, [parent] + current.path)
    ensures forall q :: IsRootChain(g, start, q) ==> d + 1 <= |q|
  {
    hide LevelsVisited, NoRootVisited, IsChain;
    ExtendChain(g, start, current.path, parent);
    forall q | IsRootChain(g, start, q) ensures d + 1 <= |q| { RootsAreDeeper(g, start, visited, d, q); }
  }

  lemma RootStartHasNoChain(g: Graph, start: Bytes, visited: set<Bytes>, current: Entry)
    requires EntryOk(g, start, visited, current) && IsRoot(g, current.node)
    ensures current.path == [] && forall q :: !IsRootChain(g, start, q)
  {
    forall q ensures !IsRootChain(g, start, q) {
      if q != [] && IsChain(g, start, q) { ChainMeansParents(g, start, q); }
    }
  }

  lemma FewerLeft(g: Graph, start: Bytes, before: set<Bytes>, after: set<Bytes>)
    requires before < after <= Universe(g, start)
    ensures |Universe(g, start) - after| < |Universe(g, start) - before|
  {
    hide Universe;
    ProperSubsetIsSmaller(Universe(g, start) - after, Universe(g, start) - before);
  }

  lemma {:induction false} ProperSubsetIsSmaller(a: set<Bytes>, b: set<Bytes>)
    requires a < b
    ensures |a| < |b|
  {
    if a != {} {
      var x :| x in a;
      ProperSubsetIsSmaller(a - {x}, b - {x});
    }
  }

  /** Terminates on every graph, cyclic ones included. The result is a shortest chain from a
      parentless package down to a direct parent of `start`, the parentless package first;
      it is empty exactly when there is no such chain. */
  method FindDepPath(g: Graph, start: Bytes) returns (path: seq<Bytes>)
    ensures path != [] ==> IsRootChain(g, start, path) && forall q :: IsRootChain(g, start, q) ==> |path| <= |q|
    ensures path == [] <==> forall q :: !IsRootChain(g, start, q)
    ensures forall q :: IsRootChain(g, start, q) && |q| == |path| ==> q == path || Sooner(g, start, path, q)
  {
    hide Searching, EntryOk, LevelsVisited, IsRootChain, Universe, Pending, InOrder, Taken, Sooner, Soonest;
    var queue := [Entry(start, [])];
    var visited := {start};
    ghost var d: nat := 0;
    StartSearching(g, start);
    StartInOrder(g, start);
    while queue != []
      invariant Searching(g, start, queue, visited, Pending(queue), d) && InOrder(g, start, queue)
      decreases |Universe(g, start) - visited|, |queue|
    {
      d := FrontDepth(g, start, queue, visited, d);
      var current := queue[0];
      PopKeepsSearching(g, start, queue, visited, d);
      PopInOrder(g, start, queue);
      queue := queue[1..];
      if current.node !in g {
        RootStartHasNoChain(g, start, visited, current);
        return current.path;
      }
      var parents := g[current.node];
      ghost var seen, rest := visited, queue;
      var i := 0;
      while i < |parents|
        invariant 0 <= i <= |parents|
        invariant Searching(g, start, queue, visited, Pending(queue) + {current.node}, d)
        invariant EntryOk(g, start, visited, current) && LevelsVisited(g, start, visited, d)
        invariant InOrder(g, start, queue) && Taken(g, start, queue, current.path, i)
        invariant forall k :: 0 <= k < i ==> parents[k] in visited && !IsRoot(g, parents[k])
        invariant seen <= visited && (visited == seen ==> queue == rest)
      {
        var parent := parents[i];
        if parent in visited {
          VisitedIsNotRoot(g, start, queue, visited, current, parent, d);
          TakenMore(g, start, queue, current.path, i);
        } else {
          if parent !in g || g[parent] == [] {
            ShortestFound(g, start, queue, visited, current, parent, d);
            FirstRootIsSoonest(g, start, queue, visited, current, d, i);
            return [parent] + current.path;
          }
          NewParentPlace(g, start, visited, current, i);
          NewPathIsSoonest(g, start, queue, visited, current, d, i, parent);
          NextInOrder(g, start, queue, visited, current, d, i, parent);
          EnqueueKeepsSearching(g, start, queue, visited, current, parent, d);
          VisitedMore(g, start, visited, current, parent, d);
          visited := visited + {parent};
          queue := queue + [Entry(parent, [parent] + current.path)];
        }
        i := i + 1;
      }
      FinishKeepsSearching(g, start, queue, visited, current.node, d);
      if visited != seen { VisitedInUniverse(g, start, queue, visited, d); FewerLeft(g, start, seen, visited); }
    }
    SearchExhausted(g, start, visited, d);
    return [];
  }

  lemma NextInOrder(g: Graph, start: Bytes, queue: seq<Entry>, visited: set<Bytes>, current: Entry, d: nat, i: nat,
                    parent: Bytes)
    requires Searching(g, start, queue, visited, Pending(queue) + {current.node}, d)
    requires EntryOk(g, start, visited, current) && |current.path| == d
    requires InOrder(g, start, queue) && Taken(g, start, queue, current.path, i)
    requires Place(Parents(g, current.node), parent) == i && Soonest(g, start, [parent] + current.path)
    ensures var after := queue + [Entry(parent, [parent] + current.path)];
            InOrder(g, start, after) && Taken(g, start, after, current.path, i + 1)
  {
    hide InOrder, Taken, Soonest, Level, Universe, Pending;
    QueueStaysInOrder(g, start, queue, current, d, i, parent);
  }

  /** The depth of the front entry, which is the smallest in the queue. */
  lemma FrontDepth(g: Graph, start: Bytes, queue: seq<Entry>, visited: set<Bytes>, d: nat) returns (e: nat)
    requires queue != [] && Searching(g, start, queue, visited, Pending(queue), d)
    ensures Searching(g, start, queue, visited, Pending(queue), e)
    ensures EntryOk(g, start, visited, queue[0]) && |queue[0].path| == e && LevelsVisited(g, start, visited, e)
  {
    hide EntryOk, LevelsVisited, LevelsDone, Closed, Universe, Pending, DepthsMinimal;
    e := |queue[0].path|;
    if e == d + 1 { LevelCompletes(g, start, queue, visited, d); }
    DoneLevelsAreVisited(g, start, visited, Pending(queue), e);
  }

  lemma VisitedIsNotRoot(g: Graph, start: Bytes, queue: seq<Entry>, visited: set<Bytes>, current: Entry,
                         parent: Bytes, d: nat)
    requires Searching(g, start, queue, visited, Pending(queue) + {current.node}, d)
    requires EntryOk(g, start, visited, current) && parent in Parents(g, current.node) && parent in visited
    ensures !IsRoot(g, parent)
  {
    if parent == start {
      ExtendChain(g, start, current.path, parent);
      ChainMeansParents(g, start, [parent] + current.path);
    }
  }

  lemma ShortestFound(g: Graph, start: Bytes, queue: seq<Entry>, visited: set<Bytes>, current: Entry, parent: Bytes,
                      d: nat)
    requires Searching(g, start, queue, visited, Pending(queue) + {current.node}, d)
    requires EntryOk(g, start, visited, current) && |current.path| == d && LevelsVisited(g, start, visited, d)
    requires parent in Parents(g, current.node) && IsRoot(g, parent)
    ensures IsRootChain(g, start, [parent] + current.path)
    ensures forall q :: IsRootChain(g, start, q) ==> d + 1 <= |q|
  {
    hide IsRootChain, EntryOk, LevelsVisited;
    RootFound(g, start, visited, current, parent, d);
  }

  lemma VisitedMore(g: Graph, start: Bytes, visited: set<Bytes>, current: Entry, parent: Bytes, d: nat)
    requires EntryOk(g, start, visited, current) && LevelsVisited(g, start, visited, d)
    ensures EntryOk(g, start, visited + {parent}, current) && LevelsVisited(g, start, visited + {parent}, d)
  {
    hide IsChain, Level;
  }

  lemma VisitedInUniverse(g: Graph, start: Bytes, queue: seq<Entry>, visited: set<Bytes>, d: nat)
    requires Searching(g, start, queue, visited, Pending(queue), d)
    ensures visited <= Universe(g, start)
  {
    hide Universe;
  }

  lemma SearchExhausted(g: Graph, start: Bytes, visited: set<Bytes>, d: nat)
    requires Searching(g, start, [], visited, Pending([]), d)
    ensures forall q :: !IsRootChain(g, start, q)
  {
    hide IsRootChain;
    assert Pending([]) == {};
    ExhaustedMeansNoRoot(g, start, visited);
  }
}
