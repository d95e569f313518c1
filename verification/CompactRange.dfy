/** The prover's side: `compact_range` and `merkle_consistency_proof`, and their
    completeness against the verifier. */
module CompactRange {
  import opened Base
  import opened PowersOfTwo
  import opened MerkleTree
  import opened Frontier

  // ---------- block sizes ----------

  function Min(a: nat, b: nat): nat { if a < b then a else b }

  function BlockSize(cursor: nat, remaining: nat): (size: nat)
    requires remaining > 0
    ensures IsPowerOfTwo(size) && size <= remaining
    ensures cursor % size == 0
  {
    if cursor == 0 then HighestBit(remaining)
    else
      var size := Min(LowestBit(cursor), HighestBit(remaining));
      PowersDivide(size, LowestBit(cursor));
      ModTransitive(cursor, LowestBit(cursor), size);
      size
  }

  /** The inner `while cursor + size > end { size >>= 1 }` loop. */
  function Shrink(cursor: nat, size: nat, end: nat): nat
    requires cursor <= end
  {
    if cursor + size > end then Shrink(cursor, size / 2, end) else size
  }

  function BlockAt(h: Hash, leaves: seq<Bytes>, start: nat, end: nat): RangeNode
    requires start < end <= |leaves|
  {
    var size := BlockSize(start, end - start);
    RangeNode(start, size, SubtreeRoot(h, leaves[start..start + size]))
  }

  function CompactNodes(h: Hash, leaves: seq<Bytes>, start: nat, end: nat): seq<RangeNode>
    requires start <= end <= |leaves|
    decreases end - start
  {
    if start == end then []
    else [BlockAt(h, leaves, start, end)] + CompactNodes(h, leaves, start + BlockSize(start, end - start), end)
  }

  method FitBlock(cursor: nat, initial: nat, end: nat) returns (size: nat)
    requires cursor <= end
    ensures size == Shrink(cursor, initial, end)
  {
    size := initial;
    while cursor + size > end
      invariant Shrink(cursor, size, end) == Shrink(cursor, initial, end)
      decreases size
    {
      size := size / 2;
    }
  }

  /** One round of `compact_range`: the inner shrinking changes nothing, because the
      block it starts from fits already. */
  method NextBlock(h: Hash, leaves: seq<Bytes>, cursor: nat, end: nat) returns (node: RangeNode)
    requires cursor < end <= |leaves|
    ensures node == BlockAt(h, leaves, cursor, end)
  {
    hide SubtreeRoot, HighestBit, LowestBit, IsPowerOfTwo;
    var remaining := end - cursor;
    var alignment := if cursor == 0 then HighestBit(remaining) else LowestBit(cursor);
    var chosen := Min(alignment, HighestBit(remaining));
    var size := FitBlock(cursor, chosen, end);
    return RangeNode(cursor, size, SubtreeRoot(h, leaves[cursor..cursor + size]));
  }

  /** `compact_range` as the loops it is. */
  method ComputeCompactRange(h: Hash, leaves: seq<Bytes>, start: nat, end: nat) returns (nodes: seq<RangeNode>)
    requires start <= end <= |leaves| <= TOP_BIT
    ensures nodes == CompactNodes(h, leaves, start, end)
  {
    hide SubtreeRoot, HighestBit, LowestBit, IsPowerOfTwo;
    nodes := [];
    var cursor := start;
    while cursor < end
      invariant start <= cursor <= end
      invariant nodes + CompactNodes(h, leaves, cursor, end) == CompactNodes(h, leaves, start, end)
    {
      var node := NextBlock(h, leaves, cursor, end);
      PowerIsPositive(node.size);
      AppendAssoc(nodes, node, CompactNodes(h, leaves, cursor + node.size, end));
      nodes := nodes + [node];
      cursor := cursor + node.size;
    }
  }

  lemma AppendAssoc<T>(a: seq<T>, x: T, b: seq<T>)
    ensures (a + [x]) + b == a + ([x] + b)
  {
  }

  function ProofFor(h: Hash, leaves: seq<Bytes>, fromSize: nat): ConsistencyProof
    requires fromSize <= |leaves|
  {
    ConsistencyProof(fromSize, |leaves|, CompactNodes(h, leaves, 0, fromSize),
                     CompactNodes(h, leaves, fromSize, |leaves|))
  }

  method MerkleConsistencyProof(h: Hash, leaves: seq<Bytes>, fromSize: nat) returns (r: Option<ConsistencyProof>)
    requires |leaves| <= TOP_BIT
    ensures r == if fromSize <= |leaves| then Some(ProofFor(h, leaves, fromSize)) else None
  {
    if fromSize > |leaves| { return None; }
    var prefix := ComputeCompactRange(h, leaves, 0, fromSize);
    var suffix := ComputeCompactRange(h, leaves, fromSize, |leaves|);
    return Some(ConsistencyProof(fromSize, |leaves|, prefix, suffix));
  }

  // ---------- tilings ----------

  /** One correct block: a power of two of leaves, aligned to its size, with their root. */
  ghost predicate GoodBlock(h: Hash, leaves: seq<Bytes>, n: RangeNode) {
    && IsPowerOfTwo(n.size) && n.start % n.size == 0
    && n.start + n.size <= |leaves|
    && n.hash == SubtreeRoot(h, leaves[n.start..n.start + n.size])
  }

  /** The nodes are correct blocks that tile [start, end) from left to right. */
  ghost predicate Tiles(h: Hash, leaves: seq<Bytes>, nodes: seq<RangeNode>, start: nat, end: nat)
    decreases |nodes|
  {
    if nodes == [] then start == end
    else
      && nodes[0].start == start && GoodBlock(h, leaves, nodes[0])
      && Tiles(h, leaves, nodes[1..], start + nodes[0].size, end)
  }

  lemma {:induction false} TilesAppend(h: Hash, leaves: seq<Bytes>, a: seq<RangeNode>, b: seq<RangeNode>,
                                       start: nat, mid: nat, end: nat)
    requires Tiles(h, leaves, a, start, mid) && Tiles(h, leaves, b, mid, end)
    ensures Tiles(h, leaves, a + b, start, end)
    decreases |a|
  {
    hide GoodBlock;
    if a == [] {
      assert a + b == b;
    } else {
      assert (a + b)[1..] == a[1..] + b;
      TilesAppend(h, leaves, a[1..], b, start + a[0].size, mid, end);
    }
  }

  /** What the prover cuts is such a tiling. */
  lemma {:induction false} CompactNodesTile(h: Hash, leaves: seq<Bytes>, start: nat, end: nat)
    requires start <= end <= |leaves|
    ensures Tiles(h, leaves, CompactNodes(h, leaves, start, end), start, end)
    decreases end - start
  {
    hide SubtreeRoot, HighestBit, LowestBit;
    if start < end {
      CompactNodesTile(h, leaves, start + BlockSize(start, end - start), end);
    }
  }

  // ---------- iterative refines recursive ----------

  /** The verifier's stack over [0, cursor): correct blocks whose sizes strictly fall and
      that sit at multiples of twice their size, in short the binary digits of cursor. */
  ghost predicate Canonical(h: Hash, leaves: seq<Bytes>, stack: seq<RangeNode>, cursor: nat)
    decreases |stack|
  {
    if stack == [] then cursor == 0
    else
      var rest, top := stack[..|stack| - 1], stack[|stack| - 1];
      && GoodBlock(h, leaves, top) && top.start % (2 * top.size) == 0
      && top.start + top.size == cursor
      && Canonical(h, leaves, rest, top.start)
      && (rest != [] ==> top.size < rest[|rest| - 1].size)
  }

  /** The next aligned block is no larger than the block below it. */
  lemma NextBlockFits(below: RangeNode, next: RangeNode)
    requires IsPowerOfTwo(below.size) && IsPowerOfTwo(next.size)
    requires below.start % (2 * below.size) == 0
    requires next.start == below.start + below.size && next.start % next.size == 0
    ensures next.size <= below.size
    ensures next.size < below.size ==> next.start % (2 * next.size) == 0
  {
    hide IsPowerOfTwo;
    PowerIsPositive(below.size);
    PowerIsPositive(next.size);
    ModSum(below.start, below.size, 2 * below.size);
    if below.size < next.size {
      PowersDivide(below.size, next.size);
      ModTransitive(next.start, next.size, 2 * below.size);
    } else if next.size < below.size {
      PowersDivide(next.size, below.size);
      DoubledMultiple(next.size, below.size);
      ModTransitive(2 * below.size, below.size, 2 * next.size) by { DoubleIsMultiple(below.size); }
      ModTransitive(below.start, 2 * below.size, 2 * next.size);
      ModSum(below.start, below.size, 2 * next.size);
    }
  }

  lemma DoubleIsMultiple(d: nat)
    requires d > 0
    ensures (2 * d) % d == 0
  {
    ModUnique(2 * d, d, 2, 0);
  }

  /** Two sibling blocks merge into the block above them. */
  lemma MergedBlock(h: Hash, leaves: seq<Bytes>, left: RangeNode, right: RangeNode)
    requires GoodBlock(h, leaves, left) && GoodBlock(h, leaves, right)
    requires Mergeable(left, right)
    ensures GoodBlock(h, leaves, Merge(h, left, right))
  {
    hide SplitPoint, IsPowerOfTwo;
    var s := left.size;
    PowerIsPositive(s);
    var all := leaves[left.start..left.start + 2 * s];
    assert all[..s] == leaves[left.start..left.start + s];
    assert all[s..] == leaves[right.start..right.start + s];
    DoubledIsPower(s);
    SplitPointIs(2 * s, s);
  }

  lemma SplitPointIs(n: nat, s: nat)
    requires IsPowerOfTwo(s) && s < n <= 2 * s
    ensures n > 1 && SplitPoint(n) == s
  {
    HighestBitUnique(n - 1, s);
  }

  /** An aligned block either fits strictly above the block below it, or pairs with it. */
  lemma PushOrPair(h: Hash, leaves: seq<Bytes>, below: RangeNode, node: RangeNode)
    requires GoodBlock(h, leaves, below) && GoodBlock(h, leaves, node)
    requires below.start % (2 * below.size) == 0 && below.start + below.size == node.start
    ensures if Mergeable(below, node) then GoodBlock(h, leaves, Merge(h, below, node))
            else node.size < below.size && node.start % (2 * node.size) == 0
  {
    hide SubtreeRoot, IsPowerOfTwo;
    PowerIsPositive(below.size);
    PowerIsPositive(node.size);
    NextBlockFits(below, node);
    if below.size == node.size { MergedBlock(h, leaves, below, node); }
  }

  lemma CanonicalPush(h: Hash, leaves: seq<Bytes>, stack: seq<RangeNode>, node: RangeNode)
    requires Canonical(h, leaves, stack, node.start) && GoodBlock(h, leaves, node)
    requires node.size > 0 && node.start % (2 * node.size) == 0
    requires stack != [] ==> node.size < stack[|stack| - 1].size
    ensures Canonical(h, leaves, stack + [node], node.start + node.size)
  {
    hide GoodBlock;
    assert (stack + [node])[..|stack|] == stack;
  }

  lemma CanonicalPop(h: Hash, leaves: seq<Bytes>, stack: seq<RangeNode>, cursor: nat)
    requires Canonical(h, leaves, stack, cursor)
    ensures stack == [] ==> cursor == 0
    ensures stack != [] ==>
              var top := stack[|stack| - 1];
              && GoodBlock(h, leaves, top) && top.size > 0 && top.start % (2 * top.size) == 0
              && top.start + top.size == cursor && Canonical(h, leaves, stack[..|stack| - 1], top.start)
  {
    hide GoodBlock;
    if stack != [] { BlockIsPositive(h, leaves, stack[|stack| - 1]); }
  }

  lemma {:induction false} CollapseKeepsCanonical(h: Hash, leaves: seq<Bytes>, stack: seq<RangeNode>, node: RangeNode)
    requires Canonical(h, leaves, stack, node.start) && GoodBlock(h, leaves, node)
    ensures Canonical(h, leaves, Collapse(h, stack + [node]), node.start + node.size)
    decreases |stack|
  {
    hide GoodBlock, Mergeable, Canonical, Merge;
    var all := stack + [node];
    CanonicalPop(h, leaves, stack, node.start);
    BlockIsPositive(h, leaves, node);
    if stack == [] {
      CanonicalPush(h, leaves, stack, node);
    } else {
      var top, rest := stack[|stack| - 1], stack[..|stack| - 1];
      assert top == all[|all| - 2];
      PushOrPair(h, leaves, top, node);
      if Mergeable(top, node) {
        assert MergeTop(h, all) == rest + [Merge(h, top, node)];
        MergeSpans(h, top, node);
        CollapseKeepsCanonical(h, leaves, rest, Merge(h, top, node));
      } else {
        CanonicalPush(h, leaves, stack, node);
      }
    }
  }

  lemma MergeSpans(h: Hash, left: RangeNode, right: RangeNode)
    requires Mergeable(left, right)
    ensures var m := Merge(h, left, right); m.start == left.start && m.start + m.size == right.start + right.size
  {
  }

  lemma BlockIsPositive(h: Hash, leaves: seq<Bytes>, node: RangeNode)
    requires GoodBlock(h, leaves, node)
    ensures node.size > 0
  {
  }

  lemma {:induction false} AbsorbKeepsCanonical(h: Hash, leaves: seq<Bytes>, stack: seq<RangeNode>,
                                                nodes: seq<RangeNode>, cursor: nat, end: nat)
    requires Canonical(h, leaves, stack, cursor) && Tiles(h, leaves, nodes, cursor, end)
    requires |leaves| <= USIZE_MAX
    ensures Canonical(h, leaves, Absorb(h, stack, nodes), end)
    ensures Advance(nodes, cursor) == Some(end)
    decreases |nodes|
  {
    hide SubtreeRoot, IsPowerOfTwo, Canonical, Collapse;
    if nodes != [] {
      PowerIsPositive(nodes[0].size);
      CollapseKeepsCanonical(h, leaves, stack, nodes[0]);
      AbsorbKeepsCanonical(h, leaves, Collapse(h, stack + [nodes[0]]), nodes[1..], cursor + nodes[0].size, end);
    }
  }

  /** Folding a canonical stack, read from its entry at `start`, gives the root of the
      leaves from `start` on; what lies above an entry is smaller than the entry. */
  lemma {:induction false} FoldCanonical(h: Hash, leaves: seq<Bytes>, lower: seq<RangeNode>, upper: seq<RangeNode>,
                                         end: nat)
    requires upper != [] && Canonical(h, leaves, lower + upper, end)
    ensures upper[0].start < end <= |leaves| && end - upper[0].start < 2 * upper[0].size
    ensures Fold(h, upper) == SubtreeRoot(h, leaves[upper[0].start..end])
    decreases |upper|
  {
    hide SplitPoint, IsPowerOfTwo, SubtreeRoot;
    var stack := lower + upper;
    if |upper| == 1 {
      assert stack[|stack| - 1] == upper[0];
      PowerIsPositive(upper[0].size);
    } else {
      var rest := upper[1..];
      assert (lower + [upper[0]]) + rest == stack;
      FoldCanonical(h, leaves, lower + [upper[0]], rest, end);
      CanonicalNeighbours(h, leaves, stack, end, |lower|);
      FoldStep(h, leaves, upper[0], upper[1], Fold(h, rest), end);
    }
  }

  lemma FoldStep(h: Hash, leaves: seq<Bytes>, below: RangeNode, above: RangeNode, right: Bytes, end: nat)
    requires GoodBlock(h, leaves, below) && IsPowerOfTwo(above.size)
    requires below.start + below.size == above.start < end <= |leaves|
    requires above.size < below.size && end - above.start < 2 * above.size
    requires right == SubtreeRoot(h, leaves[above.start..end])
    ensures end - below.start < 2 * below.size
    ensures HashChildren(h, below.hash, right) == SubtreeRoot(h, leaves[below.start..end])
  {
    hide SplitPoint, IsPowerOfTwo;
    PowerIsPositive(above.size);
    PowersDivide(above.size, below.size);
    SplitPointIs(end - below.start, below.size);
    var all := leaves[below.start..end];
    assert all[..below.size] == leaves[below.start..above.start] && all[below.size..] == leaves[above.start..end];
  }

  lemma {:induction false} CanonicalNeighbours(h: Hash, leaves: seq<Bytes>, stack: seq<RangeNode>, cursor: nat, i: nat)
    requires Canonical(h, leaves, stack, cursor) && i + 1 < |stack|
    ensures stack[i].start + stack[i].size == stack[i + 1].start
    ensures stack[i + 1].size < stack[i].size
    ensures GoodBlock(h, leaves, stack[i]) && GoodBlock(h, leaves, stack[i + 1])
    decreases |stack|
  {
    hide GoodBlock;
    var rest := stack[..|stack| - 1];
    if i + 1 < |rest| {
      CanonicalNeighbours(h, leaves, rest, stack[|stack| - 1].start, i);
    } else {
      assert rest[|rest| - 1] == stack[i];
    }
  }

  /** Iterative refines recursive: on any tiling of the whole log by correct aligned
      blocks, of whatever granularity, the verifier computes the recursive root. */
  lemma FrontierRefinesTree(h: Hash, leaves: seq<Bytes>, nodes: seq<RangeNode>)
    requires Tiles(h, leaves, nodes, 0, |leaves|) && |leaves| <= USIZE_MAX
    ensures RootFromFrontier(h, nodes, |leaves|) == Some(SubtreeRoot(h, leaves))
  {
    hide IsPowerOfTwo, Absorb, Fold, Advance, GoodBlock, Canonical;
    if leaves == [] {
      NoTilesOfNothing(h, leaves, nodes);
      EmptyCase(h, leaves, nodes);
    } else {
      assert nodes != [];
      EmptyIsCanonical(h, leaves);
      AbsorbKeepsCanonical(h, leaves, [], nodes, 0, |leaves|);
      var stack := Absorb(h, [], nodes);
      CanonicalStartsAtZero(h, leaves, stack, |leaves|);
      assert [] + stack == stack;
      FoldCanonical(h, leaves, [], stack, |leaves|);
      assert leaves[0..|leaves|] == leaves;
    }
  }

  lemma EmptyIsCanonical(h: Hash, leaves: seq<Bytes>)
    ensures Canonical(h, leaves, [], 0)
  {
  }

  lemma NoTilesOfNothing(h: Hash, leaves: seq<Bytes>, nodes: seq<RangeNode>)
    requires Tiles(h, leaves, nodes, 0, |leaves|) && leaves == []
    ensures nodes == []
  {
  }

  lemma EmptyCase(h: Hash, leaves: seq<Bytes>, nodes: seq<RangeNode>)
    requires nodes == [] && leaves == []
    ensures RootFromFrontier(h, nodes, |leaves|) == Some(SubtreeRoot(h, leaves))
  {
  }

  lemma {:induction false} CanonicalStartsAtZero(h: Hash, leaves: seq<Bytes>, stack: seq<RangeNode>, cursor: nat)
    requires Canonical(h, leaves, stack, cursor) && stack != []
    ensures stack[0].start == 0
    decreases |stack|
  {
    hide GoodBlock;
    if |stack| > 1 { CanonicalStartsAtZero(h, leaves, stack[..|stack| - 1], stack[|stack| - 1].start); }
  }

  /** Completeness: for every log and every earlier size, the proof that is built is
      accepted between the two recursive roots. */
  lemma ConsistencyComplete(h: Hash, leaves: seq<Bytes>, fromSize: nat)
    requires fromSize <= |leaves| <= TOP_BIT
    ensures VerifyConsistency(h, ProofFor(h, leaves, fromSize),
                              SubtreeRoot(h, leaves[..fromSize]), SubtreeRoot(h, leaves))
  {
    hide SubtreeRoot, RootFromFrontier, Tiles, CompactNodes;
    var prefix := CompactNodes(h, leaves, 0, fromSize);
    CompactNodesTile(h, leaves, 0, fromSize);
    CompactNodesTile(h, leaves, fromSize, |leaves|);
    TilesAppend(h, leaves, prefix, CompactNodes(h, leaves, fromSize, |leaves|), 0, fromSize, |leaves|);
    FrontierRefinesTree(h, leaves, prefix + CompactNodes(h, leaves, fromSize, |leaves|));
    TilesOfPrefix(h, leaves, prefix, 0, fromSize);
    FrontierRefinesTree(h, leaves[..fromSize], prefix);
  }

  lemma {:induction false} TilesOfPrefix(h: Hash, leaves: seq<Bytes>, nodes: seq<RangeNode>, start: nat, end: nat)
    requires Tiles(h, leaves, nodes, start, end) && end <= |leaves|
    ensures start <= end && Tiles(h, leaves[..end], nodes, start, end)
    decreases |nodes|
  {
    hide SubtreeRoot, IsPowerOfTwo;
    if nodes != [] {
      PowerIsPositive(nodes[0].size);
      var n := nodes[0];
      TilesOfPrefix(h, leaves, nodes[1..], start + n.size, end);
      assert leaves[..end][n.start..n.start + n.size] == leaves[n.start..n.start + n.size];
    }
  }
}
