/** Which node lists the consistency verifier accepts, and which root it reads from them, said
    of the list itself rather than of the loop. */
module FrontierShape {
  import opened Base
  import opened PowersOfTwo
  import opened MerkleTree
  import opened Frontier

  // ---------- which lists are accepted ----------

  function TotalSize(nodes: seq<RangeNode>): nat {
    if nodes == [] then 0 else TotalSize(nodes[..|nodes| - 1]) + nodes[|nodes| - 1].size
  }

  /** A node that starts where the sizes before it end, with a power of two for its size; the
      sum stays in a machine word. */
  predicate Follows(before: seq<RangeNode>, node: RangeNode) {
    && node.start == TotalSize(before) && node.size != 0 && IsPowerOfTwo(node.size)
    && TotalSize(before) + node.size <= USIZE_MAX
  }

  ghost predicate Consecutive(nodes: seq<RangeNode>) {
    forall i :: 0 <= i < |nodes| ==> Follows(nodes[..i], nodes[i])
  }

  lemma {:induction false} AdvanceSnoc(nodes: seq<RangeNode>, last: RangeNode, cursor: nat)
    ensures Advance(nodes + [last], cursor) ==
            match Advance(nodes, cursor)
            case None => None
            case Some(c) => Advance([last], c)
    decreases |nodes|
  {
    hide IsPowerOfTwo;
    var all := nodes + [last];
    if nodes == [] {
      assert all == [last];
    } else {
      assert all[0] == nodes[0] && all[1..] == nodes[1..] + [last];
      AdvanceSnoc(nodes[1..], last, cursor + nodes[0].size);
    }
  }

  lemma ConsecutiveSnoc(nodes: seq<RangeNode>, last: RangeNode)
    ensures Consecutive(nodes + [last]) <==> Consecutive(nodes) && Follows(nodes, last)
    ensures TotalSize(nodes + [last]) == TotalSize(nodes) + last.size
  {
    hide Follows;
    var all := nodes + [last];
    assert all[..|nodes|] == nodes && all[|nodes|] == last;
    assert forall i :: 0 <= i < |nodes| ==> all[..i] == nodes[..i] && all[i] == nodes[i];
    if Consecutive(all) {
      forall i | 0 <= i < |nodes| ensures Follows(nodes[..i], nodes[i]) { assert Follows(all[..i], all[i]); }
    }
  }

  lemma {:induction false} AdvanceExactly(nodes: seq<RangeNode>)
    ensures Advance(nodes, 0) == if Consecutive(nodes) then Some(TotalSize(nodes)) else None
    decreases |nodes|
  {
    hide IsPowerOfTwo, Consecutive;
    if nodes == [] {
      assert Consecutive(nodes) by { NothingIsConsecutive(); }
    } else {
      var front, last := nodes[..|nodes| - 1], nodes[|nodes| - 1];
      assert nodes == front + [last];
      AdvanceExactly(front);
      AdvanceSnoc(front, last, 0);
      ConsecutiveSnoc(front, last);
    }
  }

  lemma NothingIsConsecutive()
    ensures Consecutive([])
  {
  }

  /** A root is read from a list exactly when its nodes are consecutive from 0, have powers of
      two for sizes, and add up to the claimed size; for size 0 only from no nodes at all. */
  lemma FrontierAcceptsExactly(h: Hash, nodes: seq<RangeNode>, n: nat)
    ensures n > 0 ==>
              (RootFromFrontier(h, nodes, n).Some? <==> nodes != [] && Consecutive(nodes) && TotalSize(nodes) == n)
    ensures RootFromFrontier(h, nodes, 0) == if nodes == [] then Some(h([])) else None
  {
    hide Consecutive, Absorb;
    AdvanceExactly(nodes);
  }

  lemma {:induction false} TotalOfBoth(a: seq<RangeNode>, b: seq<RangeNode>)
    ensures TotalSize(a + b) == TotalSize(a) + TotalSize(b)
    decreases |b|
  {
    if b == [] {
      assert a + b == a;
    } else {
      assert (a + b)[..|a + b| - 1] == a + b[..|b| - 1];
      TotalOfBoth(a, b[..|b| - 1]);
    }
  }

  /** The sizes of an accepted proof are those it names: the prefix adds up to `fromSize`, the
      prefix and the suffix to `toSize`, and all its nodes lie end to end. */
  lemma AcceptedSizesAddUp(h: Hash, proof: ConsistencyProof, fromRoot: Bytes, toRoot: Bytes)
    requires VerifyConsistency(h, proof, fromRoot, toRoot)
    ensures TotalSize(proof.prefix) == proof.fromSize
    ensures TotalSize(proof.prefix) + TotalSize(proof.suffix) == proof.toSize
    ensures Consecutive(proof.prefix) && Consecutive(proof.prefix + proof.suffix)
  {
    hide Consecutive, RootFromFrontier;
    NothingIsConsecutive();
    FrontierAcceptsExactly(h, proof.prefix, proof.fromSize);
    FrontierAcceptsExactly(h, proof.prefix + proof.suffix, proof.toSize);
    TotalOfBoth(proof.prefix, proof.suffix);
  }

  /** So an honest proof with another size written into it is refused. */
  lemma AlteredSizesAreRefused(h: Hash, proof: ConsistencyProof, fromSize: nat, toSize: nat, fromRoot: Bytes,
                               toRoot: Bytes, a: Bytes, b: Bytes)
    requires VerifyConsistency(h, proof, fromRoot, toRoot)
    requires fromSize != proof.fromSize || toSize != proof.toSize
    ensures !VerifyConsistency(h, proof.(fromSize := fromSize, toSize := toSize), a, b)
  {
    hide VerifyConsistency;
    AcceptedSizesAddUp(h, proof, fromRoot, toRoot);
    var altered := proof.(fromSize := fromSize, toSize := toSize);
    if VerifyConsistency(h, altered, a, b) { AcceptedSizesAddUp(h, altered, a, b); }
  }

  // ---------- which root is read ----------

  /** Neighbours i and i + 1 are the two halves of one aligned block. */
  predicate Paired(nodes: seq<RangeNode>, i: nat)
    requires i + 1 < |nodes|
  {
    && nodes[i].size == nodes[i + 1].size != 0 && nodes[i].start + nodes[i].size == nodes[i + 1].start
    && nodes[i].start % (2 * nodes[i].size) == 0
  }

  /** The list with such neighbours replaced by their block. */
  function Joined(h: Hash, nodes: seq<RangeNode>, i: nat): seq<RangeNode>
    requires i + 1 < |nodes|
  {
    var block := RangeNode(nodes[i].start, 2 * nodes[i].size, h([1] + nodes[i].hash + nodes[i + 1].hash));
    nodes[..i] + [block] + nodes[i + 2..]
  }

  /** The right-leaning fold of a list of labels. */
  function FoldRight(h: Hash, nodes: seq<RangeNode>): Bytes
    requires nodes != []
  {
    if |nodes| == 1 then nodes[0].hash else h([1] + nodes[0].hash + FoldRight(h, nodes[1..]))
  }

  lemma {:induction false} AbsorbConcat(h: Hash, stack: seq<RangeNode>, a: seq<RangeNode>, b: seq<RangeNode>)
    ensures Absorb(h, stack, a + b) == Absorb(h, Absorb(h, stack, a), b)
    decreases |a|
  {
    hide Collapse;
    if a == [] {
      assert a + b == b;
    } else {
      assert (a + b)[1..] == a[1..] + b;
      AbsorbConcat(h, Collapse(h, stack + [a[0]]), a[1..], b);
    }
  }

  lemma AbsorbOne(h: Hash, stack: seq<RangeNode>, node: RangeNode)
    ensures Absorb(h, stack, [node]) == Collapse(h, stack + [node])
  {
    hide Collapse;
  }

  /** A node that begins an aligned pair is no right half itself. */
  lemma LeftHalfStays(h: Hash, stack: seq<RangeNode>, left: RangeNode)
    requires left.size != 0 && left.start % (2 * left.size) == 0
    ensures Collapse(h, stack + [left]) == stack + [left]
  {
    var all := stack + [left];
    if TopMergeable(all) {
      var top := stack[|stack| - 1];
      assert all[|all| - 2] == top;
      ModSum(top.start, top.size, 2 * top.size);
      assert false;
    }
  }

  /** Pushing both halves is pushing their block. */
  lemma PairIsPushedAsBlock(h: Hash, stack: seq<RangeNode>, left: RangeNode, right: RangeNode)
    requires left.size == right.size != 0 && left.start + left.size == right.start
    requires left.start % (2 * left.size) == 0
    ensures Absorb(h, stack, [left, right]) == Absorb(h, stack, [Merge(h, left, right)])
  {
    hide Collapse, Merge;
    assert [left, right] == [left] + [right];
    AbsorbConcat(h, stack, [left], [right]);
    AbsorbOne(h, stack, left);
    LeftHalfStays(h, stack, left);
    AbsorbOne(h, stack + [left], right);
    AbsorbOne(h, stack, Merge(h, left, right));
    CollapsePair(h, stack, left, right);
  }

  lemma CollapsePair(h: Hash, stack: seq<RangeNode>, left: RangeNode, right: RangeNode)
    requires Mergeable(left, right)
    ensures Collapse(h, stack + [left] + [right]) == Collapse(h, stack + [Merge(h, left, right)])
  {
    hide Merge, Mergeable;
    var all := stack + [left] + [right];
    assert all[|all| - 2] == left && all[|all| - 1] == right && all[..|all| - 2] == stack;
  }

  lemma JoinedIsConsecutive(h: Hash, nodes: seq<RangeNode>, i: nat)
    requires Consecutive(nodes) && i + 1 < |nodes| && Paired(nodes, i)
    ensures Consecutive(Joined(h, nodes, i)) && TotalSize(Joined(h, nodes, i)) == TotalSize(nodes)
  {
    hide IsPowerOfTwo, Consecutive;
    var a, rest := nodes[..i], nodes[i + 2..];
    var block := RangeNode(nodes[i].start, 2 * nodes[i].size, h([1] + nodes[i].hash + nodes[i + 1].hash));
    assert nodes == (a + [nodes[i]] + [nodes[i + 1]]) + rest;
    ConsecutiveFront(a + [nodes[i]] + [nodes[i + 1]], rest);
    ConsecutiveSnoc(a + [nodes[i]], nodes[i + 1]);
    ConsecutiveSnoc(a, nodes[i]);
    DoubledIsPower(nodes[i].size);
    ConsecutiveSnoc(a, block);
    SameShape(a + [nodes[i]] + [nodes[i + 1]], a + [block], rest);
  }

  lemma {:induction false} ConsecutiveFront(a: seq<RangeNode>, b: seq<RangeNode>)
    requires Consecutive(a + b)
    ensures Consecutive(a)
    decreases |b|
  {
    hide Consecutive;
    if b == [] {
      assert a + b == a;
    } else {
      assert a + b == (a + b[..|b| - 1]) + [b[|b| - 1]];
      ConsecutiveSnoc(a + b[..|b| - 1], b[|b| - 1]);
      ConsecutiveFront(a, b[..|b| - 1]);
    }
  }

  /** Fronts of the same total are interchangeable. */
  lemma {:induction false} SameShape(a: seq<RangeNode>, c: seq<RangeNode>, b: seq<RangeNode>)
    requires Consecutive(a + b) && Consecutive(c) && TotalSize(c) == TotalSize(a)
    ensures Consecutive(c + b) && TotalSize(c + b) == TotalSize(a + b)
    decreases |b|
  {
    hide Consecutive, IsPowerOfTwo;
    if b == [] {
      assert a + b == a && c + b == c;
    } else {
      var front, last := b[..|b| - 1], b[|b| - 1];
      assert a + b == (a + front) + [last] && c + b == (c + front) + [last];
      ConsecutiveSnoc(a + front, last);
      SameShape(a, c, front);
      ConsecutiveSnoc(c + front, last);
    }
  }

  /** First law of the root: neighbours that are the halves of an aligned block may be replaced
      by the block, anywhere in the list. */
  lemma JoiningKeepsRoot(h: Hash, nodes: seq<RangeNode>, n: nat, i: nat)
    requires RootFromFrontier(h, nodes, n).Some? && i + 1 < |nodes| && Paired(nodes, i)
    ensures RootFromFrontier(h, Joined(h, nodes, i), n) == RootFromFrontier(h, nodes, n)
  {
    hide Consecutive, Absorb, Collapse, Fold, Advance;
    FrontierAcceptsExactly(h, nodes, n);
    JoinedIsConsecutive(h, nodes, i);
    FrontierAcceptsExactly(h, Joined(h, nodes, i), n);
    var block := Merge(h, nodes[i], nodes[i + 1]);
    var a, rest := nodes[..i], nodes[i + 2..];
    assert nodes == a + ([nodes[i], nodes[i + 1]] + rest);
    assert Joined(h, nodes, i) == a + ([block] + rest) by { SameBlock(h, nodes, i); }
    var stack := Absorb(h, [], a);
    AbsorbConcat(h, [], a, [nodes[i], nodes[i + 1]] + rest);
    AbsorbConcat(h, stack, [nodes[i], nodes[i + 1]], rest);
    AbsorbConcat(h, [], a, [block] + rest);
    AbsorbConcat(h, stack, [block], rest);
    PairIsPushedAsBlock(h, stack, nodes[i], nodes[i + 1]);
  }

  lemma SameBlock(h: Hash, nodes: seq<RangeNode>, i: nat)
    requires i + 1 < |nodes|
    ensures Joined(h, nodes, i) == nodes[..i] + ([Merge(h, nodes[i], nodes[i + 1])] + nodes[i + 2..])
  {
  }

  lemma {:induction false} NothingToJoin(h: Hash, nodes: seq<RangeNode>)
    requires forall i: nat :: i + 1 < |nodes| ==> !Paired(nodes, i)
    ensures Absorb(h, [], nodes) == nodes
    decreases |nodes|
  {
    if nodes != [] {
      var front, last := nodes[..|nodes| - 1], nodes[|nodes| - 1];
      assert nodes == front + [last];
      forall i: nat | i + 1 < |front| ensures !Paired(front, i) { assert !Paired(nodes, i); }
      NothingToJoin(h, front);
      AbsorbConcat(h, [], front, [last]);
      AbsorbOne(h, front, last);
      if |nodes| >= 2 { assert !Paired(nodes, |nodes| - 2); }
    }
  }

  lemma {:induction false} FoldsAgree(h: Hash, nodes: seq<RangeNode>)
    requires nodes != []
    ensures Fold(h, nodes) == FoldRight(h, nodes)
  {
    if |nodes| > 1 { FoldsAgree(h, nodes[1..]); }
  }

  /** Second law of the root: with no such neighbours it is the fold of the labels from the
      right. Both laws together settle the root of every accepted list. */
  lemma UnpairedRootIsFold(h: Hash, nodes: seq<RangeNode>, n: nat)
    requires n > 0 && RootFromFrontier(h, nodes, n).Some?
    requires forall i: nat :: i + 1 < |nodes| ==> !Paired(nodes, i)
    ensures nodes != [] && RootFromFrontier(h, nodes, n) == Some(FoldRight(h, nodes))
  {
    hide Absorb, Fold, FoldRight, Advance, Paired;
    NothingToJoin(h, nodes);
    FoldsAgree(h, nodes);
  }
}
