/** Soundness of consistency proofs: an accepted proof between the roots of two logs
    shows that the first is a prefix of the second, or exhibits a collision among the
    messages that were hashed. The argument runs the verifier backwards: the known root
    opens the folded stack, the stack opens into what was merged, and so on down to the
    stack as it stood after the prefix. Labels have arbitrary width. */
module ConsistencySoundness {
  import opened Base
  import opened MerkleTree
  import opened Frontier

  /** Entry i of the stack is the root of parts[i]. */
  ghost predicate Opens(h: Hash, node: RangeNode, part: seq<Bytes>) {
    node.hash == SubtreeRoot(h, part)
  }

  /** The stack's entries are the roots of consecutive parts, except that the last two
      labels may only be known joined together, or the last only when it has the width of
      a digest. This is what survives undoing a merge: labels are strings of any width and
      their concatenation carries no delimiter. */
  ghost predicate Loose(h: Hash, stack: seq<RangeNode>, parts: seq<seq<Bytes>>) {
    var k := |stack|;
    && |parts| == k
    && (forall i :: 0 <= i < k - 2 ==> Opens(h, stack[i], parts[i]))
    && (k >= 2 ==> (|| Joined(h, stack, parts)
                    || (Opens(h, stack[k - 2], parts[k - 2]) && TopOpens(h, stack, parts))))
    && (k == 1 ==> TopOpens(h, stack, parts))
  }

  ghost predicate Joined(h: Hash, stack: seq<RangeNode>, parts: seq<seq<Bytes>>)
    requires |stack| == |parts| >= 2
  {
    var k := |stack|;
    stack[k - 2].hash + stack[k - 1].hash == SubtreeRoot(h, parts[k - 2]) + SubtreeRoot(h, parts[k - 1])
  }

  ghost predicate TopOpens(h: Hash, stack: seq<RangeNode>, parts: seq<seq<Bytes>>)
    requires |stack| == |parts| >= 1
  {
    |stack[|stack| - 1].hash| == DIGEST_LENGTH ==> Opens(h, stack[|stack| - 1], parts[|stack| - 1])
  }

  /** Every entry below the top is open, and so is the top when it is digest-wide. */
  ghost predicate Settled(h: Hash, stack: seq<RangeNode>, parts: seq<seq<Bytes>>) {
    && |parts| == |stack|
    && (forall i :: 0 <= i < |stack| - 1 ==> Opens(h, stack[i], parts[i]))
    && (|stack| >= 1 ==> TopOpens(h, stack, parts))
  }

  ghost predicate AllOpen(h: Hash, stack: seq<RangeNode>, parts: seq<seq<Bytes>>) {
    |parts| == |stack| && forall i :: 0 <= i < |stack| ==> Opens(h, stack[i], parts[i])
  }

  ghost predicate Within(h: Hash, parts: seq<seq<Bytes>>, M: set<Bytes>) {
    forall i :: 0 <= i < |parts| ==> TreeMessages(h, parts[i]) <= M
  }

  lemma SplitWidths(a: Bytes, b: Bytes, c: Bytes, d: Bytes)
    requires a + b == c + d && |c| == |d| == DIGEST_LENGTH
    requires |a| == DIGEST_LENGTH || |b| == DIGEST_LENGTH
    ensures a == c && b == d
  {
    assert |a| + |b| == |a + b| == |c + d|;
    assert a == (a + b)[..|a|] && c == (c + d)[..|c|];
    assert b == (a + b)[|a|..] && d == (c + d)[|c|..];
  }

  /** A digest-wide top settles everything below it. */
  lemma LooseWithWideTop(h: Hash, stack: seq<RangeNode>, parts: seq<seq<Bytes>>)
    requires Loose(h, stack, parts) && stack != []
    requires |stack[|stack| - 1].hash| == DIGEST_LENGTH
    ensures AllOpen(h, stack, parts)
  {
    hide SubtreeRoot;
    var k := |stack|;
    if k >= 2 && Joined(h, stack, parts) {
      SplitWidths(stack[k - 2].hash, stack[k - 1].hash, SubtreeRoot(h, parts[k - 2]), SubtreeRoot(h, parts[k - 1]));
    }
  }

  /** Dropping the node just pushed settles the stack it was pushed on. */
  lemma LooseWithoutTop(h: Hash, stack: seq<RangeNode>, node: RangeNode, parts: seq<seq<Bytes>>)
    requires Loose(h, stack + [node], parts)
    ensures Settled(h, stack, parts[..|stack|])
  {
    hide SubtreeRoot;
    var k := |stack|;
    var all := stack + [node];
    if k >= 1 && |stack[k - 1].hash| == DIGEST_LENGTH && Joined(h, all, parts) {
      SplitWidths(all[k - 1].hash, all[k].hash, SubtreeRoot(h, parts[k - 1]), SubtreeRoot(h, parts[k]));
    }
  }

  /** The fold of a stack that yields a root opens the stack. */
  lemma {:induction false} OpenFold(h: Hash, M: set<Bytes>, stack: seq<RangeNode>, leaves: seq<Bytes>)
    returns (parts: seq<seq<Bytes>>)
    requires stack != [] && !CollisionIn(h, M)
    requires FoldMessages(h, stack) <= M && TreeMessages(h, leaves) <= M
    requires Fold(h, stack) == SubtreeRoot(h, leaves)
    ensures Loose(h, stack, parts) && Within(h, parts, M) && Flatten(parts) == leaves
    ensures |stack| == 1 ==> AllOpen(h, stack, parts)
    ensures |stack| >= 2 ==> Joined(h, stack, parts)
  {
    hide SubtreeRoot, TreeMessages, SplitPoint;
    if |stack| == 1 {
      parts := [leaves];
      assert Flatten([leaves]) == leaves + Flatten<Bytes>([]);
    } else {
      var rest := stack[1..];
      var right := Fold(h, rest);
      OpenNode(h, M, stack[0].hash, right, leaves);
      var k := SplitPoint(|leaves|);
      var l, r := leaves[..k], leaves[k..];
      assert leaves == l + r;
      if |rest| == 1 {
        parts := [l, r];
        assert stack[1].hash == right;
        assert Flatten([l, r]) == l + Flatten([r]) && Flatten([r]) == r + Flatten<Bytes>([]);
      } else {
        assert |right| == DIGEST_LENGTH;
        var tail := OpenFold(h, M, rest, r);
        parts := [l] + tail;
        assert parts[1..] == tail;
        LooseCons(h, stack[0], rest, l, tail);
      }
    }
  }

  lemma LooseCons(h: Hash, first: RangeNode, rest: seq<RangeNode>, part: seq<Bytes>, parts: seq<seq<Bytes>>)
    requires |rest| >= 2 && Opens(h, first, part) && Loose(h, rest, parts) && Joined(h, rest, parts)
    ensures Loose(h, [first] + rest, [part] + parts) && Joined(h, [first] + rest, [part] + parts)
  {
    hide SubtreeRoot;
  }

  /** Undoing one merge: an opened digest-wide top entry opens the pair it was made from. */
  lemma UndoMerge(h: Hash, M: set<Bytes>, stack: seq<RangeNode>, parts: seq<seq<Bytes>>)
    returns (before: seq<seq<Bytes>>)
    requires |stack| >= 2 && !CollisionIn(h, M)
    requires NodeMessage(stack[|stack| - 2].hash, stack[|stack| - 1].hash) in M
    requires AllOpen(h, MergeTop(h, stack), parts) && Within(h, parts, M)
    ensures Loose(h, stack, before) && Within(h, before, M) && Flatten(before) == Flatten(parts)
  {
    hide SubtreeRoot, TreeMessages, SplitPoint;
    var k := |stack|;
    var top := parts[k - 2];
    assert Opens(h, MergeTop(h, stack)[k - 2], top);
    OpenNode(h, M, stack[k - 2].hash, stack[k - 1].hash, top);
    var s := SplitPoint(|top|);
    var kept := parts[..k - 2];
    before := kept + [top[..s]] + [top[s..]];
    forall i | 0 <= i < k - 2 ensures Opens(h, stack[i], before[i]) {
      assert Opens(h, MergeTop(h, stack)[i], parts[i]);
    }
    forall i | 0 <= i < |before| ensures TreeMessages(h, before[i]) <= M {
      if i < k - 2 { assert before[i] == parts[i]; }
    }
    assert parts == kept + [top] && top == top[..s] + top[s..];
    FlattenSnoc(kept, top);
    FlattenSnoc(kept, top[..s]);
    FlattenSnoc(kept + [top[..s]], top[s..]);
    assert Flatten(kept) + (top[..s] + top[s..]) == Flatten(kept) + top[..s] + top[s..];
  }

  lemma {:induction false} UndoCollapse(h: Hash, M: set<Bytes>, stack: seq<RangeNode>, parts: seq<seq<Bytes>>)
    returns (before: seq<seq<Bytes>>)
    requires !CollisionIn(h, M) && CollapseMessages(h, stack) <= M
    requires Loose(h, Collapse(h, stack), parts) && Within(h, parts, M)
    ensures Loose(h, stack, before) && Within(h, before, M) && Flatten(before) == Flatten(parts)
    decreases |stack|
  {
    hide SubtreeRoot, TreeMessages;
    if TopMergeable(stack) {
      var mid := UndoCollapse(h, M, MergeTop(h, stack), parts);
      LooseWithWideTop(h, MergeTop(h, stack), mid);
      before := UndoMerge(h, M, stack, mid);
    } else {
      before := parts;
    }
  }

  lemma {:induction false} FlattenPrefix<T>(parts: seq<seq<T>>, n: nat)
    requires n <= |parts|
    ensures Flatten(parts[..n]) <= Flatten(parts)
  {
    if n > 0 {
      assert parts[..n][0] == parts[0] && parts[..n][1..] == parts[1..][..n - 1];
      FlattenPrefix(parts[1..], n - 1);
    }
  }

  /** Undoing a whole run of the outer loop. */
  lemma {:induction false} UndoAbsorb(h: Hash, M: set<Bytes>, stack: seq<RangeNode>, nodes: seq<RangeNode>,
                                      parts: seq<seq<Bytes>>)
    returns (before: seq<seq<Bytes>>)
    requires !CollisionIn(h, M) && AbsorbMessages(h, stack, nodes) <= M && nodes != []
    requires Loose(h, Absorb(h, stack, nodes), parts) && Within(h, parts, M)
    ensures Settled(h, stack, before) && Within(h, before, M) && Flatten(before) <= Flatten(parts)
    decreases |nodes|
  {
    hide SubtreeRoot, TreeMessages, Collapse, CollapseMessages;
    var pushed := stack + [nodes[0]];
    var next := Collapse(h, pushed);
    var mid := parts;
    if nodes[1..] != [] {
      mid := UndoAbsorb(h, M, next, nodes[1..], parts);
      SettledIsLoose(h, next, mid);
    }
    var undone := UndoCollapse(h, M, pushed, mid);
    LooseWithoutTop(h, stack, nodes[0], undone);
    before := undone[..|stack|];
    FlattenPrefix(undone, |stack|);
  }

  lemma SettledIsLoose(h: Hash, stack: seq<RangeNode>, parts: seq<seq<Bytes>>)
    requires Settled(h, stack, parts)
    ensures Loose(h, stack, parts)
  {
    hide SubtreeRoot;
  }

  lemma {:induction false} AbsorbAppend(h: Hash, stack: seq<RangeNode>, a: seq<RangeNode>, b: seq<RangeNode>)
    ensures Absorb(h, stack, a + b) == Absorb(h, Absorb(h, stack, a), b)
    ensures AbsorbMessages(h, Absorb(h, stack, a), b) <= AbsorbMessages(h, stack, a + b)
    decreases |a|
  {
    hide Collapse, CollapseMessages;
    if a == [] {
      assert a + b == b;
    } else {
      assert (a + b)[0] == a[0] && (a + b)[1..] == a[1..] + b;
      AbsorbAppend(h, Collapse(h, stack + [a[0]]), a[1..], b);
    }
  }

  /** Two openings of one stack, from the two ends of the proof, agree part by part. */
  lemma {:induction false} OpeningsAgree(h: Hash, M: set<Bytes>, stack: seq<RangeNode>,
                                         a: seq<seq<Bytes>>, b: seq<seq<Bytes>>)
    requires !CollisionIn(h, M) && Within(h, a, M) && Within(h, b, M)
    requires AllOpen(h, stack, a) && AllOpen(h, stack, b)
    ensures a == b
  {
    hide SubtreeRoot, TreeMessages;
    forall i | 0 <= i < |stack| ensures a[i] == b[i] {
      assert Opens(h, stack[i], a[i]) && Opens(h, stack[i], b[i]);
      RootBindsLeaves(h, M, a[i], b[i]);
    }
  }

  /** The two partial openings complete each other. */
  lemma OpeningsComplete(h: Hash, stack: seq<RangeNode>, folded: seq<seq<Bytes>>, settled: seq<seq<Bytes>>)
    requires stack != [] && Loose(h, stack, folded) && Settled(h, stack, settled)
    requires |stack| == 1 ==> AllOpen(h, stack, folded)
    requires |stack| >= 2 ==> Joined(h, stack, folded)
    ensures AllOpen(h, stack, folded) && AllOpen(h, stack, settled)
  {
    hide SubtreeRoot;
    var k := |stack|;
    if k >= 2 {
      assert Opens(h, stack[k - 2], settled[k - 2]);
      SplitWidths(stack[k - 2].hash, stack[k - 1].hash, SubtreeRoot(h, folded[k - 2]), SubtreeRoot(h, folded[k - 1]));
    } else {
      assert Opens(h, stack[0], folded[0]);
    }
  }

  /** The case of a non-empty prefix and a non-empty suffix. */
  lemma AcceptedProofOpens(h: Hash, M: set<Bytes>, prefix: seq<RangeNode>, suffix: seq<RangeNode>,
                           from: seq<Bytes>, to: seq<Bytes>)
    requires prefix != [] && suffix != [] && !CollisionIn(h, M)
    requires TreeMessages(h, from) <= M && TreeMessages(h, to) <= M
    requires FrontierMessages(h, prefix) <= M && FrontierMessages(h, prefix + suffix) <= M
    requires Fold(h, Absorb(h, [], prefix)) == SubtreeRoot(h, from)
    requires Fold(h, Absorb(h, [], prefix + suffix)) == SubtreeRoot(h, to)
    ensures from <= to
  {
    hide SubtreeRoot, TreeMessages, Absorb, AbsorbMessages, Fold, FoldMessages;
    var stack := Absorb(h, [], prefix);
    AbsorbAppend(h, [], prefix, suffix);
    var folded := OpenFold(h, M, stack, from);
    var whole := OpenFold(h, M, Absorb(h, [], prefix + suffix), to);
    var settled := UndoAbsorb(h, M, stack, suffix, whole);
    OpeningsComplete(h, stack, folded, settled);
    OpeningsAgree(h, M, stack, folded, settled);
  }

  /** Soundness. The sizes written in the proof need not even be those of the two logs. */
  lemma ConsistencySound(h: Hash, proof: ConsistencyProof, from: seq<Bytes>, to: seq<Bytes>)
    requires VerifyConsistency(h, proof, SubtreeRoot(h, from), SubtreeRoot(h, to))
    ensures from <= to ||
            CollisionIn(h, TreeMessages(h, from) + TreeMessages(h, to) + ConsistencyMessages(h, proof))
  {
    hide SubtreeRoot, TreeMessages, Absorb, AbsorbMessages, Fold, FoldMessages, CollisionIn, Advance;
    var M := TreeMessages(h, from) + TreeMessages(h, to) + ConsistencyMessages(h, proof);
    if !CollisionIn(h, M) {
      if proof.prefix == [] {
        EmptyRoot(h);
        RootBindsLeaves(h, M, from, []);
      } else if proof.suffix == [] {
        assert proof.prefix + proof.suffix == proof.prefix;
        RootBindsLeaves(h, M, from, to);
      } else {
        AcceptedProofOpens(h, M, proof.prefix, proof.suffix, from, to);
      }
    }
  }

  lemma EmptyRoot(h: Hash)
    ensures SubtreeRoot(h, []) == h([]) && TreeMessages(h, []) == {[]}
  {
  }
}
