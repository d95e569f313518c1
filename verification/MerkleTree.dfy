/** The recursive Merkle tree of the transparency log (the shape of section 2.1 of
    RFC 6962) and its inclusion proofs. */
module MerkleTree {
  import opened Base
  import opened PowersOfTwo

  const USIZE_MAX: nat := 0xFFFF_FFFF_FFFF_FFFF
  const TOP_BIT: nat := 0x8000_0000_0000_0000

  newtype usize = x: int | 0 <= x <= 0xFFFF_FFFF_FFFF_FFFF

  // ---------- hashing with domain separation ----------

  function LeafMessage(leaf: Bytes): Bytes { [0] + leaf }

  function NodeMessage(left: Bytes, right: Bytes): Bytes { [1] + left + right }

  function HashLeaf(h: Hash, leaf: Bytes): Digest { h(LeafMessage(leaf)) }

  function HashChildren(h: Hash, left: Bytes, right: Bytes): Digest { h(NodeMessage(left, right)) }

  // ---------- split point ----------

  /** Largest power of two below n. */
  function SplitPoint(n: nat): (k: nat)
    requires n > 1
    ensures IsPowerOfTwo(k) && k < n <= 2 * k
  {
    HighestBit(n - 1)
  }

  /** `x << 1` on a machine word: the top bit is dropped. */
  function ShiftLeft(x: usize): usize {
    var doubled := 2 * (x as int);
    (if doubled <= USIZE_MAX then doubled else doubled - (USIZE_MAX + 1)) as usize
  }

  lemma ShiftDoubles(x: usize)
    requires x as nat < TOP_BIT && IsPowerOfTwo(x as nat)
    ensures ShiftLeft(x) as nat == 2 * x as nat && IsPowerOfTwo(ShiftLeft(x) as nat)
  {
  }

  /** The doubling loop. The bound is what a Rust slice of strings can never exceed. */
  method ComputeSplitPoint(length: usize) returns (power: usize)
    requires 1 < length as nat <= TOP_BIT
    ensures power as nat == SplitPoint(length as nat)
  {
    power := 1;
    assert IsPowerOfTwo(power as nat);
    hide IsPowerOfTwo, ShiftLeft, HighestBit;
    while ShiftLeft(power) < length
      invariant IsPowerOfTwo(power as nat) && 0 < power < length
      decreases length - power
    {
      ShiftDoubles(power);
      power := ShiftLeft(power);
    }
    ShiftDoubles(power);
    HighestBitUnique(length as nat - 1, power as nat);
  }

  /** Value of `power` after i iterations of the loop body. */
  function PowerAfter(i: nat): usize {
    if i == 0 then 1 else ShiftLeft(PowerAfter(i - 1))
  }

  /** The loop of `split_point` leaves through its guard exactly when the length is at
      most 2^63; above that the doubled power wraps to zero and stays there. */
  lemma {:induction false} SplitPointLoopExits(length: usize)
    ensures (exists i: nat :: ShiftLeft(PowerAfter(i)) >= length) <==> length as nat <= TOP_BIT
  {
    if length as nat <= TOP_BIT {
      PowerAfterIs(63);
      Pow2At63();
      assert ShiftLeft(PowerAfter(62)) >= length;
    } else {
      forall i: nat ensures ShiftLeft(PowerAfter(i)) < length {
        PowerAfterIs(i + 1);
        if i + 1 <= 63 { Pow2AtMostTop(i + 1); }
      }
    }
  }

  lemma {:induction false} PowerAfterIs(i: nat)
    ensures PowerAfter(i) as nat == if i <= 63 then Pow2(i) else 0
  {
    if i > 0 {
      PowerAfterIs(i - 1);
      if i <= 63 { Pow2AtMostTop(i); } else { Pow2At63(); }
    }
  }

  lemma Pow2At63()
    ensures Pow2(63) == TOP_BIT
  {
    assert Pow2(3) == 8 && Pow2(4) == 16;
    Pow2Add(3, 4);   assert Pow2(7) == 0x80;
    Pow2Add(4, 4);   assert Pow2(8) == 0x100;
    Pow2Add(7, 8);   assert Pow2(15) == 0x8000;
    Pow2Add(8, 8);   assert Pow2(16) == 0x1_0000;
    Pow2Add(15, 16); assert Pow2(31) == 0x8000_0000;
    Pow2Add(16, 16); assert Pow2(32) == 0x1_0000_0000;
    Pow2Add(31, 32);
  }

  lemma Pow2AtMostTop(i: nat)
    requires i <= 63
    ensures Pow2(i) <= TOP_BIT
  {
    Pow2At63();
    Pow2Add(i, 63 - i);
    hide Pow2;
    MultiplesAscend(Pow2(i), 1, Pow2(63 - i));
  }

  // ---------- tree root ----------

  function SubtreeRoot(h: Hash, leaves: seq<Bytes>): Digest {
    if |leaves| == 0 then h([])
    else if |leaves| == 1 then HashLeaf(h, leaves[0])
    else
      var split := SplitPoint(|leaves|);
      HashChildren(h, SubtreeRoot(h, leaves[..split]), SubtreeRoot(h, leaves[split..]))
  }

  /** The messages hashed by SubtreeRoot. */
  function TreeMessages(h: Hash, leaves: seq<Bytes>): (M: set<Bytes>) {
    if |leaves| == 0 then {[]}
    else if |leaves| == 1 then {LeafMessage(leaves[0])}
    else
      var split := SplitPoint(|leaves|);
      TreeMessages(h, leaves[..split]) + TreeMessages(h, leaves[split..]) +
      {NodeMessage(SubtreeRoot(h, leaves[..split]), SubtreeRoot(h, leaves[split..]))}
  }

  lemma NodeMessagesSplit(a: Bytes, b: Bytes, c: Bytes, d: Bytes)
    requires NodeMessage(a, b) == NodeMessage(c, d)
    ensures a + b == c + d
    ensures |a| == |c| || |b| == |d| ==> a == c && b == d
  {
    assert NodeMessage(a, b)[1..] == a + b && NodeMessage(c, d)[1..] == c + d;
    if |a| == |c| || |b| == |d| {
      assert a == (a + b)[..|a|] && c == (c + d)[..|c|];
      assert b == (a + b)[|a|..] && d == (c + d)[|c|..];
    }
  }

  /** The one message whose digest is the root. */
  function TopMessage(h: Hash, leaves: seq<Bytes>): (m: Bytes)
    ensures h(m) == SubtreeRoot(h, leaves)
    ensures m in TreeMessages(h, leaves)
    ensures |leaves| == 0 <==> |m| == 0
    ensures |leaves| == 1 <==> |m| > 0 && m[0] == 0
    ensures |leaves| == 1 ==> m[1..] == leaves[0]
  {
    if |leaves| == 0 then []
    else if |leaves| == 1 then LeafMessage(leaves[0])
    else
      var split := SplitPoint(|leaves|);
      NodeMessage(SubtreeRoot(h, leaves[..split]), SubtreeRoot(h, leaves[split..]))
  }

  /** A node whose digest is the root of a tree is that tree's top: its two labels,
      joined, are the two subtree roots joined. */
  lemma OpenNode(h: Hash, M: set<Bytes>, left: Bytes, right: Bytes, leaves: seq<Bytes>)
    requires !CollisionIn(h, M)
    requires TreeMessages(h, leaves) <= M && NodeMessage(left, right) in M
    requires HashChildren(h, left, right) == SubtreeRoot(h, leaves)
    ensures |leaves| > 1
    ensures var k := SplitPoint(|leaves|);
            && TreeMessages(h, leaves[..k]) <= M && TreeMessages(h, leaves[k..]) <= M
            && left + right == SubtreeRoot(h, leaves[..k]) + SubtreeRoot(h, leaves[k..])
            && (|left| == DIGEST_LENGTH || |right| == DIGEST_LENGTH ==>
                  left == SubtreeRoot(h, leaves[..k]) && right == SubtreeRoot(h, leaves[k..]))
  {
    hide SplitPoint;
    NoCollision(h, M, NodeMessage(left, right), TopMessage(h, leaves));
    assert NodeMessage(left, right)[0] == 1;
    if |leaves| > 1 {
      var k := SplitPoint(|leaves|);
      NodeMessagesSplit(left, right, SubtreeRoot(h, leaves[..k]), SubtreeRoot(h, leaves[k..]));
    }
  }

  lemma SameLeaf(h: Hash, M: set<Bytes>, leaf: Bytes, leaves: seq<Bytes>)
    requires !CollisionIn(h, M) && TreeMessages(h, leaves) <= M && LeafMessage(leaf) in M
    requires HashLeaf(h, leaf) == SubtreeRoot(h, leaves)
    ensures leaves == [leaf]
  {
    NoCollision(h, M, LeafMessage(leaf), TopMessage(h, leaves));
    assert LeafMessage(leaf)[0] == 0 && LeafMessage(leaf)[1..] == leaf;
  }

  /** The root commits to the whole list of leaves, its length included. */
  lemma {:induction false} RootBindsLeaves(h: Hash, M: set<Bytes>, a: seq<Bytes>, b: seq<Bytes>)
    requires !CollisionIn(h, M)
    requires TreeMessages(h, a) <= M && TreeMessages(h, b) <= M
    requires SubtreeRoot(h, a) == SubtreeRoot(h, b)
    ensures a == b
  {
    hide SplitPoint;
    if |a| == 0 {
      NoCollision(h, M, TopMessage(h, a), TopMessage(h, b));
    } else if |a| == 1 {
      SameLeaf(h, M, a[0], b);
      assert a == [a[0]];
    } else {
      var k := SplitPoint(|a|);
      var al, ar := a[..k], a[k..];
      assert SubtreeRoot(h, a) == HashChildren(h, SubtreeRoot(h, al), SubtreeRoot(h, ar));
      hide SubtreeRoot;
      OpenNode(h, M, SubtreeRoot(h, al), SubtreeRoot(h, ar), b);
      var j := SplitPoint(|b|);
      RootBindsLeaves(h, M, al, b[..j]);
      RootBindsLeaves(h, M, ar, b[j..]);
      assert a == al + ar && b == b[..j] + b[j..];
    }
  }

  // ---------- inclusion proofs ----------

  /** Size of the half that holds the index, and the index within it. */
  function HalfSize(index: nat, size: nat): (n: nat)
    requires index < size && size > 1
    ensures 0 < n < size
  {
    if index < SplitPoint(size) then SplitPoint(size) else size - SplitPoint(size)
  }

  function HalfIndex(index: nat, size: nat): (i: nat)
    requires index < size && size > 1
    ensures i < HalfSize(index, size)
  {
    if index < SplitPoint(size) then index else index - SplitPoint(size)
  }

  function Half(leaves: seq<Bytes>, index: nat): (half: seq<Bytes>)
    requires index < |leaves| && |leaves| > 1
    ensures |half| == HalfSize(index, |leaves|)
    ensures half[HalfIndex(index, |leaves|)] == leaves[index]
  {
    if index < SplitPoint(|leaves|) then leaves[..SplitPoint(|leaves|)] else leaves[SplitPoint(|leaves|)..]
  }

  function OtherHalf(leaves: seq<Bytes>, index: nat): seq<Bytes>
    requires index < |leaves| && |leaves| > 1
  {
    if index < SplitPoint(|leaves|) then leaves[SplitPoint(|leaves|)..] else leaves[..SplitPoint(|leaves|)]
  }

  /** Sibling roots from the leaf upward. */
  function AuditPath(h: Hash, leaves: seq<Bytes>, index: nat): (path: seq<Bytes>)
    requires index < |leaves|
  {
    if |leaves| <= 1 then []
    else AuditPath(h, Half(leaves, index), HalfIndex(index, |leaves|)) + [SubtreeRoot(h, OtherHalf(leaves, index))]
  }

  /** `inclusion_path`, which pushes onto the caller's vector. */
  method InclusionPath(h: Hash, leaves: seq<Bytes>, index: nat, proof: seq<Bytes>) returns (extended: seq<Bytes>)
    requires index < |leaves| <= TOP_BIT
    ensures extended == proof + AuditPath(h, leaves, index)
    decreases |leaves|
  {
    hide SplitPoint, SubtreeRoot;
    if |leaves| <= 1 { return proof; }
    var power := ComputeSplitPoint(|leaves| as usize);
    var split := power as nat;
    if index < split {
      extended := InclusionPath(h, leaves[..split], index, proof);
      extended := extended + [SubtreeRoot(h, leaves[split..])];
    } else {
      extended := InclusionPath(h, leaves[split..], index - split, proof);
      extended := extended + [SubtreeRoot(h, leaves[..split])];
    }
  }

  method MerkleInclusionProof(h: Hash, leaves: seq<Bytes>, index: nat) returns (r: Option<seq<Bytes>>)
    requires |leaves| <= TOP_BIT
    ensures r == if index < |leaves| then Some(AuditPath(h, leaves, index)) else None
  {
    if |leaves| == 0 || index >= |leaves| { return None; }
    var proof := InclusionPath(h, leaves, index, []);
    assert [] + AuditPath(h, leaves, index) == AuditPath(h, leaves, index);
    return Some(proof);
  }

  datatype Climb = OutOfSiblings | Reached(top: Bytes, cursor: nat)

  /** One level up: hash the label reached so far with the next sibling. */
  function ClimbStep(h: Hash, child: Climb, onLeft: bool, proof: seq<Bytes>): Climb {
    if child.OutOfSiblings? || child.cursor >= |proof| then OutOfSiblings
    else if onLeft then Reached(HashChildren(h, child.top, proof[child.cursor]), child.cursor + 1)
    else Reached(HashChildren(h, proof[child.cursor], child.top), child.cursor + 1)
  }

  function ClimbMessage(child: Climb, onLeft: bool, proof: seq<Bytes>): set<Bytes> {
    if child.OutOfSiblings? || child.cursor >= |proof| then {}
    else if onLeft then {NodeMessage(child.top, proof[child.cursor])}
    else {NodeMessage(proof[child.cursor], child.top)}
  }

  /** `reconstruct`: climbs from `current`, reading siblings from `proof` at `cursor`.
      Yields the candidate root and the cursor reached, or OutOfSiblings when the proof is
      too short. */
  function Reconstruct(h: Hash, current: Bytes, index: nat, size: nat, proof: seq<Bytes>, cursor: nat): (r: Climb)
    requires index < size
    decreases size
  {
    if size == 1 then Reached(current, cursor)
    else
      var child := Reconstruct(h, current, HalfIndex(index, size), HalfSize(index, size), proof, cursor);
      ClimbStep(h, child, index < SplitPoint(size), proof)
  }

  predicate VerifyInclusion(h: Hash, leaf: Bytes, index: nat, size: nat, proof: seq<Bytes>, root: Bytes) {
    size != 0 && index < size &&
    Reconstruct(h, HashLeaf(h, leaf), index, size, proof, 0) == Reached(root, |proof|)
  }

  /** The messages hashed by Reconstruct. */
  function ClimbMessages(h: Hash, current: Bytes, index: nat, size: nat, proof: seq<Bytes>, cursor: nat): set<Bytes>
    requires index < size
    decreases size
  {
    if size == 1 then {}
    else
      var i, n := HalfIndex(index, size), HalfSize(index, size);
      ClimbMessages(h, current, i, n, proof, cursor) +
      ClimbMessage(Reconstruct(h, current, i, n, proof, cursor), index < SplitPoint(size), proof)
  }

  /** The messages hashed while an inclusion proof is verified. */
  function InclusionMessages(h: Hash, leaf: Bytes, index: nat, size: nat, proof: seq<Bytes>): set<Bytes> {
    if index < size
    then {LeafMessage(leaf)} + ClimbMessages(h, HashLeaf(h, leaf), index, size, proof, 0)
    else {}
  }

  lemma SingleLeafRoot(h: Hash, leaves: seq<Bytes>)
    requires |leaves| == 1
    ensures SubtreeRoot(h, leaves) == HashLeaf(h, leaves[0])
  {
  }

  lemma RootFromHalves(h: Hash, leaves: seq<Bytes>, index: nat)
    requires index < |leaves| && |leaves| > 1
    ensures var a, b := SubtreeRoot(h, Half(leaves, index)), SubtreeRoot(h, OtherHalf(leaves, index));
            SubtreeRoot(h, leaves) ==
            if index < SplitPoint(|leaves|) then HashChildren(h, a, b) else HashChildren(h, b, a)
  {
  }

  /** Completeness, generalised to a proof that continues on both sides. */
  lemma {:induction false} AuditPathReconstructs(h: Hash, leaves: seq<Bytes>, index: nat,
                                                 before: seq<Bytes>, after: seq<Bytes>)
    requires index < |leaves|
    ensures Reconstruct(h, HashLeaf(h, leaves[index]), index, |leaves|,
                        before + AuditPath(h, leaves, index) + after, |before|)
            == Reached(SubtreeRoot(h, leaves), |before| + |AuditPath(h, leaves, index)|)
    decreases |leaves|
  {
    hide SplitPoint, SubtreeRoot;
    if |leaves| == 1 {
      SingleLeafRoot(h, leaves);
    } else {
      var half, i, sibling := Half(leaves, index), HalfIndex(index, |leaves|), SubtreeRoot(h, OtherHalf(leaves, index));
      var path := AuditPath(h, half, i);
      AuditPathReconstructs(h, half, i, before, [sibling] + after);
      assert AuditPath(h, leaves, index) == path + [sibling];
      assert before + (path + [sibling]) + after == before + path + ([sibling] + after);
      RootFromHalves(h, leaves, index);
    }
  }

  /** Every leaf of every log has a proof that verifies. */
  lemma InclusionComplete(h: Hash, leaves: seq<Bytes>, index: nat)
    requires index < |leaves|
    ensures VerifyInclusion(h, leaves[index], index, |leaves|, AuditPath(h, leaves, index), SubtreeRoot(h, leaves))
  {
    hide SplitPoint, SubtreeRoot, Reconstruct, AuditPath;
    AuditPathReconstructs(h, leaves, index, [], []);
    assert [] + AuditPath(h, leaves, index) + [] == AuditPath(h, leaves, index);
  }

  lemma ReconstructWidth(h: Hash, current: Digest, index: nat, size: nat, proof: seq<Bytes>, cursor: nat)
    requires index < size
    ensures var r := Reconstruct(h, current, index, size, proof, cursor);
            r.Reached? ==> |r.top| == DIGEST_LENGTH
  {
  }

  /** The last step of a climb that reaches a root opens that root. */
  lemma OpenClimbStep(h: Hash, M: set<Bytes>, child: Climb, onLeft: bool, proof: seq<Bytes>, leaves: seq<Bytes>)
    returns (k: nat)
    requires !CollisionIn(h, M) && TreeMessages(h, leaves) <= M && ClimbMessage(child, onLeft, proof) <= M
    requires child.Reached? ==> |child.top| == DIGEST_LENGTH
    requires var r := ClimbStep(h, child, onLeft, proof); r.Reached? && r.top == SubtreeRoot(h, leaves)
    ensures |leaves| > 1 && k == SplitPoint(|leaves|)
    ensures var side := if onLeft then leaves[..k] else leaves[k..];
            child.Reached? && child.top == SubtreeRoot(h, side) && TreeMessages(h, side) <= M
  {
    if onLeft {
      OpenNode(h, M, child.top, proof[child.cursor], leaves);
    } else {
      OpenNode(h, M, proof[child.cursor], child.top, leaves);
    }
    k := SplitPoint(|leaves|);
  }

  /** Climbing to the root of a tree of the claimed size started at its index-th leaf. */
  lemma {:induction false} ReconstructBinds(h: Hash, M: set<Bytes>, leaf: Bytes, index: nat, proof: seq<Bytes>,
                                            cursor: nat, leaves: seq<Bytes>)
    requires index < |leaves|
    requires !CollisionIn(h, M) && TreeMessages(h, leaves) <= M && LeafMessage(leaf) in M
    requires ClimbMessages(h, HashLeaf(h, leaf), index, |leaves|, proof, cursor) <= M
    requires var r := Reconstruct(h, HashLeaf(h, leaf), index, |leaves|, proof, cursor);
             r.Reached? && r.top == SubtreeRoot(h, leaves)
    ensures leaf == leaves[index]
    decreases |leaves|
  {
    hide SplitPoint;
    if |leaves| == 1 {
      SameLeaf(h, M, leaf, leaves);
    } else {
      var i, n, onLeft := HalfIndex(index, |leaves|), HalfSize(index, |leaves|), index < SplitPoint(|leaves|);
      var child := Reconstruct(h, HashLeaf(h, leaf), i, n, proof, cursor);
      ReconstructWidth(h, HashLeaf(h, leaf), i, n, proof, cursor);
      var k := OpenClimbStep(h, M, child, onLeft, proof, leaves);
      ReconstructBinds(h, M, leaf, i, proof, cursor, Half(leaves, index));
    }
  }

  predicate LeafAt(leaves: seq<Bytes>, index: nat, leaf: Bytes) {
    index < |leaves| && leaves[index] == leaf
  }

  /** Soundness: whatever labels the proof carries, of whatever width, an accepted proof
      for index i in a log of the claimed size forces the leaf to be the i-th one, or two
      of the messages hashed by the tree and by the verifier collide. */
  lemma InclusionSound(h: Hash, leaf: Bytes, index: nat, proof: seq<Bytes>, leaves: seq<Bytes>)
    requires VerifyInclusion(h, leaf, index, |leaves|, proof, SubtreeRoot(h, leaves))
    ensures LeafAt(leaves, index, leaf) ||
            CollisionIn(h, TreeMessages(h, leaves) + InclusionMessages(h, leaf, index, |leaves|, proof))
  {
    hide SplitPoint, SubtreeRoot, TreeMessages, ClimbMessages, Reconstruct, CollisionIn;
    var M := TreeMessages(h, leaves) + InclusionMessages(h, leaf, index, |leaves|, proof);
    if !CollisionIn(h, M) {
      ReconstructBinds(h, M, leaf, index, proof, 0, leaves);
    }
  }

  /** Membership needs no agreement on the size or the index at all: a climb from any
      claimed position that ends in the root started at some leaf of the log. */
  lemma {:induction false} ClimbStartsAtLeaf(h: Hash, M: set<Bytes>, leaf: Bytes, index: nat, size: nat,
                                             proof: seq<Bytes>, cursor: nat, leaves: seq<Bytes>)
    requires index < size
    requires !CollisionIn(h, M) && TreeMessages(h, leaves) <= M && LeafMessage(leaf) in M
    requires ClimbMessages(h, HashLeaf(h, leaf), index, size, proof, cursor) <= M
    requires var r := Reconstruct(h, HashLeaf(h, leaf), index, size, proof, cursor);
             r.Reached? && r.top == SubtreeRoot(h, leaves)
    ensures leaf in leaves
    decreases size
  {
    hide SplitPoint;
    if size == 1 {
      SameLeaf(h, M, leaf, leaves);
    } else {
      var i, n, onLeft := HalfIndex(index, size), HalfSize(index, size), index < SplitPoint(size);
      var child := Reconstruct(h, HashLeaf(h, leaf), i, n, proof, cursor);
      ReconstructWidth(h, HashLeaf(h, leaf), i, n, proof, cursor);
      var k := OpenClimbStep(h, M, child, onLeft, proof, leaves);
      var side := if onLeft then leaves[..k] else leaves[k..];
      ClimbStartsAtLeaf(h, M, leaf, i, n, proof, cursor, side);
    }
  }

  /** An accepted proof shows membership whatever size and index it claims. */
  lemma InclusionShowsMembership(h: Hash, leaf: Bytes, index: nat, size: nat, proof: seq<Bytes>, leaves: seq<Bytes>)
    requires VerifyInclusion(h, leaf, index, size, proof, SubtreeRoot(h, leaves))
    ensures leaf in leaves ||
            CollisionIn(h, TreeMessages(h, leaves) + InclusionMessages(h, leaf, index, size, proof))
  {
    hide SplitPoint, SubtreeRoot, TreeMessages, ClimbMessages, Reconstruct, CollisionIn;
    var M := TreeMessages(h, leaves) + InclusionMessages(h, leaf, index, size, proof);
    if !CollisionIn(h, M) {
      ClimbStartsAtLeaf(h, M, leaf, index, size, proof, 0, leaves);
    }
  }

  /** Length of the audit path: at most the number of doublings needed to reach n. */
  lemma {:induction false} AuditPathLogarithmic(h: Hash, leaves: seq<Bytes>, index: nat, k: nat)
    requires index < |leaves| <= Pow2(k)
    ensures |AuditPath(h, leaves, index)| <= k
    decreases |leaves|
  {
    if |leaves| > 1 {
      Pow2IsPower(k - 1);
      if SplitPoint(|leaves|) > Pow2(k - 1) { PowersDivide(Pow2(k - 1), SplitPoint(|leaves|)); }
      AuditPathLogarithmic(h, Half(leaves, index), HalfIndex(index, |leaves|), k - 1);
    }
  }

  // ---------- exact lengths and constants ----------

  /** Levels between a leaf and the root of a tree of this size. */
  function LevelsAbove(index: nat, size: nat): nat
    requires index < size
    decreases size
  {
    if size == 1 then 0 else 1 + LevelsAbove(HalfIndex(index, size), HalfSize(index, size))
  }

  lemma {:induction false} AuditPathLength(h: Hash, leaves: seq<Bytes>, index: nat)
    requires index < |leaves|
    ensures |AuditPath(h, leaves, index)| == LevelsAbove(index, |leaves|)
    decreases |leaves|
  {
    hide SplitPoint, SubtreeRoot;
    if |leaves| > 1 { AuditPathLength(h, Half(leaves, index), HalfIndex(index, |leaves|)); }
  }

  lemma {:induction false} ClimbReadsEveryLevel(h: Hash, current: Bytes, index: nat, size: nat, proof: seq<Bytes>,
                                                cursor: nat)
    requires index < size && Reconstruct(h, current, index, size, proof, cursor).Reached?
    ensures Reconstruct(h, current, index, size, proof, cursor).cursor == cursor + LevelsAbove(index, size)
    decreases size
  {
    hide SplitPoint;
    if size > 1 { ClimbReadsEveryLevel(h, current, HalfIndex(index, size), HalfSize(index, size), proof, cursor); }
  }

  /** An accepted proof has exactly as many labels as an audit path of the claimed place has in
      any log of the claimed size: none is missing and none is left over. */
  lemma AcceptedProofIsFull(h: Hash, leaf: Bytes, index: nat, size: nat, proof: seq<Bytes>, root: Bytes,
                            leaves: seq<Bytes>)
    requires VerifyInclusion(h, leaf, index, size, proof, root) && |leaves| == size
    ensures |proof| == |AuditPath(h, leaves, index)|
  {
    hide Reconstruct, AuditPath;
    ClimbReadsEveryLevel(h, HashLeaf(h, leaf), index, size, proof, 0);
    AuditPathLength(h, leaves, index);
  }

  /** The root of three leaves, written out with the prefix bytes 0 and 1. */
  lemma RootOfThree(h: Hash, a: Bytes, b: Bytes, c: Bytes)
    ensures SubtreeRoot(h, [a, b, c]) == h([1] + h([1] + h([0] + a) + h([0] + b)) + h([0] + c))
  {
    assert SplitPoint(3) == 2 by { HighestBitUnique(2, 2); }
    assert [a, b, c][..2] == [a, b] && [a, b, c][2..] == [c];
    RootOfTwo(h, a, b);
    assert SubtreeRoot(h, [c]) == h([0] + c);
  }

  lemma RootOfTwo(h: Hash, a: Bytes, b: Bytes)
    ensures SubtreeRoot(h, [a, b]) == h([1] + h([0] + a) + h([0] + b))
  {
    assert SplitPoint(2) == 1 && [a, b][..1] == [a] && [a, b][1..] == [b];
    assert SubtreeRoot(h, [a]) == h([0] + a) && SubtreeRoot(h, [b]) == h([0] + b);
  }
}
