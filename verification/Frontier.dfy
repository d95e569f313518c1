/** The compact-frontier consistency proof: ranges of the log cut into aligned
    power-of-two blocks, and a verifier that merges blocks on a stack. */
module Frontier {
  import opened Base
  import opened PowersOfTwo
  import opened MerkleTree

  datatype RangeNode = RangeNode(start: nat, size: nat, hash: Bytes)

  datatype ConsistencyProof =
    ConsistencyProof(fromSize: nat, toSize: nat, prefix: seq<RangeNode>, suffix: seq<RangeNode>)

  // ---------- the verifier as functions ----------

  /** Runs the checks made on each node: consecutive starts, power-of-two sizes, and a
      cursor that stays in a machine word. */
  function Advance(nodes: seq<RangeNode>, cursor: nat): Option<nat> {
    if nodes == [] then Some(cursor)
    else if nodes[0].start != cursor || nodes[0].size == 0 || !IsPowerOfTwo(nodes[0].size) then None
    else if cursor + nodes[0].size > USIZE_MAX then None
    else Advance(nodes[1..], cursor + nodes[0].size)
  }

  predicate Mergeable(left: RangeNode, right: RangeNode) {
    left.size == right.size && left.start + left.size == right.start &&
    left.size != 0 && left.start % (left.size * 2) == 0
  }

  function Merge(h: Hash, left: RangeNode, right: RangeNode): RangeNode {
    RangeNode(left.start, left.size * 2, HashChildren(h, left.hash, right.hash))
  }

  predicate TopMergeable(stack: seq<RangeNode>) {
    |stack| >= 2 && Mergeable(stack[|stack| - 2], stack[|stack| - 1])
  }

  function MergeTop(h: Hash, stack: seq<RangeNode>): (merged: seq<RangeNode>)
    requires |stack| >= 2
    ensures |merged| == |stack| - 1
  {
    stack[..|stack| - 2] + [Merge(h, stack[|stack| - 2], stack[|stack| - 1])]
  }

  /** The inner loop: merge the two topmost entries while they form an aligned pair. */
  function Collapse(h: Hash, stack: seq<RangeNode>): (r: seq<RangeNode>)
    ensures stack != [] ==> r != []
    decreases |stack|
  {
    if TopMergeable(stack) then Collapse(h, MergeTop(h, stack)) else stack
  }

  function Absorb(h: Hash, stack: seq<RangeNode>, nodes: seq<RangeNode>): (r: seq<RangeNode>)
    ensures stack != [] || nodes != [] ==> r != []
    decreases |nodes|
  {
    if nodes == [] then stack else Absorb(h, Collapse(h, stack + [nodes[0]]), nodes[1..])
  }

  /** The closing fold: from the top of the stack leftwards. */
  function Fold(h: Hash, stack: seq<RangeNode>): Bytes
    requires stack != []
  {
    if |stack| == 1 then stack[0].hash else HashChildren(h, stack[0].hash, Fold(h, stack[1..]))
  }

  function RootFromFrontier(h: Hash, nodes: seq<RangeNode>, expectedSize: nat): Option<Bytes> {
    if expectedSize == 0 then (if nodes == [] then Some(h([])) else None)
    else if nodes != [] && Advance(nodes, 0) == Some(expectedSize) then Some(Fold(h, Absorb(h, [], nodes)))
    else None
  }

  predicate VerifyConsistency(h: Hash, proof: ConsistencyProof, fromRoot: Bytes, toRoot: Bytes) {
    proof.fromSize <= proof.toSize &&
    RootFromFrontier(h, proof.prefix, proof.fromSize) == Some(fromRoot) &&
    RootFromFrontier(h, proof.prefix + proof.suffix, proof.toSize) == Some(toRoot)
  }

  // ---------- the verifier as the loops it is ----------

  /** The fields of a decoded proof are machine words. */
  predicate FitsMachine(nodes: seq<RangeNode>) {
    forall n :: n in nodes ==> n.start <= USIZE_MAX && n.size <= USIZE_MAX
  }

  predicate WithinCursor(stack: seq<RangeNode>, cursor: nat) {
    forall n :: n in stack ==> 0 < n.size && n.start + n.size <= cursor
  }

  /** The inner loop. Every sum and doubling below is done on machine words, so the
      verification of this method includes that none of them overflows, for any nodes. */
  method MergeWhilePaired(h: Hash, initial: seq<RangeNode>, cursor: usize) returns (stack: seq<RangeNode>)
    requires WithinCursor(initial, cursor as nat)
    ensures stack == Collapse(h, initial)
    ensures WithinCursor(stack, cursor as nat)
  {
    stack := initial;
    while true
      invariant Collapse(h, stack) == Collapse(h, initial)
      invariant WithinCursor(stack, cursor as nat)
      decreases |stack|
    {
      var length := |stack|;
      if length < 2 { break; }
      var left, right := stack[length - 2], stack[length - 1];
      if left.size != right.size || left.start as usize + left.size as usize != right.start as usize
         || left.start as usize % (left.size as usize * 2) != 0
      {
        break;
      }
      stack := stack[..length - 2];
      stack := stack + [RangeNode(left.start, (left.size as usize * 2) as nat, HashChildren(h, left.hash, right.hash))];
    }
  }

  method ComputeFold(h: Hash, stack: seq<RangeNode>) returns (root: Bytes)
    requires stack != []
    ensures root == Fold(h, stack)
  {
    var at := |stack| - 1;
    root := stack[at].hash;
    while at > 0
      invariant 0 <= at < |stack|
      invariant root == Fold(h, stack[at..])
    {
      at := at - 1;
      assert stack[at..][1..] == stack[at + 1..];
      root := HashChildren(h, stack[at].hash, root);
    }
    assert stack[0..] == stack;
  }

  method ComputeRootFromFrontier(h: Hash, nodes: seq<RangeNode>, expectedSize: usize) returns (root: Option<Bytes>)
    requires FitsMachine(nodes)
    ensures root == RootFromFrontier(h, nodes, expectedSize as nat)
  {
    hide Collapse, Fold, IsPowerOfTwo;
    if expectedSize == 0 {
      return if nodes == [] then Some(h([])) else None;
    }
    var cursor: usize := 0;
    var stack: seq<RangeNode> := [];
    for i := 0 to |nodes|
      invariant WithinCursor(stack, cursor as nat)
      invariant Advance(nodes[i..], cursor as nat) == Advance(nodes, 0)
      invariant Absorb(h, stack, nodes[i..]) == Absorb(h, [], nodes)
      invariant i > 0 ==> stack != []
    {
      var node := nodes[i];
      assert nodes[i..][1..] == nodes[i + 1..];
      if node.start as usize != cursor || node.size == 0 || !IsPowerOfTwo(node.size) { return None; }
      if node.size as usize > 0xFFFF_FFFF_FFFF_FFFF - cursor { return None; }
      cursor := cursor + node.size as usize;
      stack := MergeWhilePaired(h, stack + [node], cursor);
    }
    if cursor != expectedSize { return None; }
    var result := ComputeFold(h, stack);
    return Some(result);
  }

  method ComputeVerifyConsistency(h: Hash, proof: ConsistencyProof, fromRoot: Bytes, toRoot: Bytes) returns (ok: bool)
    requires FitsMachine(proof.prefix) && FitsMachine(proof.suffix)
    requires proof.fromSize <= USIZE_MAX && proof.toSize <= USIZE_MAX
    ensures ok == VerifyConsistency(h, proof, fromRoot, toRoot)
  {
    if proof.fromSize > proof.toSize { return false; }
    var prefixRoot := ComputeRootFromFrontier(h, proof.prefix, proof.fromSize as usize);
    var full := proof.prefix + proof.suffix;
    var fullRoot := ComputeRootFromFrontier(h, full, proof.toSize as usize);
    return prefixRoot == Some(fromRoot) && fullRoot == Some(toRoot);
  }

  // ---------- messages hashed by the verifier ----------

  function CollapseMessages(h: Hash, stack: seq<RangeNode>): set<Bytes>
    decreases |stack|
  {
    if TopMergeable(stack)
    then {NodeMessage(stack[|stack| - 2].hash, stack[|stack| - 1].hash)} + CollapseMessages(h, MergeTop(h, stack))
    else {}
  }

  function AbsorbMessages(h: Hash, stack: seq<RangeNode>, nodes: seq<RangeNode>): set<Bytes>
    decreases |nodes|
  {
    if nodes == [] then {}
    else CollapseMessages(h, stack + [nodes[0]]) + AbsorbMessages(h, Collapse(h, stack + [nodes[0]]), nodes[1..])
  }

  function FoldMessages(h: Hash, stack: seq<RangeNode>): set<Bytes>
    requires stack != []
  {
    if |stack| == 1 then {}
    else {NodeMessage(stack[0].hash, Fold(h, stack[1..]))} + FoldMessages(h, stack[1..])
  }

  function FrontierMessages(h: Hash, nodes: seq<RangeNode>): set<Bytes> {
    if nodes == [] then {[]} else AbsorbMessages(h, [], nodes) + FoldMessages(h, Absorb(h, [], nodes))
  }

  function ConsistencyMessages(h: Hash, proof: ConsistencyProof): set<Bytes> {
    FrontierMessages(h, proof.prefix) + FrontierMessages(h, proof.prefix + proof.suffix)
  }
}
