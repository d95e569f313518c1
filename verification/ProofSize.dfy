/** How large a consistency proof is, and the shape of its block sizes. */
module ProofSize {
  import opened Base
  import opened PowersOfTwo
  import opened MerkleTree
  import opened Frontier
  import opened CompactRange

  /** Number of one bits. */
  function PopCount(n: nat): nat {
    if n == 0 then 0 else n % 2 + PopCount(n / 2)
  }

  /** Number of trailing zero bits. */
  function Level(n: nat): nat
    requires n > 0
  {
    if n % 2 == 1 then 0 else 1 + Level(n / 2)
  }

  lemma {:induction false} PopCountBound(n: nat, k: nat)
    requires n < Pow2(k)
    ensures PopCount(n) <= k
  {
    if n > 0 { PopCountBound(n / 2, k - 1); }
  }

  lemma {:induction false} LevelBound(n: nat)
    requires n > 0
    ensures PopCount(n) + Level(n) <= Log2(n) + 1
    ensures Level(n) <= Log2(n)
  {
    if n == 1 {
    } else {
      LevelBound(n / 2);
      if n % 2 == 1 { PopLog(n / 2); }
    }
  }

  lemma {:induction false} PopLog(n: nat)
    requires n > 0
    ensures PopCount(n) <= Log2(n) + 1
  {
    if n > 1 { PopLog(n / 2); }
  }

  lemma {:induction false} LowestBitIsLevel(n: nat)
    requires n > 0
    ensures LowestBit(n) == Pow2(Level(n))
  {
    if n % 2 == 0 { LowestBitIsLevel(n / 2); }
  }

  /** Adding the lowest bit raises level plus population by exactly one. */
  lemma {:induction false} RiseStep(n: nat)
    requires n > 0
    ensures var m := n + LowestBit(n);
            PopCount(m) + Level(m) == PopCount(n) + Level(n) + 1 && Level(m) > Level(n)
    decreases n
  {
    if n % 2 == 0 {
      RiseStep(n / 2);
      assert (n + LowestBit(n)) / 2 == n / 2 + LowestBit(n / 2);
    } else {
      CarryStep(n / 2);
      assert (n + 1) / 2 == n / 2 + 1;
    }
  }

  lemma {:induction false} CarryStep(n: nat)
    ensures PopCount(n + 1) + Level(n + 1) == PopCount(n) + 1
  {
    if n % 2 == 1 {
      CarryStep(n / 2);
      assert (n + 1) / 2 == n / 2 + 1;
    }
  }

  /** Taking the highest bit away lowers the population by one. */
  lemma {:induction false} FallStep(n: nat)
    requires n > 0
    ensures PopCount(n - HighestBit(n)) == PopCount(n) - 1
  {
    if n > 1 {
      FallStep(n / 2);
      assert (n - HighestBit(n)) / 2 == n / 2 - HighestBit(n / 2);
      assert (n - HighestBit(n)) % 2 == n % 2;
    }
  }

  lemma {:induction false} Log2Monotone(a: nat, b: nat)
    requires 0 < a <= b
    ensures Log2(a) <= Log2(b)
  {
    if a > 1 { Log2Monotone(a / 2, b / 2); }
  }

  /** The cursor is aligned beyond everything that remains. */
  predicate AlignedBeyond(cursor: nat, remaining: nat) {
    cursor == 0 || remaining < LowestBit(cursor)
  }

  /** From such a cursor the next block is the highest bit of what remains, and the cursor
      after it is aligned beyond the rest again. */
  lemma FallingBlock(cursor: nat, remaining: nat)
    requires remaining > 0 && AlignedBeyond(cursor, remaining)
    ensures var size := BlockSize(cursor, remaining);
            size > 0 && size == HighestBit(remaining) && AlignedBeyond(cursor + size, remaining - size)
  {
    hide IsPowerOfTwo, LowestBit, HighestBit;
    PowerIsPositive(HighestBit(remaining));
    FallingAlignment(cursor, HighestBit(remaining), remaining);
  }

  /** Once what remains is below the alignment of the cursor, blocks are its binary digits. */
  lemma {:induction false} FallingCount(h: Hash, leaves: seq<Bytes>, cursor: nat, end: nat)
    requires cursor <= end <= |leaves| && AlignedBeyond(cursor, end - cursor)
    ensures |CompactNodes(h, leaves, cursor, end)| == PopCount(end - cursor)
    decreases end - cursor
  {
    hide BlockAt, BlockSize, PopCount, AlignedBeyond, HighestBit;
    if cursor == end {
      NoBits();
    } else {
      FallStep(end - cursor);
      FallingBlock(cursor, end - cursor);
      FallingCount(h, leaves, cursor + BlockSize(cursor, end - cursor), end);
    }
  }

  lemma NoBits()
    ensures PopCount(0) == 0
  {
  }

  /** After a falling block the cursor is still aligned beyond what remains. */
  lemma FallingAlignment(cursor: nat, size: nat, remaining: nat)
    requires remaining > 0 && size == HighestBit(remaining)
    requires AlignedBeyond(cursor, remaining)
    ensures remaining - size < LowestBit(cursor + size)
  {
    hide IsPowerOfTwo, LowestBit, HighestBit;
    PowerIsPositive(size);
    if cursor == 0 {
      LowestBitOfMultiple(size, size) by { ModUnique(size, size, 1, 0); }
    } else {
      PowersDivide(size, LowestBit(cursor));
      ModTransitive(cursor, LowestBit(cursor), size);
      ModSum(cursor, size, size);
      ModUnique(size, size, 1, 0);
      LowestBitOfMultiple(cursor + size, size);
    }
  }

  lemma {:induction false} LowestBitOfMultiple(n: nat, p: nat)
    requires n > 0 && IsPowerOfTwo(p) && n % p == 0
    ensures p <= LowestBit(n)
    decreases p
  {
    if p > 1 {
      ModTransitive(n, p, 2) by { PowersDivide(2, p); }
      DoubledMultiple(p / 2, n / 2);
      LowestBitOfMultiple(n / 2, p / 2);
    }
  }

  /** Rising blocks, then falling ones: the population and level of the cursor pay for them. */
  lemma {:induction false} SuffixCount(h: Hash, leaves: seq<Bytes>, cursor: nat, end: nat)
    requires 0 < cursor <= end <= |leaves|
    ensures PopCount(cursor) + Level(cursor) + |CompactNodes(h, leaves, cursor, end)| <= 2 * Log2(end) + 1
    decreases end - cursor
  {
    hide SubtreeRoot, PopCount, Level, Log2, IsPowerOfTwo, HighestBit, LowestBit;
    LevelBound(cursor);
    Log2Monotone(cursor, end);
    var remaining := end - cursor;
    if remaining < LowestBit(cursor) {
      FallingCount(h, leaves, cursor, end);
      LowestBitIsLevel(cursor);
      PopCountBound(remaining, Level(cursor));
    } else {
      var size := LowestBit(cursor);
      PowerIsPositive(size);
      RisingBlock(cursor, remaining);
      RiseStep(cursor);
      SuffixCount(h, leaves, cursor + size, end);
    }
  }

  lemma RisingBlock(cursor: nat, remaining: nat)
    requires cursor > 0 && remaining > 0 && LowestBit(cursor) <= remaining
    ensures BlockSize(cursor, remaining) == LowestBit(cursor)
  {
    hide IsPowerOfTwo, LowestBit, HighestBit;
    if HighestBit(remaining) < LowestBit(cursor) { PowersDivide(HighestBit(remaining), LowestBit(cursor)); }
  }

  /** A proof never holds more than 2 * floor(log2 n) + 1 nodes. */
  lemma ProofIsLogarithmic(h: Hash, leaves: seq<Bytes>, fromSize: nat)
    requires fromSize <= |leaves| && leaves != []
    ensures var proof := ProofFor(h, leaves, fromSize);
            |proof.prefix| + |proof.suffix| <= 2 * Log2(|leaves|) + 1
  {
    hide SubtreeRoot, PopCount, Level, Log2, LowestBit, HighestBit, CompactNodes;
    NoBits();
    FallingCount(h, leaves, 0, fromSize);
    if fromSize == 0 {
      FallingCount(h, leaves, 0, |leaves|);
      LevelBound(|leaves|);
    } else {
      SuffixCount(h, leaves, fromSize, |leaves|);
    }
  }

  // ---------- shape ----------

  ghost predicate Rising(nodes: seq<RangeNode>) {
    forall i :: 0 <= i < |nodes| - 1 ==> nodes[i].size < nodes[i + 1].size
  }

  ghost predicate Falling(nodes: seq<RangeNode>) {
    forall i :: 0 <= i < |nodes| - 1 ==> nodes[i].size > nodes[i + 1].size
  }

  /** Blocks cut from an aligned cursor strictly fall, and start at the highest bit. */
  lemma {:induction false} FallingShape(h: Hash, leaves: seq<Bytes>, cursor: nat, end: nat)
    requires cursor < end <= |leaves| && AlignedBeyond(cursor, end - cursor)
    ensures var nodes := CompactNodes(h, leaves, cursor, end);
            Falling(nodes) && nodes != [] && nodes[0].size == HighestBit(end - cursor)
    decreases end - cursor
  {
    hide SubtreeRoot, IsPowerOfTwo, HighestBit, BlockSize, AlignedBeyond;
    var size := BlockSize(cursor, end - cursor);
    FallingBlock(cursor, end - cursor);
    var rest := CompactNodes(h, leaves, cursor + size, end);
    assert CompactNodes(h, leaves, cursor, end) == [BlockAt(h, leaves, cursor, end)] + rest;
    if cursor + size < end { FallingShape(h, leaves, cursor + size, end); }
  }

  /** The prefix's block sizes strictly fall. */
  lemma PrefixFalls(h: Hash, leaves: seq<Bytes>, fromSize: nat)
    requires fromSize <= |leaves|
    ensures Falling(ProofFor(h, leaves, fromSize).prefix)
  {
    if fromSize > 0 { FallingShape(h, leaves, 0, fromSize); }
  }

  /** The suffix's block sizes are a strictly rising run followed by a strictly falling one.
      Where the runs meet the size may rise, fall or stay; `NeighboursEqualExactly` says when
      it stays. */
  lemma {:induction false} SuffixRisesThenFalls(h: Hash, leaves: seq<Bytes>, cursor: nat, end: nat)
    returns (peak: nat)
    requires cursor <= end <= |leaves|
    ensures var nodes := CompactNodes(h, leaves, cursor, end);
            peak <= |nodes| && Rising(nodes[..peak]) && Falling(nodes[peak..])
    ensures peak > 0 ==> cursor > 0 && CompactNodes(h, leaves, cursor, end)[0].size == LowestBit(cursor)
    decreases end - cursor
  {
    hide SubtreeRoot, IsPowerOfTwo, HighestBit, LowestBit;
    var nodes := CompactNodes(h, leaves, cursor, end);
    peak := 0;
    assert nodes[0..] == nodes;
    if cursor < end {
      if cursor == 0 || end - cursor < LowestBit(cursor) {
        FallingShape(h, leaves, cursor, end);
      } else {
        var size := LowestBit(cursor);
        PowerIsPositive(size);
        RisingBlock(cursor, end - cursor);
        var rest := CompactNodes(h, leaves, cursor + size, end);
        assert nodes == [BlockAt(h, leaves, cursor, end)] + rest;
        var p := SuffixRisesThenFalls(h, leaves, cursor + size, end);
        peak := p + 1;
        assert nodes[..peak] == [nodes[0]] + rest[..p] && nodes[peak..] == rest[p..];
        if p > 0 {
          RiseDoubles(cursor);
          assert rest[..p][0] == rest[0];
        }
      }
    }
  }

  /** Two neighbouring blocks have the same size p exactly when, before the first of them,
      at least 2p and less than 3p leaves remain. */
  lemma NeighboursEqualExactly(cursor: nat, remaining: nat)
    requires 0 < remaining && BlockSize(cursor, remaining) < remaining
    ensures var p := BlockSize(cursor, remaining);
            BlockSize(cursor + p, remaining - p) == p <==> 2 * p <= remaining < 3 * p
  {
    hide IsPowerOfTwo, LowestBit, HighestBit;
    var p := BlockSize(cursor, remaining);
    PowerIsPositive(p);
    if cursor > 0 && LowestBit(cursor) <= remaining {
      RisingBlock(cursor, remaining);
      RiseDoubles(cursor);
      if 2 * p <= remaining < 3 * p { HighestBitUnique(remaining - p, p); }
      hide BlockSize;
      NextBlockSize(cursor + p, remaining - p, p);
    } else {
      assert remaining < 2 * p;
      hide BlockSize;
    }
  }

  /** A block that starts where twice its size is aligned is limited by what remains only. */
  lemma NextBlockSize(cursor: nat, remaining: nat, p: nat)
    requires cursor > 0 && remaining > 0 && LowestBit(cursor) > p
    ensures BlockSize(cursor, remaining) == p <==> HighestBit(remaining) == p
  {
    hide LowestBit, HighestBit;
  }

  /** So the sizes need not be distinct: the leaves from 3 to 12 are cut into 1, 4 and 4. */
  lemma EqualNeighboursExist()
    ensures BlockSize(3, 9) == 1 && BlockSize(4, 8) == 4 && BlockSize(8, 4) == 4
  {
    assert LowestBit(1) == 1 && LowestBit(2) == 2 && LowestBit(4) == 4 && LowestBit(8) == 8;
    assert HighestBit(2) == 2 && HighestBit(4) == 4 && HighestBit(8) == 8 && HighestBit(9) == 8;
  }

  lemma RiseDoubles(n: nat)
    requires n > 0
    ensures LowestBit(n) < LowestBit(n + LowestBit(n))
  {
    hide IsPowerOfTwo, LowestBit;
    var p := LowestBit(n);
    RiseStep(n);
    LowestBitIsLevel(n);
    LowestBitIsLevel(n + p);
    Pow2Grows(Level(n), Level(n + p));
  }

  lemma {:induction false} Pow2Grows(a: nat, b: nat)
    requires a < b
    ensures Pow2(a) < Pow2(b)
  {
    if a + 1 < b { Pow2Grows(a, b - 1); }
  }

  /** Each block is as large as it can be: no larger power of two starts at the cursor, aligned,
      and fits into what remains. */
  lemma BlockIsLargest(cursor: nat, remaining: nat, p: nat)
    requires remaining > 0 && IsPowerOfTwo(p) && p <= remaining && cursor % p == 0
    ensures p <= BlockSize(cursor, remaining)
  {
    hide IsPowerOfTwo, HighestBit, LowestBit;
    var top := HighestBit(remaining);
    if top < p { PowersDivide(top, p); }
    if cursor > 0 { LowestBitOfMultiple(cursor, p); }
  }
}
