/** What the root of a range is, without reference to how its peaks are combined. */
module MmrRoot {
  import opened Wrappers
  import opened Binary
  import opened MmrSpec

  /** Leaves in whole blocks of twice the size have the peaks of those blocks, and one more block of that size is a new last peak. */
  lemma {:induction false} PeaksOfBlocks(g: nat, h: nat, m: nat)
    ensures PeaksFrom(g, m * Pow2(h + 1)) == PeaksFrom(g + h + 1, m)
    ensures PeaksFrom(g, m * Pow2(h + 1) + Pow2(h)) == PeaksFrom(g + h + 1, m) + [Addr(g + h, 2 * m)]
    decreases h
  {
    hide Pow2, PeaksFrom;
    if h == 0 {
      SmallPowers(m);
      TwiceAndOneMore(g, m);
    } else {
      BlocksHalve(h, m);
      PeaksOfBlocks(g + 1, h - 1, m);
      Halving(g, m * Pow2(h));
      Halving(g, m * Pow2(h) + Pow2(h - 1));
    }
  }

  lemma SmallPowers(m: nat)
    ensures m * Pow2(1) == 2 * m && Pow2(0) == 1
  {}

  lemma BlocksHalve(h: nat, m: nat)
    requires h > 0
    ensures m * Pow2(h + 1) == 2 * (m * Pow2(h))
    ensures m * Pow2(h + 1) + Pow2(h) == 2 * (m * Pow2(h) + Pow2(h - 1))
  {
    Doubling(m, Pow2(h));
  }

  lemma Doubling(m: nat, p: nat)
    ensures m * (2 * p) == 2 * (m * p) && 2 * (m * p) + 2 * p == 2 * (m * p + p)
  {}

  lemma Halving(g: nat, q: nat)
    ensures PeaksFrom(g, 2 * q) == PeaksFrom(g + 1, q)
  {
    assert (2 * q) / 2 == q;
  }

  lemma TwiceAndOneMore(g: nat, m: nat)
    ensures PeaksFrom(g, 2 * m) == PeaksFrom(g + 1, m) && PeaksFrom(g, 2 * m + 1) == PeaksFrom(g + 1, m) + [Addr(g, 2 * m)]
  {
    assert (2 * m) / 2 == (2 * m + 1) / 2 == m;
  }

  /** The block behind m blocks of twice its size. */
  lemma LastBlock(a: seq<Hash>, b: seq<Hash>, h: nat, m: nat)
    requires |a| == m * Pow2(h + 1) && |b| == Pow2(h)
    ensures Exists(|a + b|, h, 2 * m) && Block(a + b, h, 2 * m) == b
  {
    Doubling(m, Pow2(h));
    PeaksOfBlocks(0, h, m);
    PeaksFromBits(|a + b|, 0);
    assert Addr(h, 2 * m) == Peaks(|a + b|)[|Peaks(|a + b|)| - 1];
    HalfBounds(m, Pow2(h));
  }

  lemma BagSnoc(merge: Merge, hashes: seq<Hash>, last: Hash)
    requires hashes != []
    ensures Bag(merge, hashes + [last]) == merge(Bag(merge, hashes), last)
  {
    assert (hashes + [last])[..|hashes|] == hashes;
  }

  /**
   A range, followed by a block of 2^h leaves that is smaller than any of its peaks, has for root the root of the
   range merged with the Merkle root of the block.
   */
  lemma RootOfRangeAndBlock(merge: Merge, a: seq<Hash>, b: seq<Hash>, h: nat)
    requires a != [] && |a| % Pow2(h + 1) == 0 && |b| == Pow2(h)
    ensures Root(merge, a + b) == merge(Root(merge, a), MerkleRoot(merge, b, h))
  {
    RootOfBlocksAndBlock(merge, a, b, h, |a| / Pow2(h + 1));
  }

  lemma RootOfBlocksAndBlock(merge: Merge, a: seq<Hash>, b: seq<Hash>, h: nat, m: nat)
    requires a != [] && |a| == m * Pow2(h + 1) && |b| == Pow2(h)
    ensures Root(merge, a + b) == merge(Root(merge, a), MerkleRoot(merge, b, h))
  {
    hide BlockRoot, PeaksFrom, Bag, Pow2, MerkleRoot, Popcount, Shr;
    PeaksOfBlocks(0, h, m);
    LastBlock(a, b, h, m);
    BlockRootIsMerkleRoot(merge, a + b, h, 2 * m);
    PeakHashesSnoc(merge, a, b, Addr(h, 2 * m));
    PeaksAreOneBits(|a|);
    PopcountPositive(|a|);
    BagSnoc(merge, PeakHashes(merge, a), BlockRoot(merge, a + b, h, 2 * m));
  }

  /** With one more peak, the hashes of the earlier peaks stay. */
  lemma PeakHashesSnoc(merge: Merge, a: seq<Hash>, b: seq<Hash>, last: Addr)
    requires Peaks(|a + b|) == Peaks(|a|) + [last] && Exists(|a + b|, last.h, last.k)
    ensures PeakHashes(merge, a + b) == PeakHashes(merge, a) + [BlockRoot(merge, a + b, last.h, last.k)]
  {
    hide BlockRoot, PeaksFrom;
    PeaksFromBits(|a|, 0);
    forall i | 0 <= i < |Peaks(|a|)|
      ensures PeakHashes(merge, a + b)[i] == PeakHashes(merge, a)[i]
    {
      var p := Peaks(|a|)[i];
      assert Peaks(|a + b|)[i] == p;
      BlockRootStable(merge, a, a + b, p.h, p.k);
    }
  }

  /** A range of 2^h leaves has the root of the perfect Merkle tree over them. */
  lemma RootOfBlock(merge: Merge, leaves: seq<Hash>, h: nat)
    requires |leaves| == Pow2(h)
    ensures Root(merge, leaves) == MerkleRoot(merge, leaves, h)
  {
    hide BlockRoot, MerkleRoot, Pow2;
    PeaksOfBlocks(0, h, 0);
    assert PeaksFrom(h + 1, 0) == [];
    assert Peaks(|leaves|) == [Addr(h, 0)];
    assert [] + leaves == leaves;
    LastBlock([], leaves, h, 0);
    BlockRootIsMerkleRoot(merge, leaves, h, 0);
  }

  // ----- a reference for every root -----

  /** The number of zero-bits at the low end of n. */
  function TrailingZeros(n: nat): nat
    requires n > 0
  {
    if n % 2 == 1 then 0 else 1 + TrailingZeros(n / 2)
  }

  lemma {:induction false} LowestBit(n: nat) returns (m: nat)
    requires n > 0
    ensures n == m * Pow2(TrailingZeros(n) + 1) + Pow2(TrailingZeros(n))
  {
    if n % 2 == 1 {
      m := n / 2;
    } else {
      m := LowestBit(n / 2);
      Doubling(m, Pow2(TrailingZeros(n / 2) + 1));
    }
  }

  function LowestBlock(n: nat): (p: nat)
    requires n > 0
    ensures 0 < p <= n && p == Pow2(TrailingZeros(n))
  {
    if n % 2 == 1 then 1 else 2 * LowestBlock(n / 2)
  }

  /** Split off the smallest perfect block at the end; its root is merged last. */
  function RangeRoot(merge: Merge, leaves: seq<Hash>): Hash
    requires leaves != []
    decreases |leaves|
  {
    var h := TrailingZeros(|leaves|);
    var rest := |leaves| - LowestBlock(|leaves|);
    if rest == 0 then MerkleRoot(merge, leaves, h)
    else merge(RangeRoot(merge, leaves[..rest]), MerkleRoot(merge, leaves[rest..], h))
  }

  /** The root of every range is the merge of the Merkle roots of its perfect blocks, larger ones first. */
  lemma {:induction false} RootIsRangeRoot(merge: Merge, leaves: seq<Hash>)
    requires leaves != []
    ensures Root(merge, leaves) == RangeRoot(merge, leaves)
    decreases |leaves|
  {
    hide Root, MerkleRoot, Pow2, TrailingZeros, LowestBlock;
    var h, rest := TrailingZeros(|leaves|), |leaves| - LowestBlock(|leaves|);
    if rest == 0 {
      RootOfBlock(merge, leaves, h);
    } else {
      var m := LowestBit(|leaves|);
      RootIsRangeRoot(merge, leaves[..rest]);
      RootOfBlocksAndBlock(merge, leaves[..rest], leaves[rest..], h, m);
      assert leaves[..rest] + leaves[rest..] == leaves;
    }
  }
}
