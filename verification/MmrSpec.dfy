/**
 What a Merkle Mountain Range over a sequence of leaves is, stated without reference to how it is built.

 A node is addressed by its height h and its index k among the nodes of that height: it covers the leaves
 k*2^h up to (k+1)*2^h. It exists in a range of n leaves when that whole block has been appended, that is when
 k < n >> h. Every other notion here (position, parent, sibling, peak) is arithmetic on (h, k).
 */
module MmrSpec {
  import opened Wrappers
  import opened Binary

  type Merge = (Hash, Hash) -> Hash

  datatype MmrNode = MmrNode(hash: Hash, height: nat)

  datatype Addr = Addr(h: nat, k: nat)

  predicate Exists(n: nat, h: nat, k: nat) {
    k < Shr(n, h)
  }

  /** The array position of node (h, k): after its left neighbour come one block and one node per carry. */
  function NodePos(h: nat, k: nat): nat {
    if k == 0 then 2 * Pow2(h) - 2
    else NodePos(h, k - 1) + 2 * Pow2(h) - 1 + TrailingOnes(k - 1)
  }

  /** In closed form, and so at height 0 the k-th leaf is at 2k - popcount(k). */
  lemma {:induction false} NodePosClosedForm(h: nat, k: nat)
    ensures NodePos(h, k) == (k + 1) * (2 * Pow2(h)) - 2 - Popcount(k)
    ensures h == 0 ==> NodePos(h, k) == 2 * k - Popcount(k)
  {
    if k > 0 {
      NodePosClosedForm(h, k - 1);
      PopcountSucc(k - 1);
      OneMore(k, 2 * Pow2(h));
    }
  }

  /** The Merkle root of the k-th block of 2^h leaves. */
  function BlockRoot(merge: Merge, leaves: seq<Hash>, h: nat, k: nat): Hash
    requires Exists(|leaves|, h, k)
    decreases h
  {
    if h == 0 then leaves[k]
    else merge(BlockRoot(merge, leaves, h - 1, 2 * k), BlockRoot(merge, leaves, h - 1, 2 * k + 1))
  }

  /** The root of a perfect Merkle tree over exactly 2^h leaves. */
  function MerkleRoot(merge: Merge, leaves: seq<Hash>, h: nat): Hash
    requires |leaves| == Pow2(h)
    decreases h
  {
    if h == 0 then leaves[0]
    else
      var half := Pow2(h - 1);
      merge(MerkleRoot(merge, leaves[..half], h - 1), MerkleRoot(merge, leaves[half..], h - 1))
  }

  /** The k-th block of 2^h leaves. */
  function Block(leaves: seq<Hash>, h: nat, k: nat): (block: seq<Hash>)
    requires Exists(|leaves|, h, k)
    ensures |block| == Pow2(h)
  {
    ShrIsDivision(|leaves|, h);
    MulMonotone(k + 1, Shr(|leaves|, h), Pow2(h));
    OneMore(k, Pow2(h));
    leaves[k * Pow2(h)..(k + 1) * Pow2(h)]
  }

  lemma HalvesOfBlock(leaves: seq<Hash>, h: nat, k: nat)
    requires h > 0 && Exists(|leaves|, h, k)
    ensures Exists(|leaves|, h - 1, 2 * k) && Exists(|leaves|, h - 1, 2 * k + 1)
    ensures Block(leaves, h - 1, 2 * k) == Block(leaves, h, k)[..Pow2(h - 1)]
    ensures Block(leaves, h - 1, 2 * k + 1) == Block(leaves, h, k)[Pow2(h - 1)..]
  {
    var from, p := k * Pow2(h), Pow2(h - 1);
    HalfBounds(k, p);
    ShrIsDivision(|leaves|, h);
    MulMonotone(k + 1, Shr(|leaves|, h), Pow2(h));
    SplitSlice(leaves, from, p);
  }

  lemma HalfBounds(k: nat, p: nat)
    ensures (2 * k) * p == k * (2 * p)
    ensures (2 * k + 1) * p == k * (2 * p) + p
    ensures (2 * k + 1 + 1) * p == k * (2 * p) + 2 * p == (k + 1) * (2 * p)
  {}

  lemma SplitSlice<T>(s: seq<T>, from: nat, p: nat)
    requires from + 2 * p <= |s|
    ensures s[from..from + 2 * p][..p] == s[from..from + p]
    ensures s[from..from + 2 * p][p..] == s[from + p..from + 2 * p]
  {}

  /** A node depends on the leaves of its own block only. */
  lemma {:induction false} BlockRootIsMerkleRoot(merge: Merge, leaves: seq<Hash>, h: nat, k: nat)
    requires Exists(|leaves|, h, k)
    ensures BlockRoot(merge, leaves, h, k) == MerkleRoot(merge, Block(leaves, h, k), h)
    decreases h
  {
    if h > 0 {
      HalvesOfBlock(leaves, h, k);
      BlockRootIsMerkleRoot(merge, leaves, h - 1, 2 * k);
      BlockRootIsMerkleRoot(merge, leaves, h - 1, 2 * k + 1);
    }
  }

  /** Appending leaves never changes an existing node. */
  lemma {:induction false} BlockRootStable(merge: Merge, leaves: seq<Hash>, more: seq<Hash>, h: nat, k: nat)
    requires leaves <= more && Exists(|leaves|, h, k)
    ensures Exists(|more|, h, k) && BlockRoot(merge, more, h, k) == BlockRoot(merge, leaves, h, k)
    decreases h
  {
    ShrMonotone(|leaves|, |more|, h);
    if h > 0 {
      BlockRootStable(merge, leaves, more, h - 1, 2 * k);
      BlockRootStable(merge, leaves, more, h - 1, 2 * k + 1);
    }
  }

  function NodeAt(merge: Merge, leaves: seq<Hash>, h: nat, k: nat): MmrNode
    requires Exists(|leaves|, h, k)
  {
    MmrNode(BlockRoot(merge, leaves, h, k), h)
  }

  /** The nodes that become complete together with (h, k): itself and every ancestor it completes. */
  function Carry(merge: Merge, leaves: seq<Hash>, h: nat, k: nat): seq<MmrNode>
    requires Exists(|leaves|, h, k)
    decreases k
  {
    [NodeAt(merge, leaves, h, k)] + if k % 2 == 1 then Carry(merge, leaves, h + 1, k / 2) else []
  }

  /** The flat array after the first n leaves. */
  function NodesOf(merge: Merge, leaves: seq<Hash>, n: nat): seq<MmrNode>
    requires n <= |leaves|
  {
    if n == 0 then [] else NodesOf(merge, leaves, n - 1) + Carry(merge, leaves, 0, n - 1)
  }

  /** The peaks among the first q blocks of 2^h leaves, left to right. */
  function PeaksFrom(h: nat, q: nat): seq<Addr>
    decreases q
  {
    if q == 0 then []
    else PeaksFrom(h + 1, q / 2) + if q % 2 == 1 then [Addr(h, q - 1)] else []
  }

  function Peaks(n: nat): seq<Addr> {
    PeaksFrom(0, n)
  }

  /** The array positions of those peaks. */
  function PeakPositions(h: nat, q: nat): seq<nat>
    decreases q
  {
    if q == 0 then []
    else PeakPositions(h + 1, q / 2) + if q % 2 == 1 then [NodePos(h, q - 1)] else []
  }

  // ----- positions -----

  /** A right child is immediately followed by its parent. */
  lemma {:induction false} ParentPos(h: nat, k: nat)
    requires k % 2 == 1
    ensures NodePos(h + 1, k / 2) == NodePos(h, k) + 1
    decreases k
  {
    assert NodePos(h, k) == NodePos(h, k - 1) + 2 * Pow2(h) - 1;
    if k > 1 {
      ParentPos(h, k - 2);
      assert k - 2 + 1 == k - 1 && (k - 2) / 2 == k / 2 - 1;
      assert TrailingOnes(k - 2) == 1 + TrailingOnes(k / 2 - 1);
    }
  }

  /** Two nodes of one height are at distance 2^(h+1) - 1 exactly when they are siblings. */
  lemma {:induction false} StepIsSibling(h: nat, j: nat, k: nat)
    requires j < k
    ensures NodePos(h, k) >= NodePos(h, j) + Pow2(h + 1) - 1 > NodePos(h, j)
    ensures NodePos(h, k) == NodePos(h, j) + Pow2(h + 1) - 1 <==> k == j + 1 && j % 2 == 0
    decreases k
  {
    if j < k - 1 {
      StepIsSibling(h, j, k - 1);
    }
  }

  lemma {:induction false} CarryLength(merge: Merge, leaves: seq<Hash>, h: nat, k: nat)
    requires Exists(|leaves|, h, k)
    ensures |Carry(merge, leaves, h, k)| == 1 + TrailingOnes(k)
    decreases k
  {
    if k % 2 == 1 {
      CarryLength(merge, leaves, h + 1, k / 2);
    }
  }

  /** The i-th completed node is i levels up and i positions further on. */
  lemma {:induction false} CarryAt(merge: Merge, leaves: seq<Hash>, h: nat, k: nat, i: nat)
    requires Exists(|leaves|, h, k) && i <= TrailingOnes(k)
    ensures i < |Carry(merge, leaves, h, k)| && Exists(|leaves|, h + i, Shr(k, i))
    ensures Carry(merge, leaves, h, k)[i] == NodeAt(merge, leaves, h + i, Shr(k, i))
    ensures NodePos(h + i, Shr(k, i)) == NodePos(h, k) + i
    decreases k
  {
    hide NodePos, BlockRoot;
    if i > 0 {
      CarryAt(merge, leaves, h + 1, k / 2, i - 1);
      ShrHalf(k, i);
      ParentPos(h, k);
      assert h + 1 + (i - 1) == h + i;
    }
  }

  /** n leaves make 2n - popcount(n) nodes. */
  lemma {:induction false} NodeCount(merge: Merge, leaves: seq<Hash>, n: nat)
    requires n <= |leaves|
    ensures |NodesOf(merge, leaves, n)| == 2 * n - Popcount(n) == NodePos(0, n)
  {
    hide NodePos, BlockRoot, Carry, TrailingOnes;
    NodePosClosedForm(0, n);
    if n > 0 {
      NodeCount(merge, leaves, n - 1);
      CarryLength(merge, leaves, 0, n - 1);
      PopcountSucc(n - 1);
    }
  }

  /** The nodes completed by leaf n - 1 are stored behind the earlier ones. */
  lemma NewNodeIsAt(merge: Merge, leaves: seq<Hash>, n: nat, h: nat, k: nat)
    requires 0 < n <= |leaves| && Exists(n, h, k) && !Exists(n - 1, h, k)
    ensures Exists(|leaves|, h, k)
    ensures NodePos(h, k) < |NodesOf(merge, leaves, n)|
    ensures NodesOf(merge, leaves, n)[NodePos(h, k)] == NodeAt(merge, leaves, h, k)
  {
    hide NodePos, BlockRoot, Carry, Shr, TrailingOnes, Popcount;
    ShrMonotone(n, |leaves|, h);
    ShrSucc(n - 1, h);
    LastLeafExists(leaves, n);
    CarryAt(merge, leaves, 0, n - 1, h);
    NodeCount(merge, leaves, n - 1);
    assert NodesOf(merge, leaves, n) == NodesOf(merge, leaves, n - 1) + Carry(merge, leaves, 0, n - 1);
  }

  lemma LastLeafExists(leaves: seq<Hash>, n: nat)
    requires 0 < n <= |leaves|
    ensures Exists(|leaves|, 0, n - 1)
  {}

  /** Every existing node is stored at its closed-form position. */
  lemma {:induction false} NodeIsAt(merge: Merge, leaves: seq<Hash>, n: nat, h: nat, k: nat)
    requires n <= |leaves| && Exists(n, h, k)
    ensures Exists(|leaves|, h, k)
    ensures NodePos(h, k) < |NodesOf(merge, leaves, n)|
    ensures NodesOf(merge, leaves, n)[NodePos(h, k)] == NodeAt(merge, leaves, h, k)
    decreases n
  {
    hide NodePos, BlockRoot, Carry, Shr;
    if Exists(n - 1, h, k) {
      NodeIsAt(merge, leaves, n - 1, h, k);
      NodesPrefix(merge, leaves, n - 1, n);
    } else {
      NewNodeIsAt(merge, leaves, n, h, k);
    }
  }

  /** Every position of the array is the position of an existing node. */
  lemma {:induction false} AddressOf(merge: Merge, leaves: seq<Hash>, n: nat, p: nat) returns (a: Addr)
    requires n <= |leaves| && p < |NodesOf(merge, leaves, n)|
    ensures Exists(n, a.h, a.k) && p == NodePos(a.h, a.k)
    decreases n
  {
    hide NodePos, BlockRoot, Carry, Shr, TrailingOnes, Popcount;
    LastLeafExists(leaves, n);
    NodeCount(merge, leaves, n - 1);
    var before := |NodesOf(merge, leaves, n - 1)|;
    if p < before {
      a := AddressOf(merge, leaves, n - 1, p);
      ShrMonotone(n - 1, n, a.h);
    } else {
      var i := p - before;
      CarryLength(merge, leaves, 0, n - 1);
      CarryAt(merge, leaves, 0, n - 1, i);
      ShrSucc(n - 1, i);
      a := Addr(i, Shr(n - 1, i));
    }
  }

  /** The address of a position is unique. */
  lemma AddressUnique(merge: Merge, leaves: seq<Hash>, a: Addr, b: Addr)
    requires Exists(|leaves|, a.h, a.k) && Exists(|leaves|, b.h, b.k)
    requires NodePos(a.h, a.k) == NodePos(b.h, b.k)
    ensures a == b
  {
    NodeIsAt(merge, leaves, |leaves|, a.h, a.k);
    NodeIsAt(merge, leaves, |leaves|, b.h, b.k);
    if a.k < b.k {
      StepIsSibling(a.h, a.k, b.k);
    } else if b.k < a.k {
      StepIsSibling(a.h, b.k, a.k);
    }
  }

  /** The array of a longer leaf sequence extends the array of a shorter one. */
  lemma {:induction false} NodesStable(merge: Merge, leaves: seq<Hash>, more: seq<Hash>, n: nat)
    requires leaves <= more && n <= |leaves|
    ensures NodesOf(merge, more, n) == NodesOf(merge, leaves, n)
    decreases n
  {
    if n > 0 {
      NodesStable(merge, leaves, more, n - 1);
      CarryStable(merge, leaves, more, 0, n - 1);
    }
  }

  lemma {:induction false} CarryStable(merge: Merge, leaves: seq<Hash>, more: seq<Hash>, h: nat, k: nat)
    requires leaves <= more && Exists(|leaves|, h, k)
    ensures Exists(|more|, h, k) && Carry(merge, more, h, k) == Carry(merge, leaves, h, k)
    decreases k
  {
    BlockRootStable(merge, leaves, more, h, k);
    if k % 2 == 1 {
      CarryStable(merge, leaves, more, h + 1, k / 2);
    }
  }

  lemma {:induction false} NodesPrefix(merge: Merge, leaves: seq<Hash>, m: nat, n: nat)
    requires m <= n <= |leaves|
    ensures NodesOf(merge, leaves, m) <= NodesOf(merge, leaves, n)
    decreases n
  {
    if m < n {
      NodesPrefix(merge, leaves, m, n - 1);
    }
  }

  // ----- peaks -----

  /** The peaks of n leaves are one per one-bit of n, in strictly decreasing height. */
  lemma {:induction false} PeaksFromBits(n: nat, h: nat)
    ensures var ps := PeaksFrom(h, Shr(n, h));
      && |ps| == Popcount(Shr(n, h))
      && (forall i :: 0 <= i < |ps| ==> ps[i].h >= h && Shr(n, ps[i].h) % 2 == 1 && ps[i].k == Shr(n, ps[i].h) - 1)
      && (forall i, j :: 0 <= i < j < |ps| ==> ps[i].h > ps[j].h)
    decreases Shr(n, h)
  {
    if Shr(n, h) > 0 {
      PeaksFromBits(n, h + 1);
      assert Shr(n, h + 1) == Shr(n, h) / 2;
    }
  }

  lemma {:induction false} OddBitIsPeak(n: nat, h: nat, g: nat)
    requires h <= g && Shr(n, g) % 2 == 1
    ensures Addr(g, Shr(n, g) - 1) in PeaksFrom(h, Shr(n, h))
    decreases g - h
  {
    ShrDeepens(n, h, g);
    if h < g {
      OddBitIsPeak(n, h + 1, g);
      assert Shr(n, h + 1) == Shr(n, h) / 2;
    }
  }

  /** The peaks are exactly the one-bits of the leaf count, highest first. */
  lemma PeaksAreOneBits(n: nat)
    ensures forall h, k: nat :: Addr(h, k) in Peaks(n) <==> Shr(n, h) % 2 == 1 && k == Shr(n, h) - 1
    ensures |Peaks(n)| == Popcount(n)
    ensures forall i, j :: 0 <= i < j < |Peaks(n)| ==> Peaks(n)[i].h > Peaks(n)[j].h
  {
    PeaksFromBits(n, 0);
    forall h: nat, k: nat | Shr(n, h) % 2 == 1 && k == Shr(n, h) - 1
      ensures Addr(h, k) in Peaks(n)
    {
      OddBitIsPeak(n, 0, h);
    }
  }

  lemma {:induction false} ShrDeepens(n: nat, h: nat, g: nat)
    requires h <= g
    ensures Shr(n, g) <= Shr(n, h)
    decreases g
  {
    if h < g {
      ShrDeepens(n, h, g - 1);
    }
  }

  lemma {:induction false} PeakPositionsAreNodes(h: nat, q: nat)
    ensures var ps, xs := PeaksFrom(h, q), PeakPositions(h, q);
      |xs| == |ps| && forall i :: 0 <= i < |xs| ==> xs[i] == NodePos(ps[i].h, ps[i].k)
    decreases q
  {
    if q > 0 {
      PeakPositionsAreNodes(h + 1, q / 2);
    }
  }

  lemma HalvePeaks(h: nat, j: nat)
    ensures PeakPositions(h, 2 * j) == PeakPositions(h + 1, j)
    ensures PeakPositions(h, 2 * j + 1) == PeakPositions(h + 1, j) + [NodePos(h, 2 * j)]
  {
    assert (2 * j) / 2 == (2 * j + 1) / 2 == j;
  }

  /** The peak above node (h, k) in a range of n leaves. */
  function PeakAbove(n: nat, h: nat, k: nat): (a: Addr)
    requires Exists(n, h, k)
    ensures Exists(n, a.h, a.k) && a.h >= h
    decreases Shr(n, h)
  {
    if k % 2 == 0 && k + 1 == Shr(n, h) then Addr(h, k)
    else
      assert Shr(n, h + 1) == Shr(n, h) / 2;
      PeakAbove(n, h + 1, k / 2)
  }

  /** The peak above a leaf is a peak, and its block holds the leaf. */
  lemma {:induction false} PeakAboveIsPeak(n: nat, h: nat, k: nat)
    requires Exists(n, h, k)
    ensures var a := PeakAbove(n, h, k);
      a in Peaks(n) && a.k == Shr(k, a.h - h)
    decreases Shr(n, h)
  {
    hide PeaksFrom;
    if k % 2 == 0 && k + 1 == Shr(n, h) {
      OddBitIsPeak(n, 0, h);
    } else {
      assert Shr(n, h + 1) == Shr(n, h) / 2;
      PeakAboveIsPeak(n, h + 1, k / 2);
      var a := PeakAbove(n, h + 1, k / 2);
      ShrHalf(k, a.h - h);
    }
  }

  // ----- siblings -----

  /** The other child of the parent of (h, k). */
  function Sibling(k: nat): nat {
    if k % 2 == 1 then k - 1 else k + 1
  }

  /** A node is a peak exactly when its sibling is not in the range. */
  lemma PeakIffNoSibling(n: nat, h: nat, k: nat)
    requires Exists(n, h, k)
    ensures Addr(h, k) in Peaks(n) <==> !Exists(n, h, Sibling(k))
  {
    PeaksFromBits(n, 0);
    if !Exists(n, h, Sibling(k)) {
      OddBitIsPeak(n, 0, h);
    }
  }

  /** The co-path from node (h, k) up to its peak: each sibling with whether it is the right one. */
  function Path(merge: Merge, leaves: seq<Hash>, h: nat, k: nat): seq<(Hash, bool)>
    requires Exists(|leaves|, h, k)
    decreases Shr(|leaves|, h)
  {
    if !Exists(|leaves|, h, Sibling(k)) then []
    else
      assert Shr(|leaves|, h + 1) == Shr(|leaves|, h) / 2;
      [(BlockRoot(merge, leaves, h, Sibling(k)), k % 2 == 0)] + Path(merge, leaves, h + 1, k / 2)
  }

  /** Hashing a leaf upwards along a co-path. */
  function FoldPath(merge: Merge, current: Hash, path: seq<(Hash, bool)>): Hash
    decreases |path|
  {
    if path == [] then current
    else
      var (sibling, isRight) := path[0];
      FoldPath(merge, if isRight then merge(current, sibling) else merge(sibling, current), path[1..])
  }

  /** Folding the co-path of a node gives the hash of the peak above it, one level per entry. */
  lemma {:induction false} PathReachesPeak(merge: Merge, leaves: seq<Hash>, h: nat, k: nat)
    requires Exists(|leaves|, h, k)
    ensures var a := PeakAbove(|leaves|, h, k); var path := Path(merge, leaves, h, k);
      && FoldPath(merge, BlockRoot(merge, leaves, h, k), path) == BlockRoot(merge, leaves, a.h, a.k)
      && |path| == a.h - h
    decreases Shr(|leaves|, h)
  {
    if Exists(|leaves|, h, Sibling(k)) {
      assert Shr(|leaves|, h + 1) == Shr(|leaves|, h) / 2;
      PathReachesPeak(merge, leaves, h + 1, k / 2);
      assert k == 2 * (k / 2) + k % 2;
    }
  }

  /** A co-path taken earlier is a prefix of the co-path taken after more appends. */
  lemma {:induction false} PathGrows(merge: Merge, leaves: seq<Hash>, more: seq<Hash>, h: nat, k: nat)
    requires leaves <= more && Exists(|leaves|, h, k)
    ensures Exists(|more|, h, k) && Path(merge, leaves, h, k) <= Path(merge, more, h, k)
    decreases Shr(|leaves|, h)
  {
    ShrMonotone(|leaves|, |more|, h);
    if Exists(|leaves|, h, Sibling(k)) {
      BlockRootStable(merge, leaves, more, h, Sibling(k));
      assert Shr(|leaves|, h + 1) == Shr(|leaves|, h) / 2;
      PathGrows(merge, leaves, more, h + 1, k / 2);
    }
  }

  // ----- the root -----

  /** Combining hashes left to right. */
  function Bag(merge: Merge, hashes: seq<Hash>): Hash
    requires hashes != []
  {
    if |hashes| == 1 then hashes[0]
    else merge(Bag(merge, hashes[..|hashes| - 1]), hashes[|hashes| - 1])
  }

  function PeakHashes(merge: Merge, leaves: seq<Hash>): (hs: seq<Hash>)
    ensures |hs| == |Peaks(|leaves|)|
  {
    PeaksFromBits(|leaves|, 0);
    var ps := Peaks(|leaves|);
    seq(|ps|, i requires 0 <= i < |ps| => BlockRoot(merge, leaves, ps[i].h, ps[i].k))
  }

  /** The root of a range: its peaks bagged left to right. */
  function Root(merge: Merge, leaves: seq<Hash>): Hash
    requires leaves != []
  {
    PeaksFromBits(|leaves|, 0);
    PopcountPositive(|leaves|);
    Bag(merge, PeakHashes(merge, leaves))
  }
}
