/** The append-only Merkle Mountain Range and its inclusion proofs. */
module Mmr {
  import opened Wrappers
  import opened Binary
  import opened MmrSpec
  import opened MmrLookup
  import opened MmrRuns

  class Mmr {
    const merge: Merge
    var nodes: seq<MmrNode>
    var peaks: seq<nat>
    var leafCount: nat
    var epoch: nat
    var nullified: set<nat>

    /** The hashes appended so far, in order. */
    ghost var leaves: seq<Hash>

    ghost predicate Valid()
      reads this
    {
      && leafCount == |leaves|
      && nodes == NodesOf(merge, leaves, |leaves|)
      && peaks == PeakPositions(0, |leaves|)
    }

    ghost function Contents(): Log
      reads this
    {
      Log(leaves, nullified, epoch)
    }

    constructor (merge: Merge)
      ensures Valid() && this.merge == merge
      ensures Contents() == Log([], {}, 0)
    {
      this.merge := merge;
      nodes, peaks, leafCount, epoch, nullified, leaves := [], [], 0, 0, {}, [];
    }

    /** Push the leaf, then merge the last two peaks for as long as they have the same height. */
    method AppendLeaf(hash: Hash) returns (leafIndex: nat)
      requires Valid()
      modifies this
      ensures Valid()
      ensures Contents() == Apply(old(Contents()), Append(hash))
      ensures leafIndex == old(leafCount)
      ensures old(nodes) <= nodes && |nodes| == |old(nodes)| + 1 + TrailingOnes(leafIndex)
    {
      hide NodesOf, NodePos, TrailingOnes, Carrying, PeakPositions;
      leafIndex := leafCount;
      ghost var grown := leaves + [hash];
      CarryStart(merge, leaves, grown);

      var leafPos := |nodes|;
      nodes := nodes + [MmrNode(hash, 0)];
      peaks := peaks + [leafPos];

      ghost var h, q := 0, leafIndex;
      TopTwo(merge, grown, leafIndex, nodes, peaks, h, q);
      while |peaks| >= 2 && nodes[peaks[|peaks| - 2]].height == nodes[peaks[|peaks| - 1]].height
        invariant TopTwoStored(nodes, peaks)
        invariant Carrying(merge, grown, leafIndex, nodes, peaks, h, q)
        decreases q
        modifies `nodes, `peaks
      {
        CarryStep(merge, grown, leafIndex, nodes, peaks, h, q);
        var leftIdx, rightIdx := peaks[|peaks| - 2], peaks[|peaks| - 1];
        var parentHash := merge(nodes[leftIdx].hash, nodes[rightIdx].hash);
        var parentHeight := nodes[leftIdx].height + 1;
        var parentPos := |nodes|;
        nodes := nodes + [MmrNode(parentHash, parentHeight)];
        peaks := peaks[..|peaks| - 2] + [parentPos];
        h, q := h + 1, q / 2;
        TopTwo(merge, grown, leafIndex, nodes, peaks, h, q);
      }
      CarryDone(merge, grown, leafIndex, nodes, peaks, h, q);
      leafCount := leafCount + 1;
      leaves := grown;
    }

    /** Close the epoch: refused on an empty range, otherwise the seal carries the root and the epoch advances. */
    method Seal() returns (r: Result<EpochSeal, MmrError>)
      requires Valid()
      modifies `epoch
      ensures Valid()
      ensures Contents() == Apply(old(Contents()), SealEpoch)
      ensures r == if leaves == [] then Err(EmptyMmr)
                   else Ok(EpochSeal(old(epoch), Root(merge, leaves), |leaves|, 2 * |leaves| - Popcount(|leaves|)))
    {
      hide NodesOf, PeakPositions, PeaksFrom, Root, Popcount;
      if leafCount == 0 {
        return Err(EmptyMmr);
      }
      NodeCount(merge, leaves, |leaves|);
      PeaksPresent(leafCount);
      var root := BagPeaks();
      r := Ok(EpochSeal(epoch, root, leafCount, |nodes|));
      epoch := epoch + 1;
    }

    method CurrentRoot() returns (r: Option<Hash>)
      requires Valid()
      ensures r == if leaves == [] then None else Some(Root(merge, leaves))
    {
      if peaks == [] {
        assert leaves == [] by {
          if leaves != [] {
            PeaksPresent(leafCount);
          }
        }
        return None;
      }
      var root := BagPeaks();
      r := Some(root);
    }

    /** Combine the peaks from left to right. */
    method BagPeaks() returns (acc: Hash)
      requires Valid() && peaks != []
      ensures leaves != [] && acc == Root(merge, leaves)
    {
      ghost var hashes := PeakHashes(merge, leaves);
      PeaksStored(merge, leaves);
      acc := nodes[peaks[0]].hash;
      for i := 1 to |peaks|
        invariant acc == Bag(merge, hashes[..i])
      {
        assert hashes[..i + 1][..i] == hashes[..i];
        acc := merge(acc, nodes[peaks[i]].hash);
      }
      assert hashes[..|peaks|] == hashes;
    }

    method GetLeaf(leafIndex: nat) returns (r: Option<LeafInfo>)
      requires Valid()
      ensures r == if leafIndex < |leaves| then Some(LeafInfo(leaves[leafIndex], leafIndex in nullified, leafIndex)) else None
    {
      if leafIndex >= leafCount {
        return None;
      }
      var nodePos := LeafNodePos(leafIndex);
      if nodePos == None {
        return None;
      }
      LeafStored(merge, leaves, leafIndex);
      r := Some(LeafInfo(nodes[nodePos.value].hash, leafIndex in nullified, leafIndex));
    }

    /** Redact a leaf: only the set of nullified indices changes. */
    method NullifyLeaf(leafIndex: nat) returns (r: Result<(), MmrError>)
      requires Valid()
      modifies `nullified
      ensures Valid()
      ensures Contents() == Apply(old(Contents()), Nullify(leafIndex))
      ensures r == if leafIndex < |leaves| then Ok(()) else Err(LeafOutOfBounds(leafIndex, |leaves|))
    {
      if leafIndex >= leafCount {
        return Err(LeafOutOfBounds(leafIndex, leafCount));
      }
      nullified := nullified + {leafIndex};
      r := Ok(());
    }

    method GenerateProof(leafIndex: nat) returns (r: Result<MerkleProof, MmrError>)
      requires Valid()
      ensures r == if leafIndex < |leaves| then Ok(ProofFor(merge, leaves, leafIndex))
                   else Err(LeafOutOfBounds(leafIndex, |leaves|))
    {
      if leafIndex >= leafCount {
        return Err(LeafOutOfBounds(leafIndex, leafCount));
      }
      var nodePos := LeafNodePos(leafIndex);
      if nodePos == None {
        return Err(LeafOutOfBounds(leafIndex, leafCount));
      }
      LeafStored(merge, leaves, leafIndex);
      var leafHash := nodes[nodePos.value].hash;
      var siblings := CollectSiblings(nodePos.value, leafIndex);
      var root := CurrentRoot();
      var epochRoot := match root case Some(hash) => hash case None => ZERO_HASH;
      r := Ok(MerkleProof(leafIndex, leafHash, siblings, epochRoot));
    }

    /** Climb from a leaf to its peak by looking siblings and parents up in the array. */
    method CollectSiblings(startPos: nat, ghost leafIndex: nat) returns (siblings: seq<(Hash, bool)>)
      requires Valid() && leafIndex < |leaves| && startPos == NodePos(0, leafIndex)
      ensures siblings == Path(merge, leaves, 0, leafIndex)
    {
      assert nodes == NodesOf(merge, leaves, |leaves|);
      hide *;
      ClimbStart(merge, leaves, leafIndex);
      siblings := [];
      var h, pos := nodes[startPos].height, startPos;
      ghost var k := leafIndex;
      var siblingPos := FindSibling(nodes, pos, h);
      while siblingPos.Some?
        invariant Climbing(merge, leaves, leafIndex, siblings, pos, h, k)
        invariant siblingPos == FindSibling(nodes, pos, h)
        decreases Shr(|leaves|, h)
      {
        ClimbStep(merge, leaves, leafIndex, siblings, pos, h, k);
        var siblingIsRight := siblingPos.value > pos;
        siblings := siblings + [(nodes[siblingPos.value].hash, siblingIsRight)];
        var parentPos := FindParent(nodes, pos, siblingPos.value);
        if parentPos == None {
          break;
        }
        pos := parentPos.value;
        h, k := h + 1, k / 2;
        siblingPos := FindSibling(nodes, pos, h);
      }
      ClimbDone(merge, leaves, leafIndex, siblings, pos, h, k);
    }

    /** The closed form 2k - popcount(k); the subtraction never saturates. */
    method LeafNodePos(leafIndex: nat) returns (r: Option<nat>)
      requires Valid()
      ensures r == if leafIndex < |leaves| then Some(NodePos(0, leafIndex)) else None
    {
      if leafIndex >= leafCount {
        return None;
      }
      NodePosClosedForm(0, leafIndex);
      r := Some(2 * leafIndex - Popcount(leafIndex));
    }
  }

  /** Fold a proof from its leaf and compare. */
  method VerifyProof(merge: Merge, proof: MerkleProof, expectedRoot: Hash) returns (ok: bool)
    ensures ok <==> Verifies(merge, proof, expectedRoot)
  {
    var current: Hash := proof.leafHash;
    var i := 0;
    while i < |proof.siblings|
      invariant i <= |proof.siblings|
      invariant FoldPath(merge, current, proof.siblings[i..]) == FoldPath(merge, proof.leafHash, proof.siblings)
    {
      var (sibling, siblingIsRight) := proof.siblings[i];
      assert proof.siblings[i..][1..] == proof.siblings[i + 1..];
      current := if siblingIsRight then merge(current, sibling) else merge(sibling, current);
      i := i + 1;
    }
    ok := current == expectedRoot;
  }

  // ----- reading the array -----

  lemma PeaksPresent(n: nat)
    requires n > 0
    ensures PeakPositions(0, n) != []
  {
    PeaksFromBits(n, 0);
    PopcountPositive(n);
    PeakPositionsAreNodes(0, n);
  }

  lemma PeaksStored(merge: Merge, leaves: seq<Hash>)
    ensures var xs, nodes := PeakPositions(0, |leaves|), NodesOf(merge, leaves, |leaves|);
      && |xs| == |PeakHashes(merge, leaves)|
      && forall i :: 0 <= i < |xs| ==> xs[i] < |nodes| && nodes[xs[i]].hash == PeakHashes(merge, leaves)[i]
  {
    hide NodesOf, NodePos, PeaksFrom, PeakPositions, BlockRoot;
    var n := |leaves|;
    var xs, ps := PeakPositions(0, n), Peaks(n);
    PeaksFromBits(n, 0);
    PeakPositionsAreNodes(0, n);
    forall i | 0 <= i < |xs|
      ensures xs[i] < |NodesOf(merge, leaves, n)|
      ensures NodesOf(merge, leaves, n)[xs[i]].hash == PeakHashes(merge, leaves)[i]
    {
      NodeIsAt(merge, leaves, n, ps[i].h, ps[i].k);
    }
  }

  /** The k-th leaf keeps its hash at height 0, at 2k - popcount(k). */
  lemma LeafStored(merge: Merge, leaves: seq<Hash>, k: nat)
    requires k < |leaves|
    ensures NodePos(0, k) == 2 * k - Popcount(k)
    ensures NodePos(0, k) < |NodesOf(merge, leaves, |leaves|)|
    ensures NodesOf(merge, leaves, |leaves|)[NodePos(0, k)] == MmrNode(leaves[k], 0)
  {
    NodePosClosedForm(0, k);
    NodeIsAt(merge, leaves, |leaves|, 0, k);
  }

  /** One round of the climb reads exactly the next entry of the co-path. */
  lemma ClimbOnce(merge: Merge, leaves: seq<Hash>, h: nat, k: nat)
    requires Exists(|leaves|, h, k) && Exists(|leaves|, h, Sibling(k))
    ensures var nodes := NodesOf(merge, leaves, |leaves|); var pos, sib := NodePos(h, k), NodePos(h, Sibling(k));
      && pos < |nodes| && sib < |nodes| && NodePos(h + 1, k / 2) < |nodes|
      && Exists(|leaves|, h + 1, k / 2) && Shr(|leaves|, h + 1) < Shr(|leaves|, h)
      && FindParent(nodes, pos, sib) == Some(NodePos(h + 1, k / 2))
      && Path(merge, leaves, h, k) == [(nodes[sib].hash, sib > pos)] + Path(merge, leaves, h + 1, k / 2)
  {
    hide NodesOf, NodePos, FindParent, BlockRoot;
    FindParentIsExact(merge, leaves, h, k);
    NodeIsAt(merge, leaves, |leaves|, h, Sibling(k));
    assert Shr(|leaves|, h + 1) == Shr(|leaves|, h) / 2;
    if k % 2 == 0 {
      StepIsSibling(h, k, k + 1);
    } else {
      StepIsSibling(h, k - 1, k);
    }
  }

  /** During the climb: the siblings so far, followed by the co-path still to come, are the leaf's co-path. */
  ghost predicate Climbing(merge: Merge, leaves: seq<Hash>, leafIndex: nat, siblings: seq<(Hash, bool)>, pos: nat, h: nat, k: nat) {
    && leafIndex < |leaves|
    && Exists(|leaves|, h, k) && pos == NodePos(h, k)
    && siblings + Path(merge, leaves, h, k) == Path(merge, leaves, 0, leafIndex)
  }

  lemma ClimbStart(merge: Merge, leaves: seq<Hash>, leafIndex: nat)
    requires leafIndex < |leaves|
    ensures var pos, nodes := NodePos(0, leafIndex), NodesOf(merge, leaves, |leaves|);
      pos < |nodes| && nodes[pos].height == 0 && Climbing(merge, leaves, leafIndex, [], pos, 0, leafIndex)
  {
    LeafStored(merge, leaves, leafIndex);
  }

  lemma ClimbStep(merge: Merge, leaves: seq<Hash>, leafIndex: nat, siblings: seq<(Hash, bool)>, pos: nat, h: nat, k: nat)
    requires Climbing(merge, leaves, leafIndex, siblings, pos, h, k)
    requires FindSibling(NodesOf(merge, leaves, |leaves|), pos, h).Some?
    ensures var nodes := NodesOf(merge, leaves, |leaves|); var sib := FindSibling(nodes, pos, h).value;
      && pos < |nodes| && sib < |nodes| && FindParent(nodes, pos, sib).Some?
      && Climbing(merge, leaves, leafIndex, siblings + [(nodes[sib].hash, sib > pos)], FindParent(nodes, pos, sib).value, h + 1, k / 2)
    ensures Shr(|leaves|, h + 1) < Shr(|leaves|, h)
  {
    hide NodesOf, NodePos, FindSibling, FindParent, Path, BlockRoot, PeaksFrom;
    FindSiblingIsExact(merge, leaves, h, k);
    ClimbOnce(merge, leaves, h, k);
  }

  lemma ClimbDone(merge: Merge, leaves: seq<Hash>, leafIndex: nat, siblings: seq<(Hash, bool)>, pos: nat, h: nat, k: nat)
    requires Climbing(merge, leaves, leafIndex, siblings, pos, h, k)
    requires FindSibling(NodesOf(merge, leaves, |leaves|), pos, h) == None
    ensures siblings == Path(merge, leaves, 0, leafIndex)
  {
    FindSiblingIsExact(merge, leaves, h, k);
  }

  // ----- the carry loop -----

  /** The last two peaks can be read. */
  predicate TopTwoStored(nodes: seq<MmrNode>, peaks: seq<nat>) {
    |peaks| >= 1 && peaks[|peaks| - 1] < |nodes| && (|peaks| >= 2 ==> peaks[|peaks| - 2] < |nodes|)
  }

  predicate Mergeable(nodes: seq<MmrNode>, peaks: seq<nat>)
    requires TopTwoStored(nodes, peaks)
  {
    |peaks| >= 2 && nodes[peaks[|peaks| - 2]].height == nodes[peaks[|peaks| - 1]].height
  }

  /** The array after h merges on behalf of leaf n: it ends with node (h, q), on the way to its final form. */
  ghost predicate NodesCarrying(merge: Merge, leaves: seq<Hash>, n: nat, nodes: seq<MmrNode>, h: nat, q: nat) {
    && |leaves| == n + 1
    && Exists(n + 1, h, q)
    && nodes <= NodesOf(merge, leaves, n + 1)
    && |nodes| == NodePos(h, q) + 1 == NodePos(0, n) + h + 1
    && h + TrailingOnes(q) == TrailingOnes(n)
  }

  ghost predicate PeaksCarrying(n: nat, peaks: seq<nat>, h: nat, q: nat) {
    && q <= Shr(n, h)
    && peaks == PeakPositions(h, q) + [NodePos(h, q)]
    && PeakPositions(h, q + 1) == PeakPositions(0, n + 1)
  }

  ghost predicate Carrying(merge: Merge, leaves: seq<Hash>, n: nat, nodes: seq<MmrNode>, peaks: seq<nat>, h: nat, q: nat) {
    && NodesCarrying(merge, leaves, n, nodes, h, q)
    && PeaksCarrying(n, peaks, h, q)
  }

  /** The last peak left of block (h, q) has height h exactly when q is odd, and is higher otherwise. */
  lemma {:induction false} LastPeak(n: nat, h: nat, q: nat) returns (a: Addr)
    requires 0 < q <= Shr(n, h)
    ensures var xs := PeakPositions(h, q); xs != [] && xs[|xs| - 1] == NodePos(a.h, a.k)
    ensures Exists(n, a.h, a.k)
    ensures if q % 2 == 1 then a == Addr(h, q - 1) else a.h > h
    decreases q
  {
    hide NodePos;
    if q % 2 == 1 {
      a := Addr(h, q - 1);
    } else {
      a := LastPeak(n, h + 1, q / 2);
    }
  }

  lemma StoredAt(merge: Merge, leaves: seq<Hash>, n: nat, nodes: seq<MmrNode>, h: nat, k: nat)
    requires |leaves| == n + 1 && nodes <= NodesOf(merge, leaves, n + 1) && Exists(n, h, k)
    requires NodePos(0, n) <= |nodes|
    ensures Exists(n + 1, h, k) && NodePos(h, k) < |nodes| && nodes[NodePos(h, k)] == NodeAt(merge, leaves, h, k)
  {
    NodeCount(merge, leaves, n);
    NodeIsAt(merge, leaves, n, h, k);
    ShrMonotone(n, n + 1, h);
    NodeIsAt(merge, leaves, n + 1, h, k);
  }

  lemma LastStored(merge: Merge, leaves: seq<Hash>, n: nat, nodes: seq<MmrNode>, h: nat, q: nat)
    requires NodesCarrying(merge, leaves, n, nodes, h, q)
    ensures nodes[|nodes| - 1] == NodeAt(merge, leaves, h, q)
  {
    NodeIsAt(merge, leaves, n + 1, h, q);
  }

  lemma CarryStart(merge: Merge, leaves: seq<Hash>, grown: seq<Hash>)
    requires leaves <= grown && |grown| == |leaves| + 1
    ensures var n := |leaves|; var nodes := NodesOf(merge, leaves, n);
      && |nodes| == NodePos(0, n) && nodes <= NodesOf(merge, grown, n + 1)
      && Carrying(merge, grown, n, nodes + [MmrNode(grown[n], 0)], PeakPositions(0, n) + [|nodes|], 0, n)
  {
    var n := |leaves|;
    NodesStable(merge, leaves, grown, n);
    NodeCount(merge, grown, n);
    NodeIsAt(merge, grown, n + 1, 0, n);
    NodesPrefix(merge, grown, n, n + 1);
  }

  /** The last two peaks, as positions and as nodes. */
  lemma TopTwo(merge: Merge, leaves: seq<Hash>, n: nat, nodes: seq<MmrNode>, peaks: seq<nat>, h: nat, q: nat)
    requires Carrying(merge, leaves, n, nodes, peaks, h, q)
    ensures TopTwoStored(nodes, peaks)
    ensures Mergeable(nodes, peaks) <==> q % 2 == 1
    ensures nodes[peaks[|peaks| - 1]] == NodeAt(merge, leaves, h, q)
    ensures q % 2 == 1 ==>
      && Exists(n + 1, h, q - 1) && nodes[peaks[|peaks| - 2]] == NodeAt(merge, leaves, h, q - 1)
      && peaks[..|peaks| - 2] == PeakPositions(h + 1, q / 2)
  {
    hide NodesOf, NodePos, BlockRoot, Shr, TrailingOnes;
    LastStored(merge, leaves, n, nodes, h, q);
    HalvePeaks(h, q / 2);
    if q > 0 {
      var a := LastPeak(n, h, q);
      StoredAt(merge, leaves, n, nodes, a.h, a.k);
    }
  }

  lemma NodesStep(merge: Merge, leaves: seq<Hash>, n: nat, nodes: seq<MmrNode>, h: nat, q: nat)
    requires NodesCarrying(merge, leaves, n, nodes, h, q) && q % 2 == 1
    ensures Exists(n + 1, h + 1, q / 2)
    ensures NodesCarrying(merge, leaves, n, nodes + [NodeAt(merge, leaves, h + 1, q / 2)], h + 1, q / 2)
  {
    hide NodesOf, NodePos, BlockRoot;
    ParentPos(h, q);
    assert Shr(n + 1, h + 1) == Shr(n + 1, h) / 2;
    NodeIsAt(merge, leaves, n + 1, h + 1, q / 2);
  }

  lemma CarryStep(merge: Merge, leaves: seq<Hash>, n: nat, nodes: seq<MmrNode>, peaks: seq<nat>, h: nat, q: nat)
    requires TopTwoStored(nodes, peaks) && Carrying(merge, leaves, n, nodes, peaks, h, q)
    requires Mergeable(nodes, peaks)
    ensures q > 0
    ensures var left, right := nodes[peaks[|peaks| - 2]], nodes[peaks[|peaks| - 1]];
      var nodes', peaks' := nodes + [MmrNode(merge(left.hash, right.hash), left.height + 1)], peaks[..|peaks| - 2] + [|nodes|];
      Carrying(merge, leaves, n, nodes', peaks', h + 1, q / 2)
  {
    hide NodesOf, NodePos, BlockRoot, PeakPositions, Shr, TrailingOnes;
    TopTwo(merge, leaves, n, nodes, peaks, h, q);
    NodesStep(merge, leaves, n, nodes, h, q);
    PeaksStep(n, peaks, h, q);
    ParentNode(merge, leaves, h, q);
  }

  /** A parent node merges its two children. */
  lemma ParentNode(merge: Merge, leaves: seq<Hash>, h: nat, q: nat)
    requires q % 2 == 1 && Exists(|leaves|, h, q) && Exists(|leaves|, h, q - 1) && Exists(|leaves|, h + 1, q / 2)
    ensures NodeAt(merge, leaves, h + 1, q / 2) ==
      MmrNode(merge(NodeAt(merge, leaves, h, q - 1).hash, NodeAt(merge, leaves, h, q).hash), h + 1)
  {}

  lemma PeaksStep(n: nat, peaks: seq<nat>, h: nat, q: nat)
    requires PeaksCarrying(n, peaks, h, q) && q % 2 == 1
    ensures PeaksCarrying(n, PeakPositions(h + 1, q / 2) + [NodePos(h, q) + 1], h + 1, q / 2)
  {
    hide NodePos, PeakPositions;
    ParentPos(h, q);
    HalvePeaks(h, q / 2 + 1);
    HalvePeaks(h, q / 2);
  }

  lemma CarryDone(merge: Merge, leaves: seq<Hash>, n: nat, nodes: seq<MmrNode>, peaks: seq<nat>, h: nat, q: nat)
    requires TopTwoStored(nodes, peaks) && Carrying(merge, leaves, n, nodes, peaks, h, q)
    requires !Mergeable(nodes, peaks)
    ensures nodes == NodesOf(merge, leaves, n + 1) && peaks == PeakPositions(0, n + 1)
    ensures |nodes| == NodePos(0, n) + 1 + TrailingOnes(n)
  {
    hide NodesOf, NodePos, PeakPositions, BlockRoot, Shr;
    TopTwo(merge, leaves, n, nodes, peaks, h, q);
    HalvePeaks(h, q / 2);
    FullLength(merge, leaves, n, h, q);
  }

  lemma FullLength(merge: Merge, leaves: seq<Hash>, n: nat, h: nat, q: nat)
    requires |leaves| == n + 1 && q % 2 == 0 && h + TrailingOnes(q) == TrailingOnes(n)
    ensures |NodesOf(merge, leaves, n + 1)| == NodePos(0, n) + h + 1
  {
    NodeCount(merge, leaves, n);
    CarryLength(merge, leaves, 0, n);
  }
}
