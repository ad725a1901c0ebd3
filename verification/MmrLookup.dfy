/** The position lookups of the flat array, and what they find in every reachable array. */
module MmrLookup {
  import opened Wrappers
  import opened Binary
  import opened MmrSpec

  function Min(a: nat, b: nat): nat {
    if a < b then a else b
  }

  /** Probe 2^(height+1) - 1 positions to the right, then to the left, for a node of the same height. */
  function FindSibling(nodes: seq<MmrNode>, pos: nat, height: nat): Option<nat> {
    var step := Min(Pow2(height + 1) - 1, |nodes|);
    if pos + step < |nodes| && nodes[pos + step].height == height then Some(pos + step)
    else if step <= pos < |nodes| && nodes[pos - step].height == height then Some(pos - step)
    else None
  }

  function FindParent(nodes: seq<MmrNode>, a: nat, b: nat): Option<nat>
    requires a < |nodes|
  {
    var parent := (if a < b then b else a) + 1;
    if parent < |nodes| && nodes[parent].height == nodes[a].height + 1 then Some(parent) else None
  }

  /** A match found 2^(h+1) - 1 positions from node (h, k) can only be its sibling. */
  lemma ProbeNeverFindsStranger(merge: Merge, leaves: seq<Hash>, h: nat, k: nat, p: nat)
    requires Exists(|leaves|, h, k)
    requires p < |NodesOf(merge, leaves, |leaves|)| && NodesOf(merge, leaves, |leaves|)[p].height == h
    requires AtStep(NodePos(h, k), p, h)
    ensures Exists(|leaves|, h, Sibling(k)) && p == NodePos(h, Sibling(k))
  {
    hide NodesOf, NodePos, BlockRoot;
    var a := AddressOf(merge, leaves, |leaves|, p);
    NodeIsAt(merge, leaves, |leaves|, a.h, a.k);
    if k < a.k {
      StepIsSibling(h, k, a.k);
    } else if a.k < k {
      StepIsSibling(h, a.k, k);
    }
  }

  /**
   In every range, for every node: the sibling lookup answers the node's true sibling exactly when that
   sibling has been stored, which is exactly when the node is not a peak; the parent lookup then answers
   the true parent, and that parent's hash merges the two in order.
   */
  lemma FindSiblingIsExact(merge: Merge, leaves: seq<Hash>, h: nat, k: nat)
    requires Exists(|leaves|, h, k)
    ensures var nodes := NodesOf(merge, leaves, |leaves|); var pos := NodePos(h, k);
      && pos < |nodes|
      && FindSibling(nodes, pos, h) ==
         (if Exists(|leaves|, h, Sibling(k)) then Some(NodePos(h, Sibling(k))) else None)
      && (FindSibling(nodes, pos, h) == None <==> Addr(h, k) in Peaks(|leaves|))
  {
    hide NodesOf, NodePos, BlockRoot, FindSibling, PeaksFrom;
    var nodes := NodesOf(merge, leaves, |leaves|);
    NodeIsAt(merge, leaves, |leaves|, h, k);
    PeakIffNoSibling(|leaves|, h, k);
    forall p: nat | p < |nodes| && nodes[p].height == h && AtStep(NodePos(h, k), p, h)
      ensures Exists(|leaves|, h, Sibling(k)) && p == NodePos(h, Sibling(k))
    {
      ProbeNeverFindsStranger(merge, leaves, h, k, p);
    }
    if Exists(|leaves|, h, Sibling(k)) {
      NodeIsAt(merge, leaves, |leaves|, h, Sibling(k));
      SiblingAtStep(h, k);
      FindSiblingMeets(nodes, NodePos(h, k), h, Some(NodePos(h, Sibling(k))));
    } else {
      FindSiblingMeets(nodes, NodePos(h, k), h, None);
    }
  }

  /** Positions p and q are one sibling step of height h apart. */
  predicate AtStep(p: nat, q: nat, h: nat) {
    q == p + Pow2(h + 1) - 1 || p == q + Pow2(h + 1) - 1
  }

  lemma SiblingAtStep(h: nat, k: nat)
    ensures AtStep(NodePos(h, k), NodePos(h, Sibling(k)), h)
  {
    if k % 2 == 0 {
      StepIsSibling(h, k, k + 1);
    } else {
      StepIsSibling(h, k - 1, k);
    }
  }

  /** The probe finds the one node of the given height that is one step away, if there is one. */
  lemma FindSiblingMeets(nodes: seq<MmrNode>, pos: nat, h: nat, target: Option<nat>)
    requires pos < |nodes|
    requires forall p: nat :: p < |nodes| && nodes[p].height == h && AtStep(pos, p, h) ==> target == Some(p)
    requires target.Some? ==> target.value < |nodes| && nodes[target.value].height == h && AtStep(pos, target.value, h)
    ensures FindSibling(nodes, pos, h) == target
  {
    var step := Pow2(h + 1) - 1;
    assert step >= 1 by { assert Pow2(h + 1) == 2 * Pow2(h); }
    if target.Some? {
      var p := target.value;
      assert pos < p || p < pos;
    }
    if pos + step < |nodes| && nodes[pos + step].height == h {
      assert AtStep(pos, pos + step, h);
    } else if step <= pos && nodes[pos - step].height == h {
      assert AtStep(pos, pos - step, h);
    }
  }

  lemma FindParentIsExact(merge: Merge, leaves: seq<Hash>, h: nat, k: nat)
    requires Exists(|leaves|, h, k) && Exists(|leaves|, h, Sibling(k))
    ensures var nodes := NodesOf(merge, leaves, |leaves|);
      && NodePos(h, k) < |nodes| && NodePos(h, Sibling(k)) < |nodes| && NodePos(h + 1, k / 2) < |nodes|
      && FindParent(nodes, NodePos(h, k), NodePos(h, Sibling(k))) == Some(NodePos(h + 1, k / 2))
      && nodes[NodePos(h + 1, k / 2)].hash ==
         (if k % 2 == 0 then merge(nodes[NodePos(h, k)].hash, nodes[NodePos(h, Sibling(k))].hash)
          else merge(nodes[NodePos(h, Sibling(k))].hash, nodes[NodePos(h, k)].hash))
  {
    hide NodesOf, NodePos;
    NodeIsAt(merge, leaves, |leaves|, h, k);
    NodeIsAt(merge, leaves, |leaves|, h, Sibling(k));
    assert Exists(|leaves|, h + 1, k / 2) by {
      assert Shr(|leaves|, h + 1) == Shr(|leaves|, h) / 2;
    }
    NodeIsAt(merge, leaves, |leaves|, h + 1, k / 2);
    ParentFollowsChildren(h, k);
    var nodes := NodesOf(merge, leaves, |leaves|);
    assert nodes[NodePos(h + 1, k / 2)] == NodeAt(merge, leaves, h + 1, k / 2);
  }

  lemma ParentFollowsChildren(h: nat, k: nat)
    ensures var a, b := NodePos(h, k), NodePos(h, Sibling(k));
      NodePos(h + 1, k / 2) == (if a < b then b else a) + 1
  {
    if k % 2 == 0 {
      ParentPos(h, k + 1);
      StepIsSibling(h, k, k + 1);
    } else {
      ParentPos(h, k);
      StepIsSibling(h, k - 1, k);
    }
  }
}
