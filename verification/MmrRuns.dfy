/** Whole runs of a range, and exactly when its inclusion proofs verify. */
module MmrRuns {
  import opened Wrappers
  import opened Binary
  import opened MmrSpec

  datatype MmrError =
    | LeafOutOfBounds(leafIndex: nat, leafCount: nat)
    | EmptyMmr

  datatype EpochSeal = EpochSeal(epoch: nat, root: Hash, leafCount: nat, nodeCount: nat)

  datatype LeafInfo = LeafInfo(hash: Hash, nullified: bool, leafIndex: nat)

  datatype MerkleProof = MerkleProof(leafIndex: nat, leafHash: Hash, siblings: seq<(Hash, bool)>, epochRoot: Hash)

  const ZERO_HASH: Hash := seq(32, _ => 0 as byte)

  // ----- the abstract log and its runs -----

  /** What a range remembers: its leaves in order, the redacted ones, and the next epoch number. */
  datatype Log = Log(leaves: seq<Hash>, nullified: set<nat>, epoch: nat)

  datatype Op = Append(hash: Hash) | Nullify(leafIndex: nat) | SealEpoch

  /** A nullification out of bounds and a seal of an empty range are refused and change nothing. */
  function Apply(log: Log, op: Op): Log {
    match op
    case Append(hash) => log.(leaves := log.leaves + [hash])
    case Nullify(i) => if i < |log.leaves| then log.(nullified := log.nullified + {i}) else log
    case SealEpoch => if log.leaves == [] then log else log.(epoch := log.epoch + 1)
  }

  function Run(log: Log, ops: seq<Op>): Log
    decreases |ops|
  {
    if ops == [] then log else Run(Apply(log, ops[0]), ops[1..])
  }

  function Appended(ops: seq<Op>): seq<Hash> {
    if ops == [] then []
    else (if ops[0].Append? then [ops[0].hash] else []) + Appended(ops[1..])
  }

  lemma {:induction false} RunLeaves(log: Log, ops: seq<Op>)
    ensures Run(log, ops).leaves == log.leaves + Appended(ops)
    ensures log.nullified <= Run(log, ops).nullified && log.epoch <= Run(log, ops).epoch
    decreases |ops|
  {
    if ops != [] {
      RunLeaves(Apply(log, ops[0]), ops[1..]);
    }
  }

  /** The root is a function of the appended hashes only, and the array only ever grows by extension. */
  lemma RunRootAndNodes(merge: Merge, log: Log, ops: seq<Op>, other: seq<Op>)
    requires Appended(ops) == Appended(other)
    ensures var r := Run(log, ops).leaves;
      && r == Run(log, other).leaves == log.leaves + Appended(ops)
      && NodesOf(merge, log.leaves, |log.leaves|) <= NodesOf(merge, r, |r|)
      && (r != [] ==> Root(merge, r) == Root(merge, log.leaves + Appended(other)))
  {
    RunLeaves(log, ops);
    RunLeaves(log, other);
    var r := Run(log, ops).leaves;
    NodesStable(merge, log.leaves, r, |log.leaves|);
    NodesPrefix(merge, r, |log.leaves|, |r|);
  }

  /** A proof made before a run is the beginning of the proof made after it, whatever was nullified or sealed. */
  lemma ProofSurvivesRun(merge: Merge, log: Log, ops: seq<Op>, k: nat)
    requires k < |log.leaves|
    ensures var r := Run(log, ops).leaves;
      && k < |r| && r[k] == log.leaves[k]
      && Path(merge, log.leaves, 0, k) <= Path(merge, r, 0, k)
      && var a := PeakAbove(|log.leaves|, 0, k);
         Exists(|r|, a.h, a.k)
         && FoldPath(merge, r[k], Path(merge, log.leaves, 0, k)) == BlockRoot(merge, r, a.h, a.k)
  {
    RunLeaves(log, ops);
    var r := Run(log, ops).leaves;
    assert log.leaves <= r;
    PathGrows(merge, log.leaves, r, 0, k);
    PathReachesPeak(merge, log.leaves, 0, k);
    var a := PeakAbove(|log.leaves|, 0, k);
    BlockRootStable(merge, log.leaves, r, a.h, a.k);
  }

  // ----- when a proof verifies against the epoch root -----

  predicate Verifies(merge: Merge, proof: MerkleProof, root: Hash) {
    FoldPath(merge, proof.leafHash, proof.siblings) == root
  }

  function ProofFor(merge: Merge, leaves: seq<Hash>, k: nat): MerkleProof
    requires k < |leaves|
  {
    MerkleProof(k, leaves[k], Path(merge, leaves, 0, k), Root(merge, leaves))
  }

  /** A proof folds to the peak above its leaf, so it verifies against the root iff that peak's hash is the root. */
  lemma ProofVerifiesIffPeakIsRoot(merge: Merge, leaves: seq<Hash>, k: nat)
    requires k < |leaves|
    ensures var a := PeakAbove(|leaves|, 0, k);
      && a in Peaks(|leaves|) && Shr(k, a.h) == a.k
      && |ProofFor(merge, leaves, k).siblings| == a.h
      && (forall root :: Verifies(merge, ProofFor(merge, leaves, k), root) <==> BlockRoot(merge, leaves, a.h, a.k) == root)
  {
    PathReachesPeak(merge, leaves, 0, k);
    PeakAboveIsPeak(|leaves|, 0, k);
  }

  lemma SinglePeakIsRoot(merge: Merge, leaves: seq<Hash>, a: Addr)
    requires a in Peaks(|leaves|) && IsPow2(|leaves|)
    ensures Exists(|leaves|, a.h, a.k) && BlockRoot(merge, leaves, a.h, a.k) == Root(merge, leaves)
  {
    PeaksFromBits(|leaves|, 0);
    IsPow2Popcount(|leaves|);
    assert Peaks(|leaves|) == [a];
  }

  /** Every leaf of every range of n leaves, under every merge function, gets a proof that verifies. */
  ghost predicate AllProofsVerify(n: nat) {
    forall merge: Merge, leaves: seq<Hash>, k: nat | |leaves| == n && k < n ::
      Verifies(merge, ProofFor(merge, leaves, k), Root(merge, leaves))
  }

  /** Generated proofs verify against the epoch root exactly for leaf counts that are powers of two. */
  lemma ProofsVerifyIffPowerOfTwo(n: nat)
    requires n > 0
    ensures AllProofsVerify(n) <==> IsPow2(n)
  {
    if IsPow2(n) {
      forall merge: Merge, leaves: seq<Hash>, k: nat | |leaves| == n && k < n
        ensures Verifies(merge, ProofFor(merge, leaves, k), Root(merge, leaves))
      {
        ProofVerifiesIffPeakIsRoot(merge, leaves, k);
        SinglePeakIsRoot(merge, leaves, PeakAbove(n, 0, k));
      }
    } else {
      FirstProofCanFail(n);
    }
  }

  const ONE_HASH: Hash := seq(32, _ => 1 as byte)

  /** The last leaf of block (h, k). */
  function LastLeaf(h: nat, k: nat): nat
    decreases h
  {
    if h == 0 then k else LastLeaf(h - 1, 2 * k + 1)
  }

  lemma {:induction false} LastLeafClosedForm(h: nat, k: nat)
    ensures LastLeaf(h, k) == (k + 1) * Pow2(h) - 1
    decreases h
  {
    if h > 0 {
      LastLeafClosedForm(h - 1, 2 * k + 1);
      HalfBounds(k, Pow2(h - 1));
    }
  }

  lemma {:induction false} PowersArePowers(h: nat)
    ensures IsPow2(Pow2(h))
  {
    if h > 0 {
      PowersArePowers(h - 1);
    }
  }

  lemma {:induction false} LastPeakEndsRange(h: nat, q: nat)
    requires q > 0
    ensures var ps := PeaksFrom(h, q);
      ps != [] && LastLeaf(ps[|ps| - 1].h, ps[|ps| - 1].k) == LastLeaf(h, q - 1)
    decreases q
  {
    if q % 2 == 0 {
      LastPeakEndsRange(h + 1, q / 2);
    }
  }

  lemma {:induction false} RightmostWins(leaves: seq<Hash>, h: nat, k: nat)
    requires Exists(|leaves|, h, k)
    ensures LastLeaf(h, k) < |leaves| && BlockRoot(KeepRight, leaves, h, k) == leaves[LastLeaf(h, k)]
    decreases h
  {
    if h > 0 {
      RightmostWins(leaves, h - 1, 2 * k + 1);
    }
  }

  function KeepRight(a: Hash, b: Hash): Hash {
    b
  }

  /**
   Counterexample for every other leaf count: under a merge that keeps its right argument the root is the
   last leaf, while the proof of leaf 0 folds to the last leaf of the first peak.
   */
  lemma FirstProofCanFail(n: nat)
    requires n > 0 && !IsPow2(n)
    ensures !AllProofsVerify(n)
  {
    var leaves: seq<Hash> := seq(n - 1, _ => ZERO_HASH) + [ONE_HASH];
    var a := PeakAbove(n, 0, 0);
    ProofVerifiesIffPeakIsRoot(KeepRight, leaves, 0);
    FirstPeakStopsEarly(n);
    RightmostWins(leaves, a.h, a.k);
    RightmostRoot(leaves);
    assert leaves[n - 1] == ONE_HASH && ONE_HASH[0] != ZERO_HASH[0];
    assert !Verifies(KeepRight, ProofFor(KeepRight, leaves, 0), Root(KeepRight, leaves));
  }

  lemma FirstPeakStopsEarly(n: nat)
    requires n > 0 && !IsPow2(n)
    ensures var a := PeakAbove(n, 0, 0); LastLeaf(a.h, a.k) != n - 1
  {
    var a := PeakAbove(n, 0, 0);
    PeakAboveIsPeak(n, 0, 0);
    assert a.k == 0;
    LastLeafClosedForm(a.h, 0);
    PowersArePowers(a.h);
  }

  lemma RightmostRoot(leaves: seq<Hash>)
    requires leaves != []
    ensures Root(KeepRight, leaves) == leaves[|leaves| - 1]
  {
    var n := |leaves|;
    PeaksFromBits(n, 0);
    LastPeakEndsRange(0, n);
    var last := Peaks(n)[|Peaks(n)| - 1];
    RightmostWins(leaves, last.h, last.k);
  }
}
