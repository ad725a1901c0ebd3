/** The stub prover: it accepts a witness whose co-path leads to a sealed epoch root. */
module ZkProver {
  import opened Wrappers
  import opened Binary
  import opened MmrSpec
  import opened MmrRuns

  datatype ZkStatement = ZkStatement(epochRoot: Hash, leafIndex: nat, epoch: nat, isNullified: bool)

  datatype ZkWitness = ZkWitness(leafHash: Hash, merklePath: seq<(Hash, bool)>)

  datatype ZkProof = ZkProof(statement: ZkStatement, proofBytes: Hash, isStub: bool)

  datatype ProverError =
    | UnknownEpoch(epoch: nat)
    | InvalidWitness
    | LeafNotNullified(leafIndex: nat)

  datatype ConsolidationResult = ConsolidationResult(epoch: nat, root: Hash, readyToProve: bool)

  predicate SealExists(seals: seq<EpochSeal>, root: Hash, epoch: nat) {
    exists i | 0 <= i < |seals| :: seals[i].root == root && seals[i].epoch == epoch
  }

  /** The verdict on an inclusion claim. */
  function Inclusion(merge: Merge, commit: ZkStatement -> Hash, seals: seq<EpochSeal>, stmt: ZkStatement, w: ZkWitness)
    : Result<ZkProof, ProverError>
  {
    if !SealExists(seals, stmt.epochRoot, stmt.epoch) then Err(UnknownEpoch(stmt.epoch))
    else if FoldPath(merge, w.leafHash, w.merklePath) != stmt.epochRoot then Err(InvalidWitness)
    else Ok(ZkProof(stmt, commit(stmt), true))
  }

  function WitnessOf(proof: MerkleProof): ZkWitness {
    ZkWitness(proof.leafHash, proof.siblings)
  }

  class StubProver {
    const merge: Merge
    const commit: ZkStatement -> Hash
    var sealedEpochs: seq<EpochSeal>

    constructor (merge: Merge, commit: ZkStatement -> Hash)
      ensures this.merge == merge && this.commit == commit && sealedEpochs == []
    {
      this.merge, this.commit := merge, commit;
      sealedEpochs := [];
    }

    method Consolidate(seal: EpochSeal) returns (r: ConsolidationResult)
      modifies this
      ensures sealedEpochs == old(sealedEpochs) + [seal]
      ensures r == ConsolidationResult(seal.epoch, seal.root, true)
    {
      sealedEpochs := sealedEpochs + [seal];
      r := ConsolidationResult(seal.epoch, seal.root, true);
    }

    method ProveInclusion(stmt: ZkStatement, w: ZkWitness) returns (r: Result<ZkProof, ProverError>)
      ensures r == Inclusion(merge, commit, sealedEpochs, stmt, w)
    {
      if !SealExists(sealedEpochs, stmt.epochRoot, stmt.epoch) {
        return Err(UnknownEpoch(stmt.epoch));
      }
      var computed := RecomputeRoot(merge, w.leafHash, w.merklePath);
      if computed != stmt.epochRoot {
        return Err(InvalidWitness);
      }
      r := Ok(ZkProof(stmt, commit(stmt), true));
    }

    method ProveNullification(stmt: ZkStatement, w: ZkWitness) returns (r: Result<ZkProof, ProverError>)
      ensures r == if !stmt.isNullified then Err(LeafNotNullified(stmt.leafIndex))
                   else Inclusion(merge, commit, sealedEpochs, stmt, w)
    {
      if !stmt.isNullified {
        return Err(LeafNotNullified(stmt.leafIndex));
      }
      r := ProveInclusion(stmt, w);
    }
  }

  method RecomputeRoot(merge: Merge, leafHash: Hash, path: seq<(Hash, bool)>) returns (current: Hash)
    ensures current == FoldPath(merge, leafHash, path)
  {
    current := leafHash;
    for i := 0 to |path|
      invariant FoldPath(merge, current, path[i..]) == FoldPath(merge, leafHash, path)
    {
      var (sibling, siblingIsRight) := path[i];
      assert path[i..][1..] == path[i + 1..];
      current := if siblingIsRight then merge(current, sibling) else merge(sibling, current);
    }
  }

  /**
   The witness generated for leaf k when the epoch was sealed is accepted exactly when the peak above k is the
   sealed root; for a power-of-two leaf count that is every leaf, and it stays so whatever is sealed later.
   The statement's leaf index and nullified flag play no part: any values are accepted with that witness.
   */
  lemma SealedProofAccepted(merge: Merge, commit: ZkStatement -> Hash, seals: seq<EpochSeal>, later: seq<EpochSeal>,
                            leaves: seq<Hash>, k: nat, seal: EpochSeal, claimedIndex: nat, claimedNullified: bool)
    requires k < |leaves| && seal in seals && seal.root == Root(merge, leaves) && seals <= later
    ensures var a := PeakAbove(|leaves|, 0, k);
      var stmt := ZkStatement(seal.root, claimedIndex, seal.epoch, claimedNullified);
      var r := Inclusion(merge, commit, later, stmt, WitnessOf(ProofFor(merge, leaves, k)));
      && (r.Ok? <==> BlockRoot(merge, leaves, a.h, a.k) == Root(merge, leaves))
      && (IsPow2(|leaves|) ==> r == Ok(ZkProof(stmt, commit(stmt), true)))
      && (r.Err? ==> r == Err(InvalidWitness))
  {
    hide PeakAbove, BlockRoot, Root, Path, FoldPath, PeaksFrom, IsPow2;
    ProofVerifiesIffPeakIsRoot(merge, leaves, k);
    var i :| 0 <= i < |seals| && seals[i] == seal;
    assert later[i] == seal;
    var proof := ProofFor(merge, leaves, k);
    assert Verifies(merge, proof, seal.root) <==> FoldPath(merge, proof.leafHash, proof.siblings) == seal.root;
    if IsPow2(|leaves|) {
      SinglePeakIsRoot(merge, leaves, PeakAbove(|leaves|, 0, k));
    }
  }

  /**
   A statement is accepted exactly when one and the same consolidated seal has its root and its epoch, and the
   witness folds to that root. A root sealed in one epoch and the number of another are not enough.
   */
  lemma AcceptedIffOneSeal(merge: Merge, commit: ZkStatement -> Hash, consolidated: seq<EpochSeal>, stmt: ZkStatement, w: ZkWitness)
    ensures Inclusion(merge, commit, consolidated, stmt, w).Ok? <==>
      && (exists seal :: seal in consolidated && seal.root == stmt.epochRoot && seal.epoch == stmt.epoch)
      && FoldPath(merge, w.leafHash, w.merklePath) == stmt.epochRoot
    ensures !(exists seal :: seal in consolidated && seal.root == stmt.epochRoot && seal.epoch == stmt.epoch) ==>
      Inclusion(merge, commit, consolidated, stmt, w) == Err(UnknownEpoch(stmt.epoch))
  {
    if SealExists(consolidated, stmt.epochRoot, stmt.epoch) {
      var i :| 0 <= i < |consolidated| && consolidated[i].root == stmt.epochRoot && consolidated[i].epoch == stmt.epoch;
      assert consolidated[i] in consolidated;
    }
  }

  /** A prover that was given these seals, one after the other, and is asked about a statement. */
  method ConsolidateAndProve(merge: Merge, commit: ZkStatement -> Hash, seals: seq<EpochSeal>, stmt: ZkStatement, w: ZkWitness)
    returns (r: Result<ZkProof, ProverError>)
    ensures r.Ok? ==> exists seal :: seal in seals && seal.root == stmt.epochRoot && seal.epoch == stmt.epoch
    ensures r.Ok? ==> FoldPath(merge, w.leafHash, w.merklePath) == stmt.epochRoot && r.value.statement == stmt
  {
    var prover := new StubProver(merge, commit);
    for i := 0 to |seals|
      invariant prover.sealedEpochs == seals[..i] && fresh(prover) && prover.merge == merge && prover.commit == commit
    {
      var _ := prover.Consolidate(seals[i]);
    }
    assert seals[..|seals|] == seals;
    r := prover.ProveInclusion(stmt, w);
    AcceptedIffOneSeal(merge, commit, seals, stmt, w);
  }
}
