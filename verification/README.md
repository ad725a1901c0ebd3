# Nexo, verified

A Dafny model of the stateful cores of the Nexo repository, with proofs of what they keep and promise. Check it
with `dafny verify dfyconfig.toml` (Dafny 4.11).

| Component | Files |
|---|---|
| Merkle Mountain Range: carry-loop append, position lookups, inclusion proofs, epochs | `Binary`, `MmrSpec`, `MmrRoot`, `MmrLookup`, `MmrRuns`, `Mmr` |
| Stub prover over sealed epochs | `ZkProver` |
| Anti-replay window of a session | `AntiReplay` |
| NEX: import expansion, evaluation, flow of evidence strength | `NexAst`, `ProgramText`, `Imports`, `ImportOrder`, `Evaluator`, `EvidenceFlow`, `StatementEffects`, `Nex` |
| Provenance pipeline: digestor, consumer, sealers, vetoes, write-ahead log and its replay | `Digestor`, `Pipeline`, `WalRecord`, `WalStore`, `WalFaithful`, `WalSessions`, `PipelineRestart`, `PipelineDelivery` |
| Rate limiter with a concurrent sweeper | `RateLimiter`, `SweepRuns` |
| Memory-mapped log and its recovery | `MmapLog` |
| Cortex knowledge table and REM cycles | `KnowledgeTable`, `Forgetting` |
| Peer trust ring | `TrustRing` |

How the model is built:

- What the program updates in place is a class here (`Mmr`, `SessionState`, `Expander`, `WalStore`, `WalBuffer`,
  `Digestor`, `KnowledgeTable`, `CortexModule`, `PeerState`, `StubProver`). Each method's contract equates its whole new
  state with a function of the old one, and the properties are proved of those functions, over whole runs.
- An MMR node is addressed by its height h and index k: it covers leaves k*2^h to (k+1)*2^h - 1. Array positions, parents,
  siblings and peaks are arithmetic on (h, k), independent of the append loop; the proofs connect the two.
- SHA-256, BLAKE3, UUID hashing and the source-key hash are function parameters. Nothing relies on collision resistance.
- Threads are interleaved steps: `Pipeline` and `RateLimiter` quantify over every sequence of steps.
- Files are byte sequences, directories are a finite map from path to parsed program or error, clocks are natural numbers
  that never decrease, and the host's answer to `batch_forget` is a parameter of each packet.

## What the proofs found

These are properties the design or its documentation suggests that the code meets only under a condition. Each is
stated with the exact condition.

- Inclusion proofs (`ProofsVerifyIffPowerOfTwo`): the co-path stops at the peak over the leaf, while the epoch root bags
  all peaks, so generated proofs verify against the epoch root for every leaf exactly when the leaf count is a power of two.
- Sealed proofs (`SealedProofAccepted`): the prover's verdict does not depend on the claimed leaf index or nullified flag.
- Log sync, new log (`FaithfulIffNoWriteAfterSync`): `sync` leaves the file position at byte 32 of the header. On a log created
  in this session, replay gives back the logged leaves, for all contents, exactly when nothing is appended after the first sync.
- Log sync, reopened log (`ReopenedFaithfulIffFewFinalSyncs`): the file is open for appending, so every sync puts eight bytes at
  its end. Replay is faithful, on every log left by appending sessions and for all contents, exactly when nothing is
  appended after a sync and there are fewer than eight syncs.
- Restart (`RestartRebuildsIffOrderly`): vetoes are logged as leaf records, and every external seal syncs the log. For a
  schedule of the threads that starts on a fresh log and leaves the consumer idle, a restart rebuilds the range's leaves,
  whatever is fed and hashed, exactly when no veto was logged and no record was logged after a seal's sync.
- Heartbeat seals (`SealsLoggedIffNoneByConsumer`): the log gets every seal, in order, exactly when the consumer never sealed
  an epoch for a heartbeat.
- Suppression (`ShutdownIsHeardIff`): everything received while suppressed is dropped, so a burst stops the loop exactly when
  a shutdown is among its events, or from 819 events on among its last 203.
- Mapped log (`RecoveryFindsAllIffNoneEmpty`): an empty payload ends the recovery scan, so from zeroed memory recovery finds
  everything exactly when no payload is empty.
- Mapped log over old bytes (`AppendAfterRecovery`): after a recovery and any run of non-empty appends, the next recovery ends at
  the session's cursor exactly when the old bytes at that cursor do not form an intact frame; `StaleFrameRevived` is a case.
- Forgetting (`SparedIffResonant`): decay can mark an entry with h hits at some time exactly when h is below 107.
- The host's answer (`RemKeepsTableIff`): an answer above the number of fragments sent reaches the buffer's padding. The table
  stays in order exactly when it is left empty or full.
- Silence (`SilenceKeepsRangeIffNoWrap`): a very long silence wraps the 16-bit subtraction and leaves the score range.

## Model

| member | source | states |
|---|---|---|
| MmrSpec.NodeCount | nexoia-core/epoch_mmr/src/mmr.rs:156-196 | n appends make exactly 2n - popcount(n) nodes |
| MmrSpec.NodePosClosedForm | nexoia-core/epoch_mmr/src/mmr.rs:392-417 | the k-th leaf comes at 2k - popcount(k), as a case of a closed form for every node |
| MmrSpec.NodeIsAt | nexoia-core/epoch_mmr/src/mmr.rs:156-196 | every node of every complete block is stored at its closed-form position, with the hash of that block and its height |
| MmrSpec.AddressOf | nexoia-core/epoch_mmr/src/mmr.rs:156-196 | conversely every array slot is the position of an existing node |
| MmrSpec.AddressUnique | nexoia-core/epoch_mmr/src/mmr.rs:156-196 | no two nodes share a position |
| MmrSpec.PeaksAreOneBits | nexoia-core/epoch_mmr/src/mmr.rs:164-192 | the peaks are exactly the one-bits of the leaf count, in strictly decreasing height |
| MmrSpec.BlockRootIsMerkleRoot | nexoia-core/epoch_mmr/src/mmr.rs:178-186 | a node's hash is the recursive Merkle root of its own power-of-two block of leaves and depends on nothing else |
| MmrSpec.PeakIffNoSibling | nexoia-core/epoch_mmr/src/mmr.rs:356-376 | a node is a peak exactly when its sibling does not exist |
| MmrSpec.PathReachesPeak | nexoia-core/epoch_mmr/src/mmr.rs:325-353 | folding a node's co-path gives the hash of the peak above it, one entry per level |
| MmrSpec.PathGrows | nexoia-core/epoch_mmr/src/mmr.rs:325-353 | the co-path taken before appends is a prefix of the one taken after them |
| MmrSpec.NodesStable | nexoia-core/epoch_mmr/src/mmr.rs:109-113 | later leaves never change what was stored for earlier ones |
| MmrSpec.NodesPrefix | nexoia-core/epoch_mmr/src/mmr.rs:109-113 | the array only ever grows by extension |
| MmrRoot.RootOfRangeAndBlock | nexoia-core/epoch_mmr/src/mmr.rs:233-240 | a range followed by a block smaller than its peaks has for root the root of the range merged with the Merkle root of the block |
| MmrRoot.RootOfBlock | nexoia-core/epoch_mmr/src/mmr.rs:225-240 | a range of 2^h leaves has the root of the perfect Merkle tree over them |
| MmrRoot.RootIsRangeRoot | nexoia-core/epoch_mmr/src/mmr.rs:200-240 | every root is the merge of the Merkle roots of the perfect blocks of its leaves, split off smallest last, so every peak and every leaf enters it |
| MmrLookup.ProbeNeverFindsStranger | nexoia-core/epoch_mmr/src/mmr.rs:356-376 | a slot of equal height at distance 2^(h+1)-1 can only be the node's sibling |
| MmrLookup.FindSiblingIsExact | nexoia-core/epoch_mmr/src/mmr.rs:356-376 | in every reachable array the probe finds the true sibling exactly when it is stored, and nothing exactly for a peak |
| MmrLookup.FindParentIsExact | nexoia-core/epoch_mmr/src/mmr.rs:379-388 | for two stored siblings the lookup finds their parent, whose hash merges them in order |
| MmrRuns.RunRootAndNodes | nexoia-core/epoch_mmr/src/mmr.rs:156-280 | over any interleaving of appends, nullifications and seals the root depends on the appended hashes only, and the array is extended |
| MmrRuns.ProofSurvivesRun | nexoia-core/epoch_mmr/src/mmr.rs:257-323 | a co-path made earlier still folds to its peak's hash after any run, nullification included |
| MmrRuns.ProofVerifiesIffPeakIsRoot | nexoia-core/epoch_mmr/src/mmr.rs:298-353 | a generated proof verifies against a root exactly when the peak above the leaf has that hash |
| MmrRuns.SinglePeakIsRoot | nexoia-core/epoch_mmr/src/mmr.rs:233-240 | with a power-of-two leaf count the only peak is the root |
| MmrRuns.ProofsVerifyIffPowerOfTwo | nexoia-core/epoch_mmr/src/mmr.rs:292-323 | all generated proofs of n leaves verify against the epoch root if and only if n is a power of two |
| Mmr.Mmr.constructor | nexoia-core/epoch_mmr/src/mmr.rs:140-148 | a new range has no leaves and starts at epoch 0 |
| Mmr.Mmr.AppendLeaf | nexoia-core/epoch_mmr/src/mmr.rs:156-196 | the carry loop leaves exactly the array and peaks of one more leaf, merging once per trailing one-bit of the old count |
| Mmr.CarryStep | nexoia-core/epoch_mmr/src/mmr.rs:174-191 | each merge of equal peaks keeps the half-carried shape one level up |
| Mmr.CarryDone | nexoia-core/epoch_mmr/src/mmr.rs:166-192 | when the last two peaks differ in height the shape is the finished one |
| Mmr.Mmr.Seal | nexoia-core/epoch_mmr/src/mmr.rs:207-222 | refused exactly on an empty range; otherwise the seal carries root, counts and the old epoch, and only the epoch advances |
| Mmr.Mmr.CurrentRoot | nexoia-core/epoch_mmr/src/mmr.rs:225-231 | the root of the leaf sequence, or none without leaves |
| Mmr.Mmr.BagPeaks | nexoia-core/epoch_mmr/src/mmr.rs:233-240 | the left fold of the peaks' Merkle roots |
| Mmr.Mmr.GetLeaf | nexoia-core/epoch_mmr/src/mmr.rs:245-255 | the original hash of the leaf and whether it was nullified, or none out of bounds |
| Mmr.Mmr.NullifyLeaf | nexoia-core/epoch_mmr/src/mmr.rs:271-280 | only the set of nullified indices changes; out of bounds is refused |
| Mmr.Mmr.GenerateProof | nexoia-core/epoch_mmr/src/mmr.rs:298-323 | the leaf's hash, its true co-path and the current root |
| Mmr.Mmr.CollectSiblings | nexoia-core/epoch_mmr/src/mmr.rs:326-353 | climbing by array lookups yields exactly the co-path up to the peak |
| Mmr.Mmr.LeafNodePos | nexoia-core/epoch_mmr/src/mmr.rs:413-429 | the position of the leaf's node, or none out of bounds |
| Mmr.LeafStored | nexoia-core/epoch_mmr/src/mmr.rs:418-428 | the slot at 2k - popcount(k) exists, has height 0 and holds the k-th hash |
| Mmr.VerifyProof | nexoia-core/epoch_mmr/src/mmr.rs:50-60 | true exactly when the co-path folds the leaf hash to the given root |
| ZkProver.StubProver.Consolidate | nexoia-core/zk_prover/src/lib.rs:106-116 | the seal is registered after all earlier ones and reported ready |
| ZkProver.RecomputeRoot | nexoia-core/zk_prover/src/lib.rs:207-217 | the hash loop is the fold of the co-path |
| ZkProver.StubProver.ProveInclusion | nexoia-core/zk_prover/src/lib.rs:118-145 | unknown epochs first, then co-paths that miss the root, are refused; everything else is accepted |
| ZkProver.StubProver.ProveNullification | nexoia-core/zk_prover/src/lib.rs:147-158 | refused without the flag, otherwise the verdict on inclusion |
| ZkProver.AcceptedIffOneSeal | nexoia-core/zk_prover/src/lib.rs:123-134 | a statement is accepted if and only if one and the same consolidated seal has its root and its epoch and the witness folds to that root |
| ZkProver.ConsolidateAndProve | nexoia-core/zk_prover/src/lib.rs:106-145 | after a run of consolidations an accepted statement stems from one of the seals given |
| ZkProver.SealedProofAccepted | nexoia-core/zk_prover/src/lib.rs:88-145 | the witness generated when the epoch was sealed is accepted, now and after later seals, exactly when the leaf's peak is the root; always for powers of two |
| AntiReplay.ShiftWindowLeft | crates/host/src/network/session.rs:130-154 | for every amount the in-place loops move bit p to p + bits, drop what leaves the window and clear the low positions |
| AntiReplay.ShiftedWindow | crates/host/src/network/session.rs:138-153 | shifting word by word with carries is shifting the 1024 bits as a whole |
| AntiReplay.GetBit | crates/host/src/network/session.rs:157-164 | whether the position is set; never past the window |
| AntiReplay.SetBit | crates/host/src/network/session.rs:167-173 | exactly that position is added, and nothing past the window |
| AntiReplay.ClearWindow | crates/host/src/network/session.rs:131-134 | no position is left set |
| AntiReplay.SessionState.CheckCounter | crates/host/src/network/session.rs:78-104 | accepts a counter exactly when it was never accepted and is above the highest accepted minus 1024; the bitmap then again denotes the accepted counters in the window |
| AntiReplay.AfterIsHistory | crates/host/src/network/session.rs:78-104 | over any run the remembered set is the counters of the accepted calls and the high mark is the highest of them |
| AntiReplay.AcceptedExactlyOnce | crates/host/src/network/session.rs:72-104 | over any run a call is accepted exactly when no earlier call accepted the same counter or one 1024 or more above it |
| Imports.Expander.ExpandStatements | crates/host/src/nex/eval.rs:467-492 | the loops compute the depth-first walk over the imports and its bodies, with the imports and the body as they stand in the text; the stack is restored and the visited set grows by the files loaded |
| Imports.Expander.LoadImport | crates/host/src/nex/eval.rs:494-541 | a cycle, an already loaded, a missing, an unreadable or unparsable file is answered as the walk says, and the stack is restored also on error |
| Imports.ExpandProgram | crates/host/src/nex/eval.rs:238-248 | the expansion from an empty stack and visited set, terminating on every finite file map |
| ProgramText.ProgramIsText | crates/host/src/nex/eval.rs:473-481 | the body is exactly the statements that import nothing, the names exactly the paths of the imports, both in text order |
| ProgramText.SpliceSnoc | crates/host/src/nex/eval.rs:487-490 | appending a body to spliced texts splices one more text, place by place |
| ImportOrder.VisitIsSound | crates/host/src/nex/eval.rs:501-525 | every error names a fault that is really there: a true import cycle, or a reachable file that is missing, unreadable or unparsable |
| ImportOrder.VisitIsTopological | crates/host/src/nex/eval.rs:494-541 | the files newly loaded are distinct, not loaded before, and each follows its imports |
| ImportOrder.ExpansionIsTopological | crates/host/src/nex/eval.rs:467-541 | a successful expansion is, statement by statement and without imports, the text of each reachable file exactly once, after the files it imports, and then the program's own text |
| ImportOrder.EdgesAreText | crates/host/src/nex/eval.rs:485-487 | a file imports exactly what its text names, resolved from its own directory |
| ImportOrder.EarlierImportsFirst | crates/host/src/nex/eval.rs:485-488 | imports are loaded in text order: all that the first n reach comes before everything else |
| ImportOrder.ExpansionSucceedsIffWellFormed | crates/host/src/nex/eval.rs:467-541 | expansion succeeds if and only if every reachable file can be read and parsed and none reaches itself |
| Nex.ExecuteInDir | crates/host/src/nex/eval.rs:230-236 | a program with a well-formed import graph runs as the text of its reachable files in dependency order followed by its own; any other is refused with a true reason |
| Evaluator.MinStrength | crates/host/src/provenance/compose.rs:25-53 | all 25 table entries are the weaker of the two strengths |
| Evaluator.WrappingAdd | crates/host/src/nex/eval.rs:694-754 | the 64-bit value congruent to the sum |
| Evaluator.Execute | crates/host/src/nex/eval.rs:250-405 | the statement loop computes the run, and the first error ends it |
| Evaluator.ExecuteStatement | crates/host/src/nex/eval.rs:255-396 | one statement's effect, with the loop over a conditional block executing only its actions |
| Evaluator.FirstErrorWins | crates/host/src/nex/eval.rs:255-341 | a run that fails on a prefix fails with that error, whatever follows |
| StatementEffects.StatementDoesAsWritten | crates/host/src/nex/eval.rs:255-396 | in every successful run each statement does what its text says: a conditional traces, in order, one entry per action of the block its condition picks, an action exactly one, a derivation binds the sum or the concatenation left then right, an assertion holds of all sources |
| StatementEffects.ConditionReadsText | crates/host/src/nex/eval.rs:408-465 | a condition is met exactly when the sources flowing into its identifiers meet each comparison as written, joined by And or Or |
| StatementEffects.BlockTracesActs | crates/host/src/nex/eval.rs:360-394 | a block adds one entry per action, in text order, with its identifier, action and requirement, and nothing for other statements |
| StatementEffects.RunFailsAsWritten | crates/host/src/nex/eval.rs:255-396 | a failing run fails at the first statement that cannot do what it says, with the error it deserves; an assertion some source of which is too weak fails as that assertion |
| EvidenceFlow.StrengthIsMinimum | crates/host/src/nex/eval.rs:262-304 | in every successful run a binding's strength is the minimum over all declarations and attestations flowing into it, as read off the program text |
| EvidenceFlow.AttestationIsEarned | crates/host/src/nex/eval.rs:584-607 | in a successful run an attestation was of a Signed binding, with at least two distinct witnesses and an external reference |
| EvidenceFlow.GrantedIffEverySourceMeets | crates/host/src/nex/eval.rs:319-388 | an action, direct or in a conditional block, is granted if and only if every source it relies on meets its requirement |
| EvidenceFlow.AnchoredGrantIsEarned | crates/host/src/nex/eval.rs:319-388 | a granted action requiring Anchored rests only on anchored declarations and earned attestations |
| EvidenceFlow.EveryActionIsEarned | crates/host/src/nex/eval.rs:250-405 | every action in the final trace was decided by some statement, and is granted if and only if every source that had flowed into it meets its requirement |
| EvidenceFlow.ConditionIsMonotone | crates/host/src/nex/eval.rs:408-465 | a condition asking only for minimal strengths stays met when bindings are added or evidence gets stronger |
| WalRecord.LittleEndianRoundTrip | nexoia-core/epoch_mmr/src/wal.rs:104-119 | an integer survives being written as k little-endian bytes |
| WalRecord.BytesRoundTrip | nexoia-core/epoch_mmr/src/wal.rs:114-119 | bytes survive being read as an integer |
| WalRecord.Encode | nexoia-core/epoch_mmr/src/wal.rs:104-112 | the buffer filled field by field is the record's 64-byte layout |
| WalRecord.DecodeEncoded | nexoia-core/epoch_mmr/src/wal.rs:103-127 | decoding an encoded record gives the record back |
| WalRecord.DecodedIff | nexoia-core/epoch_mmr/src/wal.rs:114-127 | a buffer decodes to a record if and only if it is that record's layout, except for bytes 1 to 7, which are never read |
| WalStore.WalStore.Open | nexoia-core/epoch_mmr/src/wal.rs:155-209 | an existing file is opened for appending with the counter after its last record; a new one holds just the header |
| WalStore.WalStore.Append | nexoia-core/epoch_mmr/src/wal.rs:219-239 | one record is written at the file position with the old counter as timestamp, and the counter steps, wrapping |
| WalStore.WalStore.SyncToDisk | nexoia-core/epoch_mmr/src/wal.rs:256-265 | the counter is written into the header, and the file position stays behind it |
| WalStore.WalStore.Replay | nexoia-core/epoch_mmr/src/wal.rs:273-317 | exactly the decodable leaf chunks of the file, header included, are appended to the range in order and counted; the counter follows the last chunk |
| WalSessions.AppendingSessionsAreFaithful | nexoia-core/epoch_mmr/src/wal.rs:155-328 | after any number of sessions, of which the first may end in syncs and the others only append, replay skips the four header chunks and all other records and gives back exactly the logged leaves, and the record count is the number of records logged |
| WalFaithful.FaithfulIffNoWriteAfterSync | nexoia-core/epoch_mmr/src/wal.rs:256-265 | sessions of given kinds of operations replay faithfully for all contents if and only if no append follows a sync |
| WalFaithful.WriteAfterSyncCanFail | nexoia-core/epoch_mmr/src/wal.rs:256-265 | for every other kind of session some contents lose or invent a leaf |
| WalSessions.RecoveredStampIsFresh | nexoia-core/epoch_mmr/src/wal.rs:155-177 | with one writer and no overflow of the counter, the counter recovered after any number of such sessions is above every timestamp in the file |
| WalSessions.ReplayedStampIsFresh | nexoia-core/epoch_mmr/src/wal.rs:307-314 | opening and replaying a log left by appending sessions and one with fewer than eight final syncs puts the counter above every timestamp in it |
| WalSessions.ReopenedFaithfulIffFewFinalSyncs | nexoia-core/epoch_mmr/src/wal.rs:155-305 | sessions of given kinds of operations on a reopened log replay faithfully, on every log left by appending sessions and for all contents, if and only if no append follows a sync and there are fewer than eight syncs |
| WalSessions.OtherSessionsCanFail | nexoia-core/epoch_mmr/src/wal.rs:256-305 | for every other kind of session some log and some contents make replay invent a leaf |
| Digestor.Digestor.Run | nexoia-core/bio_loop/src/digest.rs:111-157 | whatever other threads feed, take from the channel or stop in between, the loop computes the live state, and it ends only when stopped or when the membrane is empty and abandoned |
| Digestor.Digestor.DigestEvent | nexoia-core/bio_loop/src/digest.rs:167-214 | data is counted and hashed, every tenth tick asks for a seal, a shutdown stops the loop |
| Digestor.BurstKeepsLast203 | nexoia-core/bio_loop/src/digest.rs:120-155 | a burst under 819 events is digested whole; a larger one loses all but its last 203, in one suppression |
| Digestor.DataBurst | nexoia-core/bio_loop/src/digest.rs:111-214 | of F >= 819 data events exactly F - 203 are dropped and the hashes of the last 203 are sent in order |
| Digestor.ShutdownIsHeardIff | nexoia-core/bio_loop/src/digest.rs:144-212 | a burst stops the loop if and only if a shutdown is among the events that suppression spares |
| Digestor.BurstSends | nexoia-core/bio_loop/src/digest.rs:167-212 | a burst sends, in order, one hash per data event and one seal request per heartbeat of a tenth tick among the events spared and before a shutdown, and nothing else |
| Pipeline.InvariantAlways | nexoia-core/supervisor/src/supervisor.rs:294-362 | in every interleaving: log follows range, hashes follow data, seals advance, suppressions are apart, counters match, channels are bounded |
| Pipeline.LogFollowsRangeKept | nexoia-core/supervisor/src/supervisor.rs:297-313 | the consumer's log records carry consecutive indices and the range's own hashes, lagging by at most one |
| Pipeline.HashesFollowDataKept | nexoia-core/bio_loop/src/digest.rs:137-196 | leaves and waiting hashes are the hashes of distinct accepted data events in order of acceptance |
| Pipeline.SealsAdvanceKept | nexoia-core/supervisor/src/supervisor.rs:500-512 | sealed epochs are consecutive, so none is sealed twice in a session |
| Pipeline.SealsCarryTheirRoots | nexoia-core/supervisor/src/supervisor.rs:500-512 | in every interleaving each logged seal, and the one in hand, carries the root of the leaves there were when its epoch was sealed, prefixes of the final leaves that never shrink from epoch to epoch |
| Pipeline.SizeIsLeafCount | nexoia-core/supervisor/src/supervisor.rs:500-512 | that recorded size is the leaf count the sealing step found |
| Pipeline.VetoesAreLogged | nexoia-core/supervisor/src/supervisor.rs:345-353 | in every interleaving the log holds every veto once, in order, with the vetoed hash |
| Pipeline.SuppressionsApartKept | nexoia-core/bio_loop/src/digest.rs:120-134 | two entries into suppression are separated by an observed backlog under 204 |
| Pipeline.CountersMatchKept | nexoia-core/bio_loop/src/digest.rs:143-181 | every received event is dropped or digested, never both, and the counters count them |
| Pipeline.SealsLoggedIffNoneByConsumer | nexoia-core/supervisor/src/supervisor.rs:314-322 | in every interleaving the seal records, and one about to be logged, are all seals in order if and only if the consumer never sealed for a heartbeat |
| PipelineRestart.OrderlyRunRebuilds | nexoia-core/supervisor/src/supervisor.rs:252-258 | when the consumer is idle, no veto was logged and nothing was logged after a sync, replaying the log file gives the range's leaves |
| PipelineRestart.RestartRebuildsIffOrderly | nexoia-core/supervisor/src/supervisor.rs:345-353 | for a schedule leaving the consumer idle, restarts rebuild the leaves whatever is fed, hashed and vetoed if and only if no veto and no record after a seal's sync was logged |
| PipelineRestart.RecordAfterSyncMiscounts | nexoia-core/supervisor/src/supervisor.rs:500-512 | a schedule that logs a record after a seal's sync has contents for which a restart finds the wrong number of leaves |
| PipelineDelivery.TurnsAreDrain | nexoia-core/bio_loop/src/digest.rs:120-159 | the digestor's steps in the pipeline, taken in turn with nobody feeding, end with the status and the channel its own loop ends with, and touch neither range nor log |
| PipelineDelivery.BurstIsDelivered | nexoia-core/supervisor/src/supervisor.rs:289-313 | from any calm state a burst of any size reaches the range and the log: of the first 1024 payloads all, or from 819 on the last 203, once and in order |
| PipelineDelivery.BurstsSurviveRestart | nexoia-core/supervisor/src/supervisor.rs:289-313 | after bursts of any sizes, each drained before the next and at least one payload getting through, and a seal: the log holds one record per payload that got through, with consecutive indices, then the root of their hashes, and replaying the file gives exactly those hashes in order |
| RateLimiter.TrimExpired | crates/host/src/defense.rs:83-91 | the popping loop removes the longest expired prefix |
| RateLimiter.TrimIsSound | crates/host/src/defense.rs:83-91 | on a sorted log only expired timestamps go, and at the current time all of them |
| RateLimiter.NextKeepsCounter | crates/host/src/defense.rs:121-217 | every step keeps the shared counter equal to tracked sources, reservations not inserted and removals not subtracted, and within the limit |
| RateLimiter.NextKeepsLogs | crates/host/src/defense.rs:121-220 | every step keeps each source's log the unexpired end of its history |
| RateLimiter.AlwaysExactAndSpaced | crates/host/src/defense.rs:121-220 | over all runs the counter is exact and never underflows, tracked sources stay within the limit, and requests max_requests apart are a window apart in time |
| SweepRuns.SweepStepKeepsLive | crates/host/src/defense.rs:130-141 | in every run, sweeping a shard keeps a tracked source if and only if some acceptance of its history lies inside the window that ends at the sweep's time |
| SweepRuns.WholeSweepLeavesLiveSources | crates/host/src/defense.rs:127-145 | in every interleaving, with checks going on meanwhile, a finished sweep leaves exactly the sources accepted inside the window that ended when it began, and the counter is their number plus the reservations |
| RateLimiter.CheckDoesAsDecided | crates/host/src/defense.rs:168-220 | a check accepts, reserves or leaves everything but an expired prefix alone exactly as it decided, and never touches another source's acceptances |
| RateLimiter.RefusedIffLimitReached | crates/host/src/defense.rs:168-207 | in every reachable state a check changes neither acceptances nor reservations exactly when max_requests acceptances of the tracked source lie inside the current window, or for an untracked one the source limit is reached |
| RateLimiter.CallIsSlidingWindow | crates/host/src/defense.rs:168-220 | in every reachable state an uninterrupted call accepts the request, and then tracks its source, if and only if its key is not too long, fewer than max_requests of its acceptances lie inside the window, and it is tracked or there is room; no other source's acceptances change |
| RateLimiter.OverlongIsTurnedAway | crates/host/src/defense.rs:168-175 | a key that is too long, and every key when no requests are allowed, leaves no trace at all |
| MmapLog.WalBuffer.RecoverCursor | crates/host/src/storage.rs:44-84 | the scanning loop ends at the first position without an intact frame |
| MmapLog.WalBuffer.constructor | crates/host/src/storage.rs:16-41 | a file of any size and content is resized, mapped and recovered |
| MmapLog.WalBuffer.AppendDelta | crates/host/src/storage.rs:87-115 | over memory of any content: refused exactly when the frame does not fit; otherwise one frame is written at the cursor and nothing else changes |
| MmapLog.AppendAllWrites | crates/host/src/storage.rs:87-115 | a run of appends writes exactly the frames that still fit, one behind the other, and leaves the rest of the memory alone |
| MmapLog.WalBuffer.Reset | crates/host/src/storage.rs:128-132 | memory of any content becomes zeros with the cursor at the start |
| MmapLog.RecoveryFindsAllIffNoneEmpty | crates/host/src/storage.rs:16-115 | on a new file, after any run of appends mapping the file again gives the payloads before the first empty one, so the session's memory and cursor in full if and only if none is empty |
| MmapLog.MappedUnchanged | crates/host/src/storage.rs:24-30 | a file of the fixed size is mapped as it is |
| MmapLog.TornLastFrame | crates/host/src/storage.rs:68-77 | with a damaged last payload or hash, recovery ends after the previous frame with its payloads intact |
| MmapLog.AppendAfterRecovery | crates/host/src/storage.rs:29-112 | over memory of any content, after a recovery and any run of non-empty appends the next scan yields the recovered payloads, the new ones and whatever the old bytes behind them form; it ends at the session's cursor if and only if those old bytes form no intact frame |
| MmapLog.StaleFrameRevived | crates/host/src/storage.rs:44-115 | overwriting a torn frame by one of the same size makes recovery yield the frame behind it again |
| KnowledgeTable.ScoreAtMost2550 | crates/wasm_cortex/src/knowledge.rs:184-204 | no entry scores above 2550, whatever the time |
| KnowledgeTable.ScoreCalibration | crates/wasm_cortex/src/knowledge.rs:36-41 | the scores the threshold was calibrated by, and that the maximum takes 255 hits |
| KnowledgeTable.WeakestIsLeast | crates/wasm_cortex/src/knowledge.rs:145-158 | the replacement candidate has the least score of its kind, and there is none exactly when every slot is dirty |
| KnowledgeTable.KnowledgeTable.FindIndex | crates/wasm_cortex/src/knowledge.rs:97-104 | the first slot holding the fragment, or none |
| KnowledgeTable.KnowledgeTable.FindWeakest | crates/wasm_cortex/src/knowledge.rs:145-158 | the first slot of least score among those considered |
| KnowledgeTable.KnowledgeTable.InsertOrUpdate | crates/wasm_cortex/src/knowledge.rs:112-168 | the table in place becomes the recorded one |
| Forgetting.InsertRecords | crates/wasm_cortex/src/knowledge.rs:112-168 | one slot shows the fragment as just seen, reinforced if known; all others are untouched; something is evicted only from a full table, and nothing would give way before it |
| KnowledgeTable.KnowledgeTable.Decay | crates/wasm_cortex/src/knowledge.rs:222-242 | every slot in place becomes its decayed entry |
| KnowledgeTable.KnowledgeTable.CollectDirty | crates/wasm_cortex/src/knowledge.rs:246-259 | the buffer receives the dirty fragments in slot order, as many as fit, and nothing else in it changes |
| KnowledgeTable.KnowledgeTable.ClearDirty | crates/wasm_cortex/src/knowledge.rs:263-276 | the processed fragments are unmarked, or freed when their strength is gone |
| KnowledgeTable.CortexModule.RemCycle | crates/wasm_cortex/src/lib.rs:231-247 | decay, collection into the padded buffer, the host's answer and clearing, as one change of the table |
| Forgetting.RemKeepsTableIff | crates/wasm_cortex/src/lib.rs:236-243 | a cycle keeps the table in order if and only if the host claims no more than it was sent, or the table is left empty or full |
| KnowledgeTable.CortexModule.IngestPacket | crates/wasm_cortex/src/lib.rs:288-301 | one packet counts, is recorded, and triggers a cycle at every tenth count |
| Forgetting.RunKeepsTable | crates/wasm_cortex/src/knowledge.rs:112-276 | over any run of packets and cycles with honest hosts non-zero fragments stay distinct, the count equals the occupied slots, free slots are blank, strengths fit a byte |
| Forgetting.EmptyTable | crates/wasm_cortex/src/knowledge.rs:82-94 | the initial table meets those invariants |
| Forgetting.CompleteCycleLeavesNothingDirty | crates/wasm_cortex/src/lib.rs:231-247 | after a cycle whose host processes everything no slot is dirty |
| Forgetting.CycleProcessesFirstDirty | crates/wasm_cortex/src/lib.rs:231-247 | a cycle with an honest host frees or unmarks exactly the first dirty slots, as many as the host says it processed; every other slot is its decayed self |
| Forgetting.SparedIffResonant | crates/wasm_cortex/src/knowledge.rs:222-242 | decay never marks a clean entry of h hits, whatever its strength and age, if and only if h is at least 107 |
| Forgetting.RunKeepsResonantClean | crates/wasm_cortex/src/lib.rs:231-301 | over any run no entry with 107 hits is marked |
| Forgetting.ResonantLostOnlyByEviction | crates/wasm_cortex/src/lib.rs:288-301 | such an entry is lost only when a new fragment evicts it from a full table |
| Forgetting.IngestStartsFading | crates/wasm_cortex/src/lib.rs:288-301 | a fragment recorded with at most 105 earlier hits is just seen, with the greater of old and new strength, even when a cycle runs at once |
| Forgetting.RunFades | crates/wasm_cortex/src/knowledge.rs:222-242 | while unreinforced a fragment that keeps its slot has exactly its strength halved once per cycle |
| Forgetting.UnreinforcedIsForgotten | crates/wasm_cortex/src/lib.rs:231-301 | 27 complete cycles without reinforcement leave no trace of a fragment with at most 106 hits, whatever else is recorded and across the counter's wrap |
| TrustRing.PeerState.Record | nexoia-core/gossip/src/peer.rs:106-120 | the score becomes that of exactly the last 64 samples, in range, and the connection follows it, whatever decays or admissions came before |
| TrustRing.PeerState.RecalculateScore | nexoia-core/gossip/src/peer.rs:142-163 | the count over the ring is the truncated percentage over the window, and the clamp never bites |
| TrustRing.FilledAfterWrap | nexoia-core/gossip/src/peer.rs:106-111 | the full ring, read from its head, is the last 64 samples in order |
| TrustRing.BannedIff48Bad | nexoia-core/gossip/src/peer.rs:160-172 | a peer with 64 good or bad samples is banned if and only if at least 48 are bad |
| TrustRing.StandingByCounts | nexoia-core/gossip/src/peer.rs:142-172 | banned if and only if bad samples exceed good ones by half the window, suspended if and only if they exceed them by less, otherwise active or handshaking as verified |
| TrustRing.UniformScores | nexoia-core/gossip/src/peer.rs:160-162 | samples of one kind alone score 100 or -100, however few they are |
| TrustRing.OldSamplesAreForgotten | nexoia-core/gossip/src/peer.rs:135-141 | after 64 more samples the earlier history has no influence |
| TrustRing.PeerState.ApplySilenceDecay | nexoia-core/gossip/src/peer.rs:124-131 | one point per thousand silent ticks is taken off in 16-bit arithmetic, without touching the samples |
| TrustRing.SilenceKeepsRangeIffNoWrap | nexoia-core/gossip/src/peer.rs:124-131 | silence keeps the score in range and never raises it if and only if the subtraction does not wrap, and then costs one point per thousand ticks down to the minimum |
| TrustRing.PeerState.AdmitAfterVdf | nexoia-core/gossip/src/peer.rs:184-190 | a paid handshake activates the peer with a score of 10 and leaves the samples alone |

## Left out

- Hash functions, signatures, key exchange and encryption: only their place as functions of their inputs is modelled.
- Widths: counters of leaves, epochs, packets accepted or dropped, and strikes up to their stated limits do not wrap; the
  log's timestamp counter, the packet counter and the trust score's 16 bits do, as in a release build.
- WalStore.WalStore.Append: the counter is taken before the file lock; with several writers file order and timestamp order
  may differ, so the timestamp results are for one writer. Failing writes are not modelled.
- WalStore.WalStore.RecordCount: its contract is the size formula; that it counts the logged records is part of
  WalSessions.AppendingSessionsAreFaithful.
- WalSessions.RecoveredStampIsFresh: sessions that sync a reopened log leave stamps behind the last record, so the counter
  recovered by opening alone may be wrong after them; WalSessions.ReplayedStampIsFresh covers the replay that follows.
- Pipeline.InvariantAlways: threads are steps on one state and log writes succeed; the consolidation worker, the prover's
  queue and the atomic counters of the supervisor play no part.
- PipelineRestart.RestartRebuildsIffOrderly: records are stamped in file order, and the session is the first one on its log;
  later ones are treated at the level of the log, in `WalSessions`.
- RateLimiter.AlwaysExactAndSpaced: shards and deques are values in one state, because checks and the sweeper interleave
  inside one call; the time is read and the log changed in the same step, under the shard's lock.
- AntiReplay.SessionState.CheckCounter: a word is a sequence of 64 bits; the session's activity time is left out, and so is
  the session manager.
- Imports.Expander.LoadImport: path resolution and parsing are parameters; reading a file has no effect on others.
- Evaluator.Execute: `On` and reactive blocks are carried along without contents, as the evaluator ignores them; node and
  decision identifiers are functions of what they hash.
- ZkProver.StubProver.ProveInclusion: the commitment is a parameter, and zeroing of the witness is left out.
- MmapLog.WalBuffer.AppendDelta: flushing, and writing the mapping back to its file.
- TrustRing.PeerState.Record: the peer table with its fixed slots, and `is_trusted`.
- KnowledgeTable.CortexModule.RemCycle: an answer above the buffer's 64 slots traps and is not modelled. The host in
  crates/host/src/ffi.rs answers the number of non-zero ids it was sent, which is all of them.
- KnowledgeTable.CortexModule.IngestPacket: decoding, the contradiction score and the reflex reply, which do not touch the table.
- The five-phase handshake, the float-valued cortex state, confidence and sovereignty formulas, string assembly, disk
  plumbing and console output.
