/** What a restart makes of the pipeline's log: the run's records and syncs applied to a real file, and replayed. */
module PipelineRestart {
  import opened Wrappers
  import opened WalRecord
  import opened WalStore
  import opened WalFaithful
  import opened WalSessions
  import MmrSpec
  import D = Digestor
  import P = Pipeline

  /** The low 64 bits. */
  function AsU64(n: nat): U64 {
    n % 0x1_0000_0000_0000_0000
  }

  function OpOf(e: P.LogEntry): WalOp {
    match e
    case LeafEntry(index, hash, contentId) => Write(Leaf, AsU64(index), hash, AsU64(contentId))
    case SealEntry(epoch, root) => Write(EpochSeal, AsU64(epoch), root, 0)
    case SyncEntry => Sync
  }

  function Ops(wal: seq<P.LogEntry>): (ops: seq<WalOp>)
    ensures |ops| == |wal| && forall i :: 0 <= i < |ops| ==> ops[i] == OpOf(wal[i])
  {
    seq(|wal|, i requires 0 <= i < |wal| => OpOf(wal[i]))
  }

  /** The log file a run leaves behind when it started without one. */
  function LogFile(wal: seq<P.LogEntry>): seq<byte> {
    ApplyAll(CREATED, Ops(wal)).file
  }

  /** Replaying the log file gives the leaves of the range. */
  predicate Rebuilds(s: P.State) {
    Replayed(LogFile(s.wal)) == s.range.leaves
  }

  const FRESH: P.State := P.Start([], 0, [])

  // ----- a run whose log is in order -----

  lemma {:induction false} LoggedIsReplayable(wal: seq<P.LogEntry>)
    ensures LoggedLeaves(Ops(wal)) == P.Replayable(wal)
    decreases |wal|
  {
    if wal != [] {
      LoggedIsReplayable(wal[..|wal| - 1]);
      assert Ops(wal)[..|wal| - 1] == Ops(wal[..|wal| - 1]);
    }
  }

  /** While the consumer is idle, what the consumer and the vetoes logged outnumbers the range's leaves by the vetoes. */
  lemma LoggedAndVetoed(hashers: P.Hashers, steps: seq<P.Step>)
    ensures var s := P.Run(hashers, FRESH, steps);
      s.pending.None? ==>
        && |P.Replayable(s.wal)| == |s.range.leaves| + |P.Vetoes(s.wal)|
        && (P.Vetoes(s.wal) == [] ==> P.Replayable(s.wal) == s.range.leaves)
  {
    hide P.Run, P.Replayable, P.Vetoes, P.Logged;
    assert P.Logged([]) == [] by { NothingLogged(); }
    P.InvariantAlways(hashers, [], 0, [], steps);
    var s := P.Run(hashers, FRESH, steps);
    P.ReplayableCount(s.wal);
  }

  lemma NothingLogged()
    ensures P.Logged([]) == [] && P.SealRecords([]) == []
  {}

  /** With no veto and no record after a sync, a restart rebuilds the range, whatever was hashed. */
  lemma OrderlyRunRebuilds(hashers: P.Hashers, steps: seq<P.Step>)
    requires var s := P.Run(hashers, FRESH, steps); s.pending.None? && P.Vetoes(s.wal) == [] && NoWriteAfterSync(Ops(s.wal))
    ensures Rebuilds(P.Run(hashers, FRESH, steps))
  {
    hide P.Run, P.Replayable, P.Vetoes, NoWriteAfterSync, LoggedLeaves, ApplyAll, Replayed;
    var s := P.Run(hashers, FRESH, steps);
    LoggedAndVetoed(hashers, steps);
    LoggedIsReplayable(s.wal);
    CreatedSessionIsFaithful(Ops(s.wal));
  }

  // ----- the same schedule with other contents -----

  predicate SameEvent(a: D.Event, b: D.Event) {
    a == b || (a.Data? && b.Data?)
  }

  predicate SameStep(a: P.Step, b: P.Step) {
    a == b || (a.Veto? && b.Veto?) || (a.Feed? && b.Feed? && SameEvent(a.event, b.event))
  }

  /** The same steps in the same order, up to the data that is fed and the hashes that are vetoed. */
  predicate SameSchedule(a: seq<P.Step>, b: seq<P.Step>) {
    |a| == |b| && forall i :: 0 <= i < |a| ==> SameStep(a[i], b[i])
  }

  predicate SameEntry(a: P.LogEntry, b: P.LogEntry) {
    KindOf(OpOf(a)) == KindOf(OpOf(b))
  }

  predicate SameMessages(a: seq<D.Message>, b: seq<D.Message>) {
    |a| == |b| && forall i :: 0 <= i < |a| ==> a[i].HashMessage? == b[i].HashMessage?
  }

  predicate SameLog(a: seq<P.LogEntry>, b: seq<P.LogEntry>) {
    |a| == |b| && forall i :: 0 <= i < |a| ==> SameEntry(a[i], b[i])
  }

  /** The states differ in data and hashes only. */
  predicate Alike(s: P.State, t: P.State) {
    && |s.membrane| == |t.membrane| && (forall i :: 0 <= i < |s.membrane| ==> SameEvent(s.membrane[i], t.membrane[i]))
    && s.looked == t.looked && s.digestor == t.digestor
    && SameMessages(s.hashes, t.hashes)
    && |s.range.leaves| == |t.range.leaves|
    && s.pending.Some? == t.pending.Some?
    && s.sealing.Some? == t.sealing.Some? && (s.sealing.Some? ==> s.sealing.value.logged == t.sealing.value.logged)
    && SameLog(s.wal, t.wal)
  }

  lemma ReceiveAlike(h: P.Hashers, g: P.Hashers, s: P.State, t: P.State)
    requires Alike(s, t) && s.membrane != []
    ensures Alike(P.ReceiveNext(h, s), P.ReceiveNext(g, t))
  {}

  predicate LogsSomething(step: P.Step) {
    step.LogLeaf? || step.LogSeal? || step.SyncLog? || step.Veto?
  }

  lemma LogStepAlike(h: P.Hashers, g: P.Hashers, s: P.State, t: P.State, step: P.Step, other: P.Step)
    requires Alike(s, t) && SameStep(step, other) && LogsSomething(step)
    ensures Alike(P.Next(h, s, step), P.Next(g, t, other))
  {
    hide D.Assess, MmrSpec.Root, P.ReceiveNext, SameEntry, SameMessages, SameEvent;
    EntriesAlike();
  }

  lemma NextAlike(h: P.Hashers, g: P.Hashers, s: P.State, t: P.State, step: P.Step, other: P.Step)
    requires Alike(s, t) && SameStep(step, other)
    ensures Alike(P.Next(h, s, step), P.Next(g, t, other))
  {
    hide P.ReceiveNext, D.Assess, MmrSpec.Root, SameLog, SameMessages;
    if LogsSomething(step) {
      LogStepAlike(h, g, s, t, step, other);
    } else if step.ReceiveEvent? {
      if s.looked && s.membrane != [] {
        ReceiveAlike(h, g, s, t);
      }
    } else {
      QuietStepAlike(h, g, s, t, step, other);
    }
  }

  lemma ConsumeAlike(h: P.Hashers, g: P.Hashers, s: P.State, t: P.State)
    requires Alike(s, t)
    ensures Alike(P.Next(h, s, P.Consume), P.Next(g, t, P.Consume))
  {
    hide SameLog, SameEvent;
  }

  lemma QuietStepAlike(h: P.Hashers, g: P.Hashers, s: P.State, t: P.State, step: P.Step, other: P.Step)
    requires Alike(s, t) && SameStep(step, other) && !LogsSomething(step) && !step.ReceiveEvent?
    ensures Alike(P.Next(h, s, step), P.Next(g, t, other))
  {
    hide D.Assess, MmrSpec.Root, SameLog;
    if step.Consume? {
      ConsumeAlike(h, g, s, t);
    } else {
      hide SameMessages;
    }
  }

  /** Records of one kind are alike whatever they hold. */
  lemma EntriesAlike()
    ensures forall i, x, c, j, y, d :: SameEntry(P.LeafEntry(i, x, c), P.LeafEntry(j, y, d))
    ensures forall i, x, j, y :: SameEntry(P.SealEntry(i, x), P.SealEntry(j, y))
    ensures SameEntry(P.SyncEntry, P.SyncEntry)
  {}

  lemma {:induction false} RunAlike(h: P.Hashers, g: P.Hashers, steps: seq<P.Step>, others: seq<P.Step>)
    requires SameSchedule(steps, others)
    ensures Alike(P.Run(h, FRESH, steps), P.Run(g, FRESH, others))
    decreases |steps|
  {
    if steps != [] {
      hide P.Next, Alike;
      var n := |steps| - 1;
      RunAlike(h, g, steps[..n], others[..n]);
      NextAlike(h, g, P.Run(h, FRESH, steps[..n]), P.Run(g, FRESH, others[..n]), steps[n], others[n]);
    }
  }

  // ----- runs in which all hashes are equal -----

  function Constant(b: byte): P.Hashers {
    P.Hashers(_ => Filled(b), (_, _) => Filled(b))
  }

  /** The schedule with every veto of the same hash. */
  function Vetoing(steps: seq<P.Step>, b: byte): (others: seq<P.Step>)
    ensures SameSchedule(steps, others) && forall i :: 0 <= i < |others| && others[i].Veto? ==> others[i].hash == Filled(b)
  {
    seq(|steps|, i requires 0 <= i < |steps| => if steps[i].Veto? then P.Veto(Filled(b)) else steps[i])
  }

  predicate AllFilled(hashes: seq<Hash>, b: byte) {
    forall i :: 0 <= i < |hashes| ==> hashes[i] == Filled(b)
  }

  predicate EntryFilled(e: P.LogEntry, b: byte) {
    match e
    case LeafEntry(_, hash, _) => hash == Filled(b)
    case SealEntry(_, root) => root == Filled(b)
    case SyncEntry => true
  }

  predicate Uniform(s: P.State, b: byte) {
    && AllFilled(s.range.leaves, b)
    && (forall i :: 0 <= i < |s.hashes| && s.hashes[i].HashMessage? ==> s.hashes[i].hash == Filled(b))
    && (s.pending.Some? ==> s.pending.value.1 == Filled(b))
    && (s.sealing.Some? ==> s.sealing.value.root == Filled(b))
    && (forall i :: 0 <= i < |s.wal| ==> EntryFilled(s.wal[i], b))
  }

  lemma BlockFilled(leaves: seq<Hash>, b: byte, h: nat, k: nat)
    requires AllFilled(leaves, b) && MmrSpec.Exists(|leaves|, h, k)
    ensures MmrSpec.BlockRoot(Constant(b).merge, leaves, h, k) == Filled(b)
  {}

  lemma RootFilled(leaves: seq<Hash>, b: byte)
    requires AllFilled(leaves, b) && leaves != []
    ensures MmrSpec.Root(Constant(b).merge, leaves) == Filled(b)
  {
    hide MmrSpec.BlockRoot;
    MmrSpec.PeaksAreOneBits(|leaves|);
    var hashes := MmrSpec.PeakHashes(Constant(b).merge, leaves);
    MmrSpec.PeaksFromBits(|leaves|, 0);
    if |hashes| == 1 {
      var a := MmrSpec.Peaks(|leaves|)[0];
      BlockFilled(leaves, b, a.h, a.k);
    }
  }

  lemma NextUniform(s: P.State, b: byte, step: P.Step)
    requires Uniform(s, b) && (step.Veto? ==> step.hash == Filled(b))
    ensures Uniform(P.Next(Constant(b), s, step), b)
  {
    hide D.Assess, MmrSpec.Root;
    if step.BeginSeal? && s.range.leaves != [] {
      RootFilled(s.range.leaves, b);
    }
  }

  lemma {:induction false} RunUniform(b: byte, steps: seq<P.Step>)
    requires forall i :: 0 <= i < |steps| && steps[i].Veto? ==> steps[i].hash == Filled(b)
    ensures Uniform(P.Run(Constant(b), FRESH, steps), b)
    decreases |steps|
  {
    if steps != [] {
      hide P.Next, Uniform;
      var n := |steps| - 1;
      RunUniform(b, steps[..n]);
      NextUniform(P.Run(Constant(b), FRESH, steps[..n]), b, steps[n]);
    }
  }

  // ----- and one whose log is not -----

  lemma KindsOfPrefix(ops: seq<WalOp>, c: nat)
    requires c <= |ops|
    ensures KindsOf(ops[..c]) == KindsOf(ops)[..c]
  {}

  lemma LastKind(ops: seq<WalOp>)
    requires ops != []
    ensures KindsOf(ops)[|ops| - 1] == KindOf(ops[|ops| - 1])
  {}

  lemma {:induction false} LeavesByKind(a: seq<WalOp>, b: seq<WalOp>)
    requires KindsOf(a) == KindsOf(b)
    ensures |LoggedLeaves(a)| == |LoggedLeaves(b)|
    decreases |a|
  {
    hide KindsOf;
    if a != [] {
      var n := |a| - 1;
      LastKind(a);
      LastKind(b);
      KindsOfPrefix(a, n);
      KindsOfPrefix(b, n);
      LeavesByKind(a[..n], b[..n]);
    }
  }

  /** After a sync, a write with a hash of all zeros can only lose leaves, one of all ones invents one. */
  lemma SmearedCount(ops: seq<WalOp>, c: nat, b: byte)
    requires 0 < c < |ops| && ops[c].Write? && ops[c - 1].Sync? && NoWriteAfterSync(ops[..c])
    requires AllHashes(ops, b)
    ensures b == 0 ==> |Replayed(ApplyAll(CREATED, ops).file)| <= |LoggedLeaves(ops[..c])|
    ensures b == 1 ==> |Replayed(ApplyAll(CREATED, ops).file)| > |LoggedLeaves(ops[..c])|
  {
    hide Smeared, ApplyAll, Replayed, LoggedLeaves;
    var a, rest := ops[..c], ops[c..];
    assert a + rest == ops && rest[0].Write?;
    SyncedStart(a, b);
    var d := ApplyAll(CREATED, a);
    RunSmears(d.file, d, b, rest);
    ApplyAllSplits(CREATED, a, rest);
    if b == 0 {
      ZerosLoseLeaves(d.file, ApplyAll(d, rest));
    } else if b == 1 {
      OnesInventLeaves(d.file, ApplyAll(d, rest));
    }
  }

  /** Restarts after runs of this schedule rebuild the range, whatever is fed, hashed and vetoed. */
  ghost predicate AlwaysRebuilds(steps: seq<P.Step>) {
    forall hashers: P.Hashers, others: seq<P.Step> | SameSchedule(steps, others) :: Rebuilds(P.Run(hashers, FRESH, others))
  }

  /** The run of a schedule with all hashes equal: it logs the same kinds of records as any other. */
  lemma UniformRun(hashers: P.Hashers, steps: seq<P.Step>, b: byte)
    ensures var s, t := P.Run(hashers, FRESH, steps), P.Run(Constant(b), FRESH, Vetoing(steps, b));
      && KindsOf(Ops(t.wal)) == KindsOf(Ops(s.wal)) && |t.range.leaves| == |s.range.leaves|
      && AllHashes(Ops(t.wal), b)
  {
    hide P.Run;
    RunAlike(hashers, Constant(b), steps, Vetoing(steps, b));
    RunUniform(b, Vetoing(steps, b));
    var s, t := P.Run(hashers, FRESH, steps), P.Run(Constant(b), FRESH, Vetoing(steps, b));
    forall i | 0 <= i < |t.wal|
      ensures KindsOf(Ops(t.wal))[i] == KindsOf(Ops(s.wal))[i]
      ensures Ops(t.wal)[i].Write? ==> Ops(t.wal)[i].hash == Filled(b)
    {
      assert SameEntry(s.wal[i], t.wal[i]) && EntryFilled(t.wal[i], b);
    }
  }

  lemma VetoesAreReplayed(hashers: P.Hashers, steps: seq<P.Step>)
    requires var s := P.Run(hashers, FRESH, steps); s.pending.None? && P.Vetoes(s.wal) != [] && NoWriteAfterSync(Ops(s.wal))
    ensures !Rebuilds(P.Run(hashers, FRESH, steps))
  {
    hide P.Run, P.Replayable, P.Vetoes, NoWriteAfterSync, LoggedLeaves, ApplyAll, Replayed;
    var s := P.Run(hashers, FRESH, steps);
    LoggedAndVetoed(hashers, steps);
    LoggedIsReplayable(s.wal);
    CreatedSessionIsFaithful(Ops(s.wal));
  }

  /** A record after a sync: zeros lose the leaves after it, ones invent a leaf, and one of the two is a miscount. */
  lemma RecordAfterSyncMiscounts(hashers: P.Hashers, steps: seq<P.Step>)
    requires !NoWriteAfterSync(Ops(P.Run(hashers, FRESH, steps).wal))
    ensures !AlwaysRebuilds(steps)
  {
    hide P.Run, Replayed, LoggedLeaves, NoWriteAfterSync, NoWriteAfterSyncKind, ApplyAll, KindsOf, Ops, Vetoing;
    var s := P.Run(hashers, FRESH, steps);
    var kinds := KindsOf(Ops(s.wal));
    SameKinds(Ops(s.wal));
    var c := FirstWriteAfterSync(kinds);
    var b: byte := if |s.range.leaves| > |LoggedLeaves(Ops(s.wal)[..c])| then 0 else 1;
    UniformRun(hashers, steps, b);
    var t := P.Run(Constant(b), FRESH, Vetoing(steps, b));
    KindsOfPrefix(Ops(s.wal), c);
    KindsOfPrefix(Ops(t.wal), c);
    LeavesByKind(Ops(s.wal)[..c], Ops(t.wal)[..c]);
    SameKinds(Ops(t.wal)[..c]);
    assert kinds[c] == KindOf(Ops(t.wal)[c]) && kinds[c - 1] == KindOf(Ops(t.wal)[c - 1]);
    SmearedCount(Ops(t.wal), c, b);
    assert !Rebuilds(t);
  }

  /** Other contents leave the consumer as idle and the log as orderly. */
  lemma OrderlyAnyway(hashers: P.Hashers, steps: seq<P.Step>, other: P.Hashers, others: seq<P.Step>)
    requires SameSchedule(steps, others)
    requires var s := P.Run(hashers, FRESH, steps); s.pending.None? && P.Vetoes(s.wal) == [] && NoWriteAfterSync(Ops(s.wal))
    ensures var t := P.Run(other, FRESH, others); t.pending.None? && P.Vetoes(t.wal) == [] && NoWriteAfterSync(Ops(t.wal))
  {
    hide P.Run, P.Replayable, P.Vetoes, NoWriteAfterSync, NoWriteAfterSyncKind, LoggedLeaves;
    var s, t := P.Run(hashers, FRESH, steps), P.Run(other, FRESH, others);
    RunAlike(hashers, other, steps, others);
    assert KindsOf(Ops(s.wal)) == KindsOf(Ops(t.wal)) by {
      forall i | 0 <= i < |s.wal|
        ensures KindsOf(Ops(s.wal))[i] == KindsOf(Ops(t.wal))[i]
      {
        assert SameEntry(s.wal[i], t.wal[i]);
      }
    }
    SameKinds(Ops(s.wal));
    SameKinds(Ops(t.wal));
    LeavesByKind(Ops(s.wal), Ops(t.wal));
    LoggedIsReplayable(s.wal);
    LoggedIsReplayable(t.wal);
    LoggedAndVetoed(hashers, steps);
    LoggedAndVetoed(other, others);
  }

  /**
   On a fresh log, for a schedule that leaves the consumer idle: restarts rebuild the same leaves, whatever is fed,
   hashed and vetoed, if and only if no veto was logged and no record was logged after a seal's sync.
   */
  lemma RestartRebuildsIffOrderly(hashers: P.Hashers, steps: seq<P.Step>)
    requires P.Run(hashers, FRESH, steps).pending.None?
    ensures var s := P.Run(hashers, FRESH, steps);
      AlwaysRebuilds(steps) <==> P.Vetoes(s.wal) == [] && NoWriteAfterSync(Ops(s.wal))
  {
    hide P.Run, Rebuilds, P.Vetoes;
    var s := P.Run(hashers, FRESH, steps);
    assert SameSchedule(steps, steps);
    if !NoWriteAfterSync(Ops(s.wal)) {
      RecordAfterSyncMiscounts(hashers, steps);
    } else if P.Vetoes(s.wal) != [] {
      VetoesAreReplayed(hashers, steps);
    } else {
      forall h: P.Hashers, others: seq<P.Step> | SameSchedule(steps, others)
        ensures Rebuilds(P.Run(h, FRESH, others))
      {
        OrderlyAnyway(hashers, steps, h, others);
        OrderlyRunRebuilds(h, others);
      }
    }
  }
}
