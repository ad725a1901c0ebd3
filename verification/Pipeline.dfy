/**
 The supervisor's pipeline as interleaved steps: producers feed the membrane, the digestor hashes, the
 consumer appends to the range and then, separately, to the log; sealers and vetoes run beside them.

 Log writes are taken to succeed; the log is the sequence of records appended, in the order of its file lock.
 */
module Pipeline {
  import opened Wrappers
  import opened Digestor
  import opened MmrSpec
  import opened MmrRuns

  const VETO_CONTENT_ID: nat := 0xC0DE_0000_0000_0001

  /** The hash of a payload and of two nodes. */
  datatype Hashers = Hashers(sha: Sha, merge: Merge)

  /** What was done to the log: a record was appended, or the log was synced. */
  datatype LogEntry =
    | LeafEntry(index: nat, hash: Hash, contentId: nat)
    | SealEntry(epoch: nat, root: Hash)
    | SyncEntry

  /** A seal on its way to the log. */
  datatype Sealing = Sealing(epoch: nat, root: Hash, logged: bool)

  /** One look of the digestor at its backlog, and whether it entered suppression there. */
  datatype Look = Look(backlog: nat, entered: bool)

  /** What became of a received event. */
  datatype Fate = Dropped | Digested

  datatype State = State(
    membrane: seq<Event>,
    digestor: Status,
    looked: bool,                          // the digestor has looked at its backlog and is about to receive
    hashes: seq<Message>,                  // the bounded hash channel
    range: Log,                            // the shared Merkle range
    pending: Option<(nat, Hash)>,          // appended to the range by the consumer, not yet logged
    sealing: Option<Sealing>,              // a sealer holds the range's lock until it has logged its seal and synced the log
    wal: seq<LogEntry>,
    // history
    accepted: seq<Event>,                  // every event the membrane took
    fates: seq<Fate>,                      // of the received events, in order
    origins: seq<nat>,                     // which accepted event each hash sent to the consumer came from
    looks: seq<Look>,
    seals: seq<nat>,                       // every epoch sealed, in order
    sizes: seq<nat>)                       // and how many leaves there were then

  datatype Step =
    | Feed(event: Event)
    | LookAtBacklog
    | ReceiveEvent
    | Consume
    | LogLeaf
    | BeginSeal
    | LogSeal
    | SyncLog
    | Veto(hash: Hash)
    | Stop

  function Start(leaves: seq<Hash>, epoch: nat, wal: seq<LogEntry>): State {
    State([], INITIAL, false, [], Log(leaves, {}, epoch), None, None, wal, [], [], [], [], [], [])
  }

  /** The digestor's status with the hash channel it sends into. */
  function WithChannel(s: State): Status {
    s.digestor.(sent := s.hashes)
  }

  function Sealed(s: State): State {
    if s.range.leaves == [] then s
    else s.(range := Apply(s.range, SealEpoch), seals := s.seals + [s.range.epoch], sizes := s.sizes + [|s.range.leaves|])
  }

  function ReceiveNext(hashers: Hashers, s: State): (s': State)
    requires s.membrane != []
    ensures s'.range == s.range && s'.pending == s.pending && s'.sealing == s.sealing && s'.wal == s.wal && s'.seals == s.seals
    ensures s'.sizes == s.sizes
  {
    var d := Receive(hashers.sha, WithChannel(s), s.membrane[0]);
    var queued := |d.sent| > |s.hashes| && s.membrane[0].Data?;
    s.(
      membrane := s.membrane[1..],
      digestor := d.(sent := []),
      looked := false,
      hashes := d.sent,
      fates := s.fates + [if s.digestor.suppressed then Dropped else Digested],
      origins := if queued then s.origins + [|s.fates|] else s.origins)
  }

  /** A step whose thread is not ready for it does nothing. */
  function Next(hashers: Hashers, s: State, step: Step): State {
    match step
    case Feed(event) =>
      if |s.membrane| < MEMBRANE_CAPACITY then s.(membrane := s.membrane + [event], accepted := s.accepted + [event]) else s
    case LookAtBacklog =>
      if s.digestor.running && !s.looked then
        var d := Assess(s.digestor, |s.membrane|);
        s.(digestor := d, looked := true, looks := s.looks + [Look(|s.membrane|, d.suppressed && !s.digestor.suppressed)])
      else s
    case ReceiveEvent =>
      if !s.looked then s
      else if s.membrane == [] then s.(looked := false)
      else ReceiveNext(hashers, s)
    case Consume =>
      if s.hashes == [] || s.pending.Some? || s.sealing.Some? then s
      else
        var rest := s.(hashes := s.hashes[1..]);
        (match s.hashes[0]
         case HashMessage(hash) => rest.(range := Apply(s.range, Append(hash)), pending := Some((|s.range.leaves|, hash)))
         case SealMessage => Sealed(rest))
    case LogLeaf =>
      (match s.pending
       case None => s
       case Some((index, hash)) => s.(pending := None, wal := s.wal + [LeafEntry(index, hash, 0)]))
    case BeginSeal =>
      if s.sealing.Some? || s.range.leaves == [] then s
      else Sealed(s).(sealing := Some(Sealing(s.range.epoch, Root(hashers.merge, s.range.leaves), false)))
    case LogSeal =>
      if s.sealing.Some? && !s.sealing.value.logged then
        var seal := s.sealing.value;
        s.(sealing := Some(seal.(logged := true)), wal := s.wal + [SealEntry(seal.epoch, seal.root)])
      else s
    case SyncLog =>
      if s.sealing.Some? && s.sealing.value.logged then s.(sealing := None, wal := s.wal + [SyncEntry]) else s
    case Veto(hash) => s.(wal := s.wal + [LeafEntry(0, hash, VETO_CONTENT_ID)])
    case Stop => s.(digestor := s.digestor.(running := false))
  }

  function Run(hashers: Hashers, s: State, steps: seq<Step>): State {
    if steps == [] then s else Next(hashers, Run(hashers, s, steps[..|steps| - 1]), steps[|steps| - 1])
  }

  // ----- what the log holds -----

  /** The leaves the consumer logged, in log order. */
  function Logged(wal: seq<LogEntry>): seq<(nat, Hash)> {
    if wal == [] then []
    else
      var e := wal[|wal| - 1];
      Logged(wal[..|wal| - 1]) + if e.LeafEntry? && e.contentId == 0 then [(e.index, e.hash)] else []
  }

  /** The leaves of a range from index b on, with their indices. */
  function Indexed(leaves: seq<Hash>, b: nat): seq<(nat, Hash)>
    requires b <= |leaves|
  {
    seq(|leaves| - b, i requires 0 <= i < |leaves| - b => (b + i, leaves[b + i]))
  }

  /** The hashes waiting in the channel. */
  function Waiting(hashes: seq<Message>): seq<Hash> {
    if hashes == [] then []
    else
      var m := hashes[|hashes| - 1];
      Waiting(hashes[..|hashes| - 1]) + if m.HashMessage? then [m.hash] else []
  }

  // ----- the invariant -----

  /** The consumer's log records are the session's leaves with their indices, except for at most the newest one. */
  ghost predicate LogFollowsRange(s: State, b: nat) {
    && b <= |s.range.leaves|
    && match s.pending
       case None => Logged(s.wal) == Indexed(s.range.leaves, b)
       case Some((index, hash)) =>
         && b <= index == |s.range.leaves| - 1 && hash == s.range.leaves[index]
         && Logged(s.wal) == Indexed(s.range.leaves[..index], b)
  }

  /** Each hash is that of the accepted and digested data event it originates from, and the origins ascend. */
  ghost predicate Originate(hashers: Hashers, sent: seq<Hash>, origins: seq<nat>, accepted: seq<Event>, fates: seq<Fate>) {
    && |origins| == |sent| && |fates| <= |accepted|
    && (forall i :: 0 <= i < |sent| ==>
         var o := origins[i];
         o < |fates| && fates[o] == Digested && accepted[o].Data? && sent[i] == hashers.sha(accepted[o].payload))
    && (forall i, j :: 0 <= i < j < |origins| ==> origins[i] < origins[j])
  }

  /** The session's leaves, then the waiting hashes, are the hashes of distinct accepted and digested data, in order. */
  ghost predicate HashesFollowData(hashers: Hashers, s: State, b: nat) {
    && b <= |s.range.leaves|
    && |s.fates| + |s.membrane| == |s.accepted| && s.membrane == s.accepted[|s.fates|..]
    && Originate(hashers, s.range.leaves[b..] + Waiting(s.hashes), s.origins, s.accepted, s.fates)
  }

  /** The epochs sealed are consecutive, so none is sealed twice. */
  ghost predicate SealsAdvance(s: State, epoch: nat) {
    && s.range.epoch == epoch + |s.seals|
    && forall i :: 0 <= i < |s.seals| ==> s.seals[i] == epoch + i
  }

  /** Some look after i and before j saw a backlog below the low mark. */
  ghost predicate CalmBetween(looks: seq<Look>, i: nat, j: nat)
    requires j <= |looks|
  {
    exists k :: i < k < j && looks[k].backlog < HYSTERESIS_LOW
  }

  /** Between two entries into suppression some look saw a backlog below the low mark. */
  ghost predicate SuppressionsApart(s: State) {
    LooksApart(s.looks, s.digestor.suppressed)
  }

  ghost predicate LooksApart(looks: seq<Look>, suppressed: bool) {
    && (forall i, j :: 0 <= i < j < |looks| && looks[i].entered && looks[j].entered ==> CalmBetween(looks, i, j))
    && (!suppressed ==> forall i :: 0 <= i < |looks| && looks[i].entered ==> CalmBetween(looks, i, |looks|))
  }

  /** The counters count the fates. */
  function DroppedCount(fates: seq<Fate>): nat {
    if fates == [] then 0 else DroppedCount(fates[..|fates| - 1]) + if fates[|fates| - 1].Dropped? then 1 else 0
  }

  function DigestedData(accepted: seq<Event>, fates: seq<Fate>): nat
    requires |fates| <= |accepted|
  {
    if fates == [] then 0
    else
      var n := |fates| - 1;
      DigestedData(accepted, fates[..n]) + if fates[n].Digested? && accepted[n].Data? then 1 else 0
  }

  ghost predicate CountersMatch(s: State) {
    && |s.fates| <= |s.accepted|
    && s.digestor.dropped == DroppedCount(s.fates)
    && s.digestor.processed == DigestedData(s.accepted, s.fates)
  }

  ghost predicate Invariant(hashers: Hashers, s: State, b: nat, epoch: nat) {
    && LogFollowsRange(s, b) && HashesFollowData(hashers, s, b) && SealsAdvance(s, epoch) && SuppressionsApart(s) && CountersMatch(s)
    && ChannelsBounded(s)
  }

  predicate ChannelsBounded(s: State) {
    |s.membrane| <= MEMBRANE_CAPACITY && |s.hashes| <= HASH_CAPACITY
  }

  // ----- every step keeps it -----

  lemma LoggedSnoc(wal: seq<LogEntry>, e: LogEntry)
    ensures Logged(wal + [e]) == Logged(wal) + if e.LeafEntry? && e.contentId == 0 then [(e.index, e.hash)] else []
  {
    assert (wal + [e])[..|wal|] == wal;
  }

  lemma IndexedSnoc(leaves: seq<Hash>, b: nat)
    requires b < |leaves|
    ensures Indexed(leaves, b) == Indexed(leaves[..|leaves| - 1], b) + [(|leaves| - 1, leaves[|leaves| - 1])]
  {}

  lemma LogFollowsRangeKept(hashers: Hashers, s: State, step: Step, b: nat)
    requires LogFollowsRange(s, b)
    ensures LogFollowsRange(Next(hashers, s, step), b)
  {
    hide ReceiveNext, Assess, Root, Logged;
    match step {
      case Consume =>
        if s.hashes != [] && s.pending.None? && s.sealing.None? && s.hashes[0].HashMessage? {
          var leaves := s.range.leaves + [s.hashes[0].hash];
          assert leaves[..|leaves| - 1] == s.range.leaves;
        }
      case LogLeaf =>
        if s.pending.Some? {
          LoggedSnoc(s.wal, LeafEntry(s.pending.value.0, s.pending.value.1, 0));
          IndexedSnoc(s.range.leaves, b);
        }
      case LogSeal =>
        if s.sealing.Some? {
          LoggedSnoc(s.wal, SealEntry(s.sealing.value.epoch, s.sealing.value.root));
        }
      case SyncLog =>
        LoggedSnoc(s.wal, SyncEntry);
      case Veto(hash) =>
        LoggedSnoc(s.wal, LeafEntry(0, hash, VETO_CONTENT_ID));
      case _ =>
    }
  }

  lemma {:induction false} WaitingConcat(a: seq<Message>, b: seq<Message>)
    ensures Waiting(a + b) == Waiting(a) + Waiting(b)
    decreases |b|
  {
    if b == [] {
      assert a + b == a;
    } else {
      assert (a + b)[..|a + b| - 1] == a + b[..|b| - 1];
      WaitingConcat(a, b[..|b| - 1]);
    }
  }

  lemma WaitingOne(m: Message)
    ensures Waiting([m]) == if m.HashMessage? then [m.hash] else []
  {
    assert [m][..0] == [];
  }

  lemma ConsumeKeepsSent(hashers: Hashers, s: State, b: nat)
    requires b <= |s.range.leaves|
    ensures var s' := Next(hashers, s, Consume);
      b <= |s'.range.leaves| && s'.range.leaves[b..] + Waiting(s'.hashes) == s.range.leaves[b..] + Waiting(s.hashes)
  {
    hide Waiting;
    if s.hashes != [] {
      var m, rest, tail := s.hashes[0], s.hashes[1..], s.range.leaves[b..];
      WaitingConcat([m], rest);
      WaitingOne(m);
      assert [m] + rest == s.hashes;
      if m.HashMessage? {
        assert (s.range.leaves + [m.hash])[b..] == tail + [m.hash];
        assert tail + [m.hash] + Waiting(rest) == tail + ([m.hash] + Waiting(rest));
      }
    }
  }

  lemma ReceiveSends(hashers: Hashers, s: State)
    requires s.membrane != []
    ensures var s' := ReceiveNext(hashers, s); var e := s.membrane[0];
      if |s'.origins| > |s.origins| then
        && e.Data? && !s.digestor.suppressed && s'.origins == s.origins + [|s.fates|]
        && Waiting(s'.hashes) == Waiting(s.hashes) + [hashers.sha(e.payload)]
      else s'.origins == s.origins && Waiting(s'.hashes) == Waiting(s.hashes)
  {
    var e, s' := s.membrane[0], ReceiveNext(hashers, s);
    if |s'.hashes| > |s.hashes| {
      var m := s'.hashes[|s.hashes|];
      assert s'.hashes == s.hashes + [m];
      WaitingConcat(s.hashes, [m]);
      WaitingOne(m);
    }
  }

  /** One more event has met its fate, and one more hash may originate from it. */
  lemma OriginateSnoc(hashers: Hashers, sent: seq<Hash>, origins: seq<nat>, accepted: seq<Event>, fates: seq<Fate>, fate: Fate)
    requires Originate(hashers, sent, origins, accepted, fates) && |fates| < |accepted|
    ensures Originate(hashers, sent, origins, accepted, fates + [fate])
    ensures fate == Digested && accepted[|fates|].Data? ==>
      Originate(hashers, sent + [hashers.sha(accepted[|fates|].payload)], origins + [|fates|], accepted, fates + [fate])
  {}

  lemma OriginateGrows(hashers: Hashers, sent: seq<Hash>, origins: seq<nat>, accepted: seq<Event>, more: seq<Event>, fates: seq<Fate>)
    requires Originate(hashers, sent, origins, accepted, fates) && accepted <= more
    ensures Originate(hashers, sent, origins, more, fates)
  {}

  lemma ReceiveKeepsData(hashers: Hashers, s: State, b: nat)
    requires HashesFollowData(hashers, s, b) && s.membrane != []
    ensures HashesFollowData(hashers, ReceiveNext(hashers, s), b)
  {
    hide Waiting, Receive, Originate;
    var s' := ReceiveNext(hashers, s);
    ReceiveSends(hashers, s);
    var sent, fate := s.range.leaves[b..] + Waiting(s.hashes), if s.digestor.suppressed then Dropped else Digested;
    assert s.accepted[|s.fates|] == s.membrane[0];
    assert s'.membrane == s.accepted[|s'.fates|..];
    OriginateSnoc(hashers, sent, s.origins, s.accepted, s.fates, fate);
    if |s'.origins| > |s.origins| {
      assert s'.range.leaves[b..] + Waiting(s'.hashes) == sent + [hashers.sha(s.membrane[0].payload)];
    }
  }

  lemma FeedKeepsData(hashers: Hashers, s: State, event: Event, b: nat)
    requires HashesFollowData(hashers, s, b)
    ensures HashesFollowData(hashers, Next(hashers, s, Feed(event)), b)
  {
    hide Waiting, Originate;
    OriginateGrows(hashers, s.range.leaves[b..] + Waiting(s.hashes), s.origins, s.accepted, s.accepted + [event], s.fates);
  }

  lemma ConsumeKeepsData(hashers: Hashers, s: State, b: nat)
    requires HashesFollowData(hashers, s, b)
    ensures HashesFollowData(hashers, Next(hashers, s, Consume), b)
  {
    hide Waiting, Originate;
    ConsumeKeepsSent(hashers, s, b);
  }

  /** The other steps touch none of what it speaks of. */
  lemma DataUntouched(hashers: Hashers, s: State, s': State, b: nat)
    requires HashesFollowData(hashers, s, b)
    requires s'.membrane == s.membrane && s'.accepted == s.accepted && s'.fates == s.fates && s'.origins == s.origins
    requires s'.hashes == s.hashes && s'.range.leaves == s.range.leaves
    ensures HashesFollowData(hashers, s', b)
  {}

  lemma HashesFollowDataKept(hashers: Hashers, s: State, step: Step, b: nat)
    requires HashesFollowData(hashers, s, b)
    ensures HashesFollowData(hashers, Next(hashers, s, step), b)
  {
    hide HashesFollowData, ReceiveNext, Assess, Root;
    match step {
      case Feed(event) =>
        FeedKeepsData(hashers, s, event, b);
      case Consume =>
        ConsumeKeepsData(hashers, s, b);
      case ReceiveEvent =>
        if s.looked && s.membrane != [] {
          ReceiveKeepsData(hashers, s, b);
        } else {
          DataUntouched(hashers, s, Next(hashers, s, step), b);
        }
      case _ =>
        DataUntouched(hashers, s, Next(hashers, s, step), b);
    }
  }

  lemma SealsAdvanceKept(hashers: Hashers, s: State, step: Step, epoch: nat)
    requires SealsAdvance(s, epoch)
    ensures SealsAdvance(Next(hashers, s, step), epoch)
  {
    hide Receive, Assess;
  }

  lemma CalmExtends(looks: seq<Look>, look: Look, i: nat, j: nat)
    requires j <= |looks| && CalmBetween(looks, i, j)
    ensures CalmBetween(looks + [look], i, j) && CalmBetween(looks + [look], i, |looks| + 1)
  {
    var k :| i < k < j && looks[k].backlog < HYSTERESIS_LOW;
    assert (looks + [look])[k] == looks[k];
  }

  /** One more look, at which suppression is entered, kept, left or stays off as the marks demand. */
  lemma LooksSnoc(looks: seq<Look>, suppressed: bool, look: Look, suppressed': bool)
    requires LooksApart(looks, suppressed)
    requires look.entered ==> !suppressed && suppressed'
    requires suppressed && !suppressed' ==> look.backlog < HYSTERESIS_LOW
    ensures LooksApart(looks + [look], suppressed')
  {
    var n, all := |looks|, looks + [look];
    forall i, j | 0 <= i < j < |all| && all[i].entered && all[j].entered
      ensures CalmBetween(all, i, j)
    {
      CalmExtends(looks, look, i, j);
    }
    if !suppressed' {
      forall i | 0 <= i < |all| && all[i].entered
        ensures CalmBetween(all, i, |all|)
      {
        if suppressed {
          assert all[n].backlog < HYSTERESIS_LOW;
        } else {
          CalmExtends(looks, look, i, n);
        }
      }
    }
  }

  lemma SuppressionsApartKept(hashers: Hashers, s: State, step: Step)
    requires SuppressionsApart(s)
    ensures SuppressionsApart(Next(hashers, s, step))
  {
    hide LooksApart;
    if step.LookAtBacklog? && s.digestor.running && !s.looked {
      var s' := Next(hashers, s, step);
      LooksSnoc(s.looks, s.digestor.suppressed, s'.looks[|s.looks|], s'.digestor.suppressed);
    }
  }

  lemma CountersMatchKept(hashers: Hashers, s: State, step: Step, b: nat)
    requires CountersMatch(s) && HashesFollowData(hashers, s, b)
    ensures CountersMatch(Next(hashers, s, step))
  {
    var s' := Next(hashers, s, step);
    match step {
      case ReceiveEvent =>
        if s.looked && s.membrane != [] {
          assert s'.fates[..|s.fates|] == s.fates;
          assert s.accepted[|s.fates|] == s.membrane[0];
        }
      case Feed(event) =>
        DigestedDataStable(s.accepted, s'.accepted, s.fates);
      case _ =>
    }
  }

  lemma {:induction false} DigestedDataStable(accepted: seq<Event>, more: seq<Event>, fates: seq<Fate>)
    requires |fates| <= |accepted| && accepted <= more
    ensures DigestedData(more, fates) == DigestedData(accepted, fates)
    decreases |fates|
  {
    if fates != [] {
      DigestedDataStable(accepted, more, fates[..|fates| - 1]);
    }
  }

  /** In every interleaving of the threads' steps, from a range and log that agree, the invariant holds throughout. */
  lemma {:induction false} InvariantAlways(hashers: Hashers, leaves: seq<Hash>, epoch: nat, wal: seq<LogEntry>, steps: seq<Step>)
    requires Logged(wal) == []
    ensures Invariant(hashers, Run(hashers, Start(leaves, epoch, wal), steps), |leaves|, epoch)
    decreases |steps|
  {
    if steps != [] {
      hide LogFollowsRange, HashesFollowData, SealsAdvance, SuppressionsApart, CountersMatch, Next;
      var before, step := steps[..|steps| - 1], steps[|steps| - 1];
      InvariantAlways(hashers, leaves, epoch, wal, before);
      var s := Run(hashers, Start(leaves, epoch, wal), before);
      LogFollowsRangeKept(hashers, s, step, |leaves|);
      HashesFollowDataKept(hashers, s, step, |leaves|);
      SealsAdvanceKept(hashers, s, step, epoch);
      SuppressionsApartKept(hashers, s, step);
      CountersMatchKept(hashers, s, step, |leaves|);
      ChannelsBoundedKept(hashers, s, step);
    } else {
      StartInvariant(hashers, leaves, epoch, wal);
    }
  }

  lemma StartInvariant(hashers: Hashers, leaves: seq<Hash>, epoch: nat, wal: seq<LogEntry>)
    requires Logged(wal) == []
    ensures Invariant(hashers, Start(leaves, epoch, wal), |leaves|, epoch)
  {}

  lemma ChannelsBoundedKept(hashers: Hashers, s: State, step: Step)
    requires ChannelsBounded(s)
    ensures ChannelsBounded(Next(hashers, s, step))
  {}

  // ----- after a restart -----

  /** What a replay of these records feeds to an empty range: every leaf record, vetoes included. */
  function Replayable(wal: seq<LogEntry>): seq<Hash> {
    if wal == [] then []
    else
      var e := wal[|wal| - 1];
      Replayable(wal[..|wal| - 1]) + if e.LeafEntry? then [e.hash] else []
  }

  function Vetoes(wal: seq<LogEntry>): seq<Hash> {
    if wal == [] then []
    else
      var e := wal[|wal| - 1];
      Vetoes(wal[..|wal| - 1]) + if e.LeafEntry? && e.contentId != 0 then [e.hash] else []
  }

  lemma {:induction false} ReplayableCount(wal: seq<LogEntry>)
    ensures |Replayable(wal)| == |Logged(wal)| + |Vetoes(wal)|
    ensures Vetoes(wal) == [] ==> forall i :: 0 <= i < |Replayable(wal)| ==> Replayable(wal)[i] == Logged(wal)[i].1
    decreases |wal|
  {
    if wal != [] {
      ReplayableCount(wal[..|wal| - 1]);
    }
  }

  /** The hashes vetoed by a schedule, in order. */
  function VetoedBy(steps: seq<Step>): seq<Hash> {
    if steps == [] then []
    else
      var last := steps[|steps| - 1];
      VetoedBy(steps[..|steps| - 1]) + if last.Veto? then [last.hash] else []
  }

  lemma VetoesSnoc(wal: seq<LogEntry>, e: LogEntry)
    ensures Vetoes(wal + [e]) == Vetoes(wal) + if e.LeafEntry? && e.contentId != 0 then [e.hash] else []
  {
    assert (wal + [e])[..|wal|] == wal;
  }

  lemma NextVetoes(hashers: Hashers, s: State, step: Step)
    ensures Vetoes(Next(hashers, s, step).wal) == Vetoes(s.wal) + if step.Veto? then [step.hash] else []
  {
    hide ReceiveNext, Assess, Root, Vetoes;
    var s' := Next(hashers, s, step);
    if s'.wal != s.wal {
      VetoesSnoc(s.wal, s'.wal[|s.wal|]);
    }
  }

  /** In every interleaving the log holds every veto, once and in order, with the hash that was vetoed. */
  lemma {:induction false} VetoesAreLogged(hashers: Hashers, s: State, steps: seq<Step>)
    ensures Vetoes(Run(hashers, s, steps).wal) == Vetoes(s.wal) + VetoedBy(steps)
    decreases |steps|
  {
    hide Next, Vetoes;
    if steps == [] {
      assert Vetoes(s.wal) + [] == Vetoes(s.wal);
    } else {
      var n := |steps| - 1;
      VetoesAreLogged(hashers, s, steps[..n]);
      NextVetoes(hashers, Run(hashers, s, steps[..n]), steps[n]);
      assert Vetoes(s.wal) + (VetoedBy(steps[..n]) + (if steps[n].Veto? then [steps[n].hash] else [])) ==
             Vetoes(s.wal) + VetoedBy(steps[..n]) + if steps[n].Veto? then [steps[n].hash] else [];
    }
  }

  // ----- which seals are logged -----

  /** A step by which the consumer seals an epoch on behalf of a heartbeat. */
  predicate ConsumerSeals(s: State, step: Step) {
    && step == Consume && s.hashes != [] && s.pending.None? && s.sealing.None?
    && s.hashes[0].SealMessage? && s.range.leaves != []
  }

  predicate ConsumerSealsAt(hashers: Hashers, s: State, steps: seq<Step>, i: nat)
    requires i < |steps|
  {
    ConsumerSeals(Run(hashers, s, steps[..i]), steps[i])
  }

  function ConsumerSealCount(hashers: Hashers, s: State, steps: seq<Step>): nat {
    if steps == [] then 0
    else
      var n := |steps| - 1;
      ConsumerSealCount(hashers, s, steps[..n]) + if ConsumerSealsAt(hashers, s, steps, n) then 1 else 0
  }

  function SealRecords(wal: seq<LogEntry>): seq<nat> {
    if wal == [] then []
    else
      var e := wal[|wal| - 1];
      SealRecords(wal[..|wal| - 1]) + if e.SealEntry? then [e.epoch] else []
  }

  /** The epochs of the logged seals and of the one a sealer is about to log. */
  function SealsForLog(s: State): seq<nat> {
    SealRecords(s.wal) + if s.sealing.Some? && !s.sealing.value.logged then [s.sealing.value.epoch] else []
  }

  lemma SealRecordsSnoc(wal: seq<LogEntry>, e: LogEntry)
    ensures SealRecords(wal + [e]) == SealRecords(wal) + if e.SealEntry? then [e.epoch] else []
  {
    assert (wal + [e])[..|wal|] == wal;
  }

  lemma NextSeals(hashers: Hashers, s: State, step: Step)
    ensures var s' := Next(hashers, s, step);
      if ConsumerSeals(s, step) then |s'.seals| == |s.seals| + 1 && SealsForLog(s') == SealsForLog(s)
      else if s'.seals == s.seals then SealsForLog(s') == SealsForLog(s)
      else s'.seals == s.seals + [s.range.epoch] && SealsForLog(s') == SealsForLog(s) + [s.range.epoch]
  {
    hide Receive, Assess, SealRecords, Root;
    var s' := Next(hashers, s, step);
    if s'.wal != s.wal {
      SealRecordsSnoc(s.wal, s'.wal[|s.wal|]);
    }
  }

  lemma {:induction false} SealCounts(hashers: Hashers, leaves: seq<Hash>, epoch: nat, wal: seq<LogEntry>, steps: seq<Step>)
    requires SealRecords(wal) == []
    ensures var start := Start(leaves, epoch, wal); var s := Run(hashers, start, steps);
      && |SealsForLog(s)| + ConsumerSealCount(hashers, start, steps) == |s.seals|
      && (ConsumerSealCount(hashers, start, steps) == 0 ==> SealsForLog(s) == s.seals)
    decreases |steps|
  {
    if steps != [] {
      hide Next, SealsForLog;
      var n := |steps| - 1;
      SealCounts(hashers, leaves, epoch, wal, steps[..n]);
      NextSeals(hashers, Run(hashers, Start(leaves, epoch, wal), steps[..n]), steps[n]);
    }
  }

  lemma SameInPrefix(hashers: Hashers, s: State, steps: seq<Step>, n: nat, i: nat)
    requires i < n <= |steps|
    ensures ConsumerSealsAt(hashers, s, steps[..n], i) == ConsumerSealsAt(hashers, s, steps, i)
  {
    assert steps[..n][..i] == steps[..i];
  }

  lemma {:induction false} NoConsumerSeals(hashers: Hashers, s: State, steps: seq<Step>)
    ensures ConsumerSealCount(hashers, s, steps) == 0 <==>
      forall i :: 0 <= i < |steps| ==> !ConsumerSealsAt(hashers, s, steps, i)
    decreases |steps|
  {
    hide ConsumerSealsAt;
    if steps != [] {
      var n := |steps| - 1;
      NoConsumerSeals(hashers, s, steps[..n]);
      forall i | 0 <= i < n
        ensures ConsumerSealsAt(hashers, s, steps[..n], i) == ConsumerSealsAt(hashers, s, steps, i)
      {
        SameInPrefix(hashers, s, steps, n, i);
      }
    }
  }

  /** In every interleaving the log gets all seals, in order, if and only if the consumer never sealed for a heartbeat. */
  lemma SealsLoggedIffNoneByConsumer(hashers: Hashers, leaves: seq<Hash>, epoch: nat, wal: seq<LogEntry>, steps: seq<Step>)
    requires SealRecords(wal) == []
    ensures var start := Start(leaves, epoch, wal); var s := Run(hashers, start, steps);
      SealsForLog(s) == s.seals <==> forall i :: 0 <= i < |steps| ==> !ConsumerSealsAt(hashers, start, steps, i)
  {
    SealCounts(hashers, leaves, epoch, wal, steps);
    NoConsumerSeals(hashers, Start(leaves, epoch, wal), steps);
  }

  // ----- which roots are logged -----

  /** The seals happened at growing, positive leaf counts. */
  ghost predicate SizesGrow(s: State) {
    && |s.sizes| == |s.seals|
    && (forall i :: 0 <= i < |s.sizes| ==> 0 < s.sizes[i] <= |s.range.leaves|)
    && (forall i, j :: 0 <= i < j < |s.sizes| ==> s.sizes[i] <= s.sizes[j])
  }

  /** The epoch was sealed at some leaf count, and this is the root of the leaves there were then. */
  ghost predicate SealedWith(hashers: Hashers, s: State, epoch: nat, root: Hash) {
    exists i :: 0 <= i < |s.seals| && s.seals[i] == epoch && IsRootAt(hashers, s, i, root)
  }

  ghost predicate IsRootAt(hashers: Hashers, s: State, i: nat, root: Hash) {
    i < |s.sizes| && 0 < s.sizes[i] <= |s.range.leaves| && root == Root(hashers.merge, s.range.leaves[..s.sizes[i]])
  }

  ghost predicate RootsLogged(hashers: Hashers, s: State) {
    && SizesGrow(s)
    && (forall k :: 0 <= k < |s.wal| && s.wal[k].SealEntry? ==> SealedWith(hashers, s, s.wal[k].epoch, s.wal[k].root))
    && (s.sealing.Some? ==> SealedWith(hashers, s, s.sealing.value.epoch, s.sealing.value.root))
  }

  /** Later leaves and later seals do not change with what an epoch was sealed. */
  lemma SealedStays(hashers: Hashers, s: State, s': State, epoch: nat, root: Hash)
    requires SealedWith(hashers, s, epoch, root)
    requires s.range.leaves <= s'.range.leaves && s.seals <= s'.seals && s.sizes <= s'.sizes
    ensures SealedWith(hashers, s', epoch, root)
  {
    hide Root;
    var i :| 0 <= i < |s.seals| && s.seals[i] == epoch && IsRootAt(hashers, s, i, root);
    assert s'.range.leaves[..s.sizes[i]] == s.range.leaves[..s.sizes[i]];
    assert s'.seals[i] == epoch && IsRootAt(hashers, s', i, root);
  }

  lemma NextGrows(hashers: Hashers, s: State, step: Step)
    requires SizesGrow(s)
    ensures var s' := Next(hashers, s, step);
      SizesGrow(s') && s.range.leaves <= s'.range.leaves && s.seals <= s'.seals && s.sizes <= s'.sizes
  {
    hide ReceiveNext, Assess, Root;
  }

  /** Each step appends at most one record, which for a seal is the one in hand. */
  lemma NextLogsSealInHand(hashers: Hashers, s: State, step: Step)
    ensures var s' := Next(hashers, s, step);
      && |s.wal| <= |s'.wal| && (forall k :: 0 <= k < |s.wal| ==> s'.wal[k] == s.wal[k])
      && forall k :: |s.wal| <= k < |s'.wal| && s'.wal[k].SealEntry? ==>
          s.sealing.Some? && s'.wal[k] == SealEntry(s.sealing.value.epoch, s.sealing.value.root)
  {
    hide ReceiveNext, Assess, Root;
  }

  lemma NextSealInHand(hashers: Hashers, s: State, step: Step)
    requires SizesGrow(s)
    ensures var s' := Next(hashers, s, step);
      s'.sealing.Some? ==>
        || (s.sealing.Some? && s'.sealing.value.epoch == s.sealing.value.epoch && s'.sealing.value.root == s.sealing.value.root)
        || SealedWith(hashers, s', s'.sealing.value.epoch, s'.sealing.value.root)
  {
    hide ReceiveNext, Assess, Root;
    var s' := Next(hashers, s, step);
    if step.BeginSeal? && s.sealing.None? && s.range.leaves != [] {
      assert s'.range.leaves[..|s.range.leaves|] == s.range.leaves;
      assert IsRootAt(hashers, s', |s.seals|, s'.sealing.value.root);
    }
  }

  lemma RootsLoggedKept(hashers: Hashers, s: State, step: Step)
    requires RootsLogged(hashers, s)
    ensures RootsLogged(hashers, Next(hashers, s, step))
  {
    hide Next, SealedWith, SizesGrow;
    var s' := Next(hashers, s, step);
    NextGrows(hashers, s, step);
    NextLogsSealInHand(hashers, s, step);
    NextSealInHand(hashers, s, step);
    if s.sealing.Some? {
      SealedStays(hashers, s, s', s.sealing.value.epoch, s.sealing.value.root);
    }
    forall k | 0 <= k < |s'.wal| && s'.wal[k].SealEntry?
      ensures SealedWith(hashers, s', s'.wal[k].epoch, s'.wal[k].root)
    {
      if k < |s.wal| {
        SealedStays(hashers, s, s', s.wal[k].epoch, s.wal[k].root);
      }
    }
  }

  /**
   In every interleaving, every seal in the log and the one in hand carries the root of the leaves there were when
   its epoch was sealed: a prefix of the final leaves, no shorter than that of any earlier epoch.
   */
  lemma {:induction false} SealsCarryTheirRoots(hashers: Hashers, leaves: seq<Hash>, epoch: nat, wal: seq<LogEntry>, steps: seq<Step>)
    requires forall k :: 0 <= k < |wal| ==> !wal[k].SealEntry?
    ensures RootsLogged(hashers, Run(hashers, Start(leaves, epoch, wal), steps))
    decreases |steps|
  {
    if steps != [] {
      hide RootsLogged, Next;
      var n := |steps| - 1;
      SealsCarryTheirRoots(hashers, leaves, epoch, wal, steps[..n]);
      RootsLoggedKept(hashers, Run(hashers, Start(leaves, epoch, wal), steps[..n]), steps[n]);
    }
  }

  lemma NextSize(hashers: Hashers, s: State, step: Step)
    requires |s.sizes| == |s.seals|
    ensures var s' := Next(hashers, s, step);
      && |s'.sizes| == |s'.seals| && s.sizes <= s'.sizes && s.seals <= s'.seals && |s'.seals| <= |s.seals| + 1
      && (|s'.seals| > |s.seals| ==> s'.sizes[|s.sizes|] == |s.range.leaves| && s'.seals[|s.seals|] == s.range.epoch)
  {
    hide ReceiveNext, Assess, Root;
  }

  /** The step that sealed the k-th epoch of the session, and that its size is the leaf count it found. */
  lemma {:induction false} SizeIsLeafCount(hashers: Hashers, leaves: seq<Hash>, epoch: nat, wal: seq<LogEntry>, steps: seq<Step>, k: nat)
    returns (i: nat)
    requires k < |Run(hashers, Start(leaves, epoch, wal), steps).seals|
    ensures var start := Start(leaves, epoch, wal); var s := Run(hashers, start, steps);
      && i < |steps| && |s.sizes| == |s.seals|
      && var before, after := Run(hashers, start, steps[..i]), Run(hashers, start, steps[..i + 1]);
      && |before.seals| == k && |after.seals| == k + 1
      && s.sizes[k] == |before.range.leaves| && s.seals[k] == before.range.epoch
    decreases |steps|
  {
    hide Next;
    var start := Start(leaves, epoch, wal);
    if steps == [] {
      assert false;
    } else {
      var n := |steps| - 1;
      var before := Run(hashers, start, steps[..n]);
      SizesMatch(hashers, leaves, epoch, wal, steps[..n]);
      NextSize(hashers, before, steps[n]);
      if k < |before.seals| {
        i := SizeIsLeafCount(hashers, leaves, epoch, wal, steps[..n], k);
        assert steps[..n][..i] == steps[..i] && steps[..n][..i + 1] == steps[..i + 1];
      } else {
        i := n;
        assert steps[..n + 1] == steps;
      }
    }
  }

  lemma {:induction false} SizesMatch(hashers: Hashers, leaves: seq<Hash>, epoch: nat, wal: seq<LogEntry>, steps: seq<Step>)
    ensures var s := Run(hashers, Start(leaves, epoch, wal), steps); |s.sizes| == |s.seals|
    decreases |steps|
  {
    if steps != [] {
      hide Next;
      var n := |steps| - 1;
      SizesMatch(hashers, leaves, epoch, wal, steps[..n]);
      NextSize(hashers, Run(hashers, Start(leaves, epoch, wal), steps[..n]), steps[n]);
    }
  }
}
