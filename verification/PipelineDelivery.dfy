/** What reaches the range, the log and a restart when the pipeline's threads get their turns. */
module PipelineDelivery {
  import opened Wrappers
  import opened Digestor
  import D = Digestor
  import opened MmrSpec
  import opened MmrRuns
  import opened Pipeline
  import R = PipelineRestart
  import WalStore

  lemma {:induction false} RunConcat(hashers: Hashers, s: State, a: seq<Step>, b: seq<Step>)
    ensures Pipeline.Run(hashers, s, a + b) == Pipeline.Run(hashers, Pipeline.Run(hashers, s, a), b)
    decreases |b|
  {
    hide Next;
    if b == [] {
      assert a + b == a;
    } else {
      assert (a + b)[..|a + b| - 1] == a + b[..|b| - 1];
      RunConcat(hashers, s, a, b[..|b| - 1]);
    }
  }

  /** The two steps of a turn, one after the other. */
  lemma RunTurn(hashers: Hashers, s: State, x: Step, y: Step, rest: seq<Step>)
    ensures Pipeline.Run(hashers, s, [x, y] + rest) == Pipeline.Run(hashers, Next(hashers, Next(hashers, s, x), y), rest)
  {
    hide Next;
    RunConcat(hashers, s, [x, y], rest);
    assert [x, y][..1] == [x] && [x, y][1] == y && [x][..0] == [];
    assert Pipeline.Run(hashers, s, [x]) == Next(hashers, s, x);
    assert Pipeline.Run(hashers, s, [x, y]) == Next(hashers, Pipeline.Run(hashers, s, [x]), y);
  }

  /** So many turns of a thread. */
  function Turns(n: nat, x: Step, y: Step): seq<Step> {
    if n == 0 then [] else [x, y] + Turns(n - 1, x, y)
  }

  // ----- the digestor's thread -----

  lemma {:induction false} StoppedTurns(hashers: Hashers, s: State, n: nat)
    requires !s.digestor.running && !s.looked
    ensures Pipeline.Run(hashers, s, Turns(n, LookAtBacklog, ReceiveEvent)) == s
  {
    if n > 0 {
      RunTurn(hashers, s, LookAtBacklog, ReceiveEvent, Turns(n - 1, LookAtBacklog, ReceiveEvent));
      StoppedTurns(hashers, s, n - 1);
    }
  }

  /** A turn assesses the backlog and receives one event, and touches nothing of the consumer's or the sealers'. */
  lemma OneTurn(hashers: Hashers, s: State)
    requires s.digestor.running && !s.looked
    ensures var s' := Next(hashers, Next(hashers, s, LookAtBacklog), ReceiveEvent);
      var assessed := Assess(WithChannel(s), |s.membrane|);
      && !s'.looked && s'.range == s.range && s'.pending == s.pending && s'.sealing == s.sealing && s'.wal == s.wal
      && s'.membrane == (if s.membrane == [] then [] else s.membrane[1..])
      && WithChannel(s') == if s.membrane == [] then assessed else D.Receive(hashers.sha, assessed, s.membrane[0])
  {
    hide Digest;
  }

  /**
   With nobody feeding, the digestor's turns in the pipeline do what its own loop does: they end with its status
   and its channel, and leave the range and the log alone.
   */
  lemma {:induction false} TurnsAreDrain(hashers: Hashers, s: State)
    requires !s.looked
    ensures var s' := Pipeline.Run(hashers, s, Turns(|s.membrane| + 1, LookAtBacklog, ReceiveEvent));
      && WithChannel(s') == Drain(hashers.sha, WithChannel(s), s.membrane)
      && (s'.digestor.running ==> s'.membrane == [])
      && !s'.looked && s'.range == s.range && s'.pending == s.pending && s'.sealing == s.sealing && s'.wal == s.wal
    decreases |s.membrane|
  {
    hide Next, D.Receive;
    var n := |s.membrane|;
    if !s.digestor.running {
      StoppedTurns(hashers, s, n + 1);
    } else {
      OneTurn(hashers, s);
      RunTurn(hashers, s, LookAtBacklog, ReceiveEvent, Turns(n, LookAtBacklog, ReceiveEvent));
      if n > 0 {
        TurnsAreDrain(hashers, Next(hashers, Next(hashers, s, LookAtBacklog), ReceiveEvent));
      }
    }
  }

  // ----- feeding -----

  function Feeds(payloads: seq<Payload>): (steps: seq<Step>)
    ensures |steps| == |payloads| && forall i :: 0 <= i < |steps| ==> steps[i] == Feed(Data(payloads[i]))
  {
    seq(|payloads|, i requires 0 <= i < |payloads| => Feed(Data(payloads[i])))
  }

  function DataEvents(payloads: seq<Payload>): (events: seq<Event>)
    ensures |events| == |payloads| && forall i :: 0 <= i < |events| ==> events[i] == Data(payloads[i])
  {
    seq(|payloads|, i requires 0 <= i < |payloads| => Data(payloads[i]))
  }

  /** An empty membrane takes the first 1024. */
  function Taken(payloads: seq<Payload>): (taken: seq<Payload>)
    ensures |taken| <= MEMBRANE_CAPACITY
  {
    if |payloads| <= MEMBRANE_CAPACITY then payloads else payloads[..MEMBRANE_CAPACITY]
  }

  lemma OneFeed(hashers: Hashers, s: State, payload: Payload)
    ensures var s' := Next(hashers, s, Feed(Data(payload)));
      s' == s.(membrane := if |s.membrane| < MEMBRANE_CAPACITY then s.membrane + [Data(payload)] else s.membrane, accepted := s'.accepted)
  {}

  lemma TakesOneMore(payloads: seq<Payload>)
    requires payloads != []
    ensures var n := |payloads| - 1; var before := DataEvents(Taken(payloads[..n]));
      DataEvents(Taken(payloads)) == if |before| < MEMBRANE_CAPACITY then before + [Data(payloads[n])] else before
  {}

  lemma {:induction false} FedState(hashers: Hashers, s: State, payloads: seq<Payload>)
    requires s.membrane == []
    ensures var s' := Pipeline.Run(hashers, s, Feeds(payloads));
      s' == s.(membrane := DataEvents(Taken(payloads)), accepted := s'.accepted)
    decreases |payloads|
  {
    hide Next;
    if payloads == [] {
      assert DataEvents([]) == [];
    } else {
      var n := |payloads| - 1;
      assert Feeds(payloads)[..n] == Feeds(payloads[..n]);
      FedState(hashers, s, payloads[..n]);
      OneFeed(hashers, Pipeline.Run(hashers, s, Feeds(payloads[..n])), payloads[n]);
      TakesOneMore(payloads);
    }
  }

  // ----- the consumer's thread -----

  function HashMessages(hashes: seq<Hash>): (messages: seq<Message>)
    ensures |messages| == |hashes| && forall i :: 0 <= i < |messages| ==> messages[i] == HashMessage(hashes[i])
  {
    seq(|hashes|, i requires 0 <= i < |hashes| => HashMessage(hashes[i]))
  }

  /** One record per hash, with consecutive leaf indices. */
  function Records(index: nat, hashes: seq<Hash>): seq<LogEntry>
    decreases |hashes|
  {
    if hashes == [] then [] else [LeafEntry(index, hashes[0], 0)] + Records(index + 1, hashes[1..])
  }

  /** One turn of the consumer takes one hash into the range and into the log. */
  lemma OneConsumption(hashers: Hashers, s: State, hash: Hash)
    requires s.pending == None && s.sealing == None && s.hashes != [] && s.hashes[0] == HashMessage(hash)
    ensures Next(hashers, Next(hashers, s, Consume), LogLeaf) ==
      s.(hashes := s.hashes[1..], range := s.range.(leaves := s.range.leaves + [hash]),
         wal := s.wal + [LeafEntry(|s.range.leaves|, hash, 0)])
  {}

  /** The state with an empty channel and these hashes in the range and in the log. */
  function Grown(s: State, hashes: seq<Hash>): State {
    s.(hashes := [], range := s.range.(leaves := s.range.leaves + hashes), wal := s.wal + Records(|s.range.leaves|, hashes))
  }

  lemma GrownByOne(s: State, hashes: seq<Hash>)
    requires hashes != [] && s.hashes != []
    ensures var s' := s.(hashes := s.hashes[1..], range := s.range.(leaves := s.range.leaves + [hashes[0]]),
                         wal := s.wal + [LeafEntry(|s.range.leaves|, hashes[0], 0)]);
      Grown(s', hashes[1..]) == Grown(s, hashes)
  {
    var rest, e := hashes[1..], LeafEntry(|s.range.leaves|, hashes[0], 0);
    assert s.range.leaves + hashes == s.range.leaves + [hashes[0]] + rest;
    assert Records(|s.range.leaves|, hashes) == [e] + Records(|s.range.leaves| + 1, rest);
    assert s.wal + ([e] + Records(|s.range.leaves| + 1, rest)) == s.wal + [e] + Records(|s.range.leaves| + 1, rest);
  }

  lemma GrownByNone(s: State)
    requires s.hashes == []
    ensures Grown(s, []) == s
  {
    assert s.range.leaves + [] == s.range.leaves && s.wal + [] == s.wal;
  }

  lemma {:induction false} ConsumedState(hashers: Hashers, s: State, hashes: seq<Hash>)
    requires s.pending == None && s.sealing == None && s.hashes == HashMessages(hashes)
    ensures Pipeline.Run(hashers, s, Turns(|hashes|, Consume, LogLeaf)) == Grown(s, hashes)
    decreases |hashes|
  {
    hide Next, Grown;
    if hashes == [] {
      GrownByNone(s);
    } else {
      var rest := hashes[1..];
      OneConsumption(hashers, s, hashes[0]);
      RunTurn(hashers, s, Consume, LogLeaf, Turns(|rest|, Consume, LogLeaf));
      var s' := Next(hashers, Next(hashers, s, Consume), LogLeaf);
      assert s'.hashes == HashMessages(rest);
      ConsumedState(hashers, s', rest);
      GrownByOne(s, hashes);
    }
  }

  // ----- a burst from end to end -----

  /** Nothing is on its way, and nobody holds back. */
  predicate Calm(s: State) {
    && s.digestor.running && !s.digestor.suppressed && !s.looked
    && s.membrane == [] && s.hashes == [] && s.pending == None && s.sealing == None
  }

  /** The payloads of a burst that get through: of 819 or more the last 203. */
  function Kept(payloads: seq<Payload>): (kept: seq<Payload>)
    ensures |kept| <= HASH_CAPACITY
  {
    var taken := Taken(payloads);
    if |taken| < HYSTERESIS_HIGH then taken else taken[|taken| - 203..]
  }

  function Shas(sha: Sha, payloads: seq<Payload>): (hashes: seq<Hash>)
    ensures |hashes| == |payloads| && forall i :: 0 <= i < |hashes| ==> hashes[i] == sha(payloads[i])
  {
    seq(|payloads|, i requires 0 <= i < |payloads| => sha(payloads[i]))
  }

  /** Feed a burst, let the digestor drain it, and let the consumer empty the channel. */
  function Burst(payloads: seq<Payload>): seq<Step> {
    Feeds(payloads)
    + Turns(|Taken(payloads)| + 1, LookAtBacklog, ReceiveEvent)
    + Turns(|Kept(payloads)|, Consume, LogLeaf)
  }

  lemma DrainKeeps(sha: Sha, s: Status, payloads: seq<Payload>)
    requires s.running && !s.suppressed && s.sent == []
    ensures var r := Drain(sha, s, DataEvents(Taken(payloads)));
      r.running && !r.suppressed && r.sent == HashMessages(Shas(sha, Kept(payloads)))
  {
    hide Drain, DigestAll;
    var events := DataEvents(Taken(payloads));
    var kept := DataEvents(Kept(payloads));
    if |events| < HYSTERESIS_HIGH {
      QuietDrain(sha, s, events);
      DigestAllData(sha, s, events);
      DigestAllCalm(sha, s, events);
      assert events == kept;
    } else {
      var lost := |events| - 203;
      var entered := s.(suppressed := true, suppressions := s.suppressions + 1);
      EnterSuppression(sha, s, events);
      SuppressedDrain(sha, entered, events);
      var calm := entered.(suppressed := false, dropped := s.dropped + lost);
      assert events[lost..] == kept;
      DigestAllData(sha, calm, kept);
      DigestAllCalm(sha, calm, kept);
    }
  }

  lemma EnterSuppression(sha: Sha, s: Status, rx: seq<Event>)
    requires s.running && !s.suppressed && |rx| >= HYSTERESIS_HIGH
    ensures Drain(sha, s, rx) == Drain(sha, s.(suppressed := true, suppressions := s.suppressions + 1), rx)
  {}

  lemma {:induction false} DigestAllCalm(sha: Sha, s: Status, rx: seq<Event>)
    ensures DigestAll(sha, s, rx).suppressed == s.suppressed
    decreases |rx|
  {
    if s.running && rx != [] {
      DigestAllCalm(sha, Digest(sha, s, rx[0]), rx[1..]);
    }
  }

  /**
   Whatever the size of the burst: the range grows by the hashes of exactly the payloads that get through, in order,
   the log by one record for each with its leaf index, and the pipeline is calm again.
   */
  lemma BurstIsDelivered(hashers: Hashers, s: State, payloads: seq<Payload>)
    requires Calm(s)
    ensures var s' := Pipeline.Run(hashers, s, Burst(payloads));
      var hashes := Shas(hashers.sha, Kept(payloads));
      && Calm(s')
      && s'.range == s.range.(leaves := s.range.leaves + hashes)
      && s'.wal == s.wal + Records(|s.range.leaves|, hashes)
  {
    hide Pipeline.Run, Drain, Kept, Taken, Turns, Records;
    var fed := Pipeline.Run(hashers, s, Feeds(payloads));
    FedState(hashers, s, payloads);
    var digested := Pipeline.Run(hashers, fed, Turns(|Taken(payloads)| + 1, LookAtBacklog, ReceiveEvent));
    TurnsAreDrain(hashers, fed);
    DrainKeeps(hashers.sha, WithChannel(s), payloads);
    assert WithChannel(fed) == WithChannel(s);
    ConsumedState(hashers, digested, Shas(hashers.sha, Kept(payloads)));
    RunConcat(hashers, s, Feeds(payloads), Turns(|Taken(payloads)| + 1, LookAtBacklog, ReceiveEvent));
    RunConcat(hashers, s, Feeds(payloads) + Turns(|Taken(payloads)| + 1, LookAtBacklog, ReceiveEvent),
              Turns(|Kept(payloads)|, Consume, LogLeaf));
  }

  // ----- many bursts, a seal, and a restart -----

  function Bursts(bursts: seq<seq<Payload>>): seq<Step> {
    if bursts == [] then [] else Bursts(bursts[..|bursts| - 1]) + Burst(bursts[|bursts| - 1])
  }

  /** The hashes of what gets through. */
  function Delivered(sha: Sha, bursts: seq<seq<Payload>>): seq<Hash> {
    if bursts == [] then [] else Delivered(sha, bursts[..|bursts| - 1]) + Shas(sha, Kept(bursts[|bursts| - 1]))
  }

  lemma {:induction false} RecordsConcat(index: nat, a: seq<Hash>, b: seq<Hash>)
    ensures Records(index, a + b) == Records(index, a) + Records(index + |a|, b)
    decreases |a|
  {
    if a == [] {
      assert a + b == b;
    } else {
      assert (a + b)[0] == a[0] && (a + b)[1..] == a[1..] + b;
      RecordsConcat(index + 1, a[1..], b);
    }
  }

  lemma {:induction false} BurstsAreDelivered(hashers: Hashers, bursts: seq<seq<Payload>>)
    ensures var s' := Pipeline.Run(hashers, R.FRESH, Bursts(bursts));
      var hashes := Delivered(hashers.sha, bursts);
      Calm(s') && s'.range == Log(hashes, {}, 0) && s'.wal == Records(0, hashes)
    decreases |bursts|
  {
    hide Burst, Kept, Shas, Next, Records;
    if bursts == [] {
      assert Records(0, []) == [] by { RecordsAreLeaves(0, []); }
    } else {
      var before, last := bursts[..|bursts| - 1], bursts[|bursts| - 1];
      BurstsAreDelivered(hashers, before);
      BurstIsDelivered(hashers, Pipeline.Run(hashers, R.FRESH, Bursts(before)), last);
      RunConcat(hashers, R.FRESH, Bursts(before), Burst(last));
      RecordsConcat(0, Delivered(hashers.sha, before), Shas(hashers.sha, Kept(last)));
    }
  }

  const SEAL: seq<Step> := [BeginSeal, LogSeal, SyncLog]

  /** A sealer that is not disturbed logs the root of all leaves and syncs. */
  lemma SealIsLogged(hashers: Hashers, s: State)
    requires Calm(s) && s.range.leaves != []
    ensures var s' := Pipeline.Run(hashers, s, SEAL);
      && Calm(s') && s'.range == s.range.(epoch := s.range.epoch + 1)
      && s'.wal == s.wal + [SealEntry(s.range.epoch, Root(hashers.merge, s.range.leaves)), SyncEntry]
  {
    hide Root;
    assert SEAL[..2][..1] == [BeginSeal] && SEAL[..2] == [BeginSeal, LogSeal] && [BeginSeal][..0] == [];
    assert Pipeline.Run(hashers, s, [BeginSeal]) == Next(hashers, s, BeginSeal);
    assert Pipeline.Run(hashers, s, SEAL[..2]) == Next(hashers, Next(hashers, s, BeginSeal), LogSeal);
    var wal := s.wal + [SealEntry(s.range.epoch, Root(hashers.merge, s.range.leaves))];
    assert wal + [SyncEntry] == s.wal + [SealEntry(s.range.epoch, Root(hashers.merge, s.range.leaves)), SyncEntry];
  }

  lemma {:induction false} RecordsAreLeaves(index: nat, hashes: seq<Hash>)
    ensures |Records(index, hashes)| == |hashes|
    ensures forall i :: 0 <= i < |hashes| ==> Records(index, hashes)[i] == LeafEntry(index + i, hashes[i], 0)
    decreases |hashes|
  {
    if hashes != [] {
      RecordsAreLeaves(index + 1, hashes[1..]);
    }
  }

  /**
   From producer to restart: after any bursts into a fresh pipeline and one seal, replaying the log file gives the
   hashes of exactly the payloads that got through, in order, and the sealed root is theirs.
   */
  lemma BurstsSurviveRestart(hashers: Hashers, bursts: seq<seq<Payload>>)
    requires Delivered(hashers.sha, bursts) != []
    ensures var s' := Pipeline.Run(hashers, R.FRESH, Bursts(bursts) + SEAL);
      var hashes := Delivered(hashers.sha, bursts);
      && s'.wal == Records(0, hashes) + [SealEntry(0, Root(hashers.merge, hashes)), SyncEntry]
      && WalStore.Replayed(R.LogFile(s'.wal)) == hashes
  {
    hide Root, Bursts, Delivered, Records, Pipeline.Run, R.LogFile, WalStore.Replayed, Vetoes;
    var hashes := Delivered(hashers.sha, bursts);
    var fed := Pipeline.Run(hashers, R.FRESH, Bursts(bursts));
    BurstsAreDelivered(hashers, bursts);
    SealIsLogged(hashers, fed);
    RunConcat(hashers, R.FRESH, Bursts(bursts), SEAL);
    var s' := Pipeline.Run(hashers, R.FRESH, Bursts(bursts) + SEAL);
    RecordsAreLeaves(0, hashes);
    NoVetoes(s'.wal);
    R.OrderlyRunRebuilds(hashers, Bursts(bursts) + SEAL);
  }

  lemma {:induction false} NoVetoes(wal: seq<LogEntry>)
    requires forall i :: 0 <= i < |wal| && wal[i].LeafEntry? ==> wal[i].contentId == 0
    ensures Vetoes(wal) == []
    decreases |wal|
  {
    if wal != [] {
      NoVetoes(wal[..|wal| - 1]);
    }
  }
}
