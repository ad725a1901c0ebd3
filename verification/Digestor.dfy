/** The digestor: hysteresis over the membrane's backlog, dropping under pressure, hashing otherwise. */
module Digestor {
  import opened Wrappers

  const MEMBRANE_CAPACITY: nat := 1024
  const HYSTERESIS_HIGH: nat := 819
  const HYSTERESIS_LOW: nat := 204
  const HASH_CAPACITY: nat := 1024

  type Payload = p: seq<byte> | |p| == 63 witness seq(63, _ => 0 as byte)

  type Sha = Payload -> Hash

  datatype Event = Data(payload: Payload) | Heartbeat(tick: nat) | Shutdown

  datatype Message = HashMessage(hash: Hash) | SealMessage

  datatype Status = Status(
    running: bool, suppressed: bool,
    processed: nat, dropped: nat, suppressions: nat,
    sent: seq<Message>)

  const INITIAL: Status := Status(true, false, 0, 0, 0, [])

  /** Enter suppression at the high mark, leave it only below the low mark. */
  function Assess(s: Status, backlog: nat): Status {
    if s.suppressed then s.(suppressed := backlog >= HYSTERESIS_LOW)
    else if backlog >= HYSTERESIS_HIGH then s.(suppressed := true, suppressions := s.suppressions + 1)
    else s
  }

  /** A full channel silently loses the message. */
  function TrySend(sent: seq<Message>, m: Message): seq<Message> {
    if |sent| < HASH_CAPACITY then sent + [m] else sent
  }

  function Digest(sha: Sha, s: Status, e: Event): Status {
    match e
    case Data(payload) => s.(processed := s.processed + 1, sent := TrySend(s.sent, HashMessage(sha(payload))))
    case Heartbeat(tick) => if tick % 10 == 0 then s.(sent := TrySend(s.sent, SealMessage)) else s
    case Shutdown => s.(running := false)
  }

  /** An event received under suppression is dropped, whatever it is; otherwise it is digested. */
  function Receive(sha: Sha, s: Status, e: Event): Status {
    if s.suppressed then s.(dropped := s.dropped + 1) else Digest(sha, s, e)
  }

  /** The loop over a membrane that nobody feeds any more. */
  function Drain(sha: Sha, s: Status, rx: seq<Event>): Status
    decreases |rx|
  {
    if !s.running then s
    else
      var assessed := Assess(s, |rx|);
      if rx == [] then assessed else Drain(sha, Receive(sha, assessed, rx[0]), rx[1..])
  }

  // ----- while the membrane is being fed -----

  /** What other threads do around one turn of the loop: stop it, empty the channel, feed the membrane. */
  datatype Round = Round(stop: bool, taken: nat, beforeLook: seq<Event>, beforeReceive: seq<Event>)

  /** A full membrane refuses events. */
  function Offered(rx: seq<Event>, events: seq<Event>): seq<Event> {
    if events == [] then rx
    else
      var before := Offered(rx, events[..|events| - 1]);
      if |before| < MEMBRANE_CAPACITY then before + [events[|events| - 1]] else before
  }

  function Remaining(sent: seq<Message>, taken: nat): seq<Message> {
    if taken <= |sent| then sent[taken..] else []
  }

  /** The loop, fed for the given rounds and then abandoned. */
  function Live(sha: Sha, s: Status, rx: seq<Event>, rounds: seq<Round>): Status
    decreases |rounds|
  {
    if rounds == [] then Drain(sha, s, rx)
    else
      var round := rounds[0];
      if !s.running || round.stop then s.(running := false)
      else
        var seen := Offered(rx, round.beforeLook);
        var assessed := Assess(s.(sent := Remaining(s.sent, round.taken)), |seen|);
        var queue := Offered(seen, round.beforeReceive);
        if queue == [] then Live(sha, assessed, queue, rounds[1..])
        else Live(sha, Receive(sha, assessed, queue[0]), queue[1..], rounds[1..])
  }

  class Digestor {
    const sha: Sha
    var rx: seq<Event>
    var running: bool
    var processed: nat
    var dropped: nat
    var suppressions: nat
    var hashTx: seq<Message>

    ghost function Contents(suppressed: bool): Status
      reads this
    {
      Status(running, suppressed, processed, dropped, suppressions, hashTx)
    }

    constructor (sha: Sha, rx: seq<Event>)
      ensures this.sha == sha && this.rx == rx && Contents(false) == INITIAL
    {
      this.sha, this.rx := sha, rx;
      running, processed, dropped, suppressions, hashTx := true, 0, 0, 0, [];
    }

    /** Run until stopped, or until the membrane is empty and its senders are gone. */
    method Run(rounds: seq<Round>) returns (suppressed: bool)
      modifies this
      ensures Contents(suppressed) == Live(sha, old(Contents(false)), old(rx), rounds)
      ensures running ==> rx == []
    {
      hide Offered, Remaining, Digest;
      suppressed := false;
      var i := 0;
      assert rounds[0..] == rounds;
      while running
        invariant i <= |rounds|
        invariant Live(sha, Contents(suppressed), rx, rounds[i..]) == Live(sha, old(Contents(false)), old(rx), rounds)
        decreases |rounds| - i, |rx|, running
      {
        assert i < |rounds| ==> rounds[i..][0] == rounds[i] && rounds[i..][1..] == rounds[i + 1..];
        if i < |rounds| {
          if rounds[i].stop {
            running := false;
            break;
          }
          hashTx := Remaining(hashTx, rounds[i].taken);
          rx := Offered(rx, rounds[i].beforeLook);
        }
        var backlog := |rx|;
        if suppressed {
          if backlog < HYSTERESIS_LOW {
            suppressed := false;
          }
        } else if backlog >= HYSTERESIS_HIGH {
          suppressed := true;
          suppressions := suppressions + 1;
        }
        var fed := i < |rounds|;
        if fed {
          rx := Offered(rx, rounds[i].beforeReceive);
          i := i + 1;
        }
        if rx == [] {
          if fed {
            continue;
          }
          break;
        }
        var event := rx[0];
        rx := rx[1..];
        if suppressed {
          dropped := dropped + 1;
        } else {
          DigestEvent(event);
        }
      }
    }

    method DigestEvent(event: Event)
      modifies `running, `processed, `hashTx
      ensures forall suppressed :: Contents(suppressed) == Digest(sha, old(Contents(suppressed)), event)
    {
      match event
      case Data(payload) =>
        processed := processed + 1;
        hashTx := TrySend(hashTx, HashMessage(sha(payload)));
      case Heartbeat(tick) =>
        if tick % 10 == 0 {
          hashTx := TrySend(hashTx, SealMessage);
        }
      case Shutdown =>
        running := false;
    }
  }

  // ----- what survives a burst -----

  /** Digest every event until a shutdown. */
  function DigestAll(sha: Sha, s: Status, rx: seq<Event>): Status
    decreases |rx|
  {
    if !s.running || rx == [] then s else DigestAll(sha, Digest(sha, s, rx[0]), rx[1..])
  }

  /** Below the high mark nothing is dropped; events left to drain never reach it. */
  lemma {:induction false} QuietDrain(sha: Sha, s: Status, rx: seq<Event>)
    requires !s.suppressed && |rx| < HYSTERESIS_HIGH
    ensures Drain(sha, s, rx) == DigestAll(sha, s, rx)
    decreases |rx|
  {
    if s.running && rx != [] {
      QuietDrain(sha, Digest(sha, s, rx[0]), rx[1..]);
    }
  }

  /** Under suppression everything is dropped down to the low mark, and what then remains is digested. */
  lemma {:induction false} SuppressedDrain(sha: Sha, s: Status, rx: seq<Event>)
    requires s.running && s.suppressed && |rx| >= HYSTERESIS_LOW - 1
    ensures var lost := |rx| - (HYSTERESIS_LOW - 1);
      Drain(sha, s, rx) == DigestAll(sha, s.(suppressed := false, dropped := s.dropped + lost), rx[lost..])
    decreases |rx|
  {
    if |rx| == HYSTERESIS_LOW - 1 {
      var calm := s.(suppressed := false);
      assert Drain(sha, s, rx) == Drain(sha, calm, rx);
      QuietDrain(sha, calm, rx);
      assert rx[0..] == rx;
    } else {
      SuppressedDrain(sha, s.(dropped := s.dropped + 1), rx[1..]);
      var lost := |rx| - (HYSTERESIS_LOW - 1);
      assert rx[1..][lost - 1..] == rx[lost..];
    }
  }

  /**
   A burst of F events with no further producers: under the high mark all are digested; at or above it the
   first F - 203 are dropped in one suppression and exactly the last 203 are digested, in order.
   */
  lemma BurstKeepsLast203(sha: Sha, rx: seq<Event>)
    ensures Drain(sha, INITIAL, rx) ==
      if |rx| < HYSTERESIS_HIGH then DigestAll(sha, INITIAL, rx)
      else
        var lost := |rx| - 203;
        DigestAll(sha, INITIAL.(dropped := lost, suppressions := 1), rx[lost..])
  {
    hide DigestAll, Digest;
    if |rx| < HYSTERESIS_HIGH {
      QuietDrain(sha, INITIAL, rx);
    } else {
      SuppressedDrain(sha, INITIAL.(suppressed := true, suppressions := 1), rx);
    }
  }

  lemma {:induction false} DigestAllRuns(sha: Sha, s: Status, rx: seq<Event>)
    requires s.running
    ensures DigestAll(sha, s, rx).running <==> forall i :: 0 <= i < |rx| ==> !rx[i].Shutdown?
    decreases |rx|
  {
    if rx != [] {
      var s', rest := Digest(sha, s, rx[0]), rx[1..];
      forall i | 0 <= i < |rx|
        ensures rx[i] == if i == 0 then rx[0] else rest[i - 1]
      {}
      if s'.running {
        DigestAllRuns(sha, s', rest);
      }
    }
  }

  /** A burst stops the loop if and only if a shutdown is among the events that are not dropped. */
  lemma ShutdownIsHeardIff(sha: Sha, rx: seq<Event>)
    ensures var lost := if |rx| < HYSTERESIS_HIGH then 0 else |rx| - 203;
      Drain(sha, INITIAL, rx).running <==> forall i :: lost <= i < |rx| ==> !rx[i].Shutdown?
  {
    BurstKeepsLast203(sha, rx);
    var lost := if |rx| < HYSTERESIS_HIGH then 0 else |rx| - 203;
    var kept := rx[lost..];
    assert rx[0..] == rx;
    hide Drain, Digest;
    DigestAllRuns(sha, if lost == 0 then INITIAL else INITIAL.(dropped := lost, suppressions := 1), kept);
    forall i | lost <= i < |rx|
      ensures rx[i] == kept[i - lost]
    {}
  }

  lemma {:induction false} DigestAllData(sha: Sha, s: Status, rx: seq<Event>)
    requires s.running && (forall i :: 0 <= i < |rx| ==> rx[i].Data?) && |s.sent| + |rx| <= HASH_CAPACITY
    ensures var r := DigestAll(sha, s, rx);
      && r.processed == s.processed + |rx| && r.dropped == s.dropped && r.running
      && |r.sent| == |s.sent| + |rx| && r.sent[..|s.sent|] == s.sent
      && (forall i :: 0 <= i < |rx| ==> r.sent[|s.sent| + i] == HashMessage(sha(rx[i].payload)))
    decreases |rx|
  {
    if rx != [] {
      var s' := Digest(sha, s, rx[0]);
      DigestAllData(sha, s', rx[1..]);
      var r := DigestAll(sha, s, rx);
      assert r.sent[..|s.sent|] == r.sent[..|s'.sent|][..|s.sent|];
      assert r.sent[|s.sent|] == r.sent[..|s'.sent|][|s.sent|];
      forall i | 0 <= i < |rx|
        ensures r.sent[|s.sent| + i] == HashMessage(sha(rx[i].payload))
      {
        if i > 0 {
          assert rx[1..][i - 1] == rx[i];
        }
      }
    }
  }

  /** With F data events queued at or above the high mark, exactly F - 203 are dropped and the last 203 hashed. */
  lemma DataBurst(sha: Sha, rx: seq<Event>)
    requires HYSTERESIS_HIGH <= |rx| && forall i :: 0 <= i < |rx| ==> rx[i].Data?
    ensures var r := Drain(sha, INITIAL, rx);
      && r.dropped == |rx| - 203 && r.processed == 203 && r.suppressions == 1
      && |r.sent| == 203
      && (forall i :: 0 <= i < 203 ==> r.sent[i] == HashMessage(sha(rx[|rx| - 203 + i].payload)))
  {
    BurstKeepsLast203(sha, rx);
    var lost := |rx| - 203;
    var s := INITIAL.(dropped := lost, suppressions := 1);
    DigestAllData(sha, s, rx[lost..]);
    DigestAllSuppressions(sha, s, rx[lost..]);
  }

  lemma {:induction false} DigestAllSuppressions(sha: Sha, s: Status, rx: seq<Event>)
    ensures DigestAll(sha, s, rx).suppressions == s.suppressions
    decreases |rx|
  {
    if s.running && rx != [] {
      DigestAllSuppressions(sha, Digest(sha, s, rx[0]), rx[1..]);
    }
  }

  // ----- what a burst sends -----

  /** What a digested event puts into the channel. */
  ghost predicate Announces(sha: Sha, e: Event, m: Message) {
    match e
    case Data(payload) => m == HashMessage(sha(payload))
    case Heartbeat(tick) => tick % 10 == 0 && m == SealMessage
    case Shutdown => false
  }

  ghost predicate Silent(e: Event) {
    e.Shutdown? || (e.Heartbeat? && e.tick % 10 != 0)
  }

  /** The messages were sent for the events at these indices, which are all from the given one on that are not silent. */
  ghost predicate SentAt(sha: Sha, messages: seq<Message>, events: seq<Event>, from: nat, index: seq<nat>) {
    && |index| == |messages|
    && (forall i :: 0 <= i < |index| ==> from <= index[i] < |events| && Announces(sha, events[index[i]], messages[i]))
    && (forall i, j :: 0 <= i < j < |index| ==> index[i] < index[j])
    && (forall j :: from <= j < |events| && !Silent(events[j]) ==> j in index)
  }

  ghost predicate SentFrom(sha: Sha, messages: seq<Message>, events: seq<Event>, from: nat) {
    exists index :: SentAt(sha, messages, events, from, index)
  }

  lemma NothingSent(sha: Sha, s: Status, events: seq<Event>)
    ensures DigestAll(sha, s, events[|events|..]).sent == s.sent + [] && SentFrom(sha, [], events, |events|)
  {
    assert SentAt(sha, [], events, |events|, []);
  }

  lemma SentNothing(sha: Sha, messages: seq<Message>, events: seq<Event>, from: nat)
    requires from < |events| && SentFrom(sha, messages, events, from + 1) && Silent(events[from])
    ensures SentFrom(sha, messages, events, from)
  {
    hide Announces, Silent;
    var index :| SentAt(sha, messages, events, from + 1, index);
    assert SentAt(sha, messages, events, from, index);
  }

  lemma SentOne(sha: Sha, m: Message, messages: seq<Message>, events: seq<Event>, from: nat)
    requires from < |events| && SentFrom(sha, messages, events, from + 1) && Announces(sha, events[from], m)
    ensures SentFrom(sha, [m] + messages, events, from)
  {
    hide Announces, Silent;
    var index :| SentAt(sha, messages, events, from + 1, index);
    var all := [from] + index;
    forall j | from <= j < |events| && !Silent(events[j])
      ensures j in all
    {
      if j == from {
        assert all[0] == j;
      }
    }
    assert SentAt(sha, [m] + messages, events, from, all);
  }

  lemma DigestSends(sha: Sha, s: Status, e: Event)
    requires s.running && !e.Shutdown? && |s.sent| < HASH_CAPACITY
    ensures var s' := Digest(sha, s, e);
      && s'.running
      && if Silent(e) then s'.sent == s.sent else |s'.sent| == |s.sent| + 1 && s'.sent[..|s.sent|] == s.sent && Announces(sha, e, s'.sent[|s.sent|])
  {}

  lemma DigestAllSteps(sha: Sha, s: Status, events: seq<Event>, from: nat)
    requires s.running && from < |events|
    ensures DigestAll(sha, s, events[from..]) == DigestAll(sha, Digest(sha, s, events[from]), events[from + 1..])
  {
    assert events[from..][1..] == events[from + 1..];
  }

  /** Appending a message and then some is appending them together. */
  lemma SentTogether(sent: seq<Message>, longer: seq<Message>, messages: seq<Message>)
    requires |longer| == |sent| + 1 && longer[..|sent|] == sent
    ensures longer + messages == sent + ([longer[|sent|]] + messages)
  {}

  /** Digesting events without a shutdown sends one message for each that is not silent, while the channel has room. */
  lemma {:induction false} DigestAllSends(sha: Sha, s: Status, events: seq<Event>, from: nat) returns (messages: seq<Message>)
    requires s.running && from <= |events| && |s.sent| + |events| - from <= HASH_CAPACITY
    requires forall i :: from <= i < |events| ==> !events[i].Shutdown?
    ensures DigestAll(sha, s, events[from..]).sent == s.sent + messages && SentFrom(sha, messages, events, from)
    decreases |events| - from
  {
    hide SentFrom, Digest, DigestAll, Announces, Silent;
    if from == |events| {
      messages := [];
      NothingSent(sha, s, events);
    } else {
      var s' := Digest(sha, s, events[from]);
      DigestAllSteps(sha, s, events, from);
      DigestSends(sha, s, events[from]);
      var rest := DigestAllSends(sha, s', events, from + 1);
      if Silent(events[from]) {
        messages := rest;
        SentNothing(sha, rest, events, from);
      } else {
        messages := [s'.sent[|s.sent|]] + rest;
        SentOne(sha, s'.sent[|s.sent|], rest, events, from);
        SentTogether(s.sent, s'.sent, rest);
      }
    }
  }

  /** A shutdown ends the digestion: what follows it is not even received. */
  lemma {:induction false} DigestAllStops(sha: Sha, s: Status, a: seq<Event>, b: seq<Event>)
    requires s.running && (forall i :: 0 <= i < |a| ==> !a[i].Shutdown?) && (b == [] || b[0].Shutdown?)
    ensures DigestAll(sha, s, a + b).sent == DigestAll(sha, s, a).sent
    decreases |a|
  {
    if a == [] {
      assert a + b == b;
    } else {
      assert (a + b)[0] == a[0] && (a + b)[1..] == a[1..] + b;
      DigestAllStops(sha, Digest(sha, s, a[0]), a[1..], b);
    }
  }

  /** Where the digestion of events ends: at the first shutdown, or behind the last event. */
  ghost predicate EndsAt(events: seq<Event>, from: nat, end: nat) {
    && from <= end <= |events|
    && (forall i :: from <= i < end ==> !events[i].Shutdown?)
    && (end < |events| ==> events[end].Shutdown?)
  }

  /**
   A burst sends, in order, one hash per data event and one seal request per heartbeat of a tenth tick, of those
   events that survive suppression and come before a surviving shutdown, and nothing else.
   */
  lemma BurstSends(sha: Sha, rx: seq<Event>, end: nat)
    requires EndsAt(rx, if |rx| < HYSTERESIS_HIGH then 0 else |rx| - 203, end)
    ensures SentFrom(sha, Drain(sha, INITIAL, rx).sent, rx[..end], if |rx| < HYSTERESIS_HIGH then 0 else |rx| - 203)
  {
    hide Drain, DigestAll, SentFrom;
    BurstKeepsLast203(sha, rx);
    var lost := if |rx| < HYSTERESIS_HIGH then 0 else |rx| - 203;
    assert rx[0..] == rx;
    var start := if |rx| < HYSTERESIS_HIGH then INITIAL else INITIAL.(dropped := lost, suppressions := 1);
    assert rx[lost..] == rx[..end][lost..] + rx[end..];
    DigestAllStops(sha, start, rx[..end][lost..], rx[end..]);
    var messages := DigestAllSends(sha, start, rx[..end], lost);
    assert [] + messages == messages;
  }
}
