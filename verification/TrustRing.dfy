/** A peer's trust score: a ring of its last 64 behaviour samples. */
module TrustRing {
  const WINDOW: nat := 64
  const TRUST_MAX: int := 100
  const TRUST_MIN: int := -100
  const THRESHOLD_BAN: int := -50

  datatype Sample = Good | Bad | Empty

  datatype Connection = Handshaking | Active | Suspended | Banned

  /** Integer division that drops the fraction, also for a negative numerator. */
  function TruncDiv(a: int, b: int): int
    requires b > 0
  {
    if a >= 0 then a / b else -((-a) / b)
  }

  const SILENCE_DECAY_TICKS: nat := 1000

  /** The low 16 bits, as a signed integer. */
  function AsI16(x: int): (y: int)
    ensures -0x8000 <= y < 0x8000
    ensures -0x8000 <= x < 0x8000 ==> y == x
  {
    var low := x % 0x1_0000;
    if low >= 0x8000 then low - 0x1_0000 else low
  }

  /** One point per thousand silent ticks, in 16-bit arithmetic throughout. */
  function Silenced(score: int, silentTicks: nat): int {
    var decay := AsI16(silentTicks / SILENCE_DECAY_TICKS);
    if decay <= 0 then score
    else
      var lowered := AsI16(score - decay);
      if lowered < TRUST_MIN then TRUST_MIN else lowered
  }

  function Clamp(x: int): int {
    if x < TRUST_MIN then TRUST_MIN else if x > TRUST_MAX then TRUST_MAX else x
  }

  // ----- what the ring stands for -----

  function Count(samples: seq<Sample>, which: Sample): (n: nat)
    ensures n <= |samples|
  {
    if samples == [] then 0
    else Count(samples[..|samples| - 1], which) + if samples[|samples| - 1] == which then 1 else 0
  }

  /** The last 64 samples, or all while there are fewer. */
  function Window(history: seq<Sample>): (w: seq<Sample>)
    ensures |w| <= WINDOW
  {
    if |history| <= WINDOW then history else history[|history| - WINDOW..]
  }

  /** Good minus bad in percent of the samples, truncated toward zero. */
  function Score(samples: seq<Sample>): int {
    if samples == [] then 0 else TruncDiv((Count(samples, Good) - Count(samples, Bad)) * 100, |samples|)
  }

  function ConnectionFor(score: int, vdfVerified: bool): Connection {
    if score <= THRESHOLD_BAN then Banned
    else if score < 0 then Suspended
    else if vdfVerified then Active
    else Handshaking
  }

  /** The slots that hold samples, as counted by a pass over the filled part. */
  ghost predicate RingHolds(slots: seq<Sample>, head: nat, fill: nat, history: seq<Sample>) {
    && |slots| == WINDOW && head == |history| % WINDOW
    && fill == |Window(history)|
    && forall i :: 0 <= i < |history| && i + WINDOW >= |history| ==> slots[i % WINDOW] == history[i]
  }

  // ----- counting is insensitive to rotation -----

  lemma {:induction false} CountConcat(a: seq<Sample>, b: seq<Sample>, which: Sample)
    ensures Count(a + b, which) == Count(a, which) + Count(b, which)
    decreases |b|
  {
    if b == [] {
      assert a + b == a;
    } else {
      assert (a + b)[..|a + b| - 1] == a + b[..|b| - 1];
      CountConcat(a, b[..|b| - 1], which);
    }
  }

  /** Before the ring is full its filled part is the window. */
  lemma FilledBeforeWrap(slots: seq<Sample>, head: nat, fill: nat, history: seq<Sample>)
    requires RingHolds(slots, head, fill, history) && |history| < WINDOW
    ensures fill <= |slots| && slots[..fill] == Window(history)
  {
    forall i | 0 <= i < fill
      ensures slots[i] == history[i]
    {
      assert i % WINDOW == i;
    }
  }

  /** Once it is full the ring is the window, rotated to the head. */
  lemma FilledAfterWrap(slots: seq<Sample>, head: nat, fill: nat, history: seq<Sample>)
    requires RingHolds(slots, head, fill, history) && |history| >= WINDOW
    ensures head < WINDOW && fill == WINDOW
    ensures slots[head..] + slots[..head] == Window(history)
  {
    forall i | 0 <= i < WINDOW
      ensures (slots[head..] + slots[..head])[i] == Window(history)[i]
    {
      RotatedSlot(slots, head, fill, history, i);
    }
  }

  lemma SlotOf(slots: seq<Sample>, head: nat, fill: nat, history: seq<Sample>, k: nat)
    requires RingHolds(slots, head, fill, history) && k < |history| <= k + WINDOW
    ensures |slots| == WINDOW && head == |history| % WINDOW && slots[k % WINDOW] == history[k]
  {}

  lemma RotatedSlot(slots: seq<Sample>, head: nat, fill: nat, history: seq<Sample>, i: nat)
    requires RingHolds(slots, head, fill, history) && |history| >= WINDOW && i < WINDOW
    ensures head < WINDOW <= |slots| && (slots[head..] + slots[..head])[i] == Window(history)[i]
  {
    hide RingHolds;
    var k := |history| - WINDOW + i;
    SlotOf(slots, head, fill, history, k);
    RotatedIndex(|history|, i);
    assert history[k] == Window(history)[i];
  }

  lemma RotatedIndex(n: nat, i: nat)
    requires n >= WINDOW && i < WINDOW
    ensures (n - WINDOW + i) % WINDOW == if n % WINDOW + i < WINDOW then n % WINDOW + i else n % WINDOW + i - WINDOW
  {}

  lemma FilledCount(slots: seq<Sample>, head: nat, fill: nat, history: seq<Sample>, which: Sample)
    requires RingHolds(slots, head, fill, history)
    ensures fill <= |slots| && Count(slots[..fill], which) == Count(Window(history), which)
  {
    hide RingHolds, Window, Count;
    RingBasics(slots, head, fill, history);
    if |history| < WINDOW {
      FilledBeforeWrap(slots, head, fill, history);
    } else {
      FilledAfterWrap(slots, head, fill, history);
      CountRotated(slots, head, which);
      assert slots[..fill] == slots;
    }
  }

  lemma CountRotated(slots: seq<Sample>, k: nat, which: Sample)
    requires k <= |slots|
    ensures Count(slots[k..] + slots[..k], which) == Count(slots, which)
  {
    CountConcat(slots[k..], slots[..k], which);
    CountConcat(slots[..k], slots[k..], which);
    assert slots[..k] + slots[k..] == slots;
  }

  lemma RingBasics(slots: seq<Sample>, head: nat, fill: nat, history: seq<Sample>)
    requires RingHolds(slots, head, fill, history)
    ensures |slots| == WINDOW && head < WINDOW && fill == |Window(history)| <= WINDOW
    ensures fill < WINDOW ==> fill == |history|
  {}

  class PeerState {
    var trustScore: int
    const behaviorWindow: array<Sample>
    var windowHead: nat
    var windowFill: nat
    var lastActiveTick: nat
    var vdfVerified: bool
    var strikeCount: nat
    var connection: Connection

    /** Every sample recorded, oldest first. */
    ghost var history: seq<Sample>

    ghost predicate Valid()
      reads this, behaviorWindow
    {
      behaviorWindow.Length == WINDOW && RingHolds(behaviorWindow[..], windowHead, windowFill, history)
    }

    constructor ()
      ensures Valid() && fresh(behaviorWindow) && history == []
      ensures trustScore == 0 && !vdfVerified && connection == Handshaking
    {
      trustScore, windowHead, windowFill, lastActiveTick, strikeCount := 0, 0, 0, 0, 0;
      behaviorWindow := new Sample[64](_ => Empty);
      vdfVerified, connection, history := false, Handshaking, [];
    }

    /** Record a sample over the oldest one, then score and classify afresh. */
    method Record(sample: Sample, currentTick: nat)
      requires Valid()
      modifies this, behaviorWindow
      ensures Valid() && history == old(history) + [sample]
      ensures trustScore == Score(Window(history)) && TRUST_MIN <= trustScore <= TRUST_MAX
      ensures connection == ConnectionFor(trustScore, vdfVerified) && vdfVerified == old(vdfVerified)
      ensures lastActiveTick == currentTick
      ensures strikeCount == if sample == Bad && old(strikeCount) < 255 then old(strikeCount) + 1 else old(strikeCount)
    {
      hide RingHolds, Score, Window, ConnectionFor;
      RingBasics(behaviorWindow[..], windowHead, windowFill, history);
      RingAdvances(behaviorWindow[..], windowHead, windowFill, history, sample);
      ghost var slots := behaviorWindow[..][windowHead := sample];
      behaviorWindow[windowHead] := sample;
      assert behaviorWindow[..] == slots;
      windowHead := (windowHead + 1) % WINDOW;
      if windowFill < WINDOW {
        windowFill := windowFill + 1;
      }
      lastActiveTick := currentTick;
      if sample == Bad && strikeCount < 255 {
        strikeCount := strikeCount + 1;
      }
      history := history + [sample];
      RecalculateScore();
      UpdateConnectionState();
    }

    /** Count over the filled slots. */
    method Tally() returns (good: nat, bad: nat)
      requires Valid() && windowFill <= WINDOW
      ensures good == Count(behaviorWindow[..windowFill], Good) && bad == Count(behaviorWindow[..windowFill], Bad)
    {
      good, bad := 0, 0;
      for i := 0 to windowFill
        invariant good == Count(behaviorWindow[..i], Good) && bad == Count(behaviorWindow[..i], Bad)
      {
        assert behaviorWindow[..i + 1][..i] == behaviorWindow[..i];
        match behaviorWindow[i]
        case Good => good := good + 1;
        case Bad => bad := bad + 1;
        case Empty =>
      }
    }

    /** Normalise to a percentage. The clamp never bites. */
    method RecalculateScore()
      requires Valid()
      modifies `trustScore
      ensures trustScore == Score(Window(history)) && TRUST_MIN <= trustScore <= TRUST_MAX
    {
      hide RingHolds, Window, Count;
      RingBasics(behaviorWindow[..], windowHead, windowFill, history);
      if windowFill == 0 {
        trustScore := 0;
        return;
      }
      FilledCount(behaviorWindow[..], windowHead, windowFill, history, Good);
      FilledCount(behaviorWindow[..], windowHead, windowFill, history, Bad);
      var good: int, bad: int := Tally();
      assert behaviorWindow[..][..windowFill] == behaviorWindow[..windowFill];
      GoodAndBadAreDisjoint(Window(history));
      PercentInRange(good, bad, windowFill);
      hide TruncDiv;
      var raw := TruncDiv((good - bad) * 100, windowFill);
      trustScore := Clamp(raw);
    }

    method UpdateConnectionState()
      modifies `connection
      ensures connection == ConnectionFor(trustScore, vdfVerified)
    {
      connection := ConnectionFor(trustScore, vdfVerified);
    }

    /** Lower the score of a silent peer. The samples keep their weight. */
    method ApplySilenceDecay(currentTick: nat)
      requires Valid()
      modifies `trustScore, `connection
      ensures Valid()
      ensures var silent := if currentTick > lastActiveTick then currentTick - lastActiveTick else 0;
        && trustScore == Silenced(old(trustScore), silent)
        && connection == if AsI16(silent / SILENCE_DECAY_TICKS) > 0 then ConnectionFor(trustScore, vdfVerified) else old(connection)
    {
      hide RingHolds, ConnectionFor;
      var silentTicks := if currentTick > lastActiveTick then currentTick - lastActiveTick else 0;
      var decay := AsI16(silentTicks / SILENCE_DECAY_TICKS);
      if decay > 0 {
        var lowered := AsI16(trustScore - decay);
        trustScore := if lowered < TRUST_MIN then TRUST_MIN else lowered;
        UpdateConnectionState();
      }
    }

    /** A paid handshake resets the score to a bonus, without touching the samples. */
    method AdmitAfterVdf(currentTick: nat)
      requires Valid()
      modifies `vdfVerified, `lastActiveTick, `connection, `trustScore
      ensures Valid() && vdfVerified && connection == Active && trustScore == 10 && lastActiveTick == currentTick
    {
      vdfVerified := true;
      lastActiveTick := currentTick;
      connection := Active;
      trustScore := 10;
    }
  }

  lemma RingAdvances(slots: seq<Sample>, head: nat, fill: nat, history: seq<Sample>, sample: Sample)
    requires RingHolds(slots, head, fill, history)
    ensures head < WINDOW
    ensures RingHolds(slots[head := sample], (head + 1) % WINDOW, if fill < WINDOW then fill + 1 else fill, history + [sample])
  {
    var n, slots' := |history|, slots[head := sample];
    assert (n + 1) % WINDOW == (n % WINDOW + 1) % WINDOW;
    forall i | 0 <= i < n + 1 && i + WINDOW >= n + 1
      ensures slots'[i % WINDOW] == (history + [sample])[i]
    {
      if i < n {
        DifferentSlots(i, n);
      }
    }
  }

  lemma DifferentSlots(i: nat, n: nat)
    requires i < n < i + WINDOW
    ensures i % WINDOW != n % WINDOW
  {}

  lemma {:induction false} GoodAndBadAreDisjoint(samples: seq<Sample>)
    ensures Count(samples, Good) + Count(samples, Bad) + Count(samples, Empty) == |samples|
    decreases |samples|
  {
    if samples != [] {
      GoodAndBadAreDisjoint(samples[..|samples| - 1]);
    }
  }

  lemma PercentInRange(good: nat, bad: nat, fill: nat)
    requires fill > 0 && good + bad <= fill
    ensures TRUST_MIN <= TruncDiv((good - bad) * 100, fill) <= TRUST_MAX
  {
    var x := if good >= bad then good - bad else bad - good;
    assert x * 100 <= 100 * fill;
    QuotientAtMost(x * 100, fill);
    assert (good - bad) * 100 == x * 100 || (good - bad) * 100 == -(x * 100);
  }

  lemma QuotientAtMost(a: nat, b: nat)
    requires b > 0 && a <= 100 * b
    ensures 0 <= a / b <= 100
  {
    assert b * (a / b) <= a <= 100 * b;
  }

  /** Once 64 good or bad samples fill the window, the peer is banned iff at least 48 of them are bad. */
  lemma BannedIff48Bad(history: seq<Sample>, vdfVerified: bool)
    requires |history| >= WINDOW && Count(Window(history), Empty) == 0
    ensures ConnectionFor(Score(Window(history)), vdfVerified) == Banned <==> Count(Window(history), Bad) >= 48
  {
    GoodAndBadAreDisjoint(Window(history));
  }

  /** Where a truncated quotient falls to a negative bound. */
  lemma TruncAtMost(x: int, n: int, k: int)
    requires n > 0 && k > 0
    ensures TruncDiv(x, n) <= -k <==> x <= -(k * n)
  {
    if x < 0 {
      QuotientAtLeast(-x, n, k);
    } else {
      assert k * n >= 0;
      QuotientAtLeast(x, n, 0);
    }
  }

  lemma MulAtLeast(b: nat, q: nat, k: nat)
    requires q >= k
    ensures b * q >= b * k
  {}

  lemma QuotientAtLeast(a: nat, b: nat, k: nat)
    requires b > 0
    ensures a / b >= k <==> a >= k * b
  {
    var q := a / b;
    assert a == b * q + a % b;
    if q >= k {
      MulAtLeast(b, q, k);
    } else {
      MulAtLeast(b, k - 1, q);
      assert b * (k - 1) == b * k - b;
    }
  }

  /**
   What the samples in the window make of a peer: banned when its bad samples outnumber the good ones by half of all
   or more, suspended when they outnumber them at all, and otherwise as its handshake says.
   */
  lemma StandingByCounts(history: seq<Sample>, vdfVerified: bool)
    requires history != []
    ensures var w := Window(history); var excess := Count(w, Bad) - Count(w, Good);
      var standing := ConnectionFor(Score(w), vdfVerified);
      && (standing == Banned <==> 2 * excess >= |w|)
      && (standing == Suspended <==> 0 < excess && 2 * excess < |w|)
      && (standing == Active <==> excess <= 0 && vdfVerified)
      && (standing == Handshaking <==> excess <= 0 && !vdfVerified)
  {
    var w := Window(history);
    var excess := Count(w, Bad) - Count(w, Good);
    hide TruncDiv, Count;
    var score := TruncDiv(-excess * 100, |w|);
    TruncAtMost(-excess * 100, |w|, 50);
    TruncAtMost(-excess * 100, |w|, 1);
    assert Score(w) == score;
  }

  lemma {:induction false} CountAll(samples: seq<Sample>, which: Sample)
    requires forall i :: 0 <= i < |samples| ==> samples[i] == which
    ensures forall other :: Count(samples, other) == if other == which then |samples| else 0
    decreases |samples|
  {
    if samples != [] {
      CountAll(samples[..|samples| - 1], which);
    }
  }

  /** Samples of one kind alone give the extreme scores, however few they are. */
  lemma UniformScores(samples: seq<Sample>, which: Sample)
    requires samples != [] && forall i :: 0 <= i < |samples| ==> samples[i] == which
    ensures Score(samples) == match which case Good => TRUST_MAX case Bad => TRUST_MIN case Empty => 0
  {
    CountAll(samples, which);
    hide Count;
    var n := |samples|;
    WholeQuotient(n, 100);
  }

  lemma WholeQuotient(n: nat, k: nat)
    requires n > 0
    ensures (n * k) / n == k && 0 / n == 0
  {
    QuotientAtLeast(n * k, n, k);
    QuotientAtLeast(n * k, n, k + 1);
    QuotientAtLeast(0, n, 1);
    assert (k + 1) * n == n * k + n;
  }

  /**
   Silence keeps a score in its range, and never raises it, exactly when the 16-bit subtraction does not wrap, and
   then takes one point per thousand ticks off it, down to the minimum, as long as the points fit 16 bits. When the
   subtraction wraps, the most distrusted peers come out above the maximum.
   */
  lemma SilenceKeepsRangeIffNoWrap(score: int, silentTicks: nat)
    requires TRUST_MIN <= score <= TRUST_MAX
    ensures var decay, after := AsI16(silentTicks / SILENCE_DECAY_TICKS), Silenced(score, silentTicks);
      && (TRUST_MIN <= after <= score <==> decay <= score + 0x8000)
      && (decay <= score + 0x8000 && silentTicks < 32768 * SILENCE_DECAY_TICKS ==>
            after == if score - silentTicks / SILENCE_DECAY_TICKS < TRUST_MIN then TRUST_MIN else score - silentTicks / SILENCE_DECAY_TICKS)
      && (decay > score + 0x8000 ==> after > TRUST_MAX)
  {
    var decay := AsI16(silentTicks / SILENCE_DECAY_TICKS);
    if decay > score + 0x8000 {
      assert (score - decay) % 0x1_0000 == score - decay + 0x1_0000;
    }
  }

  /** The score forgets: it depends on the last 64 samples only. */
  lemma OldSamplesAreForgotten(a: seq<Sample>, b: seq<Sample>, recent: seq<Sample>)
    requires |recent| == WINDOW
    ensures Score(Window(a + recent)) == Score(Window(b + recent)) == Score(recent)
  {
    assert Window(a + recent) == recent && Window(b + recent) == recent;
  }
}
