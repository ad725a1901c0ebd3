/**
 The rate limiter: a sliding log of accepted requests per source, in 64 locked shards, with one shared
 counter of tracked sources and a sweeper that runs beside the checks.

 A check of a new source is two steps (reserve, insert) under its shard's lock; a sweep is one step per shard
 and a last one that lowers the counter. Time never goes backwards.
 */
module RateLimiter {
  import opened Wrappers

  const NUM_SHARDS: nat := 64

  /** A source key; only its length is ever looked at. */
  datatype Key = Key(text: string)
  type Time = nat
  type Shard = map<Key, seq<Time>>

  datatype Config = Config(maxRequests: nat, window: nat, maxSources: nat, maxKeyLen: nat, hash: Key -> nat)
  {
    /** The low six bits of the key's hash. */
    function ShardOf(key: Key): (i: nat)
      ensures i < NUM_SHARDS
    {
      hash(key) % NUM_SHARDS
    }
  }

  /** Durations saturate at zero. */
  function Elapsed(now: Time, t: Time): nat {
    if now >= t then now - t else 0
  }

  // ----- trimming -----

  function Trimmed(ts: seq<Time>, now: Time, window: nat): seq<Time> {
    if ts != [] && Elapsed(now, ts[0]) >= window then Trimmed(ts[1..], now, window) else ts
  }

  /** Pop expired timestamps from the front. */
  method TrimExpired(timestamps: seq<Time>, now: Time, window: nat) returns (rest: seq<Time>)
    ensures rest == Trimmed(timestamps, now, window)
  {
    rest := timestamps;
    while rest != [] && Elapsed(now, rest[0]) >= window
      invariant Trimmed(rest, now, window) == Trimmed(timestamps, now, window)
    {
      rest := rest[1..];
    }
  }

  predicate Sorted(ts: seq<Time>) {
    forall i, j :: 0 <= i < j < |ts| ==> ts[i] <= ts[j]
  }

  /** From index d on no timestamp has expired. */
  ghost predicate LiveFrom(ts: seq<Time>, d: nat, now: Time, window: nat) {
    forall i :: d <= i < |ts| ==> ts[i] + window > now
  }

  lemma LiveJoins(ts: seq<Time>, c: nat, e: nat, now: Time, window: nat)
    requires c <= |ts| && LiveFrom(ts[c..], e, now, window)
    ensures LiveFrom(ts, c + e, now, window)
  {
    forall i | c + e <= i < |ts|
      ensures ts[i] + window > now
    {
      assert ts[c..][i - c] == ts[i];
    }
  }

  /** Trimming removes a prefix, only of expired timestamps, and what it leaves has not expired. */
  lemma {:induction false} TrimIsSound(ts: seq<Time>, now: Time, window: nat, clock: Time) returns (d: nat)
    requires Sorted(ts) && now <= clock && forall i :: 0 <= i < |ts| ==> ts[i] <= clock
    ensures d <= |ts| && Trimmed(ts, now, window) == ts[d..]
    ensures forall i :: 0 <= i < d ==> ts[i] + window <= clock
    ensures now == clock ==> LiveFrom(ts, d, now, window)
    decreases |ts|
  {
    if ts != [] && Elapsed(now, ts[0]) >= window {
      var e := TrimIsSound(ts[1..], now, window, clock);
      d := e + 1;
      assert ts[1..][e..] == ts[d..];
      forall i | 0 <= i < d
        ensures ts[i] + window <= clock
      {
        if i > 0 {
          assert ts[1..][i - 1] == ts[i];
        }
      }
      if now == clock {
        LiveJoins(ts, 1, e, now, window);
      }
    } else {
      d := 0;
    }
  }

  // ----- the state -----

  datatype Sweep = Sweep(now: Time, next: nat, removed: nat)

  datatype State = State(
    shards: seq<Shard>,
    held: seq<Option<(Key, Time)>>,     // per shard, a reserved source about to be inserted
    active: nat,
    sweep: Option<Sweep>,
    clock: Time,
    accepted: map<Key, seq<Time>>)      // history: when each source's requests were accepted

  datatype Step = Tick | Check(key: Key) | Insert(shard: nat) | BeginSweep | SweepShard | EndSweep

  datatype Verdict = Refused | Accepted | Reserved

  predicate WellShaped(s: State) {
    |s.shards| == NUM_SHARDS && |s.held| == NUM_SHARDS && (s.sweep.Some? ==> s.sweep.value.next <= NUM_SHARDS)
  }

  function Initial(clock: Time): (s: State)
    ensures WellShaped(s)
  {
    State(seq(NUM_SHARDS, _ => map[]), seq(NUM_SHARDS, _ => None), 0, None, clock, map[])
  }

  function Times(s: State, key: Key): seq<Time> {
    if key in s.accepted then s.accepted[key] else []
  }

  /** What a check that holds its shard's lock decides. */
  function Decide(cfg: Config, s: State, key: Key): Verdict
    requires WellShaped(s)
  {
    var shard := s.shards[cfg.ShardOf(key)];
    if |key.text| > cfg.maxKeyLen || cfg.maxRequests == 0 then Refused
    else if key in shard then
      if |Trimmed(shard[key], s.clock, cfg.window)| >= cfg.maxRequests then Refused else Accepted
    else if s.active < cfg.maxSources then Reserved else Refused
  }

  /** Carry the decision out. A refused source that is tracked has had its log trimmed all the same. */
  function CheckStep(cfg: Config, s: State, key: Key): (s': State)
    requires WellShaped(s)
    ensures WellShaped(s')
  {
    var i := cfg.ShardOf(key);
    var rest := if key in s.shards[i] then Trimmed(s.shards[i][key], s.clock, cfg.window) else [];
    match Decide(cfg, s, key)
    case Accepted =>
      s.(shards := s.shards[i := s.shards[i][key := rest + [s.clock]]], accepted := s.accepted[key := Times(s, key) + [s.clock]])
    case Reserved => s.(active := s.active + 1, held := s.held[i := Some((key, s.clock))])
    case Refused =>
      if |key.text| <= cfg.maxKeyLen && cfg.maxRequests != 0 && key in s.shards[i]
      then s.(shards := s.shards[i := s.shards[i][key := rest]]) else s
  }

  function InsertStep(s: State, i: nat, key: Key, t: Time): (s': State)
    requires WellShaped(s) && i < NUM_SHARDS
    ensures WellShaped(s')
  {
    s.(shards := s.shards[i := s.shards[i][key := [t]]], held := s.held[i := None],
       accepted := s.accepted[key := Times(s, key) + [t]])
  }

  /** The sources of a shard that keep a timestamp at the sweep's time. */
  function Retained(shard: Shard, now: Time, window: nat): Shard {
    map k | k in shard && Trimmed(shard[k], now, window) != [] :: Trimmed(shard[k], now, window)
  }

  function SweepStep(cfg: Config, s: State, w: Sweep): (s': State)
    requires WellShaped(s) && w.next < NUM_SHARDS
    ensures WellShaped(s')
  {
    var kept := Retained(s.shards[w.next], w.now, cfg.window);
    var removed := if |kept| <= |s.shards[w.next]| then |s.shards[w.next]| - |kept| else 0;
    s.(shards := s.shards[w.next := kept], sweep := Some(Sweep(w.now, w.next + 1, w.removed + removed)))
  }

  /** A step that needs a lock another step holds, or that has nothing to do, waits. */
  function Next(cfg: Config, s: State, step: Step): (s': State)
    requires WellShaped(s)
    ensures WellShaped(s')
  {
    match step
    case Tick => s.(clock := s.clock + 1)
    case Check(key) => if s.held[cfg.ShardOf(key)].Some? then s else CheckStep(cfg, s, key)
    case Insert(i) =>
      if i < NUM_SHARDS && s.held[i].Some? then InsertStep(s, i, s.held[i].value.0, s.held[i].value.1) else s
    case BeginSweep => if s.sweep.Some? then s else s.(sweep := Some(Sweep(s.clock, 0, 0)))
    case SweepShard =>
      if s.sweep.Some? && s.sweep.value.next < NUM_SHARDS && s.held[s.sweep.value.next] == None
      then SweepStep(cfg, s, s.sweep.value) else s
    case EndSweep =>
      if s.sweep.Some? && s.sweep.value.next == NUM_SHARDS
      then s.(active := if s.sweep.value.removed <= s.active then s.active - s.sweep.value.removed else 0, sweep := None) else s
  }

  function Run(cfg: Config, s: State, steps: seq<Step>): (s': State)
    requires WellShaped(s)
    ensures WellShaped(s')
  {
    if steps == [] then s else Next(cfg, Run(cfg, s, steps[..|steps| - 1]), steps[|steps| - 1])
  }

  // ----- counting sources -----

  function Tracked(shards: seq<Shard>): nat {
    if shards == [] then 0 else Tracked(shards[..|shards| - 1]) + |shards[|shards| - 1]|
  }

  function HeldCount(held: seq<Option<(Key, Time)>>): nat {
    if held == [] then 0 else HeldCount(held[..|held| - 1]) + if held[|held| - 1].Some? then 1 else 0
  }

  lemma {:induction false} TrackedUpdate(shards: seq<Shard>, i: nat, shard: Shard)
    requires i < |shards|
    ensures Tracked(shards[i := shard]) + |shards[i]| == Tracked(shards) + |shard|
    decreases |shards|
  {
    var n, updated := |shards| - 1, shards[i := shard];
    if i < n {
      assert updated[..n] == shards[..n][i := shard];
      TrackedUpdate(shards[..n], i, shard);
    } else {
      assert updated[..n] == shards[..n];
    }
  }

  lemma {:induction false} HeldUpdate(held: seq<Option<(Key, Time)>>, i: nat, h: Option<(Key, Time)>)
    requires i < |held|
    ensures HeldCount(held[i := h]) + (if held[i].Some? then 1 else 0) == HeldCount(held) + if h.Some? then 1 else 0
    decreases |held|
  {
    var n, updated := |held| - 1, held[i := h];
    if i < n {
      assert updated[..n] == held[..n][i := h];
      HeldUpdate(held[..n], i, h);
    } else {
      assert updated[..n] == held[..n];
    }
  }

  /** Removed by the running sweep and not yet subtracted. */
  function Unsettled(s: State): nat {
    if s.sweep.Some? then s.sweep.value.removed else 0
  }

  /** The counter is exactly the tracked sources, plus reservations to insert, plus removals to subtract. */
  ghost predicate CounterExact(cfg: Config, s: State) {
    && s.active == Tracked(s.shards) + HeldCount(s.held) + Unsettled(s)
    && s.active <= cfg.maxSources
  }

  // ----- each source's log -----

  /** Requests that are max apart in the order of acceptance are at least a window apart in time. */
  ghost predicate Spaced(cfg: Config, ts: seq<Time>) {
    forall i, j :: 0 <= i && j == i + cfg.maxRequests && j < |ts| ==> ts[j] >= ts[i] + cfg.window
  }

  /** The first d acceptances lie at least a window before time t. */
  ghost predicate ExpiredUpTo(cfg: Config, ts: seq<Time>, d: nat, t: Time)
    requires d <= |ts|
  {
    forall i :: 0 <= i < d ==> ts[i] + cfg.window <= t
  }

  /** A shard's log of a source is the end of its history, and what was dropped from it has expired. */
  ghost predicate IsRecentPart(cfg: Config, ts: seq<Time>, log: seq<Time>, t: Time) {
    exists d: nat :: d <= |ts| && log == ts[d..] && ExpiredUpTo(cfg, ts, d, t)
  }

  ghost predicate HistoryOk(cfg: Config, s: State, key: Key)
    requires WellShaped(s)
  {
    var ts := Times(s, key);
    && Sorted(ts) && (forall i :: 0 <= i < |ts| ==> ts[i] <= s.clock) && Spaced(cfg, ts)
    && IsRecentPart(cfg, ts, if key in s.shards[cfg.ShardOf(key)] then s.shards[cfg.ShardOf(key)][key] else [], s.clock)
  }

  ghost predicate HeldOk(cfg: Config, s: State, i: nat)
    requires WellShaped(s) && i < NUM_SHARDS
  {
    match s.held[i]
    case None => true
    case Some((key, t)) =>
      && cfg.maxRequests > 0 && cfg.ShardOf(key) == i && key !in s.shards[i] && t <= s.clock
      && IsRecentPart(cfg, Times(s, key), [], t)
      && forall j :: 0 <= j < |Times(s, key)| ==> Times(s, key)[j] <= t
  }

  ghost predicate LogsOk(cfg: Config, s: State)
    requires WellShaped(s)
  {
    && (forall key :: HistoryOk(cfg, s, key))
    && (forall i :: 0 <= i < NUM_SHARDS ==> HeldOk(cfg, s, i))
    && (forall i, key :: 0 <= i < NUM_SHARDS && key in s.shards[i] ==> cfg.ShardOf(key) == i)
    && (s.sweep.Some? ==> s.sweep.value.now <= s.clock)
  }

  lemma RecentPartLater(cfg: Config, ts: seq<Time>, log: seq<Time>, t: Time, later: Time)
    requires IsRecentPart(cfg, ts, log, t) && t <= later
    ensures IsRecentPart(cfg, ts, log, later)
  {
    var d: nat :| d <= |ts| && log == ts[d..] && ExpiredUpTo(cfg, ts, d, t);
    assert ExpiredUpTo(cfg, ts, d, later);
  }

  lemma SortedSuffix(ts: seq<Time>, d: nat)
    requires Sorted(ts) && d <= |ts|
    ensures Sorted(ts[d..])
  {}

  /** Trimming a recent part leaves a recent part; at the current time it is exactly what has not expired. */
  lemma TrimKeepsRecent(cfg: Config, ts: seq<Time>, log: seq<Time>, now: Time, clock: Time) returns (d: nat)
    requires IsRecentPart(cfg, ts, log, clock) && now <= clock && Sorted(ts) && forall i :: 0 <= i < |ts| ==> ts[i] <= clock
    ensures IsRecentPart(cfg, ts, Trimmed(log, now, cfg.window), clock)
    ensures d <= |ts| && Trimmed(log, now, cfg.window) == ts[d..] && ExpiredUpTo(cfg, ts, d, clock)
    ensures now == clock ==> LiveFrom(ts, d, now, cfg.window)
  {
    hide Trimmed, Sorted, ExpiredUpTo, LiveFrom;
    var c: nat :| c <= |ts| && log == ts[c..] && ExpiredUpTo(cfg, ts, c, clock);
    d := TrimSuffix(cfg, ts, c, now, clock);
  }

  lemma TrimSuffix(cfg: Config, ts: seq<Time>, c: nat, now: Time, clock: Time) returns (d: nat)
    requires c <= |ts| && ExpiredUpTo(cfg, ts, c, clock) && now <= clock && Sorted(ts) && forall i :: 0 <= i < |ts| ==> ts[i] <= clock
    ensures d <= |ts| && Trimmed(ts[c..], now, cfg.window) == ts[d..] && ExpiredUpTo(cfg, ts, d, clock)
    ensures now == clock ==> LiveFrom(ts, d, now, cfg.window)
  {
    SortedSuffix(ts, c);
    var e := TrimIsSound(ts[c..], now, cfg.window, clock);
    hide Trimmed, Sorted, ExpiredUpTo, LiveFrom;
    d := c + e;
    DropTwice(ts, c, e);
    ExpiredJoins(cfg, ts, c, e, clock);
    if now == clock {
      LiveJoins(ts, c, e, now, cfg.window);
    }
  }

  lemma DropTwice<T>(s: seq<T>, c: nat, e: nat)
    requires c + e <= |s|
    ensures s[c..][e..] == s[c + e..]
  {}

  lemma ExpiredJoins(cfg: Config, ts: seq<Time>, c: nat, e: nat, t: Time)
    requires c + e <= |ts| && ExpiredUpTo(cfg, ts, c, t) && forall i :: 0 <= i < e ==> ts[c..][i] + cfg.window <= t
    ensures ExpiredUpTo(cfg, ts, c + e, t)
  {
    forall i | 0 <= i < c + e
      ensures ts[i] + cfg.window <= t
    {
      if i >= c {
        assert ts[c..][i - c] == ts[i];
      }
    }
  }

  /** Accepting now, when fewer than max unexpired acceptances remain, keeps acceptances spaced. */
  lemma AcceptKeepsHistory(cfg: Config, ts: seq<Time>, d: nat, t: Time, clock: Time)
    requires Sorted(ts) && Spaced(cfg, ts) && (forall i :: 0 <= i < |ts| ==> ts[i] <= t) && t <= clock
    requires d <= |ts| && ExpiredUpTo(cfg, ts, d, t) && |ts| - d < cfg.maxRequests
    ensures var grown := ts + [t];
      Sorted(grown) && Spaced(cfg, grown) && (forall i :: 0 <= i < |grown| ==> grown[i] <= clock)
      && IsRecentPart(cfg, grown, ts[d..] + [t], clock)
  {
    var grown := ts + [t];
    assert grown[d..] == ts[d..] + [t];
    assert ExpiredUpTo(cfg, grown, d, clock);
  }

  // ----- every step keeps the logs -----

  lemma OthersKept(cfg: Config, s: State, s': State, key: Key)
    requires WellShaped(s) && WellShaped(s') && HistoryOk(cfg, s, key)
    requires Times(s', key) == Times(s, key) && s'.clock >= s.clock
    requires (key in s'.shards[cfg.ShardOf(key)]) == (key in s.shards[cfg.ShardOf(key)])
    requires key in s.shards[cfg.ShardOf(key)] ==> s'.shards[cfg.ShardOf(key)][key] == s.shards[cfg.ShardOf(key)][key]
    ensures HistoryOk(cfg, s', key)
  {
    var log := if key in s.shards[cfg.ShardOf(key)] then s.shards[cfg.ShardOf(key)][key] else [];
    RecentPartLater(cfg, Times(s, key), log, s.clock, s'.clock);
  }

  /** Only one source's log and history change: that source's history stays right if its new log is a recent part. */
  lemma TouchedHistory(cfg: Config, s: State, s': State, key: Key, ts: seq<Time>, log: seq<Time>)
    requires WellShaped(s) && WellShaped(s') && s'.clock == s.clock
    requires Times(s', key) == ts && key in s'.shards[cfg.ShardOf(key)] && s'.shards[cfg.ShardOf(key)][key] == log
    requires Sorted(ts) && Spaced(cfg, ts) && (forall i :: 0 <= i < |ts| ==> ts[i] <= s.clock) && IsRecentPart(cfg, ts, log, s.clock)
    ensures HistoryOk(cfg, s', key)
  {}

  lemma CheckKeepsHistory(cfg: Config, s: State, key: Key)
    requires WellShaped(s) && HistoryOk(cfg, s, key)
    ensures HistoryOk(cfg, CheckStep(cfg, s, key), key)
  {
    var i, ts, s' := cfg.ShardOf(key), Times(s, key), CheckStep(cfg, s, key);
    if |key.text| <= cfg.maxKeyLen && cfg.maxRequests != 0 && key in s.shards[i] {
      var d := TrimKeepsRecent(cfg, ts, s.shards[i][key], s.clock, s.clock);
      hide Trimmed, Sorted, Spaced, IsRecentPart, ExpiredUpTo, HistoryOk;
      var rest := Trimmed(s.shards[i][key], s.clock, cfg.window);
      if |rest| >= cfg.maxRequests {
        TouchedHistory(cfg, s, s', key, ts, rest);
      } else {
        AcceptKeepsHistory(cfg, ts, d, s.clock, s.clock);
        TouchedHistory(cfg, s, s', key, ts + [s.clock], rest + [s.clock]);
      }
    }
  }

  lemma CheckKeepsOther(cfg: Config, s: State, key: Key, k: Key)
    requires WellShaped(s) && HistoryOk(cfg, s, k) && k != key
    ensures HistoryOk(cfg, CheckStep(cfg, s, key), k)
  {
    hide Trimmed, HistoryOk;
    OthersKept(cfg, s, CheckStep(cfg, s, key), k);
  }

  lemma CheckKeepsHeld(cfg: Config, s: State, key: Key, j: nat)
    requires WellShaped(s) && LogsOk(cfg, s) && s.held[cfg.ShardOf(key)] == None && j < NUM_SHARDS
    ensures HeldOk(cfg, CheckStep(cfg, s, key), j)
  {
    hide Trimmed, Spaced, IsRecentPart, ExpiredUpTo;
    assert HeldOk(cfg, s, j);
    assert HistoryOk(cfg, s, key);
  }

  lemma CheckKeepsLogs(cfg: Config, s: State, key: Key)
    requires WellShaped(s) && LogsOk(cfg, s) && s.held[cfg.ShardOf(key)] == None
    ensures WellShaped(CheckStep(cfg, s, key)) && LogsOk(cfg, CheckStep(cfg, s, key))
  {
    var s' := CheckStep(cfg, s, key);
    hide Trimmed, HistoryOk, HeldOk;
    forall k
      ensures HistoryOk(cfg, s', k)
    {
      assert HistoryOk(cfg, s, k);
      if k == key {
        CheckKeepsHistory(cfg, s, key);
      } else {
        CheckKeepsOther(cfg, s, key, k);
      }
    }
    forall j | 0 <= j < NUM_SHARDS
      ensures HeldOk(cfg, s', j)
    {
      CheckKeepsHeld(cfg, s, key, j);
    }
  }

  /** What a reservation knows about its source. */
  lemma HeldSource(cfg: Config, s: State, i: nat)
    requires WellShaped(s) && i < NUM_SHARDS && s.held[i].Some? && HeldOk(cfg, s, i)
    ensures var key, t := s.held[i].value.0, s.held[i].value.1; var ts := Times(s, key);
      && cfg.maxRequests > 0 && cfg.ShardOf(key) == i && key !in s.shards[i] && t <= s.clock
      && ExpiredUpTo(cfg, ts, |ts|, t) && (forall j :: 0 <= j < |ts| ==> ts[j] <= t)
  {
    var key, t := s.held[i].value.0, s.held[i].value.1;
    var ts := Times(s, key);
    var d: nat :| d <= |ts| && [] == ts[d..] && ExpiredUpTo(cfg, ts, d, t);
    assert d == |ts|;
  }

  lemma InsertKeepsHistory(cfg: Config, s: State, i: nat, key: Key, t: Time)
    requires WellShaped(s) && i < NUM_SHARDS && s.held[i] == Some((key, t)) && HeldOk(cfg, s, i) && HistoryOk(cfg, s, key)
    ensures HistoryOk(cfg, InsertStep(s, i, key, t), key)
  {
    hide HeldOk, Sorted, Spaced, IsRecentPart, ExpiredUpTo;
    HeldSource(cfg, s, i);
    var ts, s' := Times(s, key), InsertStep(s, i, key, t);
    AcceptKeepsHistory(cfg, ts, |ts|, t, s.clock);
    assert ts[|ts|..] + [t] == [t];
    TouchedHistory(cfg, s, s', key, ts + [t], [t]);
  }

  lemma InsertKeepsOther(cfg: Config, s: State, i: nat, key: Key, t: Time, k: Key)
    requires WellShaped(s) && i < NUM_SHARDS && HistoryOk(cfg, s, k) && k != key
    ensures HistoryOk(cfg, InsertStep(s, i, key, t), k)
  {
    hide HistoryOk;
    OthersKept(cfg, s, InsertStep(s, i, key, t), k);
  }

  lemma InsertKeepsHeld(cfg: Config, s: State, i: nat, key: Key, t: Time, j: nat)
    requires WellShaped(s) && i < NUM_SHARDS && s.held[i] == Some((key, t)) && HeldOk(cfg, s, i)
    requires j < NUM_SHARDS && HeldOk(cfg, s, j)
    ensures HeldOk(cfg, InsertStep(s, i, key, t), j)
  {
    hide IsRecentPart;
  }

  lemma InsertKeepsLogs(cfg: Config, s: State, i: nat, key: Key, t: Time)
    requires WellShaped(s) && LogsOk(cfg, s) && i < NUM_SHARDS && s.held[i] == Some((key, t))
    ensures LogsOk(cfg, InsertStep(s, i, key, t))
  {
    hide HistoryOk, HeldOk;
    var s' := InsertStep(s, i, key, t);
    HeldSource(cfg, s, i);
    forall k
      ensures HistoryOk(cfg, s', k)
    {
      if k == key {
        InsertKeepsHistory(cfg, s, i, key, t);
      } else {
        InsertKeepsOther(cfg, s, i, key, t, k);
      }
    }
    forall j | 0 <= j < NUM_SHARDS
      ensures HeldOk(cfg, s', j)
    {
      InsertKeepsHeld(cfg, s, i, key, t, j);
    }
  }

  lemma SweepKeepsHistory(cfg: Config, s: State, k: Key)
    requires WellShaped(s) && HistoryOk(cfg, s, k) && s.sweep.Some? && s.sweep.value.next < NUM_SHARDS && s.sweep.value.now <= s.clock
    ensures HistoryOk(cfg, SweepStep(cfg, s, s.sweep.value), k)
  {
    var w, s' := s.sweep.value, SweepStep(cfg, s, s.sweep.value);
    if cfg.ShardOf(k) == w.next && k in s.shards[w.next] {
      var _ := TrimKeepsRecent(cfg, Times(s, k), s.shards[w.next][k], w.now, s.clock);
      hide Trimmed, Sorted, Spaced, IsRecentPart;
    } else {
      hide Trimmed, HistoryOk;
      OthersKept(cfg, s, s', k);
    }
  }

  lemma SweepKeepsLogs(cfg: Config, s: State)
    requires WellShaped(s) && LogsOk(cfg, s) && s.sweep.Some? && s.sweep.value.next < NUM_SHARDS
    ensures LogsOk(cfg, SweepStep(cfg, s, s.sweep.value))
  {
    hide Trimmed, HistoryOk, IsRecentPart;
    var s' := SweepStep(cfg, s, s.sweep.value);
    forall k
      ensures HistoryOk(cfg, s', k)
    {
      SweepKeepsHistory(cfg, s, k);
    }
    forall j | 0 <= j < NUM_SHARDS
      ensures HeldOk(cfg, s', j)
    {
      assert HeldOk(cfg, s, j);
    }
  }

  lemma NextKeepsLogs(cfg: Config, s: State, step: Step)
    requires WellShaped(s) && LogsOk(cfg, s)
    ensures LogsOk(cfg, Next(cfg, s, step))
  {
    hide HistoryOk, CheckStep, InsertStep, SweepStep, IsRecentPart;
    var s' := Next(cfg, s, step);
    match step {
      case Check(key) =>
        if s.held[cfg.ShardOf(key)] == None {
          CheckKeepsLogs(cfg, s, key);
        }
      case Insert(i) =>
        if i < NUM_SHARDS && s.held[i].Some? {
          InsertKeepsLogs(cfg, s, i, s.held[i].value.0, s.held[i].value.1);
        }
      case SweepShard =>
        if s.sweep.Some? && s.sweep.value.next < NUM_SHARDS && s.held[s.sweep.value.next] == None {
          SweepKeepsLogs(cfg, s);
        }
      case _ =>
        forall k
          ensures HistoryOk(cfg, s', k)
        {
          assert HistoryOk(cfg, s, k);
          OthersKept(cfg, s, s', k);
        }
        forall j | 0 <= j < NUM_SHARDS
          ensures HeldOk(cfg, s', j)
        {
          assert HeldOk(cfg, s, j);
        }
    }
  }

  // ----- every step keeps the counter -----

  lemma RetainedShrinks(shard: Shard, now: Time, window: nat)
    ensures |Retained(shard, now, window)| <= |shard|
  {
    var kept := Retained(shard, now, window);
    assert kept.Keys <= shard.Keys;
    assert shard.Keys == kept.Keys + (shard.Keys - kept.Keys);
  }

  lemma CheckKeepsCounter(cfg: Config, s: State, key: Key)
    requires WellShaped(s) && CounterExact(cfg, s) && s.held[cfg.ShardOf(key)] == None
    ensures CounterExact(cfg, CheckStep(cfg, s, key))
  {
    hide Trimmed;
    var i := cfg.ShardOf(key);
    var rest := if key in s.shards[i] then Trimmed(s.shards[i][key], s.clock, cfg.window) else [];
    TrackedUpdate(s.shards, i, s.shards[i][key := rest]);
    TrackedUpdate(s.shards, i, s.shards[i][key := rest + [s.clock]]);
    HeldUpdate(s.held, i, Some((key, s.clock)));
  }

  lemma NextKeepsCounter(cfg: Config, s: State, step: Step)
    requires WellShaped(s) && CounterExact(cfg, s) && LogsOk(cfg, s)
    ensures CounterExact(cfg, Next(cfg, s, step))
  {
    hide CheckStep, Retained, HistoryOk;
    var s' := Next(cfg, s, step);
    match step {
      case Check(key) =>
        if s.held[cfg.ShardOf(key)] == None {
          CheckKeepsCounter(cfg, s, key);
        }
      case Insert(i) =>
        if i < NUM_SHARDS && s.held[i].Some? {
          assert HeldOk(cfg, s, i);
          TrackedUpdate(s.shards, i, s'.shards[i]);
          HeldUpdate(s.held, i, None);
        }
      case SweepShard =>
        if s.sweep.Some? && s.sweep.value.next < NUM_SHARDS && s.held[s.sweep.value.next] == None {
          var w := s.sweep.value;
          RetainedShrinks(s.shards[w.next], w.now, cfg.window);
          TrackedUpdate(s.shards, w.next, s'.shards[w.next]);
        }
      case _ =>
    }
  }

  // ----- whole runs -----

  lemma {:induction false} NothingTracked(n: nat)
    ensures Tracked(seq(n, _ => map[])) == 0 && HeldCount(seq(n, _ => None)) == 0
  {
    if n > 0 {
      NothingTracked(n - 1);
      assert seq<Shard>(n, _ => map[])[..n - 1] == seq<Shard>(n - 1, _ => map[]);
      assert seq<Option<(Key, Time)>>(n, _ => None)[..n - 1] == seq<Option<(Key, Time)>>(n - 1, _ => None);
    }
  }

  lemma InitialOk(cfg: Config, clock: Time)
    ensures CounterExact(cfg, Initial(clock)) && LogsOk(cfg, Initial(clock))
  {
    var s := Initial(clock);
    NothingTracked(NUM_SHARDS);
    forall k
      ensures HistoryOk(cfg, s, k)
    {
      assert Times(s, k)[0..] == [] && ExpiredUpTo(cfg, Times(s, k), 0, s.clock);
    }
  }

  /**
   In every interleaving of checks, insertions, sweeps and ticks: the shared counter is exact and within the
   limit, so never underflows; and every source's acceptances keep to the limit.
   */
  lemma {:induction false} AlwaysExactAndSpaced(cfg: Config, clock: Time, steps: seq<Step>)
    ensures var s := Run(cfg, Initial(clock), steps);
      && CounterExact(cfg, s) && LogsOk(cfg, s)
      && Tracked(s.shards) <= cfg.maxSources && Unsettled(s) <= s.active
      && (forall key :: Spaced(cfg, Times(s, key)))
    decreases |steps|
  {
    var s := Run(cfg, Initial(clock), steps);
    if steps == [] {
      InitialOk(cfg, clock);
    } else {
      var before := steps[..|steps| - 1];
      AlwaysExactAndSpaced(cfg, clock, before);
      NextKeepsLogs(cfg, Run(cfg, Initial(clock), before), steps[|steps| - 1]);
      NextKeepsCounter(cfg, Run(cfg, Initial(clock), before), steps[|steps| - 1]);
    }
    forall key
      ensures Spaced(cfg, Times(s, key))
    {
      assert HistoryOk(cfg, s, key);
    }
  }

  /** How many acceptances lie inside the window ending now. */
  function RecentCount(ts: seq<Time>, now: Time, window: nat): nat {
    if ts == [] then 0
    else RecentCount(ts[..|ts| - 1], now, window) + if ts[|ts| - 1] + window > now then 1 else 0
  }

  lemma {:induction false} RecentCountIsSuffix(ts: seq<Time>, now: Time, window: nat, d: nat)
    requires d <= |ts|
    requires forall i :: 0 <= i < |ts| ==> (ts[i] + window > now <==> i >= d)
    ensures RecentCount(ts, now, window) == |ts| - d
    decreases |ts|
  {
    if ts != [] {
      RecentCountIsSuffix(ts[..|ts| - 1], now, window, if d < |ts| then d else |ts| - 1);
    }
  }

  /** The step accepts the request of a source. */
  ghost predicate Records(s: State, s': State, key: Key) {
    Times(s', key) == Times(s, key) + [s.clock]
  }

  /** The step sets a place aside for a source. */
  ghost predicate SetsAside(cfg: Config, s: State, s': State, key: Key)
    requires WellShaped(s) && WellShaped(s')
  {
    s'.active == s.active + 1 && s'.held[cfg.ShardOf(key)] == Some((key, s.clock))
  }

  /** What a check does to the state is what it decided, and it leaves the other sources' acceptances alone. */
  lemma CheckDoesAsDecided(cfg: Config, s: State, key: Key)
    requires WellShaped(s) && s.held[cfg.ShardOf(key)] == None
    ensures var s' := Next(cfg, s, Check(key));
      && (Decide(cfg, s, key) == Accepted <==> Records(s, s', key))
      && (Decide(cfg, s, key) == Reserved <==> SetsAside(cfg, s, s', key))
      && (Decide(cfg, s, key) == Refused ==> s'.accepted == s.accepted && s'.held == s.held && s'.active == s.active)
      && (forall k :: k != key ==> Times(s', k) == Times(s, k))
  {
    hide Trimmed;
    assert |Times(s, key) + [s.clock]| != |Times(s, key)|;
  }

  /**
   In every reachable state, a check that gets its lock is turned away - it neither accepts the request nor sets a
   place aside - exactly when, for a tracked source, that source was accepted max_requests times inside the
   current window and, for any other, the source limit is reached.
   */
  lemma RefusedIffLimitReached(cfg: Config, clock: Time, steps: seq<Step>, key: Key)
    requires |key.text| <= cfg.maxKeyLen && cfg.maxRequests > 0
    requires Run(cfg, Initial(clock), steps).held[cfg.ShardOf(key)] == None
    ensures var s := Run(cfg, Initial(clock), steps); var s' := Next(cfg, s, Check(key));
      !Records(s, s', key) && !SetsAside(cfg, s, s', key) <==>
        if key in s.shards[cfg.ShardOf(key)] then RecentCount(Times(s, key), s.clock, cfg.window) >= cfg.maxRequests
        else s.active >= cfg.maxSources
  {
    var s := Run(cfg, Initial(clock), steps);
    CheckDoesAsDecided(cfg, s, key);
    hide Next, Records, SetsAside;
    AlwaysExactAndSpaced(cfg, clock, steps);
    var shard := s.shards[cfg.ShardOf(key)];
    if key in shard {
      assert HistoryOk(cfg, s, key);
      var ts := Times(s, key);
      var d := TrimKeepsRecent(cfg, ts, shard[key], s.clock, s.clock);
      RecentCountIsSuffix(ts, s.clock, cfg.window, d);
    }
  }

  lemma ExpiredAreNotRecent(cfg: Config, ts: seq<Time>, now: Time)
    requires IsRecentPart(cfg, ts, [], now)
    ensures RecentCount(ts, now, cfg.window) == 0
  {
    RecentCountIsSuffix(ts, now, cfg.window, |ts|);
  }

  /** What a call makes of a source's acceptances, by the limits alone. */
  ghost predicate Admitted(cfg: Config, s: State, key: Key)
    requires WellShaped(s)
  {
    && |key.text| <= cfg.maxKeyLen
    && RecentCount(Times(s, key), s.clock, cfg.window) < cfg.maxRequests
    && (key in s.shards[cfg.ShardOf(key)] || s.active < cfg.maxSources)
  }

  lemma CheckAndInsert(cfg: Config, s: State, key: Key)
    requires WellShaped(s) && s.held[cfg.ShardOf(key)] == None
    ensures var i := cfg.ShardOf(key); var s' := Next(cfg, Next(cfg, s, Check(key)), Insert(i));
      && s'.held == s.held && s'.clock == s.clock
      && (forall k :: Times(s', k) == if k == key && Decide(cfg, s, key) != Refused then Times(s, k) + [s.clock] else Times(s, k))
      && (Decide(cfg, s, key) != Refused ==> key in s'.shards[i] && s'.shards[i][key] != [] && s'.shards[i][key][|s'.shards[i][key]| - 1] == s.clock)
  {
    hide Trimmed;
    var i := cfg.ShardOf(key);
    assert s.held[i := Some((key, s.clock))][i := None] == s.held;
  }

  /** A key that is too long, and every key when no requests are allowed, is turned away without any trace. */
  lemma OverlongIsTurnedAway(cfg: Config, s: State, key: Key)
    requires WellShaped(s) && (|key.text| > cfg.maxKeyLen || cfg.maxRequests == 0)
    ensures Next(cfg, s, Check(key)) == s
  {}

  /**
   In every reachable state a call that is not interrupted - the check, and the insertion it may have set a place
   aside for - is a sliding window: the request is accepted, and its source then tracked, exactly when its key is not
   too long, fewer than max_requests of its acceptances lie inside the window, and it is tracked or there is room.
   No other source's acceptances change.
   */
  lemma CallIsSlidingWindow(cfg: Config, clock: Time, steps: seq<Step>, key: Key)
    requires Run(cfg, Initial(clock), steps).held[cfg.ShardOf(key)] == None
    ensures var s := Run(cfg, Initial(clock), steps); var i := cfg.ShardOf(key);
      var s' := Run(cfg, s, [Check(key), Insert(i)]);
      && Times(s', key) == (if Admitted(cfg, s, key) then Times(s, key) + [s.clock] else Times(s, key))
      && (Admitted(cfg, s, key) ==> key in s'.shards[i])
      && s'.held == s.held && forall k :: k != key ==> Times(s', k) == Times(s, k)
  {
    var s, i := Run(cfg, Initial(clock), steps), cfg.ShardOf(key);
    AlwaysExactAndSpaced(cfg, clock, steps);
    assert HistoryOk(cfg, s, key);
    CheckAndInsert(cfg, s, key);
    TwoSteps(cfg, s, Check(key), Insert(i));
    hide Next, Run;
    var ts := Times(s, key);
    if key in s.shards[i] {
      var d := TrimKeepsRecent(cfg, ts, s.shards[i][key], s.clock, s.clock);
      RecentCountIsSuffix(ts, s.clock, cfg.window, d);
    } else {
      ExpiredAreNotRecent(cfg, ts, s.clock);
    }
  }

  lemma TwoSteps(cfg: Config, s: State, x: Step, y: Step)
    requires WellShaped(s)
    ensures Run(cfg, s, [x, y]) == Next(cfg, Next(cfg, s, x), y)
  {
    hide Next;
    assert [x, y][..1] == [x] && [x][..0] == [];
    assert Run(cfg, s, [x]) == Next(cfg, s, x);
  }
}
