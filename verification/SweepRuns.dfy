/** What the rate limiter's sweeper frees, over runs with checks in between. */
module SweepRuns {
  import opened Wrappers
  import opened RateLimiter

  /** Some acceptance of the source lies inside the window that ends at this time. */
  ghost predicate Live(cfg: Config, ts: seq<Time>, now: Time) {
    exists i :: 0 <= i < |ts| && ts[i] + cfg.window > now
  }

  predicate IsTracked(cfg: Config, s: State, key: Key)
    requires WellShaped(s)
  {
    key in s.shards[cfg.ShardOf(key)]
  }

  // ----- no tracked source has an empty log -----

  ghost predicate LogsFilled(s: State)
    requires WellShaped(s)
  {
    forall i, key :: 0 <= i < NUM_SHARDS && key in s.shards[i] ==> s.shards[i][key] != []
  }

  lemma NextKeepsFilled(cfg: Config, s: State, step: Step)
    requires WellShaped(s) && LogsFilled(s)
    ensures LogsFilled(Next(cfg, s, step))
  {
    hide Trimmed;
  }

  /** Everything that holds of the state in every run. */
  ghost predicate Orderly(cfg: Config, s: State)
    requires WellShaped(s)
  {
    LogsOk(cfg, s) && CounterExact(cfg, s) && LogsFilled(s)
  }

  lemma NextKeepsOrder(cfg: Config, s: State, step: Step)
    requires WellShaped(s) && Orderly(cfg, s)
    ensures Orderly(cfg, Next(cfg, s, step))
  {
    hide Next, LogsOk, CounterExact, LogsFilled;
    NextKeepsLogs(cfg, s, step);
    NextKeepsCounter(cfg, s, step);
    NextKeepsFilled(cfg, s, step);
  }

  lemma {:induction false} RunIsOrderly(cfg: Config, s: State, steps: seq<Step>)
    requires WellShaped(s) && Orderly(cfg, s)
    ensures Orderly(cfg, Run(cfg, s, steps))
    decreases |steps|
  {
    hide Next, Orderly;
    if steps != [] {
      var n := |steps| - 1;
      RunIsOrderly(cfg, s, steps[..n]);
      NextKeepsOrder(cfg, Run(cfg, s, steps[..n]), steps[n]);
    }
  }

  lemma InitialIsOrderly(cfg: Config, clock: Time)
    ensures Orderly(cfg, Initial(clock))
  {
    InitialOk(cfg, clock);
  }

  // ----- one shard -----

  lemma {:induction false} TrimmedToNothing(cfg: Config, log: seq<Time>, now: Time)
    requires cfg.window > 0
    ensures Trimmed(log, now, cfg.window) != [] <==> Live(cfg, log, now)
  {
    if log != [] {
      var expired := Elapsed(now, log[0]) >= cfg.window;
      assert expired <==> log[0] + cfg.window <= now;
      TrimmedToNothing(cfg, log[1..], now);
      forall i | 0 < i < |log|
        ensures log[i] == log[1..][i - 1]
      {}
      if expired {
        LiveInTail(cfg, log, now);
      }
    }
  }

  lemma LiveInTail(cfg: Config, log: seq<Time>, now: Time)
    requires log != [] && log[0] + cfg.window <= now
    ensures Live(cfg, log, now) <==> Live(cfg, log[1..], now)
  {
    if Live(cfg, log, now) {
      var i :| 0 <= i < |log| && log[i] + cfg.window > now;
      assert log[1..][i - 1] == log[i];
    }
    if Live(cfg, log[1..], now) {
      var i :| 0 <= i < |log[1..]| && log[1..][i] + cfg.window > now;
      assert log[i + 1] == log[1..][i];
    }
  }

  /** A history and its recent part end with the same acceptance, which decides. */
  lemma LiveInRecentPart(cfg: Config, ts: seq<Time>, d: nat, now: Time)
    requires Sorted(ts) && d < |ts|
    ensures Live(cfg, ts[d..], now) <==> Live(cfg, ts, now)
  {
    if Live(cfg, ts, now) {
      var i :| 0 <= i < |ts| && ts[i] + cfg.window > now;
      var last := |ts| - 1;
      assert ts[i] <= ts[last] && ts[d..][last - d] == ts[last];
    }
    if Live(cfg, ts[d..], now) {
      var i :| 0 <= i < |ts[d..]| && ts[d..][i] + cfg.window > now;
      assert ts[d + i] == ts[d..][i];
    }
  }

  /** A source's log is the end of its history. */
  lemma LogOf(cfg: Config, s: State, key: Key) returns (d: nat)
    requires WellShaped(s) && LogsOk(cfg, s)
    ensures var ts := Times(s, key);
      && Sorted(ts) && d <= |ts| && ExpiredUpTo(cfg, ts, d, s.clock)
      && (if IsTracked(cfg, s, key) then s.shards[cfg.ShardOf(key)][key] else []) == ts[d..]
  {
    assert HistoryOk(cfg, s, key);
    hide LogsOk;
    var ts := Times(s, key);
    var log := if IsTracked(cfg, s, key) then s.shards[cfg.ShardOf(key)][key] else [];
    d :| d <= |ts| && log == ts[d..] && ExpiredUpTo(cfg, ts, d, s.clock);
  }

  lemma SweepKeepsUntrimmed(cfg: Config, s: State, key: Key)
    requires WellShaped(s)
    requires s.sweep.Some? && s.sweep.value.next < NUM_SHARDS && s.held[s.sweep.value.next] == None
    requires cfg.ShardOf(key) == s.sweep.value.next && IsTracked(cfg, s, key)
    ensures IsTracked(cfg, Next(cfg, s, SweepShard), key) <==>
      Trimmed(s.shards[cfg.ShardOf(key)][key], s.sweep.value.now, cfg.window) != []
  {
    hide Trimmed;
  }

  /** Sweeping a shard keeps exactly those of its sources that are live at the sweep's time. */
  lemma SweepKeepsLive(cfg: Config, s: State, key: Key)
    requires WellShaped(s) && Orderly(cfg, s) && cfg.window > 0
    requires s.sweep.Some? && s.sweep.value.next < NUM_SHARDS && s.held[s.sweep.value.next] == None
    requires cfg.ShardOf(key) == s.sweep.value.next && IsTracked(cfg, s, key)
    ensures IsTracked(cfg, Next(cfg, s, SweepShard), key) <==> Live(cfg, Times(s, key), s.sweep.value.now)
  {
    hide LogsOk, CounterExact, Next, Live, Trimmed;
    var d := LogOf(cfg, s, key);
    assert s.shards[cfg.ShardOf(key)][key] != [];
    SweepKeepsUntrimmed(cfg, s, key);
    TrimmedToNothing(cfg, s.shards[cfg.ShardOf(key)][key], s.sweep.value.now);
    LiveInRecentPart(cfg, Times(s, key), d, s.sweep.value.now);
  }

  // ----- a whole sweep -----

  /** Live sources are tracked. */
  ghost predicate LiveTracked(cfg: Config, s: State, now: Time)
    requires WellShaped(s)
  {
    forall key :: Live(cfg, Times(s, key), now) ==> IsTracked(cfg, s, key)
  }

  /** In the first shards, only live sources are tracked or about to be. */
  ghost predicate OthersSwept(cfg: Config, s: State, next: nat, now: Time)
    requires WellShaped(s)
  {
    && (forall key :: IsTracked(cfg, s, key) && cfg.ShardOf(key) < next ==> Live(cfg, Times(s, key), now))
    && (forall i :: 0 <= i < next && i < NUM_SHARDS && s.held[i].Some? ==> s.held[i].value.1 >= now)
  }

  /** While a sweep of this time runs. */
  ghost predicate Sweeping(cfg: Config, s: State, now: Time)
    requires WellShaped(s)
  {
    s.sweep.Some? && s.sweep.value.now == now && LiveTracked(cfg, s, now) && OthersSwept(cfg, s, s.sweep.value.next, now)
  }

  /** Before a sweep begins, sources that are not tracked have expired. */
  lemma BeginsSweeping(cfg: Config, s: State)
    requires WellShaped(s) && Orderly(cfg, s) && s.sweep == None
    ensures Sweeping(cfg, Next(cfg, s, BeginSweep), s.clock)
  {
    var s' := Next(cfg, s, BeginSweep);
    hide LogsOk, CounterExact, LogsFilled;
    forall key | Live(cfg, Times(s', key), s.clock)
      ensures IsTracked(cfg, s', key)
    {
      assert Times(s', key) == Times(s, key);
      var d := LogOf(cfg, s, key);
    }
  }

  lemma LiveExtends(cfg: Config, ts: seq<Time>, t: Time, now: Time)
    requires cfg.window > 0
    ensures Live(cfg, ts, now) ==> Live(cfg, ts + [t], now)
    ensures t >= now ==> Live(cfg, ts + [t], now)
    ensures Live(cfg, ts + [t], now) && !Live(cfg, ts, now) ==> t + cfg.window > now
  {
    var all := ts + [t];
    assert all[|ts|] == t;
    if Live(cfg, ts, now) {
      var i :| 0 <= i < |ts| && ts[i] + cfg.window > now;
      assert all[i] == ts[i];
    }
    if i :| 0 <= i < |ts| && all[i] + cfg.window > now {
      assert ts[i] == all[i];
    }
  }

  lemma CheckKeepsSweeping(cfg: Config, s: State, key: Key, now: Time)
    requires WellShaped(s) && Sweeping(cfg, s, now) && cfg.window > 0 && now <= s.clock && s.held[cfg.ShardOf(key)] == None
    ensures Sweeping(cfg, CheckStep(cfg, s, key), now)
  {
    hide Live, Trimmed;
    var s' := CheckStep(cfg, s, key);
    LiveExtends(cfg, Times(s, key), s.clock, now);
    forall k
      ensures Live(cfg, Times(s', k), now) ==> IsTracked(cfg, s', k)
      ensures IsTracked(cfg, s', k) && cfg.ShardOf(k) < s.sweep.value.next ==> Live(cfg, Times(s', k), now)
    {
      if k != key {
        assert Times(s', k) == Times(s, k) && IsTracked(cfg, s', k) == IsTracked(cfg, s, k);
      }
    }
  }

  lemma InsertKeepsSweeping(cfg: Config, s: State, i: nat, now: Time)
    requires WellShaped(s) && Sweeping(cfg, s, now) && cfg.window > 0
    requires i < NUM_SHARDS && s.held[i].Some? && cfg.ShardOf(s.held[i].value.0) == i
    ensures Sweeping(cfg, InsertStep(s, i, s.held[i].value.0, s.held[i].value.1), now)
  {
    hide Live;
    var key, t := s.held[i].value.0, s.held[i].value.1;
    var s' := InsertStep(s, i, key, t);
    LiveExtends(cfg, Times(s, key), t, now);
    forall k
      ensures Live(cfg, Times(s', k), now) ==> IsTracked(cfg, s', k)
      ensures IsTracked(cfg, s', k) && cfg.ShardOf(k) < s.sweep.value.next ==> Live(cfg, Times(s', k), now)
    {
      if k != key {
        assert Times(s', k) == Times(s, k) && IsTracked(cfg, s', k) == IsTracked(cfg, s, k);
      }
    }
  }

  lemma SweepKeepsSweeping(cfg: Config, s: State, now: Time)
    requires WellShaped(s) && Orderly(cfg, s) && Sweeping(cfg, s, now) && cfg.window > 0
    requires s.sweep.value.next < NUM_SHARDS && s.held[s.sweep.value.next] == None
    ensures Sweeping(cfg, Next(cfg, s, SweepShard), now)
  {
    hide Live, LogsOk, CounterExact, LogsFilled, Trimmed;
    var s' := Next(cfg, s, SweepShard);
    forall k
      ensures Live(cfg, Times(s', k), now) ==> IsTracked(cfg, s', k)
      ensures IsTracked(cfg, s', k) && cfg.ShardOf(k) <= s.sweep.value.next ==> Live(cfg, Times(s', k), now)
    {
      assert Times(s', k) == Times(s, k);
      if cfg.ShardOf(k) == s.sweep.value.next && IsTracked(cfg, s, k) {
        SweepKeepsLive(cfg, s, k);
      }
    }
  }

  lemma NextKeepsSweeping(cfg: Config, s: State, step: Step, now: Time)
    requires WellShaped(s) && Orderly(cfg, s) && Sweeping(cfg, s, now) && cfg.window > 0 && step != EndSweep
    ensures Sweeping(cfg, Next(cfg, s, step), now)
  {
    hide CheckStep, InsertStep, SweepStep, CounterExact, LogsFilled, HistoryOk, Live;
    match step {
      case Check(key) =>
        if s.held[cfg.ShardOf(key)] == None {
          CheckKeepsSweeping(cfg, s, key, now);
        }
      case Insert(i) =>
        if i < NUM_SHARDS && s.held[i].Some? {
          assert HeldOk(cfg, s, i);
          InsertKeepsSweeping(cfg, s, i, now);
        }
      case SweepShard =>
        if s.sweep.value.next < NUM_SHARDS && s.held[s.sweep.value.next] == None {
          SweepKeepsSweeping(cfg, s, now);
        }
      case _ =>
    }
  }

  ghost predicate WithoutEnd(steps: seq<Step>) {
    forall i :: 0 <= i < |steps| ==> steps[i] != EndSweep
  }

  lemma {:induction false} RunKeepsSweeping(cfg: Config, s: State, steps: seq<Step>, now: Time)
    requires WellShaped(s) && Orderly(cfg, s) && Sweeping(cfg, s, now) && cfg.window > 0 && WithoutEnd(steps)
    ensures Orderly(cfg, Run(cfg, s, steps)) && Sweeping(cfg, Run(cfg, s, steps), now)
    decreases |steps|
  {
    hide Next, Orderly, Sweeping;
    RunIsOrderly(cfg, s, steps);
    if steps != [] {
      var n := |steps| - 1;
      RunKeepsSweeping(cfg, s, steps[..n], now);
      NextKeepsSweeping(cfg, Run(cfg, s, steps[..n]), steps[n], now);
    }
  }

  // ----- counting sources -----

  function KeysOf(shards: seq<Shard>): set<Key> {
    if shards == [] then {} else KeysOf(shards[..|shards| - 1]) + shards[|shards| - 1].Keys
  }

  /** Sources lie in distinct shards, so the shards' sizes add up. */
  lemma {:induction false} KeysAddUp(cfg: Config, shards: seq<Shard>)
    requires forall i, key :: 0 <= i < |shards| && key in shards[i] ==> cfg.ShardOf(key) == i
    ensures |KeysOf(shards)| == Tracked(shards)
    ensures forall key :: key in KeysOf(shards) <==> cfg.ShardOf(key) < |shards| && key in shards[cfg.ShardOf(key)]
    decreases |shards|
  {
    if shards != [] {
      var n := |shards| - 1;
      KeysAddUp(cfg, shards[..n]);
      assert KeysOf(shards[..n]) !! shards[n].Keys;
      assert |shards[n].Keys| == |shards[n]|;
    }
  }

  /** The sources that were accepted inside the window that ends at this time. */
  ghost function LiveSources(cfg: Config, s: State, now: Time): (sources: set<Key>)
    ensures forall key :: key in sources <==> Live(cfg, Times(s, key), now)
  {
    set key | key in s.accepted && Live(cfg, Times(s, key), now)
  }

  predicate AtSweepEnd(s: State) {
    s.sweep.Some? && s.sweep.value.next == NUM_SHARDS
  }

  lemma TrackedAreLive(cfg: Config, s: State, now: Time)
    requires WellShaped(s) && Sweeping(cfg, s, now) && AtSweepEnd(s)
    ensures forall key :: IsTracked(cfg, s, key) <==> Live(cfg, Times(s, key), now)
  {
    hide Live;
  }

  /** The end of a sweep subtracts what it removed. */
  lemma EndSettles(cfg: Config, s: State)
    requires WellShaped(s) && CounterExact(cfg, s) && AtSweepEnd(s)
    ensures var s' := Next(cfg, s, EndSweep);
      && s'.active == Tracked(s.shards) + HeldCount(s.held) && s'.sweep == None
      && s'.shards == s.shards && s'.held == s.held && s'.accepted == s.accepted
  {}

  lemma InTheirShards(cfg: Config, s: State)
    requires WellShaped(s) && LogsOk(cfg, s)
    ensures forall i, key :: 0 <= i < NUM_SHARDS && key in s.shards[i] ==> cfg.ShardOf(key) == i
  {}

  lemma SweptCount(cfg: Config, s: State, now: Time)
    requires WellShaped(s) && Orderly(cfg, s) && Sweeping(cfg, s, now) && AtSweepEnd(s)
    ensures var s' := Next(cfg, s, EndSweep);
      && s'.sweep == None
      && s'.active == |LiveSources(cfg, s', now)| + HeldCount(s'.held)
      && forall key :: IsTracked(cfg, s', key) <==> key in LiveSources(cfg, s', now)
  {
    hide Live, LogsOk, LogsFilled, CounterExact, Sweeping, Tracked, HeldCount, Next, KeysOf, LiveSources;
    var s' := Next(cfg, s, EndSweep);
    EndSettles(cfg, s);
    TrackedAreLive(cfg, s, now);
    InTheirShards(cfg, s);
    KeysAddUp(cfg, s.shards);
    forall key
      ensures IsTracked(cfg, s', key) <==> key in LiveSources(cfg, s', now)
    {
      assert Times(s', key) == Times(s, key) && IsTracked(cfg, s', key) == IsTracked(cfg, s, key);
    }
    assert KeysOf(s.shards) == LiveSources(cfg, s', now);
  }

  /**
   In every interleaving, with checks and insertions going on meanwhile: when a sweep that began at some time ends,
   the tracked sources are exactly those accepted inside the window that ended at that time, and the counter is
   their number plus the reservations still to be inserted.
   */
  lemma WholeSweepLeavesLiveSources(cfg: Config, clock: Time, steps: seq<Step>, during: seq<Step>)
    requires cfg.window > 0 && WithoutEnd(during)
    requires var s := Run(cfg, Initial(clock), steps);
      s.sweep == None && AtSweepEnd(Run(cfg, Next(cfg, s, BeginSweep), during))
    ensures var s := Run(cfg, Initial(clock), steps);
      var s' := Next(cfg, Run(cfg, Next(cfg, s, BeginSweep), during), EndSweep);
      && s'.sweep == None
      && s'.active == |LiveSources(cfg, s', s.clock)| + HeldCount(s'.held)
      && forall key :: IsTracked(cfg, s', key) <==> key in LiveSources(cfg, s', s.clock)
  {
    hide Run, Orderly, Sweeping, LiveSources;
    var s := Run(cfg, Initial(clock), steps);
    InitialIsOrderly(cfg, clock);
    RunIsOrderly(cfg, Initial(clock), steps);
    BeginsSweeping(cfg, s);
    NextKeepsOrder(cfg, s, BeginSweep);
    RunKeepsSweeping(cfg, Next(cfg, s, BeginSweep), during, s.clock);
    SweptCount(cfg, Run(cfg, Next(cfg, s, BeginSweep), during), s.clock);
  }

  /** In every run, a sweep step keeps exactly those tracked sources of its shard that are live at the sweep's time. */
  lemma SweepStepKeepsLive(cfg: Config, clock: Time, steps: seq<Step>, key: Key)
    requires cfg.window > 0
    requires var s := Run(cfg, Initial(clock), steps);
      && s.sweep.Some? && s.sweep.value.next < NUM_SHARDS && s.held[s.sweep.value.next] == None
      && cfg.ShardOf(key) == s.sweep.value.next && IsTracked(cfg, s, key)
    ensures var s := Run(cfg, Initial(clock), steps);
      IsTracked(cfg, Next(cfg, s, SweepShard), key) <==> Live(cfg, Times(s, key), s.sweep.value.now)
  {
    hide Run, Orderly, Next;
    InitialIsOrderly(cfg, clock);
    RunIsOrderly(cfg, Initial(clock), steps);
    SweepKeepsLive(cfg, Run(cfg, Initial(clock), steps), key);
  }
}
