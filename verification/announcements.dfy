/**
  A reference description of the status updates, independent of the loop:
  an uninterrupted run announces period after period, each mode counting
  its full duration down to 1, the modes following the transition rule.
  With positive durations the main loop's trace is exactly the first
  updates of this schedule, cut at the cancellation.
 */
module Announcements {
  import opened Timer
  import opened Cycles
  import opened Driver

  /** The i-th status update (from 0) of an uninterrupted run from phase `p`. */
  function UpdateAt(c: Config, p: Phase, i: nat): (e: Event)
    requires Positive(c)
    ensures e.Update? && 1 <= e.remaining <= e.total && e.total == ModeTime(c, e.mode)
    decreases i
  {
    var d := ModeTime(c, p.mode);
    if i < d then Update(p.mode, d - i, d) else UpdateAt(c, Next(c, p), i - d)
  }

  /** The `n` updates of the schedule from index `from` on. */
  function Announced(c: Config, p: Phase, from: nat, n: nat): (s: seq<Event>)
    requires Positive(c)
  {
    seq(n, i requires 0 <= i < n => UpdateAt(c, p, from + i))
  }

  /** The trace expected when the wait numbered `k` (from 0) is cancelled:
      `k + 1` updates of the schedule, the pending switch right after the
      first, then the cleanup. */
  function Expected(c: Config, p: Phase, switchNeeded: bool, from: nat, k: nat): seq<Event>
    requires Positive(c)
  {
    [UpdateAt(c, p, from)]
    + (if switchNeeded then [Switch] else [])
    + Announced(c, p, from + 1, k)
    + [Cleanup]
  }

  /** Index of the first update of the n-th period (from 0). */
  function PeriodStart(c: Config, p: Phase, n: nat): nat
    requires Positive(c)
    decreases n
  {
    if n == 0 then 0 else ModeTime(c, p.mode) + PeriodStart(c, Next(c, p), n - 1)
  }

  /** The n-th period announces the mode reached after n transitions,
      counting its full duration down: d, d-1, ..., 1. */
  lemma {:induction false} PeriodCountsDown(c: Config, p: Phase, n: nat, j: nat)
    requires Positive(c)
    requires j < ModeTime(c, After(c, p, n).mode)
    ensures var m := After(c, p, n).mode;
            UpdateAt(c, p, PeriodStart(c, p, n) + j) == Update(m, ModeTime(c, m) - j, ModeTime(c, m))
    decreases n
  {
    if n > 0 {
      PeriodCountsDown(c, Next(c, p), n - 1, j);
    }
  }

  /** Consecutive updates: within a mode the count drops by exactly one;
      after the update announcing 1 the next mode starts at its full
      duration, and work alternates with breaks. */
  lemma {:induction false} ConsecutiveUpdates(c: Config, p: Phase, i: nat)
    requires Positive(c)
    ensures var e, f := UpdateAt(c, p, i), UpdateAt(c, p, i + 1);
            && (e.remaining > 1 ==> f == Update(e.mode, e.remaining - 1, e.total))
            && (e.remaining == 1 ==> f.remaining == f.total && (f.mode == Work <==> e.mode != Work))
    decreases i
  {
    var d := ModeTime(c, p.mode);
    if i + 1 < d {
    } else if i + 1 == d {
      var q := Next(c, p);
      assert UpdateAt(c, p, i + 1) == UpdateAt(c, q, 0);
    } else {
      ConsecutiveUpdates(c, Next(c, p), i - d);
    }
  }

  /** Moving the start of the schedule by one whole period. */
  lemma SkipPeriod(c: Config, p: Phase, n: nat)
    requires Positive(c)
    ensures Announced(c, p, ModeTime(c, p.mode), n) == Announced(c, Next(c, p), 0, n)
  {
    var d := ModeTime(c, p.mode);
    forall i | 0 <= i < n
      ensures UpdateAt(c, p, d + i) == UpdateAt(c, Next(c, p), i)
    {
    }
  }

  /** Splitting off the first update of a stretch of the schedule. */
  lemma AnnouncedCons(c: Config, p: Phase, from: nat, n: nat)
    requires Positive(c) && n > 0
    ensures Announced(c, p, from, n) == [UpdateAt(c, p, from)] + Announced(c, p, from + 1, n - 1)
  {
  }

  /** From the point where the tick loop of `p.mode` is about to announce
      `remaining`, a run with enough fuel produces exactly the expected
      trace: the rest of the schedule up to the cancellation. */
  lemma {:induction false} RunMatchesSchedule(c: Config, p: Phase, switchNeeded: bool, remaining: nat, cancelIn: nat, fuel: nat)
    requires Positive(c)
    requires 1 <= remaining <= ModeTime(c, p.mode)
    requires cancelIn < remaining + fuel
    ensures Run(c, p, switchNeeded, remaining, cancelIn, fuel)
         == Trace(Expected(c, p, switchNeeded, ModeTime(c, p.mode) - remaining, cancelIn), true)
    decreases fuel, remaining, 1
  {
    var d := ModeTime(c, p.mode);
    var off := d - remaining;
    var ev := Tick(c, p, switchNeeded, remaining);
    var sw: seq<Event> := if switchNeeded then [Switch] else [];
    assert ev == [UpdateAt(c, p, off)] + sw;
    RunTickStep(c, p, switchNeeded, remaining, cancelIn, fuel);
    if cancelIn == 0 {
      assert Announced(c, p, off + 1, 0) == [];
    } else {
      var rest := Run(c, p, false, remaining - 1, cancelIn - 1, fuel);
      assert rest == Trace(Announced(c, p, off + 1, cancelIn) + [Cleanup], true) by {
        RestMatchesSchedule(c, p, remaining, cancelIn, fuel);
      }
      assert Expected(c, p, switchNeeded, off, cancelIn)
          == ev + (Announced(c, p, off + 1, cancelIn) + [Cleanup]);
    }
  }

  /** The part of `RunMatchesSchedule` after the first tick, once the
      switch request is no longer pending. */
  lemma {:induction false} RestMatchesSchedule(c: Config, p: Phase, remaining: nat, cancelIn: nat, fuel: nat)
    requires Positive(c)
    requires 1 <= remaining <= ModeTime(c, p.mode)
    requires 0 < cancelIn < remaining + fuel
    ensures Run(c, p, false, remaining - 1, cancelIn - 1, fuel)
         == Trace(Announced(c, p, ModeTime(c, p.mode) - remaining + 1, cancelIn) + [Cleanup], true)
    decreases fuel, remaining, 0
  {
    var from := ModeTime(c, p.mode) - remaining + 1;
    if remaining > 1 {
      RunMatchesSchedule(c, p, false, remaining - 1, cancelIn - 1, fuel);
      ExpectedUnswitched(c, p, from, cancelIn - 1);
    } else {
      var q := Next(c, p);
      RunTransitionStep(c, p, false, cancelIn - 1, fuel);
      RunMatchesSchedule(c, q, false, ModeTime(c, q.mode), cancelIn - 1, fuel - 1);
      ExpectedUnswitched(c, q, 0, cancelIn - 1);
      SkipPeriod(c, p, cancelIn);
    }
  }

  /** Without a pending switch the expected trace is a stretch of the
      schedule followed by the cleanup. */
  lemma ExpectedUnswitched(c: Config, p: Phase, from: nat, k: nat)
    requires Positive(c)
    ensures Expected(c, p, false, from, k) == Announced(c, p, from, k + 1) + [Cleanup]
  {
    AnnouncedCons(c, p, from, k + 1);
  }

  /** The whole program, with positive durations and the cancellation
      received at the wait numbered `cancelIn`: the first `cancelIn + 1`
      updates of the schedule from startup, the switch after the first when
      the option asks for it, and the cleanup. */
  lemma ProgramFollowsSchedule(c: Config, cancelIn: nat, fuel: nat)
    requires Positive(c)
    requires cancelIn <= fuel
    ensures Pomodoro(c, cancelIn, fuel) == Trace(Expected(c, Start(c), c.switch, 0, cancelIn), true)
  {
    RunMatchesSchedule(c, Start(c), c.switch, c.work, cancelIn, fuel);
  }

  /** The status updates among a sequence of events, in order. */
  function UpdatesIn(s: seq<Event>): seq<Event>
    decreases |s|
  {
    if |s| == 0 then [] else (if s[0].Update? then [s[0]] else []) + UpdatesIn(s[1..])
  }

  lemma {:induction false} UpdatesInAppend(a: seq<Event>, b: seq<Event>)
    ensures UpdatesIn(a + b) == UpdatesIn(a) + UpdatesIn(b)
    decreases |a|
  {
    if |a| > 0 {
      assert (a + b)[1..] == a[1..] + b;
      UpdatesInAppend(a[1..], b);
    } else {
      assert a + b == b;
    }
  }

  /** The only status update of a tick is its first call. */
  lemma TickUpdate(c: Config, p: Phase, switchNeeded: bool, remaining: nat)
    ensures UpdatesIn(Tick(c, p, switchNeeded, remaining)) == [Update(p.mode, remaining, ModeTime(c, p.mode))]
  {
    var sw: seq<Event> := if switchNeeded then [Switch] else [];
    var bp: seq<Event> := if c.beep && remaining == 0 then [Beep] else [];
    UpdatesInAppend([Update(p.mode, remaining, ModeTime(c, p.mode))], sw + bp);
    UpdatesInAppend(sw, bp);
  }

  /** A count-down of mode `m` announcing `from`, `from - 1`, ..., 1 out of `total`. */
  function Countdown(m: Mode, from: nat, total: nat): (s: seq<Event>)
    ensures |s| == from
    ensures forall j :: 0 <= j < from ==> s[j] == Update(m, from - j, total)
  {
    seq(from, j requires 0 <= j < from => Update(m, from - j, total))
  }

  /** The updates of `n` whole periods from phase `p`, for any durations: a
      mode of duration 0 contributes nothing. */
  function Periods(c: Config, p: Phase, n: nat): seq<Event>
    decreases n
  {
    if n == 0 then []
    else Countdown(p.mode, ModeTime(c, p.mode), ModeTime(c, p.mode)) + Periods(c, Next(c, p), n - 1)
  }

  /** For every configuration, zero durations included: the status updates
      of a run are the rest of the current count-down followed by the
      periods its fuel allows, cut after the update preceding the wait that
      receives the interrupt; the run is cancelled exactly when that wait
      lies within those periods. */
  lemma {:induction false} RunFollowsPeriods(c: Config, p: Phase, switchNeeded: bool, remaining: nat, cancelIn: nat, fuel: nat)
    requires remaining <= ModeTime(c, p.mode)
    ensures var r := Run(c, p, switchNeeded, remaining, cancelIn, fuel);
            var plan := Countdown(p.mode, remaining, ModeTime(c, p.mode)) + Periods(c, Next(c, p), fuel);
            && (r.cancelled <==> cancelIn < |plan|)
            && UpdatesIn(r.events) == if r.cancelled then plan[..cancelIn + 1] else plan
    decreases fuel, remaining
  {
    var d := ModeTime(c, p.mode);
    var plan := Countdown(p.mode, remaining, d) + Periods(c, Next(c, p), fuel);
    if remaining == 0 {
      assert Countdown(p.mode, 0, d) == [];
      if fuel > 0 {
        var q := Next(c, p);
        RunFollowsPeriods(c, q, switchNeeded, ModeTime(c, q.mode), cancelIn, fuel - 1);
        assert plan == Countdown(q.mode, ModeTime(c, q.mode), ModeTime(c, q.mode)) + Periods(c, Next(c, q), fuel - 1);
      }
    } else {
      var u := Update(p.mode, remaining, d);
      var ev := Tick(c, p, switchNeeded, remaining);
      var later := Countdown(p.mode, remaining - 1, d) + Periods(c, Next(c, p), fuel);
      assert plan == [u] + later;
      TickUpdate(c, p, switchNeeded, remaining);
      if cancelIn == 0 {
        UpdatesInAppend(ev, [Cleanup]);
        assert UpdatesIn([Cleanup]) == [];
      } else {
        var r := Run(c, p, false, remaining - 1, cancelIn - 1, fuel);
        RunFollowsPeriods(c, p, false, remaining - 1, cancelIn - 1, fuel);
        UpdatesInAppend(ev, r.events);
        if r.cancelled {
          assert ([u] + later)[..cancelIn + 1] == [u] + later[..cancelIn];
        }
      }
    }
  }

  /** The whole program, for every configuration: its status updates are
      the first `fuel + 1` periods from startup, cut after the update
      preceding the wait that receives the interrupt. */
  lemma ProgramFollowsPeriods(c: Config, cancelIn: nat, fuel: nat)
    ensures var r := Pomodoro(c, cancelIn, fuel);
            var plan := Periods(c, Start(c), fuel + 1);
            && (r.cancelled <==> cancelIn < |plan|)
            && UpdatesIn(r.events) == if r.cancelled then plan[..cancelIn + 1] else plan
  {
    RunFollowsPeriods(c, Start(c), c.switch, c.work, cancelIn, fuel);
  }
}
