/**
  Properties of every trace the main loop produces, for every configuration
  the options accept (zero durations and a zero cycle count included) and
  every cancellation point.
 */
module TraceFacts {
  import opened Timer
  import opened Driver

  /** Number of status updates in a sequence of events: each one is
      followed by exactly one wait. */
  function Updates(s: seq<Event>): nat
  {
    if |s| == 0 then 0 else (if s[0].Update? then 1 else 0) + Updates(s[1..])
  }

  lemma {:induction false} UpdatesAppend(a: seq<Event>, b: seq<Event>)
    ensures Updates(a + b) == Updates(a) + Updates(b)
    decreases |a|
  {
    if |a| > 0 {
      assert (a + b)[1..] == a[1..] + b;
      UpdatesAppend(a[1..], b);
    } else {
      assert a + b == b;
    }
  }

  lemma {:induction false} NoUpdates(s: seq<Event>)
    requires forall i :: 0 <= i < |s| ==> !s[i].Update?
    ensures Updates(s) == 0
    decreases |s|
  {
    if |s| > 0 {
      NoUpdates(s[1..]);
    }
  }

  /** A tick makes exactly one status update. */
  lemma TickUpdatesOnce(c: Config, p: Phase, switchNeeded: bool, remaining: nat)
    ensures Updates(Tick(c, p, switchNeeded, remaining)) == 1
  {
    var ev := Tick(c, p, switchNeeded, remaining);
    TickOrder(c, p, switchNeeded, remaining);
    NoUpdates(ev[1..]);
  }

  /** Every status update announces between 1 and the mode's full duration
      ticks left, with the mode's duration as total; zero is never
      announced, so no beep is ever sent, whatever the beep option says. */
  lemma {:induction false} RunAnnouncesNoZero(c: Config, p: Phase, switchNeeded: bool, remaining: nat, cancelIn: nat, fuel: nat)
    requires remaining <= ModeTime(c, p.mode)
    ensures forall e :: e in Run(c, p, switchNeeded, remaining, cancelIn, fuel).events && e.Update? ==>
              1 <= e.remaining <= e.total && e.total == ModeTime(c, e.mode)
    ensures Beep !in Run(c, p, switchNeeded, remaining, cancelIn, fuel).events
    decreases fuel, remaining
  {
    if remaining == 0 {
      if fuel > 0 {
        var q := Next(c, p);
        RunAnnouncesNoZero(c, q, switchNeeded, ModeTime(c, q.mode), cancelIn, fuel - 1);
      }
    } else {
      TickOrder(c, p, switchNeeded, remaining);
      if cancelIn > 0 {
        RunAnnouncesNoZero(c, p, false, remaining - 1, cancelIn - 1, fuel);
      }
    }
  }

  /** The same, for the whole program. */
  lemma NeverAnnouncesZeroNorBeeps(c: Config, cancelIn: nat, fuel: nat)
    ensures forall e :: e in Pomodoro(c, cancelIn, fuel).events && e.Update? ==>
              1 <= e.remaining <= e.total && e.total == ModeTime(c, e.mode)
    ensures Beep !in Pomodoro(c, cancelIn, fuel).events
  {
    RunAnnouncesNoZero(c, Phase(Work, c.cycles), c.switch, c.work, cancelIn, fuel);
  }

  /** A trace starts with a status update; the switch request appears only
      at position 1, right after that update, and there exactly when one
      was pending. */
  lemma {:induction false} RunSwitchPlacement(c: Config, p: Phase, switchNeeded: bool, remaining: nat, cancelIn: nat, fuel: nat)
    ensures var ev := Run(c, p, switchNeeded, remaining, cancelIn, fuel).events;
            && (|ev| > 0 ==> ev[0].Update?)
            && (forall i :: 0 <= i < |ev| && ev[i] == Switch ==> i == 1 && switchNeeded)
            && (switchNeeded && |ev| > 0 ==> |ev| >= 2 && ev[1] == Switch)
    decreases fuel, remaining
  {
    if remaining == 0 {
      if fuel > 0 {
        var q := Next(c, p);
        RunSwitchPlacement(c, q, switchNeeded, ModeTime(c, q.mode), cancelIn, fuel - 1);
      }
    } else if cancelIn > 0 {
      var ev := Tick(c, p, switchNeeded, remaining);
      TickOrder(c, p, switchNeeded, remaining);
      var rest := Run(c, p, false, remaining - 1, cancelIn - 1, fuel).events;
      RunSwitchPlacement(c, p, false, remaining - 1, cancelIn - 1, fuel);
      assert Switch !in rest;
      assert forall i :: |ev| <= i < |ev + rest| ==> (ev + rest)[i] == rest[i - |ev|];
    }
  }

  /** The switch to the timer app is requested at most once in a run, right
      after the first status update, and only when the option asks for it. */
  lemma SwitchOnceAfterFirstUpdate(c: Config, cancelIn: nat, fuel: nat)
    ensures var ev := Pomodoro(c, cancelIn, fuel).events;
            && (Switch in ev <==> c.switch && |ev| > 0)
            && (forall i :: 0 <= i < |ev| && ev[i] == Switch ==> i == 1 && ev[0].Update?)
  {
    RunSwitchPlacement(c, Phase(Work, c.cycles), c.switch, c.work, cancelIn, fuel);
  }

  /** A run ends with the cleanup call exactly when it was cancelled; the
      cleanup is the last event, occurs once, and is preceded by a status
      update or the switch request of the same tick. */
  lemma {:induction false} RunCleanupPlacement(c: Config, p: Phase, switchNeeded: bool, remaining: nat, cancelIn: nat, fuel: nat)
    ensures var r := Run(c, p, switchNeeded, remaining, cancelIn, fuel);
            && (r.cancelled <==> Cleanup in r.events)
            && (forall i :: 0 <= i < |r.events| && r.events[i] == Cleanup ==> i == |r.events| - 1)
            && (r.cancelled ==> |r.events| >= 2 && (r.events[|r.events| - 2].Update? || r.events[|r.events| - 2] == Switch))
    decreases fuel, remaining
  {
    if remaining == 0 {
      if fuel > 0 {
        var q := Next(c, p);
        RunCleanupPlacement(c, q, switchNeeded, ModeTime(c, q.mode), cancelIn, fuel - 1);
      }
    } else {
      var ev := Tick(c, p, switchNeeded, remaining);
      TickOrder(c, p, switchNeeded, remaining);
      if cancelIn == 0 {
        assert Beep !in ev;
      } else {
        var r := Run(c, p, false, remaining - 1, cancelIn - 1, fuel);
        RunCleanupPlacement(c, p, false, remaining - 1, cancelIn - 1, fuel);
        assert forall i :: |ev| <= i < |ev + r.events| ==> (ev + r.events)[i] == r.events[i - |ev|];
      }
    }
  }

  /** Each wait follows exactly one status update, so a run cancelled at the
      wait numbered `cancelIn` (from 0) made `cancelIn + 1` updates and no
      more; a run that ran out of fuel made no more than `cancelIn`. */
  lemma {:induction false} RunUpdateCount(c: Config, p: Phase, switchNeeded: bool, remaining: nat, cancelIn: nat, fuel: nat)
    ensures var r := Run(c, p, switchNeeded, remaining, cancelIn, fuel);
            && (r.cancelled ==> Updates(r.events) == cancelIn + 1)
            && (!r.cancelled ==> Updates(r.events) <= cancelIn)
    decreases fuel, remaining
  {
    if remaining == 0 {
      if fuel > 0 {
        var q := Next(c, p);
        RunUpdateCount(c, q, switchNeeded, ModeTime(c, q.mode), cancelIn, fuel - 1);
      }
    } else {
      var ev := Tick(c, p, switchNeeded, remaining);
      TickUpdatesOnce(c, p, switchNeeded, remaining);
      if cancelIn == 0 {
        UpdatesAppend(ev, [Cleanup]);
        assert Updates([Cleanup]) == 0;
      } else {
        var r := Run(c, p, false, remaining - 1, cancelIn - 1, fuel);
        RunUpdateCount(c, p, false, remaining - 1, cancelIn - 1, fuel);
        UpdatesAppend(ev, r.events);
      }
    }
  }

  /** For the whole program: cancellation at the wait numbered `cancelIn`
      (from 0) yields `cancelIn + 1` status updates and then, after at most
      the switch request, exactly one cleanup as the final call. */
  lemma CancellationEndsWithOneCleanup(c: Config, cancelIn: nat, fuel: nat)
    ensures var r := Pomodoro(c, cancelIn, fuel);
            && (r.cancelled <==> Cleanup in r.events)
            && (r.cancelled ==> r.events[|r.events| - 1] == Cleanup)
            && (forall i :: 0 <= i < |r.events| && r.events[i] == Cleanup ==> i == |r.events| - 1)
            && (r.cancelled ==> Updates(r.events) == cancelIn + 1)
            && (!r.cancelled ==> Updates(r.events) <= cancelIn)
  {
    RunCleanupPlacement(c, Phase(Work, c.cycles), c.switch, c.work, cancelIn, fuel);
    RunUpdateCount(c, Phase(Work, c.cycles), c.switch, c.work, cancelIn, fuel);
  }

  /** With positive durations every mode waits at least once, so enough fuel
      always reaches the cancellation. */
  lemma {:induction false} RunReachesCancellation(c: Config, p: Phase, switchNeeded: bool, remaining: nat, cancelIn: nat, fuel: nat)
    requires Positive(c)
    requires cancelIn < remaining + fuel
    ensures Run(c, p, switchNeeded, remaining, cancelIn, fuel).cancelled
    decreases fuel, remaining
  {
    if remaining == 0 {
      var q := Next(c, p);
      RunReachesCancellation(c, q, switchNeeded, ModeTime(c, q.mode), cancelIn, fuel - 1);
    } else if cancelIn > 0 {
      RunReachesCancellation(c, p, false, remaining - 1, cancelIn - 1, fuel);
    }
  }

  /** For the whole program: with positive durations, `cancelIn` transitions
      are enough fuel for the cancellation to be received. */
  lemma EnoughFuelReachesCancellation(c: Config, cancelIn: nat, fuel: nat)
    requires Positive(c)
    requires cancelIn <= fuel
    ensures Pomodoro(c, cancelIn, fuel).cancelled
  {
    RunReachesCancellation(c, Phase(Work, c.cycles), c.switch, c.work, cancelIn, fuel);
  }

  /** Fuel only bounds the model: more fuel extends a trace that ran out and
      leaves a cancelled trace unchanged. */
  lemma {:induction false} MoreFuelExtends(c: Config, p: Phase, switchNeeded: bool, remaining: nat, cancelIn: nat, fuel: nat, more: nat)
    requires fuel <= more
    ensures Run(c, p, switchNeeded, remaining, cancelIn, fuel).events
         <= Run(c, p, switchNeeded, remaining, cancelIn, more).events
    ensures Run(c, p, switchNeeded, remaining, cancelIn, fuel).cancelled ==>
            Run(c, p, switchNeeded, remaining, cancelIn, more) == Run(c, p, switchNeeded, remaining, cancelIn, fuel)
    decreases fuel, remaining
  {
    if remaining == 0 {
      if fuel > 0 {
        var q := Next(c, p);
        MoreFuelExtends(c, q, switchNeeded, ModeTime(c, q.mode), cancelIn, fuel - 1, more - 1);
      }
    } else if cancelIn > 0 {
      MoreFuelExtends(c, p, false, remaining - 1, cancelIn - 1, fuel, more);
    }
  }

  /** When every duration is zero the loop never waits, so it never sees the
      cancellation: whatever the fuel, nothing is sent and no cleanup runs. */
  lemma {:induction false} ZeroDurationsNeverWait(c: Config, p: Phase, switchNeeded: bool, cancelIn: nat, fuel: nat)
    requires c.work == 0 && c.short == 0 && c.long == 0
    ensures Run(c, p, switchNeeded, ModeTime(c, p.mode), cancelIn, fuel) == Trace([], false)
    decreases fuel
  {
    if fuel > 0 {
      ZeroDurationsNeverWait(c, Next(c, p), switchNeeded, cancelIn, fuel - 1);
    }
  }
}
