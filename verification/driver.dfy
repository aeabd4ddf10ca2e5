/**
  The timer's main loop. Each call the loop makes to the clock (status
  update, app switch, beep, cleanup) is recorded as an event; the trace of
  events is the loop's observable behaviour.

  The interrupt that stops the timer is an input: `cancelIn` is the number
  of one-tick waits that time out before the wait that receives the
  cancellation. The source loop never ends on its own, so the model also
  takes `fuel`, the number of mode transitions it may still perform; a
  trace that runs out of fuel is a prefix of the endless run.
 */
module Driver {
  import opened Timer

  /** One call to the clock. `Update` carries the mode, the ticks left in it
      and the mode's full duration, from which the status text, colour and
      progress are drawn. */
  datatype Event =
    | Update(mode: Mode, remaining: nat, total: nat)
    | Switch
    | Beep
    | Cleanup

  /** The events of a run, and whether it ended by cancellation (then the
      last event is the cleanup) rather than by running out of fuel. */
  datatype Trace = Trace(events: seq<Event>, cancelled: bool)

  /** Prefixes a trace with events already emitted. */
  function Extend(prefix: seq<Event>, t: Trace): Trace
  {
    Trace(prefix + t.events, t.cancelled)
  }

  /** The clock calls of one tick, in order: the status update, the one-time
      switch to the timer app if still pending, and a beep if enabled and no
      tick is left. */
  function Tick(c: Config, p: Phase, switchNeeded: bool, remaining: nat): seq<Event>
  {
    [Update(p.mode, remaining, ModeTime(c, p.mode))]
    + (if switchNeeded then [Switch] else [])
    + (if c.beep && remaining == 0 then [Beep] else [])
  }

  /** The order of a tick's calls: the update first, the switch right after
      it exactly when pending, the beep last exactly when enabled at zero. */
  lemma TickOrder(c: Config, p: Phase, switchNeeded: bool, remaining: nat)
    ensures var ev := Tick(c, p, switchNeeded, remaining);
            && |ev| >= 1 && ev[0] == Update(p.mode, remaining, ModeTime(c, p.mode))
            && (Switch in ev <==> switchNeeded)
            && (Beep in ev <==> c.beep && remaining == 0)
            && (switchNeeded ==> ev[1] == Switch)
            && (Beep in ev ==> ev[|ev| - 1] == Beep)
            && Cleanup !in ev
            && (forall i :: 1 <= i < |ev| ==> !ev[i].Update?)
  {
  }

  /** The loop from a point where the tick loop of mode `p.mode` is about to
      announce `remaining` (0: the tick loop is done). After each tick's
      calls the loop waits; the wait with `cancelIn == 0` receives the
      cancellation, which ends both loops and leads to the cleanup call.
      Once the tick loop is done, the transition rule picks the next mode. */
  function Run(c: Config, p: Phase, switchNeeded: bool, remaining: nat, cancelIn: nat, fuel: nat): Trace
    decreases fuel, remaining
  {
    if remaining == 0 then
      if fuel == 0 then Trace([], false)
      else
        var q := Next(c, p);
        Run(c, q, switchNeeded, ModeTime(c, q.mode), cancelIn, fuel - 1)
    else
      var ev := Tick(c, p, switchNeeded, remaining);
      if cancelIn == 0 then Trace(ev + [Cleanup], true)
      else Extend(ev, Run(c, p, false, remaining - 1, cancelIn - 1, fuel))
  }

  /** One tick of `Run`: its calls, then either the cancellation or the rest. */
  lemma RunTickStep(c: Config, p: Phase, switchNeeded: bool, remaining: nat, cancelIn: nat, fuel: nat)
    requires remaining > 0
    ensures Run(c, p, switchNeeded, remaining, cancelIn, fuel)
         == if cancelIn == 0 then Trace(Tick(c, p, switchNeeded, remaining) + [Cleanup], true)
            else Extend(Tick(c, p, switchNeeded, remaining),
                        Run(c, p, false, remaining - 1, cancelIn - 1, fuel))
  {
  }

  /** The end of a tick loop in `Run`: stop for lack of fuel, or take the transition. */
  lemma RunTransitionStep(c: Config, p: Phase, switchNeeded: bool, cancelIn: nat, fuel: nat)
    ensures Run(c, p, switchNeeded, 0, cancelIn, fuel)
         == if fuel == 0 then Trace([], false)
            else Run(c, Next(c, p), switchNeeded, ModeTime(c, Next(c, p).mode), cancelIn, fuel - 1)
  {
  }

  lemma ExtendTwice(a: seq<Event>, b: seq<Event>, t: Trace)
    ensures Extend(a, Extend(b, t)) == Extend(a + b, t)
  {
  }

  /** The whole program: start in work mode with the full cycle count and
      the app switch pending when the option asks for it. */
  function Pomodoro(c: Config, cancelIn: nat, fuel: nat): Trace
  {
    Run(c, Phase(Work, c.cycles), c.switch, c.work, cancelIn, fuel)
  }

  /** One iteration of the tick loop, stated on the part of the trace still
      to come after the events already emitted. */
  lemma TickLoopStep(c: Config, p: Phase, switchNeeded: bool, remaining: nat, cancelIn: nat, fuel: nat,
                     before: seq<Event>)
    requires remaining > 0
    ensures cancelIn == 0 ==>
      Extend(before, Run(c, p, switchNeeded, remaining, cancelIn, fuel))
      == Trace(before + Tick(c, p, switchNeeded, remaining) + [Cleanup], true)
    ensures cancelIn > 0 ==>
      Extend(before, Run(c, p, switchNeeded, remaining, cancelIn, fuel))
      == Extend(before + Tick(c, p, switchNeeded, remaining), Run(c, p, false, remaining - 1, cancelIn - 1, fuel))
  {
    RunTickStep(c, p, switchNeeded, remaining, cancelIn, fuel);
  }

  /** The tick loop of one mode as the program writes it: announce
      `remaining` = d, d-1, ..., 1, each time followed by the pending switch,
      the beep check and the wait. `cancelIn` counts the waits still to time
      out before the cancellation arrives. */
  method TickLoop(c: Config, p: Phase, switchNeeded: bool, cancelIn: nat, fuel: nat)
    returns (emitted: seq<Event>, switchAfter: bool, waited: nat, cancelled: bool)
    ensures cancelled ==>
      Run(c, p, switchNeeded, ModeTime(c, p.mode), cancelIn, fuel) == Trace(emitted + [Cleanup], true)
    ensures !cancelled ==> waited <= cancelIn
    ensures !cancelled ==>
      Run(c, p, switchNeeded, ModeTime(c, p.mode), cancelIn, fuel)
      == Extend(emitted, Run(c, p, switchAfter, 0, cancelIn - waited, fuel))
  {
    var total := ModeTime(c, p.mode);
    emitted, switchAfter, waited, cancelled := [], switchNeeded, 0, false;
    for remaining := total + 1 downto 1
      invariant waited <= cancelIn
      invariant Run(c, p, switchNeeded, total, cancelIn, fuel)
             == Extend(emitted, Run(c, p, switchAfter, remaining - 1, cancelIn - waited, fuel))
    {
      ghost var before, pending := emitted, switchAfter;
      emitted := emitted + [Update(p.mode, remaining, total)];
      if switchAfter {
        emitted := emitted + [Switch];
        switchAfter := false;
      }
      if c.beep && remaining == 0 {
        emitted := emitted + [Beep];
      }
      assert emitted == before + Tick(c, p, pending, remaining);
      TickLoopStep(c, p, pending, remaining, cancelIn - waited, fuel, before);
      if waited == cancelIn {
        cancelled := true;
        return;
      }
      waited := waited + 1;
    }
  }

  /** The main loop as the program writes it: an outer mode loop around the
      tick loop, leaving both on cancellation, and the cleanup call once at
      the end. */
  method Drive(c: Config, cancelIn: nat, fuel: nat) returns (events: seq<Event>, cancelled: bool)
    ensures Trace(events, cancelled) == Pomodoro(c, cancelIn, fuel)
  {
    var mode := Work;
    var remainingCycles := c.cycles;
    var switchNeeded := c.switch;
    var waits: nat := 0;
    var budget := fuel;
    events := [];
    cancelled := false;
    while true
      invariant waits <= cancelIn && !cancelled
      invariant Pomodoro(c, cancelIn, fuel)
             == Extend(events, Run(c, Phase(mode, remainingCycles), switchNeeded,
                                   ModeTime(c, mode), cancelIn - waits, budget))
      decreases budget
    {
      var emitted, switchAfter, waited, stop :=
        TickLoop(c, Phase(mode, remainingCycles), switchNeeded, cancelIn - waits, budget);
      if stop {
        events, cancelled := events + emitted, true;
        break;
      }
      ExtendTwice(events, emitted, Run(c, Phase(mode, remainingCycles), switchAfter, 0,
                                       cancelIn - waits - waited, budget));
      events, switchNeeded, waits := events + emitted, switchAfter, waits + waited;
      RunTransitionStep(c, Phase(mode, remainingCycles), switchNeeded, cancelIn - waits, budget);
      if budget == 0 {
        break;
      }
      ghost var done := Phase(mode, remainingCycles);
      if mode == Work && remainingCycles <= 1 {
        remainingCycles := c.cycles;
        mode := LongBreak;
      } else if mode == Work {
        remainingCycles := remainingCycles - 1;
        mode := ShortBreak;
      } else {
        mode := Work;
      }
      assert Phase(mode, remainingCycles) == Next(c, done);
      budget := budget - 1;
    }
    if cancelled {
      events := events + [Cleanup];
    }
  }
}
