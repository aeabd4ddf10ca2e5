/**
  Concrete runs of the main loop.
 */
module Scenarios {
  import opened Timer
  import opened Driver

  /** Demo settings: work 2, short break 1, long break 3, a long break after
      every second work period, beep and switch on. Cancelled at the ninth
      wait, the run announces 2, 1 of work, 1 of the short break, 2, 1 of
      work, 3, 2, 1 of the long break and 2 of work; no zero and no beep. */
  lemma DemoRun()
    ensures Pomodoro(Config(2, 1, 3, 2, true, true), 8, 8)
         == Trace([Update(Work, 2, 2), Switch, Update(Work, 1, 2),
                   Update(ShortBreak, 1, 1),
                   Update(Work, 2, 2), Update(Work, 1, 2),
                   Update(LongBreak, 3, 3), Update(LongBreak, 2, 3), Update(LongBreak, 1, 3),
                   Update(Work, 2, 2), Cleanup], true)
  {
    DemoSecondWork();
    var c := Config(2, 1, 3, 2, true, true);
    var w2, s1 := Phase(Work, 2), Phase(ShortBreak, 1);
    assert Run(c, s1, false, 0, 5, 7) == Run(c, Phase(Work, 1), false, 2, 5, 6);
    assert Run(c, w2, false, 0, 6, 8) == Run(c, s1, false, 1, 6, 7);
  }

  /** The demo from the second work period on: it leads to the long break,
      after which work starts again and is interrupted. */
  lemma DemoSecondWork()
    ensures Run(Config(2, 1, 3, 2, true, true), Phase(Work, 1), false, 2, 5, 6)
         == Trace([Update(Work, 2, 2), Update(Work, 1, 2), Update(LongBreak, 3, 3),
                   Update(LongBreak, 2, 3), Update(LongBreak, 1, 3), Update(Work, 2, 2), Cleanup], true)
  {
    var c := Config(2, 1, 3, 2, true, true);
    var l2 := Phase(LongBreak, 2);
    DemoLongBreak();
    assert Run(c, Phase(Work, 1), false, 0, 3, 6) == Run(c, l2, false, 3, 3, 5);
  }

  /** The demo's long break, then the interrupted work period. */
  lemma DemoLongBreak()
    ensures Run(Config(2, 1, 3, 2, true, true), Phase(LongBreak, 2), false, 2, 2, 5)
         == Trace([Update(LongBreak, 2, 3), Update(LongBreak, 1, 3), Update(Work, 2, 2), Cleanup], true)
  {
    var c := Config(2, 1, 3, 2, true, true);
    assert Run(c, Phase(LongBreak, 2), false, 0, 0, 5) == Trace([Update(Work, 2, 2), Cleanup], true);
  }

  /** Cancellation at the very first wait: one status update showing the
      full work duration, the switch if the option asks for it, then the
      cleanup. */
  lemma CancelAtFirstWait(c: Config, fuel: nat)
    requires c.work > 0
    ensures Pomodoro(c, 0, fuel).events
         == [Update(Work, c.work, c.work)] + (if c.switch then [Switch] else []) + [Cleanup]
  {
  }
}
