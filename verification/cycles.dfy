/**
  Iterating the transition rule from the startup state: which break follows
  which work period, and how the counter of work periods left evolves.
 */
module Cycles {
  import opened Timer

  /** The phase the timer starts in: work, with the full cycle count left. */
  function Start(c: Config): Phase
  {
    Phase(Work, c.cycles)
  }

  /** The phase after `n` transitions from `p`. */
  function After(c: Config, p: Phase, n: nat): Phase
    decreases n
  {
    if n == 0 then p else After(c, Next(c, p), n - 1)
  }

  /** Taking one more transition at the end of a run of transitions. */
  lemma {:induction false} AfterStep(c: Config, p: Phase, n: nat)
    ensures After(c, p, n + 1) == Next(c, After(c, p, n))
    decreases n
  {
    if n > 0 {
      AfterStep(c, Next(c, p), n - 1);
    }
  }

  /** Whatever the number of transitions, the counter stays within [1, cycles]. */
  lemma {:induction false} CyclesStayInRange(c: Config, p: Phase, n: nat)
    requires 1 <= p.remainingCycles <= c.cycles
    ensures 1 <= After(c, p, n).remainingCycles <= c.cycles
    decreases n
  {
    if n > 0 {
      NextKeepsCyclesInRange(c, p);
      CyclesStayInRange(c, Next(c, p), n - 1);
    }
  }

  /** Division by a positive number leaves a unique quotient and remainder. */
  lemma ModUnique(a: int, n: int, q: int, r: int)
    requires n >= 1 && 0 <= r < n && a == q * n + r
    ensures a % n == r
  {
    var q0, r0 := a / n, a % n;
    assert (q - q0) * n == r0 - r;
    if q > q0 {
      assert (q - q0) * n >= n by { MulAtLeast(q - q0, n); }
    } else if q < q0 {
      assert (q0 - q) * n >= n by { MulAtLeast(q0 - q, n); }
    }
  }

  lemma MulAtLeast(k: int, n: int)
    requires k >= 1 && n >= 1
    ensures k * n >= n
  {
  }

  /** Counting j + 1 modulo n, given j modulo n. */
  lemma ModSucc(j: nat, n: nat)
    requires n >= 1
    ensures (j + 1) % n == if j % n == n - 1 then 0 else j % n + 1
  {
    var q := j / n;
    var r := j % n;
    assert j == q * n + r;
    if r == n - 1 {
      ModUnique(j + 1, n, q + 1, 0);
    } else {
      ModUnique(j + 1, n, q, r + 1);
    }
  }

  /** From startup with cycles = N >= 1: the timer alternates work and breaks,
      and the break after the (j+1)-th work period is long exactly when j + 1
      is a multiple of N; the counter before each work period is N minus the
      number of work periods completed since the last long break. */
  lemma {:induction false} Schedule(c: Config, j: nat)
    requires c.cycles >= 1
    ensures After(c, Start(c), 2 * j) == Phase(Work, c.cycles - j % c.cycles)
    ensures After(c, Start(c), 2 * j + 1)
         == Phase(if (j + 1) % c.cycles == 0 then LongBreak else ShortBreak,
                  c.cycles - (j + 1) % c.cycles)
    decreases j
  {
    var n := c.cycles;
    var s := Start(c);
    if j > 0 {
      Schedule(c, j - 1);
      assert 2 * (j - 1) + 1 + 1 == 2 * j;
      AfterStep(c, s, 2 * (j - 1) + 1);
      assert After(c, s, 2 * j) == Phase(Work, n - j % n);
    }
    var w := After(c, s, 2 * j);
    assert w == Phase(Work, n - j % n);
    AfterStep(c, s, 2 * j);
    assert After(c, s, 2 * j + 1) == Next(c, w);
    ModSucc(j, n);
    if j % n == n - 1 {
      assert Next(c, w) == Phase(LongBreak, n);
    } else {
      assert Next(c, w) == Phase(ShortBreak, n - (j % n + 1));
    }
  }

  /** The N-th, 2N-th, ... completed work period leads to a long break and
      every other one to a short break. */
  lemma LongBreakEveryNthWork(c: Config, j: nat)
    requires c.cycles >= 1
    ensures After(c, Start(c), 2 * j).mode == Work
    ensures After(c, Start(c), 2 * j + 1).mode == LongBreak <==> (j + 1) % c.cycles == 0
    ensures After(c, Start(c), 2 * j + 1).mode == ShortBreak <==> (j + 1) % c.cycles != 0
  {
    Schedule(c, j);
  }

  /** With cycles = N the first N - 1 work periods are followed by short
      breaks and the N-th by the long break: N - 1 short breaks per long
      break, one fewer than the option's help text announces. */
  lemma ShortBreaksPerCycle(c: Config, j: nat)
    requires c.cycles >= 1
    ensures j + 1 < c.cycles ==> After(c, Start(c), 2 * j + 1).mode == ShortBreak
    ensures j + 1 == c.cycles ==> After(c, Start(c), 2 * j + 1).mode == LongBreak
  {
    LongBreakEveryNthWork(c, j);
    if j + 1 < c.cycles {
      ModUnique(j + 1, c.cycles, 0, j + 1);
    } else if j + 1 == c.cycles {
      ModUnique(j + 1, c.cycles, 1, 0);
    }
  }

  /** The default of four cycles: work, short, work, short, work, short,
      work, long. Three short breaks come before the long break. */
  lemma DefaultCyclesGiveThreeShortBreaks(c: Config)
    requires c.cycles == 4
    ensures After(c, Start(c), 1).mode == ShortBreak
    ensures After(c, Start(c), 3).mode == ShortBreak
    ensures After(c, Start(c), 5).mode == ShortBreak
    ensures After(c, Start(c), 7).mode == LongBreak
  {
    ShortBreaksPerCycle(c, 0);
    ShortBreaksPerCycle(c, 1);
    ShortBreaksPerCycle(c, 2);
    ShortBreaksPerCycle(c, 3);
  }

  /** With a cycle count of zero (which the options accept) the counter is
      stuck at zero and every break is a long one. */
  lemma {:induction false} ZeroCyclesAlwaysLong(c: Config, j: nat)
    requires c.cycles == 0
    ensures After(c, Start(c), 2 * j) == Phase(Work, 0)
    ensures After(c, Start(c), 2 * j + 1) == Phase(LongBreak, 0)
    decreases j
  {
    AfterStep(c, Start(c), 2 * j);
    if j > 0 {
      ZeroCyclesAlwaysLong(c, j - 1);
      AfterStep(c, Start(c), 2 * (j - 1) + 1);
    }
  }
}
