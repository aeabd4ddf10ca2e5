/**
  The Pomodoro timer's modes, its configuration, the per-mode lookups
  (duration and progress-bar colour) and the transition rule that moves
  from one mode to the next while counting work periods down to a long
  break.
 */
module Timer {

  datatype Option<T> = None | Some(value: T)

  /** The three phases of the Pomodoro technique. */
  datatype Mode = Work | ShortBreak | LongBreak

  /** The options the timer reads at startup. Durations count ticks (a tick
      is a minute, or a second in demo mode); `cycles` is the number of work
      periods per long break. Unsigned 64-bit options become `nat`. */
  datatype Config = Config(
    work: nat,
    short: nat,
    long: nat,
    cycles: nat,
    beep: bool,
    switch: bool
  )

  /** The part of the loop state the transition rule updates: the current
      mode and the work periods still to go before a long break. */
  datatype Phase = Phase(mode: Mode, remainingCycles: nat)

  /** Number of ticks a mode lasts under configuration `c`. */
  function ModeTime(c: Config, m: Mode): nat
  {
    match m
    case Work => c.work
    case ShortBreak => c.short
    case LongBreak => c.long
  }

  /** All three durations are positive: every mode performs at least one wait. */
  predicate Positive(c: Config)
  {
    c.work > 0 && c.short > 0 && c.long > 0
  }

  predicate IsHexDigit(ch: char)
  {
    '0' <= ch <= '9' || 'a' <= ch <= 'f'
  }

  /** The progress-bar colour shown for a mode: a "#rrggbb" string. */
  function Colour(m: Mode): (s: string)
    ensures |s| == 7 && s[0] == '#'
    ensures forall i :: 1 <= i < |s| ==> IsHexDigit(s[i])
  {
    match m
    case Work => "#00aaff"
    case ShortBreak => "#55aa7f"
    case LongBreak => "#55007f"
  }

  /** Reads a progress colour back as the mode it stands for. */
  function ModeOfColour(s: string): (r: Option<Mode>)
  {
    if s == "#00aaff" then Some(Work)
    else if s == "#55aa7f" then Some(ShortBreak)
    else if s == "#55007f" then Some(LongBreak)
    else None
  }

  /** The colour alone identifies the mode on the display. */
  lemma ColourIdentifiesMode(m: Mode)
    ensures ModeOfColour(Colour(m)) == Some(m)
  {
  }

  /** Distinct modes are shown in distinct colours. */
  lemma ColourInjective(m1: Mode, m2: Mode)
    ensures Colour(m1) == Colour(m2) ==> m1 == m2
  {
    ColourIdentifiesMode(m1);
    ColourIdentifiesMode(m2);
  }

  /** The transition applied when a mode has run through all its ticks. */
  function Next(c: Config, p: Phase): (q: Phase)
    // breaks and work alternate
    ensures q.mode == Work <==> p.mode != Work
    // a long break ends the cycle exactly when at most one work period was left
    ensures q.mode == LongBreak <==> p.mode == Work && p.remainingCycles <= 1
    ensures q.mode == LongBreak ==> q.remainingCycles == c.cycles
    ensures q.mode == ShortBreak ==> q.remainingCycles == p.remainingCycles - 1
    // leaving a break does not touch the counter
    ensures p.mode != Work ==> q.remainingCycles == p.remainingCycles
  {
    match p.mode
    case Work =>
      if p.remainingCycles <= 1 then Phase(LongBreak, c.cycles)
      else Phase(ShortBreak, p.remainingCycles - 1)
    case ShortBreak => Phase(Work, p.remainingCycles)
    case LongBreak => Phase(Work, p.remainingCycles)
  }

  /** The counter of work periods left never leaves [1, cycles]. */
  lemma NextKeepsCyclesInRange(c: Config, p: Phase)
    requires 1 <= p.remainingCycles <= c.cycles
    ensures 1 <= Next(c, p).remainingCycles <= c.cycles
  {
  }
}
