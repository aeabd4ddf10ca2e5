# awtrix-pom timer, modelled in Dafny

awtrix-pom is a Pomodoro timer that drives an AWTRIX clock over HTTP. Its
core is the loop in `src/main.rs`: the timer starts in work mode, counts each
mode's duration down one tick at a time, sends a status update to the clock
on every tick (plus a one-time request to switch the clock to the timer app),
waits one tick for a Ctrl-C, and, when a mode's ticks are used up, applies
the transition rule: work is followed by a short break, or by a long break
once the configured number of work periods is done, and every break is
followed by work. On Ctrl-C it leaves both loops and removes its app from
the clock.

The model, one module per concern:

- `timer.dfy` (`Timer`): the modes, the options (`Config`), the duration
  lookup `ModeTime` (the `mode_time` closure), the progress colour table,
  and the transition rule `Next` over `Phase` (mode and remaining cycles).
- `cycles.dfy` (`Cycles`): iterating the transition rule from startup.
- `driver.dfy` (`Driver`): each clock call becomes an `Event`
  (`Update(mode, remaining, total)`, `Switch`, `Beep`, `Cleanup`). `Run` is
  the main loop as a function producing the event `Trace`; `TickLoop` and
  `Drive` are the loop written as the program writes it (an outer mode loop,
  a descending `for` over the ticks, a break out of both loops), proved equal
  to `Run`.
- `trace_facts.dfy` (`TraceFacts`): properties of every trace, for every
  configuration the options accept.
- `announcements.dfy` (`Announcements`): independent descriptions of the
  status updates: the count-downs of successive periods (`Periods`), for
  every configuration, and, for positive durations, the indexed schedule
  of an uninterrupted run (`UpdateAt`); and the proofs that the loop's
  trace is that schedule cut at the cancellation.
- `display.dfy` (`Display`): the status text (`SHORT  nn`, `LONG   nn`, or
  the time of day followed by the count in work mode), with a reader that
  recovers mode and count from it.
- `scenarios.dfy` (`Scenarios`): concrete runs.

The Ctrl-C is an input: `cancelIn` is the number of one-tick waits that
time out before the wait that receives the interrupt. The program's loop has
no exit of its own, so `Run` also takes `fuel`, the number of mode
transitions it may perform; a trace that runs out of fuel (`cancelled ==
false`, no cleanup) is a prefix of the longer runs (`MoreFuelExtends`), and
with positive durations `cancelIn` transitions always suffice to reach the
interrupt (`EnoughFuelReachesCancellation`).

Three behaviours of the code differ from a "count down to zero, beep at
zero, reject empty durations, `cycles` short breaks" reading of the program,
and the model follows the code:

- The tick loop runs over `(1..mode_time(mode) + 1).rev()`, so it announces
  d, d-1, ..., 1 and never 0. The beep guard `remaining == 0` is therefore
  never true, and no beep is ever sent, whatever the beep option says
  (`TraceFacts.NeverAnnouncesZeroNorBeeps`, `Scenarios.DemoRun`), although
  the option's help text (src/main.rs:43) promises a beep on each
  transition between work and breaks.
- Durations and the cycle count are not validated. A mode of duration 0
  runs no tick and no wait and passes straight to the next transition; when
  all three durations are 0 the loop never waits and so never sees the
  interrupt (`TraceFacts.ZeroDurationsNeverWait`). A cycle count of 0 makes
  every break a long one (`Cycles.ZeroCyclesAlwaysLong`).
- The help text of the `cycles` option (src/main.rs:39) calls it the number
  of short breaks before a long break. The transition rule takes a long
  break when at most one work period was left, so with `cycles = N` there
  are N - 1 short breaks per long break: with the default of 4 the modes
  run work, short, work, short, work, short, work, long
  (`Cycles.ShortBreaksPerCycle`, `Cycles.DefaultCyclesGiveThreeShortBreaks`).
  `cycles` is thus the number of work periods per long break.

## Model

| member | source | states |
|---|---|---|
| Timer.ModeTime | src/main.rs:144-148 | the duration lookup; no contract of its own, its use as every update's total is stated by `TraceFacts.NeverAnnouncesZeroNorBeeps` |
| Timer.Colour | src/main.rs:68-72 | every mode's progress colour is a `#rrggbb` hex colour |
| Timer.ColourIdentifiesMode | src/main.rs:68-72 | the colour table can be read back: the colour of a mode identifies that mode |
| Timer.ColourInjective | src/main.rs:68-72 | the three modes are shown in three distinct colours |
| Timer.Next | src/main.rs:173-184 | work and breaks alternate; a long break follows work exactly when at most one work period was left, and resets the counter to `cycles`; a short break decrements it by one; leaving a break keeps it |
| Timer.NextKeepsCyclesInRange | src/main.rs:173-184 | one transition keeps the remaining cycles within [1, cycles] |
| Cycles.CyclesStayInRange | src/main.rs:173-184 | any number of transitions keeps the remaining cycles within [1, cycles] |
| Cycles.Schedule | src/main.rs:173-184 | from startup with cycles = N >= 1, the state after 2j transitions is work with N - (j mod N) cycles left, and after 2j+1 it is a long break exactly when j+1 is a multiple of N |
| Cycles.LongBreakEveryNthWork | src/main.rs:173-184 | the N-th, 2N-th, ... completed work period leads to a long break and every other one to a short break |
| Cycles.ShortBreaksPerCycle | src/main.rs:173-184 | with cycles = N >= 1 the first N - 1 work periods end in short breaks and the N-th in the long break |
| Cycles.DefaultCyclesGiveThreeShortBreaks | src/main.rs:173-184 | with the default cycles = 4, transitions 1, 3 and 5 lead to short breaks and transition 7 to the long break |
| Cycles.ZeroCyclesAlwaysLong | src/main.rs:174-177 | with a cycle count of 0 the counter stays 0 and every break is long |
| Driver.Tick | src/main.rs:157-166 | the calls of one tick; no contract of its own, their order is stated by `Driver.TickOrder` |
| Driver.Run | src/main.rs:155-187 | the main loop as a function from a point in a tick loop; no contract of its own, its behaviour is stated by the `TraceFacts` and `Announcements` lemmas and its equality with the loop by `Driver.Drive` |
| Driver.Pomodoro | src/main.rs:136-155 | the startup state: work mode, the full cycle count, the switch pending as the option says; no contract of its own |
| Driver.TickOrder | src/main.rs:157-166 | within a tick the status update comes first, then the switch request exactly when one is pending, then a beep exactly when beeping is on and the count is 0 |
| Driver.TickLoop | src/main.rs:156-171 | the descending tick loop emits the events of `Run` for the mode and stops at the interrupt with the cleanup still to come |
| Driver.Drive | src/main.rs:150-189 | the main loop as written (mode loop, tick loop, break out of both, cleanup) produces exactly the trace of `Run` from the startup state |
| TraceFacts.RunAnnouncesNoZero | src/main.rs:156-166 | from any point in a tick loop, every status update announces between 1 and the mode's duration ticks, with that duration as total, and no beep occurs |
| TraceFacts.NeverAnnouncesZeroNorBeeps | src/main.rs:156-166 | in every run, updates announce counts in [1, mode_time(mode)] with total mode_time(mode); zero is never announced and no beep is sent |
| TraceFacts.RunSwitchPlacement | src/main.rs:157-162 | a trace starts with a status update; the switch appears only at position 1 and there exactly when it was pending |
| TraceFacts.SwitchOnceAfterFirstUpdate | src/main.rs:151-162 | the switch request appears at most once, right after the first status update, and exactly when the switch option is on and something was sent |
| TraceFacts.RunCleanupPlacement | src/main.rs:168-189 | a trace ends with the cleanup exactly when it was cancelled; the cleanup occurs once, last, right after that tick's update or switch |
| TraceFacts.RunUpdateCount | src/main.rs:156-170 | a run cancelled at wait k made exactly k+1 status updates; one that ran out of fuel made at most k |
| TraceFacts.CancellationEndsWithOneCleanup | src/main.rs:168-189 | for the whole program: cleanup iff cancelled, exactly once and last, and no status update after the wait that received the interrupt |
| TraceFacts.RunReachesCancellation | src/main.rs:155-171 | with positive durations, a run with more waits available than `cancelIn` reaches the interrupt |
| TraceFacts.EnoughFuelReachesCancellation | src/main.rs:155-171 | with positive durations, `cancelIn` transitions are enough for the program to receive the interrupt |
| TraceFacts.MoreFuelExtends | src/main.rs:155-187 | more fuel only extends a trace that ran out and leaves a cancelled trace unchanged |
| TraceFacts.ZeroDurationsNeverWait | src/main.rs:155-156 | when all durations are 0 the loop never waits: nothing is sent and no cleanup happens, whatever the fuel |
| Announcements.RunFollowsPeriods | src/main.rs:155-184 | for every configuration, zero durations included: the status updates of a run are its remaining count-down and the whole periods its fuel allows, cut after the wait that receives the interrupt, which is reached exactly when it lies within them |
| Announcements.ProgramFollowsPeriods | src/main.rs:150-189 | for every configuration, the program's status updates are the first fuel + 1 periods from startup, each mode counting its duration down to 1, cut at the interrupt |
| Announcements.UpdateAt | src/main.rs:155-184 | each update of the uninterrupted schedule announces a count in [1, total] with the mode's duration as total |
| Announcements.PeriodCountsDown | src/main.rs:155-184 | the n-th period announces the mode reached after n transitions, counting its full duration down d, d-1, ..., 1 |
| Announcements.ConsecutiveUpdates | src/main.rs:155-184 | consecutive updates drop the count by exactly one within a mode; after the update announcing 1 the next mode starts at its full duration, and work alternates with breaks |
| Announcements.RunMatchesSchedule | src/main.rs:155-171 | with positive durations, from any point of a tick loop, a run with enough fuel is the rest of the schedule up to the interrupt, with the pending switch after the first update, then the cleanup |
| Announcements.ProgramFollowsSchedule | src/main.rs:150-189 | with positive durations, the program's trace is the first cancelIn+1 updates of the schedule from startup, the switch after the first when enabled, and the cleanup |
| Scenarios.DemoRun | src/main.rs:150-189 | work 2, short 1, long 3, cycles 2, cancelled at the ninth wait: Work 2, switch, Work 1, Short 1, Work 2, Work 1, Long 3, Long 2, Long 1, Work 2, cleanup |
| Scenarios.CancelAtFirstWait | src/main.rs:155-170 | an interrupt at the first wait gives one update with the full work duration, the switch if enabled, and the cleanup |
| Display.Decimal | src/main.rs:63-65 | the count is written as at least one decimal digit without leading zeros; one digit below 10, at most two below 100 |
| Display.DecimalRoundTrip | src/main.rs:63-65 | reading the decimal notation of a count gives the count back |
| Display.RightAlign | src/main.rs:63-65 | `{:>2}` pads on the left with spaces to width 2 and never truncates |
| Display.Label | src/main.rs:62-66 | the text before the count: the time and three spaces, or `SHORT` or `LONG` padded to seven characters; no contract of its own |
| Display.StatusText | src/main.rs:62-66 | the status text, label followed by `{remaining:>2}`; no contract of its own, it is inverted by `ReadStatus` in `Display.StatusTextRoundTrip` |
| Display.StatusTextRoundTrip | src/main.rs:62-66 | a status text reads back as its mode and count, given a well-formed `HH:MM` time |
| Display.StatusTextWidth | src/main.rs:62-66 | with a count below 100, break texts are 9 characters and work texts 10 |

## Left out

- HTTP calls: `update`, `switch`, `beep` and `cleanup` build URLs and JSON
  and post them (src/main.rs:76-116); each call is one event, and the model
  assumes every call succeeds. A failed call panics through `unwrap`; that
  error path, including a failed cleanup, is not modelled.
- The progress percentage (src/main.rs:74) is computed in `f64` and
  truncated; the model carries `remaining` and `total` in the update
  instead, since floating-point rounding is not modelled.
- The time of day in the work-mode text (src/main.rs:60, 63) comes from the
  system clock; `Display.StatusText` takes it as a parameter.
- Argument parsing (src/main.rs:19-57, 119), the verbose and logging setup
  (src/main.rs:121-126) and the debug log lines are I/O.
- The Ctrl-C handler and its channel (src/main.rs:128-134) are concurrency;
  the interrupt becomes the `cancelIn` input. The tick length
  (src/main.rs:138-142) only sets how long a wait lasts and is not modelled.
- Options are unsigned 64-bit integers, modelled as unbounded naturals: the
  overflow of `mode_time(mode) + 1` for a duration of 2^64 - 1 is not
  modelled.
- Driver.Drive: the program loops until interrupted; the model performs at
  most `fuel` mode transitions, so a run that is never interrupted is only
  described up to that bound.
- Announcements.RunMatchesSchedule assumes positive durations, since the
  reference schedule skips no mode; for every configuration the updates are
  given by `Announcements.RunFollowsPeriods`, and the switch and cleanup
  positions by `TraceFacts`.
- Announcements.UpdateAt assumes positive durations, since the reference
  schedule skips no mode; `Announcements.Periods` describes the updates
  for zero durations too.
- Announcements.PeriodCountsDown assumes positive durations, since the
  reference schedule skips no mode.
- Announcements.ProgramFollowsSchedule assumes positive durations, since
  the reference schedule skips no mode; `Announcements.ProgramFollowsPeriods`
  states the updates of the whole program for every configuration.
- Announcements.ConsecutiveUpdates assumes positive durations, since the
  reference schedule skips no mode.
- Timer.ModeTime carries no contract of its own: it is the plain lookup, and
  what it promises is stated by the trace lemmas, whose updates carry
  `ModeTime(c, mode)` as their total.
