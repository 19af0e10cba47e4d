# headspace-clone core in Dafny

This project models the logic core of a terminal meditation and breathing
app:

- the breathing pattern library and its custom-pattern parser;
- the millisecond timer that accumulates elapsed time across pause and resume;
- the session lifecycle that owns one timer and forwards its notifications;
- the `M:SS` / `H:MM:SS` duration formatter and the `NhNmNs` duration parser;
- the two breathing visualisations: the box with a travelling dot, and the
  fill bar;
- the CSV and JSON export of stored sessions;
- the statistics phrases;
- the history screen's pages and key handling;
- the wrap-around cursor of the selection list.

The pure parts are datatypes, functions and lemmas.

The timer and the session are classes, `Timing.Timer` and `Sessions.Session`.
Their methods update fields in place, and each method is proved against a
step function on a snapshot value (`TimerSnap`, `SessionSnap`). The lemmas
about the step functions carry the properties: state machine, invariants, tick
outcome, and what counts as a full completion.

Three other pieces follow the source's loops and handlers:

- the box picture is built by a nested-loop method (`BoxBreathing.BuildBox`);
- the history screen's handler is a class with a key method;
- so is the selection list's handler.

Callbacks (`onTick`, `onComplete`, `onStateChange`) are returned as event
sequences, in the order the source fires them.

Clock readings are an explicit `now` argument in whole milliseconds.
`process.hrtime` and `new Date()` are therefore parameters. The repeating
interval is the explicit `Tick(now)` method, which acts only while the
timer's interval would be live.

The JavaScript library functions the core relies on are modelled in module
`Text`:

- `parseInt` accepts a leading digit prefix and optional sign, so `"4x"` reads
  as 4;
- `String.split`, `Array.join`, `trim`, `toLowerCase` and `padStart`;
- number-to-string conversion.

The parts of `Math` that are used (`ceil`, `round`) are in module `JsMath`,
over exact reals.

Three behaviours of the source are easy to miss, and the model keeps them:

- `stop` accumulates time but does not clamp it. After a late stop, the
  elapsed time exceeds the duration (`Timing.StopDoesNotClamp`).
- `pause` does not clamp either. A pause that lands just after the duration
  leaves `elapsedMs` above it. The next tick after `resume` clamps it back, so
  the elapsed time a caller observes can go down
  (`Timing.PauseOvershootThenClamp`). Only the calls `start`, `pause`,
  `resume` and `stop` never lower it (`Timing.ElapsedNeverLoweredByCalls`).
- A session stopped late, once the timer's elapsed time has reached the
  duration, counts as a full completion even though it was stopped by hand
  (`Sessions.LateStopIsFull`).

## Model

| member | source | states |
|---|---|---|
| Patterns.ReduceDurations | src/engine/patterns.ts:21 | folding the phase durations from an accumulator gives the accumulator plus the total of the phases |
| Patterns.MakePattern | src/engine/patterns.ts:15-23 | a made pattern keeps its id, name, description and phases, and its `cycleMs` is the sum of its phase durations |
| Patterns.BuiltinTable | src/engine/patterns.ts:25-46 | there are exactly four built-in patterns: 4-4-4, 4-7-8, 5-5 and 4-4-4-4, with 3, 3, 2 and 4 phases and cycles of 12000, 19000, 10000 and 16000 ms; every one is well formed, has at least two phases and only positive durations |
| Patterns.GetPatternById | src/engine/patterns.ts:48-50 | no contract of its own; `FindById` states the first-match lookup, and `GetPatternByIdFindsBuiltins` and `GetPatternByIdUnknown` state its results |
| Patterns.FindById | src/engine/patterns.ts:49 | a search finds nothing exactly when no pattern has the id, and otherwise returns the first pattern with that id |
| Patterns.FindByDistinctId | src/engine/patterns.ts:49 | in a list where an id occurs once, the search by that id returns that entry |
| Patterns.GetPatternByIdFindsBuiltins | src/engine/patterns.ts:48-50 | looking up any built-in pattern's id returns that pattern |
| Patterns.GetPatternByIdUnknown | src/engine/patterns.ts:48-50 | looking up "unknown" returns nothing |
| Patterns.ParseParts | src/engine/patterns.ts:53 | each dash-separated part is read by `parseInt`, one number per part |
| Patterns.TotalOfScaled | src/engine/patterns.ts:59-66 | phases whose durations are 1000 times the given seconds have a total of 1000 times the sum of the seconds |
| Patterns.CustomPattern | src/engine/patterns.ts:56-66 | phase i has duration 1000 × seconds[i] and takes its name and label from entry i mod 4 of the inhale/hold/exhale/hold-bottom table; the id joins the numbers with dashes; the name is "Custom (id)" and the description "Custom pattern: id"; the cycle is 1000 × the sum |
| Patterns.ParseCustomPattern | src/engine/patterns.ts:52-67 | parsing succeeds exactly when the input has at least two dash-separated parts and every part reads as a positive integer |
| Patterns.ParseWhenPartsRead | src/engine/patterns.ts:52-67 | when the parts read as the given positive seconds, the result is the custom pattern of those seconds |
| Patterns.ParseCustomId | src/engine/patterns.ts:65-66 | the id of a custom pattern parses back to the same pattern |
| Patterns.ParseIdAgain | src/engine/patterns.ts:52-67 | re-parsing the id of any parsed pattern gives the same pattern, so the id is a canonical form of the input |
| Patterns.RejectsSinglePart | src/engine/patterns.ts:54 | an input without a dash is rejected |
| Patterns.RejectsFirstPart | src/engine/patterns.ts:54 | an input whose first part is not a positive integer is rejected |
| Patterns.ParseCustomPatternRejectsEmpty | src/engine/patterns.ts:54 | "" is rejected |
| Patterns.ParseCustomPatternRejectsLetters | src/engine/patterns.ts:54 | "abc" is rejected |
| Patterns.ParseCustomPatternRejectsSingle | src/engine/patterns.ts:54 | "4" is rejected |
| Patterns.ParseCustomPatternRejectsZero | src/engine/patterns.ts:54 | "0-4" is rejected |
| Patterns.ParseCustomPatternRejectsLeadingDash | src/engine/patterns.ts:54 | "-4-4" is rejected, because its first part is empty |
| Patterns.CustomIdTwo | src/engine/patterns.ts:65 | the id of two numbers is the first number, a dash, then the second |
| Patterns.CustomIdThree | src/engine/patterns.ts:65 | the id of three numbers is the numbers separated by dashes |
| Patterns.CustomIdThreeSixNine | src/engine/patterns.ts:65 | the id of 3, 6, 9 is "3-6-9" |
| Patterns.CustomPatternThreeSixNine | src/engine/patterns.ts:59-66 | the pattern of 3, 6, 9 has three phases of 3000, 6000 and 9000 ms, a third phase named "exhale", and an 18000 ms cycle |
| Patterns.ParseCustomPatternThreeSixNine | src/engine/patterns.ts:52-67 | "3-6-9" parses to three phases of 3000, 6000 and 9000 ms, a third phase named "exhale", and an 18000 ms cycle |
| Patterns.SplitFourXFive | src/engine/patterns.ts:53 | "4x-5" splits into "4x" and "5" |
| Patterns.ParseIntFourXFive | src/engine/patterns.ts:53 | `parseInt` reads "4x" as 4 and "5" as 5 |
| Patterns.CustomIdFourFive | src/engine/patterns.ts:65 | the id of 4, 5 is "4-5" |
| Patterns.ParseCustomPatternDigitPrefix | src/engine/patterns.ts:52-67 | "4x-5" is accepted because `parseInt` reads the digit prefix; the result has id "4-5" and a 9000 ms cycle |
| Timing.StartStep | src/engine/timer.ts:21-26 | no contract of its own; `NoOpsOutsideSourceState`, `Idempotent` and `StepsKeepInv` state it |
| Timing.PauseStep | src/engine/timer.ts:28-33 | no contract of its own; `PausedElapsedPinned`, `NoOpsOutsideSourceState`, `Idempotent` and `ElapsedNeverLoweredByCalls` state it |
| Timing.ResumeStep | src/engine/timer.ts:35-40 | no contract of its own; `ResumeKeepsElapsed`, `NoOpsOutsideSourceState` and `Idempotent` state it |
| Timing.StopStep | src/engine/timer.ts:42-47 | no contract of its own; `StopDoesNotClamp`, `NoOpsOutsideSourceState`, `Idempotent` and `ElapsedNeverLoweredByCalls` state it |
| Timing.TickStep | src/engine/timer.ts:79-94 | no contract of its own; `TickOutcome`, `TickInertUnlessRunning` and `TickKeepsElapsedWithinDuration` state it |
| Timing.ElapsedAt | src/engine/timer.ts:54-60 | elapsed seconds are the stored milliseconds over 1000; the live term `now - lastTickAt` is added only while running; the result is never below the stored value |
| Timing.RemainingAt | src/engine/timer.ts:63-65 | remaining seconds lie between 0 and the duration, and are 0 exactly when the elapsed time has reached the duration |
| Timing.StepsKeepInv | src/engine/timer.ts:21-47 | start, pause, resume, stop and tick keep the timer invariant: the interval is live exactly while running, and nothing has elapsed while idle |
| Timing.NoOpsOutsideSourceState | src/engine/timer.ts:22 | start acts only from idle, pause only from running, resume only from paused, and stop only from running or paused; in every other state each leaves the timer unchanged |
| Timing.TickInertUnlessRunning | src/engine/timer.ts:97-102 | outside running, a tick changes nothing and emits nothing, because the interval has been cleared |
| Timing.Idempotent | src/engine/timer.ts:21-47 | a second start, pause, resume or stop right after the first changes nothing |
| Timing.PausedElapsedPinned | src/engine/timer.ts:28-33 | after a pause, the elapsed time stays at the value it had at the pause, however late it is read |
| Timing.ResumeKeepsElapsed | src/engine/timer.ts:35-40 | resume keeps the stored elapsed time and the elapsed time a caller observes |
| Timing.ElapsedNeverLoweredByCalls | src/engine/timer.ts:72-76 | start, pause, resume and stop never lower the stored elapsed time |
| Timing.TickOutcome | src/engine/timer.ts:79-94 | a tick that reaches the duration clamps elapsed to the duration, completes, stops the interval and emits tick(0, duration) then complete; a tick short of the duration stays running and emits one tick with positive remaining and non-negative elapsed parts that sum to the duration |
| Timing.TickKeepsElapsedWithinDuration | src/engine/timer.ts:80-83 | a tick that starts within the duration never lowers the stored elapsed time and, while the interval is live, never leaves it above the duration |
| Timing.PauseOvershootThenClamp | src/engine/timer.ts:28-33 | a pause 1090 ms into a 1 s timer stores 1090 ms; after resume, the next tick clamps it to 1000 ms, so the observed elapsed time goes down |
| Timing.StopDoesNotClamp | src/engine/timer.ts:42-47 | a stop 1200 ms into a 1 s timer completes it with 1200 ms stored and 0 remaining |
| Timing.TenSecondScenario | src/engine/timer.ts:21-94 | a 10 s timer paused at 4 s reads 4 s while paused; resumed and ticked past the end, it completes with 10 s elapsed, 0 remaining, and the events tick(0, 10) then complete |
| Timing.Timer.constructor | src/engine/timer.ts:16-19 | a new timer is idle with nothing elapsed and a duration of 1000 ms per second |
| Timing.Timer.Start | src/engine/timer.ts:21-26 | the timer's new fields are the start step of its old fields at `now` |
| Timing.Timer.Accumulate | src/engine/timer.ts:72-76 | adds `now - lastTickAt` to the elapsed time and moves the reference instant to `now` |
| Timing.Timer.Pause | src/engine/timer.ts:28-33 | the timer's new fields are the pause step of its old fields at `now` |
| Timing.Timer.Resume | src/engine/timer.ts:35-40 | the timer's new fields are the resume step of its old fields at `now` |
| Timing.Timer.Stop | src/engine/timer.ts:42-47 | the timer's new fields are the stop step of its old fields at `now` |
| Timing.Timer.Tick | src/engine/timer.ts:79-94 | the timer's new fields and the emitted events are the tick step of its old fields at `now` |
| Sessions.PrepareStep | src/engine/session.ts:30-33 | no contract of its own; `CallsAnnounceTheirState` and `StepsKeepInv` state it |
| Sessions.StartStep | src/engine/session.ts:36-51 | no contract of its own; `CallsAnnounceTheirState`, `StartTwice` and `StepsKeepInv` state it |
| Sessions.PauseStep | src/engine/session.ts:53-57 | no contract of its own; `CallsAnnounceTheirState` and `StepsKeepInv` state it |
| Sessions.ResumeStep | src/engine/session.ts:59-63 | no contract of its own; `CallsAnnounceTheirState` and `StepsKeepInv` state it |
| Sessions.StopStep | src/engine/session.ts:66-71 | no contract of its own; `CallsAnnounceTheirState`, `EarlyStopNotFull`, `StopWhilePreparingNotFull` and `LateStopIsFull` state it |
| Sessions.OnTimerEvent | src/engine/session.ts:40-47 | no contract of its own; `DeliverOne`, `DeliverTick` and `DeliverCompletion` state it |
| Sessions.TickStep | src/engine/session.ts:39-47 | no contract of its own; `TickOfActive` and `TickInertUnlessActive` state it |
| Sessions.IsFullCompletion | src/engine/session.ts:102-104 | no contract of its own; `FullCompletionMeans` states it |
| Sessions.FullCompletionMeans | src/engine/session.ts:102-104 | a session is fully complete exactly when it is complete, owns a timer, and that timer has no time remaining; equivalently, its elapsed time has reached the duration |
| Sessions.DeliverOne | src/engine/session.ts:40-47 | forwarding a single timer event is the same as handling that event |
| Sessions.DeliverCompletion | src/engine/session.ts:40-47 | forwarding the timer's final tick and completion gives the session the completion instant and the complete state; it emits the tick, then the state change, then completion |
| Sessions.DeliverTick | src/engine/session.ts:40-42 | forwarding an ordinary tick changes nothing in the session and emits the tick |
| Sessions.TickOfActive | src/engine/session.ts:36-51 | a tick of an active session that reaches the duration makes it complete and fully complete, with events tick(0, duration), the state change to complete, and completed; a tick short of the duration emits one tick and leaves it active and not fully complete |
| Sessions.TickInertUnlessActive | src/engine/session.ts:36-51 | outside active, a tick changes nothing and emits nothing |
| Sessions.StepsKeepInv | src/engine/session.ts:30-71 | every call and every tick keeps the session invariant: a timer exists exactly once the session has started; it runs while the session is active and is paused while the session is paused; its duration is the session's; `completedAt` is set exactly when complete, and never before `startedAt` |
| Sessions.CallsAnnounceTheirState | src/engine/session.ts:30-71 | prepare acts only from idle, start only from idle or preparing, pause only from active, resume only from paused, and stop only from preparing, active or paused; each such call reports its new state exactly once, and every other call changes nothing and reports nothing |
| Sessions.StartTwice | src/engine/session.ts:37 | a second start changes nothing and reports nothing |
| Sessions.BeforeStart | src/engine/session.ts:81-87 | before start, there is no timer, elapsed is 0, remaining is the whole duration, and the session is not fully complete |
| Sessions.EarlyStopNotFull | src/engine/session.ts:66-71 | stopping an active or paused session before the duration makes it complete, with a completion instant, but not fully complete |
| Sessions.StopWhilePreparingNotFull | src/engine/session.ts:66-71 | stopping while preparing makes the session complete with no timer, and not fully complete |
| Sessions.LateStopIsFull | src/engine/session.ts:66-71 | stopping an active session whose elapsed time has reached the duration makes it fully complete |
| Sessions.OneMinuteScenario | src/engine/session.ts:30-104 | a one-minute session prepared, started, paused, resumed and ticked past the end reports preparing, active, paused, active, tick(0, 60), complete and completed; it ends with 60 s elapsed and is fully complete |
| Sessions.Session.constructor | src/engine/session.ts:24-27 | a new session is idle with no timer and no instants recorded |
| Sessions.Session.Prepare | src/engine/session.ts:30-33 | the session's new state and events are the prepare step of its old state |
| Sessions.Session.Start | src/engine/session.ts:36-51 | the session's new state and events are the start step of its old state at `now`; from idle or preparing a fresh timer is made and started, otherwise the timer is kept |
| Sessions.Session.Pause | src/engine/session.ts:53-57 | the session's new state, its timer's and the events are the pause step of its old state at `now` |
| Sessions.Session.Resume | src/engine/session.ts:59-63 | the session's new state, its timer's and the events are the resume step of its old state at `now` |
| Sessions.Session.Stop | src/engine/session.ts:66-71 | the session's new state, its timer's and the events are the stop step of its old state at `now` |
| Sessions.Session.Tick | src/engine/session.ts:40-47 | the session's new state, its timer's and the events are the tick step of its old state at `now` |
| Sessions.Session.Dispatch | src/engine/session.ts:40-47 | handling the timer's events in order gives the forwarding step of the old state |
| Sessions.Session.OnTimer | src/engine/session.ts:40-47 | handling one timer event gives the event step of the old state |
| JsMath.Ceil | src/utils/format.ts:3 | `Math.ceil`: the least integer not below x |
| JsMath.Round | src/ui/BoxBreathingViz.tsx:50 | `Math.round`: the integer within half a unit of x, with halves going up |
| JsMath.RoundWithin | src/ui/BoxBreathingViz.tsx:50-65 | rounding a value in [0, n] gives an integer in [0, n] |
| JsMath.RoundMonotone | src/ui/BoxBreathingViz.tsx:50-65 | rounding preserves order |
| Format.FormatDuration | src/utils/format.ts:2-12 | no contract of its own; `FormatDurationReadsBack`, `ClockFaceRoundTrip`, `FaceShort` and `FaceLong` state its output |
| Format.WholeSeconds | src/utils/format.ts:3 | negative or zero input gives 0; positive input gives the least whole number of seconds not below it |
| Format.ClockFaceRoundTrip | src/utils/format.ts:4-11 | a whole number of seconds renders as two colon parts below an hour and three from an hour on; seconds, and minutes in the long form, take exactly two digits; reading the clock face back gives the seconds |
| Format.ClockFaceInjective | src/utils/format.ts:4-11 | different numbers of seconds render differently |
| Format.FormatDurationReadsBack | src/utils/format.ts:2-12 | the formatted duration reads back as the clamped, rounded-up whole seconds |
| Format.FaceShort | src/utils/format.ts:11 | minutes and seconds render as the minutes, a colon and two-digit seconds |
| Format.FaceLong | src/utils/format.ts:8-9 | with hours, the face is the hours, then two-digit minutes, then two-digit seconds, separated by colons |
| Format.FormatDurationZero | src/utils/format.ts:3 | zero or negative input gives "0:00" |
| Format.FormatDurationSeconds | src/utils/format.ts:11 | 5 s gives "0:05" |
| Format.FormatDurationMinutes | src/utils/format.ts:11 | 125 s gives "2:05" |
| Format.FormatDurationRoundsUp | src/utils/format.ts:3 | 0.1 s rounds up to "0:01" |
| Format.FormatDurationCarries | src/utils/format.ts:3-6 | 59.1 s rounds up to "1:00" |
| Format.FormatDurationHours | src/utils/format.ts:8-9 | 3661 s gives "1:01:01" |
| Format.MatchDuration | src/utils/format.ts:24-26 | no contract of its own; `MatchDurationComplete` and `MatchDurationSound` state the grammar it accepts |
| Format.ParseDuration | src/utils/format.ts:15-34 | no contract of its own; `ParseDurationDefined`, `ParseDurationOfMinutes`, `ParseDurationOfGroups` and `ParseDurationNormalised` state it |
| Format.TakeGroup | src/utils/format.ts:25 | an optional `(\d+)unit` group: the input is the consumed group followed by the rest, and a missing group consumes nothing |
| Format.TakeGroupOf | src/utils/format.ts:25 | a rendered group followed by input that does not start another such group is consumed exactly |
| Format.MatchDurationComplete | src/utils/format.ts:24-26 | every rendered combination of hour, minute and second groups is matched, giving back the same captures |
| Format.MatchDurationSound | src/utils/format.ts:24-26 | every matched input is the rendering of its captures, so the match accepts exactly the grammar |
| Format.GroupsValueOfMatch | src/utils/format.ts:27-33 | a match with at least one group is worth 3600 × hours + 60 × minutes + seconds, with a missing group counting 0 |
| Format.ParseDurationOfGroups | src/utils/format.ts:24-33 | a rendered non-empty combination of groups parses to 3600 × hours + 60 × minutes + seconds |
| Format.ParseDurationOfMinutes | src/utils/format.ts:19-21 | a bare number n parses as n minutes, 60 × n seconds |
| Format.GroupsValueDefined | src/utils/format.ts:24-27 | the grammar yields a value exactly when the input renders a combination with at least one group |
| Format.ParseDurationDefined | src/utils/format.ts:15-34 | the parser succeeds exactly when the trimmed, lower-cased input is a non-empty digit string or renders a combination with at least one group |
| Format.RenderNormalised | src/utils/format.ts:16-19 | a rendered combination is unchanged by trimming and lower-casing, and is not a bare number |
| Format.NormaliseIdempotent | src/utils/format.ts:16 | trimming and lower-casing twice is the same as once |
| Format.ParseDurationNormalised | src/utils/format.ts:16 | the result depends only on the trimmed, lower-cased input |
| Format.ParseDurationBare | src/utils/format.ts:19-21 | "5" gives 300 and "0" gives 0 |
| Format.ParseDurationMinutes | src/utils/format.ts:24-33 | "5m" gives 300 |
| Format.ParseDurationSeconds | src/utils/format.ts:24-33 | "90s" gives 90 |
| Format.ParseDurationHoursMinutes | src/utils/format.ts:24-33 | "1h30m" gives 5400 |
| Format.ParseDurationAllGroups | src/utils/format.ts:24-33 | "1h5m10s" gives 3910 |
| Format.ParseDurationPaddedUpper | src/utils/format.ts:16 | "  5M  " gives 300 |
| Format.NoGroupWithoutDigit | src/utils/format.ts:25 | input that does not start with a digit matches no group |
| Format.NoGroupForUnknownUnit | src/utils/format.ts:25 | digits followed by a letter other than h, m or s do not match |
| Format.ParseDurationUnmatched | src/utils/format.ts:27 | input that is not a bare number and does not match gives no result |
| Format.ParseDurationRejectsEmpty | src/utils/format.ts:27 | "" gives no result |
| Format.ParseDurationRejectsLetters | src/utils/format.ts:27 | "abc" gives no result |
| Format.ParseDurationRejectsUnitAlone | src/utils/format.ts:27 | "m" gives no result |
| Format.ParseDurationRejectsUnknownUnit | src/utils/format.ts:27 | "5x" gives no result |
| BoxBreathing.PhaseLabels | src/ui/BoxBreathingViz.tsx:12-17 | both holds are labelled "Hold", inhale "Breathe in" and exhale "Breathe out", and no other phase has these labels |
| BoxBreathing.GetPhaseAndProgress | src/ui/BoxBreathingViz.tsx:19-24 | progress lies in [0, 1) |
| BoxBreathing.PhaseWindow | src/ui/BoxBreathingViz.tsx:19-24 | in the k-th 4000 ms window of the 16000 ms cycle, the phase is the k-th phase and progress is the offset into the window over 4000 |
| BoxBreathing.PhaseWindowExact | src/ui/BoxBreathingViz.tsx:20-21 | the phase is the k-th exactly when the position in the cycle lies in the k-th window |
| BoxBreathing.NextCycle | src/ui/BoxBreathingViz.tsx:10-20 | one cycle later gives the same phase and progress |
| BoxBreathing.Periodic | src/ui/BoxBreathingViz.tsx:10-20 | any whole number of cycles later gives the same phase and progress |
| BoxBreathing.BuildBox | src/ui/BoxBreathingViz.tsx:30-96 | the nested loops build 6 rows of 20 characters each, equal to the specified box picture |
| BoxBreathing.DotPosition | src/ui/BoxBreathingViz.tsx:45-68 | no contract of its own; `DotOnEdge`, `DotTravels` and `DotEnds` state where the dot sits |
| BoxBreathing.DotOnEdge | src/ui/BoxBreathingViz.tsx:45-68 | for progress in [0, 1] the dot sits inside the box and never on a corner: on the left column for inhale, the top row for hold-top, the right column for exhale and the bottom row for hold-bottom |
| BoxBreathing.DotTravels | src/ui/BoxBreathingViz.tsx:45-68 | as progress grows, the dot moves up the left side, right along the top, down the right side and left along the bottom |
| BoxBreathing.DotEnds | src/ui/BoxBreathingViz.tsx:45-68 | the start and end cell of the dot in each phase |
| BoxBreathing.FrameHasNoDot | src/ui/BoxBreathingViz.tsx:76-90 | no frame character is the dot |
| BoxBreathing.ExactlyOneDot | src/ui/BoxBreathingViz.tsx:71-94 | the dot's cell holds the dot, and every other cell holds its frame character, which is not the dot |
| BoxBreathing.FrameShape | src/ui/BoxBreathingViz.tsx:76-90 | the corners are ╭ ╮ ╰ ╯, the rest of the top and bottom rows is ─, the rest of the side columns is │, and the interior is spaces |
| BreathingIndicator.PhaseLabelsDistinct | src/ui/BreathingIndicator.tsx:26-30 | the three phases have three different labels |
| BreathingIndicator.GetPhase | src/ui/BreathingIndicator.tsx:11-24 | progress lies in [0, 1) |
| BreathingIndicator.PhaseWindows | src/ui/BreathingIndicator.tsx:11-24 | within the 12000 ms cycle, inhale is [0, 4000), hold is [4000, 8000) and exhale is from 8000; progress is the offset into the phase over 4000 |
| BreathingIndicator.NextCycle | src/ui/BreathingIndicator.tsx:7-12 | one cycle later gives the same phase and progress |
| BreathingIndicator.Periodic | src/ui/BreathingIndicator.tsx:7-12 | any whole number of cycles later gives the same phase and progress |
| BreathingIndicator.BreathBar | src/ui/BreathingIndicator.tsx:36-44 | hold fills all 20 cells in blue; the other phases are cyan; inhale fills progress × 20 cells and exhale (1 − progress) × 20 cells, each to within half a cell (`Math.round`); for progress in [0, 1] the fill lies in [0, 20] |
| BreathingIndicator.BarFollowsProgress | src/ui/BreathingIndicator.tsx:37-42 | the inhale fill is progress × 20 rounded and grows with progress; the exhale fill is (1 − progress) × 20 rounded and shrinks as progress grows; inhale runs from 0 to 20 cells, exhale from 20 to 0 |
| BreathingIndicator.Repeat | src/ui/BreathingIndicator.tsx:65-66 | repeating a character n times gives n copies of it |
| BreathingIndicator.BarText | src/ui/BreathingIndicator.tsx:59-66 | the drawn bar has 20 cells: filled cells first, then empty ones |
| BreathingIndicator.BarAlwaysDrawable | src/ui/BreathingIndicator.tsx:56-59 | at every elapsed time, the fill lies in [0, 20], so filled and empty cells total 20 |
| Export.SessionToCsvRow | src/commands/export.ts:3-13 | no contract of its own; `CsvRowFields`, `CsvRowCellCount` and `RowOccurrences` state the row |
| Export.RowOccurrences | src/commands/export.ts:3-13 | a row contains 6 commas plus those in its text fields, and newlines only from its text fields; it has exactly 6 commas, or no newline, exactly when the text fields contain none |
| Export.RowSplits | src/commands/export.ts:3-13 | when no text field contains a comma, splitting the row at commas gives back its seven cells |
| Export.CsvRowCellCount | src/commands/export.ts:3-13 | a row splits into exactly seven cells exactly when no text field contains a comma, since nothing is quoted |
| Export.CsvRowFields | src/commands/export.ts:3-13 | when no text field contains a comma, the cells are, in order: id, start, the completion time or empty, seconds, planned duration, type, and "true" or "false" for the completed flag; the numbers read back |
| Export.NumberCellReadsBack | src/commands/export.ts:5 | a number cell reads back as the same integer |
| Export.HeaderColumns | src/commands/export.ts:16 | the header holds the seven column names in order |
| Export.HeaderSingleLine | src/commands/export.ts:16 | the header contains no newline |
| Export.ToCsv | src/commands/export.ts:15-19 | no contract of its own; `ToCsvEmpty` and `ToCsvLines` state its lines |
| Export.CsvRows | src/commands/export.ts:17 | there is one row per session |
| Export.ToCsvEmpty | src/commands/export.ts:15-19 | with no sessions the output is exactly the header |
| Export.RowsOccurrences | src/commands/export.ts:17 | the rows contain no newline exactly when no session's text fields do |
| Export.JoinedLines | src/commands/export.ts:18 | lines joined by newlines split back into the same lines exactly when no line after the first contains a newline |
| Export.ToCsvLines | src/commands/export.ts:15-19 | the output has one line more than there are sessions exactly when no text field contains a newline; then the first line is the header and line i + 1 is the row of session i |
| Export.ToJsonRecord | src/commands/export.ts:23-26 | the record's completed flag is true exactly when the stored flag is nonzero |
| Export.ToJsonRecords | src/commands/export.ts:23-26 | there is one record per session |
| Export.JsonRecordsRoundTrip | src/commands/export.ts:23-26 | for stored flags of 0 or 1, each record maps back to its session, so order and every field are kept |
| Stats.FormatTime | src/commands/stats.ts:12-18 | no contract of its own; `FormatTimeShape` and `ReadTimeOfFormat` state its output |
| Stats.ReadTimeOfFormat | src/commands/stats.ts:12-18 | the phrase reads back as the whole number of minutes |
| Stats.FormatTimeSameMinutes | src/commands/stats.ts:12-18 | two durations give the same phrase exactly when they have the same whole minutes |
| Stats.FormatTimeShape | src/commands/stats.ts:12-18 | below an hour the phrase is "m min" with m the whole minutes; for whole hours it is the single word "Hh" with H = m / 60; otherwise the two words "Hh" and "Mm" with H = m / 60 and M = m mod 60, each number without a leading zero |
| Stats.ReadMinutesPhrase | src/commands/stats.ts:14 | "m min" reads back as m minutes |
| Stats.ReadHoursPhrase | src/commands/stats.ts:17 | "hh" reads back as 60 × h minutes |
| Stats.ReadHoursMinutesPhrase | src/commands/stats.ts:17 | "hh rmm" reads back as 60 × h + rm minutes |
| Stats.Pluralize | src/commands/stats.ts:20-22 | no contract of its own; `PluralizeParts` states its output |
| Stats.PluralizeParts | src/commands/stats.ts:20-22 | the phrase starts with the count and a space, and the count reads back; the word is singular for a count of 1 and gets an "s" for every other count |
| HistoryScreen.FormatDuration | src/ui/HistoryScreen.tsx:19-24 | no contract of its own; `FormatDurationShape` and `ReadDurationOfFormat` state its output |
| HistoryScreen.ReadDurationOfFormat | src/ui/HistoryScreen.tsx:19-24 | the rendered duration reads back as the seconds |
| HistoryScreen.FormatDurationShape | src/ui/HistoryScreen.tsx:19-24 | under a minute the single word "Ss"; from a minute on "Mm Ss" when seconds are left over and "Mm" otherwise, with M = s / 60 and S = s mod 60, each number without a leading zero |
| HistoryScreen.FormatDurationInjective | src/ui/HistoryScreen.tsx:19-24 | different durations render differently |
| HistoryScreen.ReadSecondsPhrase | src/ui/HistoryScreen.tsx:22 | "ss" reads back as s seconds |
| HistoryScreen.ReadMinutesPhrase | src/ui/HistoryScreen.tsx:23 | "mm" reads back as 60 × m seconds |
| HistoryScreen.ReadMinutesSecondsPhrase | src/ui/HistoryScreen.tsx:23 | "mm ss" reads back as 60 × m + s seconds |
| HistoryScreen.TotalPages | src/ui/HistoryScreen.tsx:36 | there is at least one page; with sessions, the pages are the fewest that hold them ten at a time |
| HistoryScreen.PageOf | src/ui/HistoryScreen.tsx:37-38 | a shown page never has more than ten entries |
| HistoryScreen.PagesCoverSessions | src/ui/HistoryScreen.tsx:36-38 | session i appears on page i / 10 at position i mod 10, and that page exists |
| HistoryScreen.PageLength | src/ui/HistoryScreen.tsx:37-38 | no contract of its own; `PageLengthOf` states it |
| HistoryScreen.PageLengthOf | src/ui/HistoryScreen.tsx:37-38 | a shown page holds the sessions left after the earlier pages, at most ten; every existing page of a non-empty history has at least one entry |
| HistoryScreen.HistoryStep | src/ui/HistoryScreen.tsx:40-54 | no contract of its own; `StepKeepsViewOk`, `PageTurns` and `SelectionWraps` state it |
| HistoryScreen.InitialViewOk | src/ui/HistoryScreen.tsx:33-34 | the first page with the first entry selected is a valid view |
| HistoryScreen.StepKeepsViewOk | src/ui/HistoryScreen.tsx:40-54 | every key keeps the page index below the page count and the selection on the page and, with no sessions, a selection of -1 or 0 |
| HistoryScreen.PageTurns | src/ui/HistoryScreen.tsx:40-54 | left moves back a page only from a later page, right moves on only before the last page, a page change resets the selection to 0, and escape alone goes back |
| HistoryScreen.SelectionWraps | src/ui/HistoryScreen.tsx:44-46 | up and down move the selection modulo the page length and undo each other |
| HistoryScreen.HistoryCursor.constructor | src/ui/HistoryScreen.tsx:33-34 | the screen opens on the first page with the first entry selected, a valid view |
| HistoryScreen.HistoryCursor.HandleKey | src/ui/HistoryScreen.tsx:40-54 | the new page, selection and back signal are the key step of the old view, and a valid view stays valid |
| Cursor.WrapUp | src/ui/SelectList.tsx:30 | no contract of its own; `WrapInRange`, `WrapInverse` and `UpTimesIsModular` state it |
| Cursor.WrapDown | src/ui/SelectList.tsx:32 | no contract of its own; `WrapInRange`, `WrapInverse` and `DownTimesIsModular` state it |
| Cursor.WrapInRange | src/ui/SelectList.tsx:30-32 | wrapping up or down stays in range and equals the index minus or plus one modulo the length |
| Cursor.WrapInverse | src/ui/SelectList.tsx:30-32 | up and down undo each other |
| Cursor.DownTimesIsModular | src/ui/SelectList.tsx:32 | k presses of down move the index to (i + k) mod length |
| Cursor.UpTimesIsModular | src/ui/SelectList.tsx:30 | k presses of up move the index to (i - k) mod length |
| Cursor.FullCircle | src/ui/SelectList.tsx:30-32 | as many presses as there are items return to the start, either way |
| SelectList.SelectStep | src/ui/SelectList.tsx:28-38 | only up and down move the index; return selects, and when the index is in range it selects the item at the index; escape cancels exactly when a cancel handler exists |
| SelectList.IndexStaysInRange | src/ui/SelectList.tsx:21-38 | for a non-empty list, the index stays in range across any key sequence |
| SelectList.UpAndDown | src/ui/SelectList.tsx:30-32 | up and down move the index modulo the item count and undo each other |
| SelectList.SelectCursor.constructor | src/ui/SelectList.tsx:21 | the cursor starts at index 0 |
| SelectList.SelectCursor.SetItems | src/ui/SelectList.tsx:24-26 | a new item list resets the index to 0 |
| SelectList.SelectCursor.HandleKey | src/ui/SelectList.tsx:28-38 | the new index and the outcome are the key step of the old index |
| Text.NatToString | src/utils/format.ts:9 | a number renders as a non-empty digit string with no leading zero |
| Text.DigitsValueOfNatToString | src/utils/format.ts:9 | reading a rendered number's digits gives the number |
| Text.PadStart | src/utils/format.ts:9 | `padStart` keeps the string as a suffix and fills up to the width with the pad character |
| Text.PadTwoDigits | src/utils/format.ts:9-11 | a number below 100 padded to two places is its tens digit then its units digit |
| Text.Split | src/engine/patterns.ts:53 | `split` gives at least one part, and no part contains the separator |
| Text.SplitJoin | src/engine/patterns.ts:53-65 | splitting a join of separator-free parts gives back the parts |
| Text.JoinSplit | src/engine/patterns.ts:53-65 | joining the split parts with the separator gives back the string |
| Text.SplitLength | src/commands/export.ts:18 | a string splits into one more part than it has separators |
| Text.JoinOccurrences | src/commands/export.ts:12-18 | a join contains the characters of its parts plus those of one separator between each pair |
| Text.TrimStartShape | src/utils/format.ts:16 | trimming the start drops exactly a whitespace prefix and leaves a string that does not start with whitespace |
| Text.TrimEndShape | src/utils/format.ts:16 | trimming the end drops exactly a whitespace suffix and leaves a string that does not end with whitespace |
| Text.Lower | src/utils/format.ts:16 | lower-casing maps every character on its own and keeps the length |
| Text.DigitPrefix | src/engine/patterns.ts:53 | the digit prefix is the longest prefix made of digits |
| Text.ParseInt | src/engine/patterns.ts:53 | no contract of its own; `DigitPrefix`, `ParseIntOfNatToString` and `ParseIntOfIntToString` state it |
| Text.ParseIntOfNatToString | src/engine/patterns.ts:53 | `parseInt` reads a rendered number back, whatever non-digit text follows |
| Text.ParseIntOfIntToString | src/engine/patterns.ts:53-65 | `parseInt` reads a rendered integer back, whatever non-digit text follows |

## Left out

- Floating point: progress, the seconds a tick reports and the input of
  `Format.FormatDuration` are exact reals, so `Number(bigint) / 1e6`, float
  rounding in `Math.round` and `Math.ceil`, and float division are not
  modelled.
- Timing.Timer: the duration is a whole, non-negative number of seconds
  (`nat`); the source accepts any `number`, so fractional or negative
  durations are not modelled.
- Sessions.Session: the duration is a whole, non-negative number of seconds,
  as for `Timing.Timer`.
- HistoryScreen.FormatDuration: takes whole, non-negative seconds. A stored
  `duration_seconds` that is fractional (a fractional configured duration
  minus the remaining time) would print fractional seconds in the source;
  that case is not modelled.
- Stats.FormatTime: takes whole, non-negative seconds; fractional totals are
  not modelled.
- Timing.Timer: the clock is whole milliseconds. `process.hrtime`'s
  nanoseconds, and the fractional milliseconds the source adds, are not
  modelled.
- Timing.Timer: `setInterval` and `clearInterval` are the `ticking` flag and
  an explicit `Tick(now)`. The 250 ms period and the scheduler itself are
  not modelled.
- Sessions.Session: the `onTick`, `onComplete` and `onStateChange` callbacks
  are the returned event sequences. What a listener does with them is not
  modelled.
- Sessions.Session: `new Date()` for `startedAt` and `completedAt` is the same
  `now` argument as the timer's clock.
- Timing.Timer.GetState, Timing.Timer.GetElapsed, Timing.Timer.GetRemaining
  and Timing.Timer.GetDuration return the snapshot functions directly and
  have no contract of their own; `ElapsedAt` and `RemainingAt` carry it.
- Sessions.Session.GetState, GetTimerState, GetElapsed, GetRemaining,
  GetDuration, GetStartedAt, GetCompletedAt and IsFull are likewise plain
  reads, covered by the lemmas on `SessionSnap`. `setState` (as in
  src/engine/session.ts:106-109) is folded into each step, which emits
  the state change.
- Format.MatchDuration: the regular-expression engine is not modelled; the
  pattern `^(?:(\d+)h)?(?:(\d+)m)?(?:(\d+)s)?$` is modelled as the grammar
  it accepts, proved complete and sound against its rendering.
- Text.Lower: only A-Z are lower-cased. Non-ASCII case mappings are not
  modelled. None of them produces a digit or h, m or s, which are the only
  characters the parser accepts, so the parse results are unaffected.
- Text.ParseInt: digit strings too long for a double (where `parseInt`
  loses precision or gives Infinity) are read exactly.
- Export.SessionToCsvRow: the numeric fields are unbounded integers rather
  than doubles, so fractional or very large numbers are not modelled.
- Export.ToJsonRecords: `JSON.stringify` and its indentation are not
  modelled; only the record mapping is.
- Export: the stored record is a datatype; the SQLite store and Conf config
  behind it are not part of this model.
- BreathingIndicator.BreathBar: colours are the `Colour` datatype, not
  theme strings.
- HistoryScreen: `formatDate` (locale formatting) and the rendering of the
  list are not modelled.
- HistoryScreen.HistoryKey and SelectList.SelectKey: each key event carries
  one key. Events in which Ink sets several key flags at once, and React's
  batching of state updates, are not modelled.
- The React and Ink components, their effects and intervals, and the CLI
  commands `statsCommand` and `exportCommand` (console and file output)
  are not part of this model.
