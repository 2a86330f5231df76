# Verification of the bench, audit and registry tools

A Dafny model of the repository's tools that hold real state machines, scanners and folds, with proofs about
every run, text or document. `dafny verify dfyconfig.toml` checks all of it.

What is modelled, one module or a few per script:

- **The bench motion guard** (`scripts/diag/chassis_bench.py`): `MotionGuards` has the guard as a class and as a
  transition function; `GuardHistory` gives every verdict a meaning on the whole history and proves that the
  incremental guard computes it; `GuardVerdicts` states each verdict in plain figures; `GuardEnvelope` bounds
  speed, travel, duration and reaction for arbitrary observations; `ExactTracking` proves that a roughly tracked
  motion never raises a false alarm and that an exactly tracked one always completes in time; `BenchGeometry` and
  `ClosedLoop` close the loop through poses, wrapped odometry and the yaw unwrapper.
- **The console's threads** (`BenchConsole`): stream, motion worker, prompt and callbacks as atomic steps in any
  order.
- **The age replay** (`scripts/diag/objects_tick_age.py`): `AgeReplay`, `DwellStats`, and `Percentiles` for its
  and the receive ledger's percentile.
- **The comment stripper and audit** (`scripts/ci/cxx_discipline_audit.py`): `CommentStripper`, `DisciplineAudit`.
- **The report printer and its checker** (`scripts/ci/m5_acceptance.py`): `AcceptanceReport`.
- **The mutation runner** (`scripts/ci/cxx_mutants.py`): `MutationRunner`, with the file system as a map, builds
  as an oracle and a signal possible at every step.
- **Speech boundaries and the margin** (`scripts/ai_runtime/measure_tts_timing.py`): `SpeechTiming`.
- **The receive ledger** (`scripts/dev/perception_rx_audit.py`): `RxLedger`, with the arrival rule of
  `xbrain/p1_motion/rns/inputs.py`.
- **The key registry** (`scripts/doccheck/key_registry.py`): `TableRows`, `KeyRegistry`, `KeyInsertion`.
- `Basics` and `PyText` hold shared vocabulary and the Python string operations the scripts use.

Times, distances and speeds are reals. Ticks lie on the grid `t0 + k * 0.05` where a result says so. `pi` is a
parameter (with `pi > 3` where a bound needs it), a heading is any pair with `c*c + s*s == 1`, and `hypot` is any
non-negative root. Loops and objects of the scripts are methods and classes, proved against functions; the
results are about those functions, so they hold of the methods.

Where the code differs from its own words, the model follows the code:

- `_percentile` (`scripts/dev/perception_rx_audit.py:73`) and `pct` (`scripts/diag/objects_tick_age.py:235`) say
  nearest-rank. They are, exactly outside the cases of `HalfEvenIsNearestIff` and `TruncatedIsNearestIff`.
- `_split_row` of `scripts/todo_lint.py:123-124` says that it splits on unescaped pipes like the registry's. It
  splits on every pipe: on table lines the rows agree exactly where none is escaped (`RowsAgreeIff`), and
  `EscapedSeparator` is a line the registry skips and the other reads.
- `verify_clean` (`scripts/ci/cxx_mutants.py:4130`) says that it checks that no mutant is left.
  `CleanIsNotUnmutated` is a mutant it misses, `OtherEntryReports` one that only another entry reports,
  and `LeftoverIsMissedIff` says exactly which ones the whole check misses.
- `extract` (`scripts/doccheck/key_registry.py:192-194`) speaks of one record per pattern per subsection. Headings
  out of order can make sections overlap and count a row twice (`DisorderTalliesTwice`). `RecordedOnceIff` gives the
  exact condition, read off the headings and markers; rising numbers suffice.
- The runner's restores (`scripts/ci/cxx_mutants.py:32-37`, `scripts/ci/cxx_mutants.py:4045-4055`) are there so that an
  interrupt leaves no mutated file behind. `MutationRunner.Runner.RunAll` shows that for up to two signals anywhere.
  It fails for three (`ThreeSignalsLeaveItEmpty`) and for one that cuts a write inside a character of several bytes
  (`OneSignalLeavesItUnreadable`).
- Sequence numbers rise per key, as `scripts/diag/chassis_bench.py:480` says; over both publishers together they
  may not (`NumbersMayCross`), and do exactly when no publisher overtakes the other (`NumbersRiseIff`).
- A robot that tracks exactly passes the target of some request exactly where one tick at the taper floor is longer
  than the tolerance (`CoarseTaperOvershoots`), by no more than `ExactTracking.Overshoot`; under the console's
  ceilings it never is (`CeilingIsFine`).
- `tick_ages` (`scripts/diag/objects_tick_age.py:209`) guards against ticks before the first frame; there are none.
- The count test of tier 1 (`scripts/dev/perception_rx_audit.py:170`) and the non-empty test of the open gap
  (`scripts/dev/perception_rx_audit.py:154`) are implied by the rest.

## Model

| member | source | states |
|---|---|---|
| `MotionGuards.MaxCmd` | scripts/diag/chassis_bench.py:289-290 | the fastest command of a window is one of its commands and none is faster; it is only ever taken of a non-empty window |
| `MotionGuards.MotionGuard.constructor` | scripts/diag/chassis_bench.py:210-230 | a new guard holds the request's limits and has seen nothing |
| `MotionGuards.MotionGuard.EndWith` | scripts/diag/chassis_bench.py:232-235 | latching a verdict changes nothing but the verdict and answers zero speed |
| `MotionGuards.MotionGuard.Advance` | scripts/diag/chassis_bench.py:251-285 | the in-place step takes the object through exactly the transition the history theorems are about, whatever is observed |
| `MotionGuards.MotionGuard.JudgeMotion` | scripts/diag/chassis_bench.py:286-311 | the same for the second half of the step: over-speed, stall, target, next scalar |
| `GuardHistory.GuardRefinesHistory` | scripts/diag/chassis_bench.py:251-311 | for any observations on a clock that never goes back, the guard ends with the verdict of the first tick that deserves one when judged on the whole history, with zero speed; until then its sample list, its counters and its timer are the closed forms over history |
| `GuardHistory.OverRunIsLongestRun` | scripts/diag/chassis_bench.py:286-296 | the over-speed counter is at least n exactly when the last n ticks were all over the limit; so the abort needs five consecutive ones |
| `GuardHistory.ZeroingSinceIsSpanStart` | scripts/diag/chassis_bench.py:279-285 | the Tier1 timer starts at the first tick of the current unbroken zeroing span |
| `GuardHistory.HeldZeroMeansTimerExpired` | scripts/diag/chassis_bench.py:279-285 | the timer has run out exactly when some unbroken zeroing span has lasted a second |
| `GuardHistory.NothingJudgedBefore` | scripts/diag/chassis_bench.py:286-296 | a tick without a full speed window leaves the counter alone, and it is zero then |
| `GuardHistory.WindowLooksBack` | scripts/diag/chassis_bench.py:237-249 | a window is never shorter than its span, so the measured speed never divides by zero |
| `GuardEnvelope.ScalarStaysInEnvelope` | scripts/diag/chassis_bench.py:305-311 | at every tick of any run the scalar is in [0, speed]; past the ramp it is at least 0.3 of the speed while running; it is zero at the first tick and for ever after the end |
| `GuardEnvelope.VerdictIsLatched` | scripts/diag/chassis_bench.py:203-207 | once ended, every later tick repeats the verdict with zero speed and leaves the guard as it was, whatever is observed |
| `GuardEnvelope.EndsByTimeout` | scripts/diag/chassis_bench.py:277-278 | no run is still running past its timeout |
| `GuardEnvelope.TravelIsBounded` | scripts/diag/chassis_bench.py:221-224 | on the 20 Hz grid the travel a motion commands in all is at most 2 * amount + 3 * speed, for any observations |
| `GuardEnvelope.WindowOnGrid` | scripts/diag/chassis_bench.py:237-249 | on the grid the window over n ticks exists from the n-th tick on and starts exactly n ticks back |
| `GuardEnvelope.WindowOfRun` | scripts/diag/chassis_bench.py:237-249 | a running guard's window is the progress gained and the travel commanded over those ticks |
| `GuardEnvelope.SamplesOfRun` | scripts/diag/chassis_bench.py:310-311 | a running guard's history is the grid, the progress seen and exactly the scalars it returned |
| `GuardEnvelope.ProgressKeepsUp` | scripts/diag/chassis_bench.py:297-300 | at every tick past two seconds that does not end the motion, the progress over the 1.5 s window is at least a quarter of the travel commanded in it, and that travel is positive |
| `GuardEnvelope.FlatRunEnds` | scripts/diag/chassis_bench.py:297-300 | a robot that made no headway over the window is stopped at that very tick |
| `GuardEnvelope.TaperForm` | scripts/diag/chassis_bench.py:305-307 | the taper without its division: between 0.3 of the speed and the speed, proportional to what is left |
| `GuardVerdicts.OverNowIsTooFast` | scripts/diag/chassis_bench.py:286-296 | the over-limit test in plain figures: ten ticks exist, and the speed over them is above 1.5 times every command of those ticks plus the margin |
| `GuardVerdicts.StalledIsBlocked` | scripts/diag/chassis_bench.py:297-300 | the stall test in plain figures: past two seconds, and less than a quarter of the way commanded inside the last thirty ticks; the commanded way is never zero then |
| `GuardVerdicts.OverForIsTooFast` | scripts/diag/chassis_bench.py:286-296 | so the over-speed abort is five ticks in a row that were too fast |
| `GuardVerdicts.VerdictConditions` | scripts/diag/chassis_bench.py:200-304 | each of the twelve verdicts of a tick, and none, by its exact conditions, in both directions and in the promised order: external stops first, a misbehaving robot next, the target last |
| `GuardVerdicts.ScalarFormula` | scripts/diag/chassis_bench.py:302-311 | the scalar of a running motion is the linear half-second ramp, capped by the taper |
| `GuardVerdicts.RequestInFigures` | scripts/diag/chassis_bench.py:210-224 | what a request fixes, in figures: tolerance 2 cm or 1.5 degrees, reverse limit 10 cm or 10 degrees, margin 0.1, timeout twice the nominal time plus three seconds |
| `GuardVerdicts.VerdictsInFigures` | scripts/diag/chassis_bench.py:251-304 | every verdict on a requested motion by its exact condition in figures: the last five ticks racing, the last second and a half stuck, a second of zeroing, and done only within the tolerance |
| `ExactTracking.NeverOverLimit` | scripts/diag/chassis_bench.py:286-296 | over a window in which a robot gained at most one and a half times its commands, exact motion included, the over-speed test stays silent |
| `ExactTracking.NeverStalled` | scripts/diag/chassis_bench.py:297-300 | and over one in which it gained at least a quarter of them, so does the stall test |
| `ExactTracking.RoughGains` | scripts/diag/chassis_bench.py:286-300 | bounds on every tick's gain are bounds on the gain of any stretch of a running motion |
| `ExactTracking.RoughTrackingNeverAlarms` | scripts/diag/chassis_bench.py:251-300 | no false alarm: a run whose every tick, while it runs, gains between a quarter and one and a half times the last command is never ended as over-speed or stalled, whatever else is observed |
| `ExactTracking.TracksRoughly` | scripts/diag/chassis_bench.py:251-300 | an exactly tracked run is one of those |
| `ExactTracking.NoOvershoot` | scripts/diag/chassis_bench.py:302-307 | one commanded tick from outside the tolerance passes the target by at most what the taper floor exceeds the tolerance by, so not at all where it is finer |
| `ExactTracking.OnlyDoneEnds` | scripts/diag/chassis_bench.py:272-304 | under exact tracking inside the timeout a tick deserves done when the rest is within tolerance, and no verdict otherwise |
| `ExactTracking.ProgressNeverFalls` | scripts/diag/chassis_bench.py:302-311 | an exactly tracked motion never goes back |
| `ExactTracking.TrackingStaysOnCourse` | scripts/diag/chassis_bench.py:251-311 | the run invariant: progress stays within the request and at most the overshoot of a coarse taper, and the time left covers what is left to go |
| `ExactTracking.ExactTrackingIsSafe` | scripts/diag/chassis_bench.py:200-311 | for every exactly tracked run of any length, at every speed the guard accepts: no verdict but done, progress at least 0 and past the request by no more than the overshoot of a coarse taper (not at all under the console's ceilings), a finished motion within the tolerance, a running one with another tick before its timeout |
| `ExactTracking.CoarseTaperOvershoots` | scripts/diag/chassis_bench.py:302-311 | for a speed whose taper floor is coarser than the tolerance there is always a request whose target an exactly tracking robot passes |
| `ExactTracking.EveryTrackedMotionCompletes` | scripts/diag/chassis_bench.py:200-311 | every exactly tracked motion the guard accepts is done at some tick, strictly before its timeout, and was running the tick before |
| `BenchGeometry.CommandMakesProgress` | scripts/diag/chassis_bench.py:136-159 | for every kind and start pose, moving by distance d along command_vector reads as progress d and off-axis 0 |
| `BenchGeometry.WrongWayIsNegative` | scripts/diag/chassis_bench.py:146-148 | moving the opposite way reads as progress -d, for every kind |
| `BenchGeometry.NothingIsHidden` | scripts/diag/chassis_bench.py:140-142 | a translation's progress and off-axis part together account for the whole displacement |
| `BenchGeometry.CommandsMoveThatWay` | scripts/diag/chassis_bench.py:124-190 | which way each command moves the robot: forward along the heading, left and a left turn counter-clockwise from it, the others opposite, and nothing else |
| `BenchGeometry.WrapPi` | scripts/diag/chassis_bench.py:131-133 | wrapping lands in (-pi, pi] and only takes off whole turns |
| `BenchGeometry.WrapIsUnique` | scripts/diag/chassis_bench.py:131-133 | range and congruence determine the wrapped angle, so any implementation of it agrees |
| `BenchGeometry.YawUnwrapper.constructor` | scripts/diag/chassis_bench.py:170-173 | starts at the first sample |
| `BenchGeometry.YawUnwrapper.FeedSample` | scripts/diag/chassis_bench.py:175-179 | the in-place feed is the transition the unwrapping theorems are about |
| `BenchGeometry.FeedIsExactIff` | scripts/diag/chassis_bench.py:162-179 | one sample adds the true turn exactly when that turn is in (-pi, pi] |
| `BenchGeometry.UnwrapIsExact` | scripts/diag/chassis_bench.py:162-179 | through any number of seam crossings the continuous yaw is the true one, when each step is under pi |
| `BenchGeometry.UnwrapStaysCongruent` | scripts/diag/chassis_bench.py:175-179 | for any samples at all the continuous yaw stays a whole number of turns from the raw one |
| `ClosedLoop.ObservedIsTravel` | scripts/diag/chassis_bench.py:595-608 | unwrapper, geometry and command vector compose: what run_motion hands the guard for an obedient robot is the commanded travel, with off-axis 0 |
| `ClosedLoop.CeilingIsFine` | scripts/diag/chassis_bench.py:86-91 | every speed the console accepts has a taper finer than the tolerance, for translations and turns |
| `ClosedLoop.LoopTracks` | scripts/diag/chassis_bench.py:593-612 | an obedient robot in the console's loop is an exactly tracking one |
| `ClosedLoop.ObedientRobotArrives` | scripts/diag/chassis_bench.py:569-612 | so every accepted motion of an obedient robot is never stopped by mistake, never passes its target, and runs only well inside its timeout, from any start pose |
| `ClosedLoop.LoopOfTracking` | scripts/diag/chassis_bench.py:593-612 | conversely every exactly tracked run is the run of an obedient robot, from any start pose |
| `ClosedLoop.ObedientRobotGetsThere` | scripts/diag/chassis_bench.py:569-635 | and the motion is done: for every kind, accepted request, start pose and start time the loop reaches done strictly before its timeout |
| `BenchConsole.StepIsBounded` | scripts/diag/chassis_bench.py:251-311 | one guard step from any state keeps the scalar in [0, speed] |
| `BenchConsole.TargetInvStep` | scripts/diag/chassis_bench.py:490-493 | every atomic step of every thread keeps: a moving target belongs to a motion in progress, is on its axis and no faster than accepted |
| `BenchConsole.WireInvStep` | scripts/diag/chassis_bench.py:473-521 | every atomic step keeps: numbers distinct, rising per publisher, and safe frames only |
| `BenchConsole.InvariantsHold` | scripts/diag/chassis_bench.py:473-627 | both hold after any interleaving of stream, motion worker, prompt and callbacks |
| `BenchConsole.TargetOnlyDuringMotion` | scripts/diag/chassis_bench.py:569-627 | in every reachable state the target is non-zero only while a motion runs and its end has not been applied |
| `BenchConsole.WireIsOrdered` | scripts/diag/chassis_bench.py:477-486 | on the wire of every reachable state sequence numbers are distinct and rise for each publisher; a frame whose check saw a second publisher is zero |
| `BenchConsole.NumbersMayCross` | scripts/diag/chassis_bench.py:477-507 | but not across the two publishers: a command may be overtaken by a frame with a later number |
| `BenchConsole.NumbersRiseIff` | scripts/diag/chassis_bench.py:477-518 | over both publishers the numbers rise exactly when no message of the run was published while the other publisher held a smaller number |
| `BenchConsole.LatchSilencesStream` | scripts/diag/chassis_bench.py:482-486 | once a second publisher is latched, every frame whose check is still to come is zero, for ever, whatever the other threads do; a frame that was already checked may go out, as the first and only one that is not |
| `BenchConsole.LatchedIffSeen` | scripts/diag/chassis_bench.py:358-361 | over all runs from start-up, the latch is set exactly if another publisher has been seen |
| `BenchConsole.CheckAfterForeign` | scripts/diag/chassis_bench.py:482-486 | so every frame checked after that has zero velocity |
| `BenchConsole.ForeignSilences` | scripts/diag/chassis_bench.py:482-487 | and from then on nothing but zero is published, save one frame that was already checked |
| `BenchConsole.LookAfterForeign` | scripts/diag/chassis_bench.py:593-612 | and a tick that looks after that ends the motion with zero, as foreign_cmd_vel unless the operator or an estop came first |
| `BenchConsole.FrameCarriesTarget` | scripts/diag/chassis_bench.py:471-487 | a published frame has the next number and the target and generation of the moment it was read, or zero if a second publisher was known when it was checked, whatever ran in between |
| `BenchConsole.ConsoleRunsGuard` | scripts/diag/chassis_bench.py:586-612 | in any interleaving the worker's guard is the guard run on the ticks it looked at and the target is what that run commands, so the results about runs hold in the console |
| `BenchConsole.NoThreadIsStuck` | scripts/diag/chassis_bench.py:473-612 | in every reachable state the stream, the worker and the prompt each have their next step, whatever is observed |
| `BenchConsole.OperatorEndsMotion` | scripts/diag/chassis_bench.py:703-721 | wherever a motion stands, once the operator stops it at most six steps of the worker and the prompt lead back to the prompt with a still target |
| `BenchConsole.ViewIsLastReported` | scripts/diag/chassis_bench.py:342-346 | the generation the worker looks at is the one quadruped reported last |
| `BenchConsole.ClosingStops` | scripts/diag/chassis_bench.py:637-645 | leaving the prompt stills the target and then ends the stream, for good |
| `BenchConsole.EchoIsSteady` | scripts/diag/chassis_bench.py:579-584 | with no motion start in between, the echoed generation never changes and every new frame carries it, except one that was already in flight, which keeps its own |
| `BenchConsole.BumpStopsAnyMotion` | scripts/diag/chassis_bench.py:593-627 | from an estop bump on, wherever in its tick it finds the motion and under every interleaving: at most two more ticks are judged and one more command is set, both only where a tick was looked at before the bump; otherwise one tick and none; the target left behind is still, and the generation echoed is the motion's own |
| `BenchConsole.BumpInTickStillCommands` | scripts/diag/chassis_bench.py:593-612 | the bounds are met: a bump inside a tick lets that tick set its command and one more be judged |
| `BenchConsole.BumpStopsMotion` | scripts/diag/chassis_bench.py:593-627 | a bump between two ticks: at most one more tick is judged and nothing new is commanded |
| `BenchConsole.FramesAreBounded` | scripts/diag/chassis_bench.py:473-493 | in every reachable state every velocity ever published is still or a single axis within its ceiling |
| `BenchConsole.AcceptedRequests` | scripts/diag/chassis_bench.py:672-698 | between two motions a request is accepted exactly if it is positive, no faster than 0.5 m/s, 0.3 m/s sideways or 0.5 rad/s, and no longer than 2 m or half a turn |
| `BenchConsole.NumbersAreConsecutive` | scripts/diag/chassis_bench.py:474-481 | the counter is the number of frames and commands begun, so none is skipped |
| `BenchConsole.ArmingAdopts` | scripts/diag/chassis_bench.py:568-585 | a motion that is armed echoes the generation its start saw, zero where none was reported, and its guard is new with the limits of its request |
| `AgeReplay.AcceptedOnly` | scripts/diag/objects_tick_age.py:133-142 | the loop returns the accepted frames of the specification the next rows are about |
| `AgeReplay.AcceptedAreRecords` | scripts/diag/objects_tick_age.py:133-142 | the accepted frames are exactly the strict running-maximum records of the capture time |
| `AgeReplay.LastAcceptedIsNewest` | scripts/diag/objects_tick_age.py:133-142 | the last accepted frame is the newest one received so far |
| `AgeReplay.AcceptedIncreases` | scripts/diag/objects_tick_age.py:133-142 | accepted capture times strictly increase, receive order and the first frame are kept |
| `AgeReplay.LateFrameChangesNothing` | scripts/diag/objects_tick_age.py:134-136 | a duplicate or late frame inserted anywhere changes no accepted frame |
| `AgeReplay.NewerFrameIsAccepted` | scripts/diag/objects_tick_age.py:133-142 | a frame newer than all before it is accepted where it arrives |
| `AgeReplay.TickAges` | scripts/diag/objects_tick_age.py:198-212 | the two-cursor loop terminates and yields exactly the replay: one age on every tick from first to last receive time, none skipped |
| `AgeReplay.TickInSpan` | scripts/diag/objects_tick_age.py:204-211 | a tick is inside the capture exactly when its index is below floor((last - first) / tick) + 1 |
| `AgeReplay.ReplayIsNaive` | scripts/diag/objects_tick_age.py:133-212 | every age of the replay over accepted frames is the tick minus the newest capture among ALL frames received by then |
| `AgeReplay.AgeWithinGap` | scripts/diag/objects_tick_age.py:198-212 | between a frame and the next, the age is at least the latency and strictly less than latency plus gap |
| `AgeReplay.AgeGrowth` | scripts/diag/objects_tick_age.py:198-212 | from tick to tick the age grows by exactly one tick if and only if no accepted frame arrived, and by less when one did |
| `AgeReplay.EveryNthIndices` | scripts/diag/objects_tick_age.py:314-316 | the slice holds frame i * n at index i and leaves out no multiple |
| `AgeReplay.FewerFramesNeverFresher` | scripts/diag/objects_tick_age.py:198-212 | any replay of a subset from the same start is nowhere fresher and no longer |
| `AgeReplay.DecimationNeverFresher` | scripts/diag/objects_tick_age.py:314-316 | keeping every n-th accepted frame never makes any tick look fresher |
| `DwellStats.DwellStatistics` | scripts/diag/objects_tick_age.py:215-231 | the one-pass counters are the count over, the longest run and the completing ticks of the flags |
| `DwellStats.RoundingIsNearest` | scripts/diag/objects_tick_age.py:220-220 | the dwell in ticks is rounded to nearest, and halves to even |
| `DwellStats.OverCountsPositions` | scripts/diag/objects_tick_age.py:223-225 | the over counter is the number of ticks above the threshold |
| `DwellStats.BestIsLongestBlock` | scripts/diag/objects_tick_age.py:222-229 | the longest run is the length of some block of tier-1 ticks, and no block is longer |
| `DwellStats.ReachMeansCompletion` | scripts/diag/objects_tick_age.py:228-228 | a dwell completes somewhere exactly when the counter is positive, which for a dwell of at least one tick is exactly when the longest run is long enough |
| `DwellStats.ReachCountsCompletions` | scripts/diag/objects_tick_age.py:228-228 | the counter counts exactly the positions that close a full block |
| `DwellStats.FiguresAreTrue` | scripts/diag/objects_tick_age.py:215-232 | the dwell is the nearest whole number of ticks, a share times the ticks is the count, and the longest run in seconds is its ticks times their length |
| `DwellStats.LooserJudgement` | scripts/diag/objects_tick_age.py:215-231 | raising the threshold never raises the share over it and never lowers the other two figures; lengthening the dwell never raises the completing share |
| `DwellStats.OlderLooksNoBetter` | scripts/diag/objects_tick_age.py:215-231 | older ages on a shared prefix never look better in any of the three figures |
| `DwellStats.DecimationLooksNoBetter` | scripts/diag/objects_tick_age.py:314-319 | so a decimated replay has, on the ticks both have, at least as many ticks over any threshold, no longer a run and no more completed dwells |
| `Percentiles.Sorted` | scripts/dev/perception_rx_audit.py:76-76 | sorted(): ascending, and the same samples with the same multiplicity |
| `Percentiles.BothRanksCover` | scripts/dev/perception_rx_audit.py:77-78 | neither percentile ever reports a sample with less than the share at or below it |
| `Percentiles.HalfEvenIsNearestIff` | scripts/dev/perception_rx_audit.py:72-78 | the ledger's rank is the nearest rank exactly unless the share is an odd number of samples short of all; then it is one too high |
| `Percentiles.TruncatedIsNearestIff` | scripts/diag/objects_tick_age.py:234-236 | the replay's rank is the nearest rank exactly unless the share is a whole number of samples, not none and not all; then it is one too high |
| `Percentiles.PercentileMeaning` | scripts/dev/perception_rx_audit.py:72-78 | in samples: the value has the share at or below it, and is the least such sample exactly unless the share is odd and the sample below it differs; then it is the next one up |
| `Percentiles.PctMeaning` | scripts/diag/objects_tick_age.py:234-236 | the same for the replay's percentile and its exception, a whole share |
| `Percentiles.BothAreQuantiles` | scripts/dev/perception_rx_audit.py:72-78 | for every list and share both rules report a quantile: the share at or below it and no more than the share below it |
| `Percentiles.CountsArePositions` | scripts/dev/perception_rx_audit.py:72-78 | at or below and below are counted position by position, repetitions included |
| `Percentiles.MedianOfTwoIsTheLarger` | scripts/dev/perception_rx_audit.py:77-78 | the exception happens: the reported median of two samples is the larger, though half are at or below the smaller |
| `Percentiles.PctPassesTheMedian` | scripts/diag/objects_tick_age.py:234-236 | and the other rule's: of four samples it reports the third as the median, where the ledger reports the second |
| `RxLedger.Ledger.constructor` | scripts/dev/perception_rx_audit.py:85-95 | a new ledger records the empty run |
| `RxLedger.Ledger.OnSample` | scripts/dev/perception_rx_audit.py:97-133 | after any sample every field of every key -- counts, errors, last identity, ages, limits passed, rows, intervals, last stamp -- is again the one the whole run of samples defines |
| `RxLedger.Ledger.Summary` | scripts/dev/perception_rx_audit.py:135-173 | every figure of the report; tier 1 passes exactly when there is a stamp and no interval and not the open gap is over 100 ms (the separate count asks for nothing more); tier 2 exactly when there are intervals and at most one percent are over 50 ms |
| `RxLedger.ArrivalVerdicts` | xbrain/p1_motion/rns/inputs.py:46-66 | every arrival's verdict by the identity of the last accepted frame of its key: over 50 ms ahead, newer, the same, over a second back, late |
| `RxLedger.SummaryInFigures` | scripts/dev/perception_rx_audit.py:135-153 | the report of a key: median and 99 % quantile of its accepted ages, the oldest, and how many were past 300 and 1000, 500, or 3000 ms |
| `RxLedger.BooksBalance` | scripts/dev/perception_rx_audit.py:86-124 | after any run: received is the sum of the five verdicts, the L2 list has accept + epoch_reset entries, received and rejected add up to the samples sent, and the second limit is passed no more often than the first |
| `RxLedger.UniqueFramesRenew` | xbrain/p1_motion/rns/inputs.py:46-66 | accepted identities of a key strictly rise except into a new epoch more than a second back, start with an accept, and are never more than 50 ms ahead of the receiver |
| `RxLedger.RefusedFrameLeavesNoTrace` | xbrain/p1_motion/rns/inputs.py:46-66 | an unreadable, repeated, late or future frame, anywhere in any run, changes no accepted row of any key, so no later age, interval or gap |
| `RxLedger.EpochsPartition` | scripts/dev/perception_rx_audit.py:125-130 | the epochs are the publish stamps in order, and all intervals are as many as stamps less epochs |
| `RxLedger.IntervalsAreEpochSteps` | scripts/dev/perception_rx_audit.py:125-130 | the intervals are the differences inside each epoch, epoch after epoch, and none across a restart |
| `RxLedger.EpochTelescopes` | scripts/dev/perception_rx_audit.py:125-130 | each epoch has one difference less than stamps, and they add up to the time from its first stamp to its last |
| `RxLedger.IntervalsTelescope` | scripts/dev/perception_rx_audit.py:125-130 | so all intervals add up to the time the epochs cover |
| `RxLedger.Tier1MeansNoBlackout` | scripts/dev/perception_rx_audit.py:161-170 | after a tier-1 pass every instant of the current epoch up to the end of the window has a unique result published at most 100 ms before it |
| `CommentStripper.StripLine` | scripts/ci/cxx_discipline_audit.py:309-328 | one line, character by character, is the recursive stripper of that line and its block state |
| `CommentStripper.CodeLines` | scripts/ci/cxx_discipline_audit.py:281-329 | the whole loop is the line-by-line specification, with as many lines out as in |
| `CommentStripper.StrippingIsLexing` | scripts/ci/cxx_discipline_audit.py:281-329 | the stripped lines joined are what a lexer of the whole text emits when it drops line and block comments and keeps line breaks |
| `CommentStripper.OutputLinesAreCode` | scripts/ci/cxx_discipline_audit.py:281-329 | each output line is its input line with characters left out and holds no comment opener (no hash for CMake): removing a comment never makes a new one |
| `CommentStripper.StrippingIsIdempotent` | scripts/ci/cxx_discipline_audit.py:281-329 | stripping what was stripped changes nothing |
| `CommentStripper.BeforeHashStops` | scripts/ci/cxx_discipline_audit.py:305-308 | a CMake line keeps what stands in front of its first hash, and all of it where there is none |
| `DisciplineAudit.AuditRule` | scripts/ci/cxx_discipline_audit.py:363-401 | the loop reports the status and the hits of the specification |
| `DisciplineAudit.HitsAreFlaggedLines` | scripts/ci/cxx_discipline_audit.py:377-391 | a hit is reported exactly when it is a flagged line of a scanned file, so its number is a real raw line |
| `DisciplineAudit.ReportedLines` | scripts/ci/cxx_discipline_audit.py:376-393 | which lines a forbidding rule reports: exactly those whose code matches and whose raw line holds none of the tags anywhere, with the trimmed raw line cut to seventy characters |
| `DisciplineAudit.UntaggedRuleReportsAll` | scripts/ci/cxx_discipline_audit.py:376-394 | without tags every matching line of code is reported and the rule is violated |
| `DisciplineAudit.VerdictIsExact` | scripts/ci/cxx_discipline_audit.py:366-401 | the three statuses are told apart exactly: nothing scanned, a violation for the rule's sense, or clean |
| `DisciplineAudit.CommentsNeverMatter` | scripts/ci/cxx_discipline_audit.py:284-292 | without excusing tags, a file and its comment-free form have the same flagged lines |
| `AcceptanceReport.ItemOfIsPrefix` | scripts/ci/m5_acceptance.py:89-106 | a case belongs to an item exactly when it starts with the item's prefix |
| `AcceptanceReport.OrderDoesNotMatter` | scripts/ci/m5_acceptance.py:95-106 | so the order in which the prefixes are tried does not matter |
| `AcceptanceReport.BuildReport` | scripts/ci/m5_acceptance.py:109-133 | the printing loops produce the report of the specification, for results in any order |
| `AcceptanceReport.ReportInFull` | scripts/ci/m5_acceptance.py:109-135 | the table line by line: G-1, G-1a, G-5, G-6, G-7 in this order, each with a line for every case of its own prefix or the one NOT-RUN line |
| `AcceptanceReport.VerifyReport` | scripts/ci/m5_acceptance.py:136-175 | the checking loops produce exactly the problems of the specification |
| `AcceptanceReport.AcceptedIff` | scripts/ci/m5_acceptance.py:136-175 | for any text: no problem exactly when every counted row's verdict is its case's result and every case of an item is evidence of a counted row |
| `AcceptanceReport.OwnReportIsAcceptedIff` | scripts/ci/m5_acceptance.py:109-175 | the checker accepts the printer's own report exactly when every case of an item has a name that is stripped and free of bars and line breaks |
| `AcceptanceReport.EveryCaseHasItsRow` | scripts/ci/m5_acceptance.py:121-132 | each such case has a row in the printed report that gives its result |
| `AcceptanceReport.ForgeryIsCaught` | scripts/ci/m5_acceptance.py:137-145 | replacing that row by any lines that do not vouch for the case -- none, another verdict, NOT-RUN, other evidence -- is caught |
| `AcceptanceReport.ItemCellIsNotCompared` | scripts/ci/m5_acceptance.py:155-171 | relabelling the item of a row changes neither its judgement nor its evidence |
| `MutationRunner.Runner.Write` | scripts/ci/cxx_mutants.py:4080-4087 | a write leaves exactly the text, or, cut off by a signal, the part of it that has reached the disk, possibly ending inside a character; no other file changes |
| `MutationRunner.Runner.Restore` | scripts/ci/cxx_mutants.py:4037-4043 | a restore that is not interrupted makes every backed-up file its backup; it touches no other, changes nothing in an intact tree, and never repairs a file it cannot read |
| `MutationRunner.Runner.TryMutant` | scripts/ci/cxx_mutants.py:4080-4087 | a build that returns saw exactly this mutant and left the tree as it found it; otherwise only the mutant's file may differ |
| `MutationRunner.Runner.RunMutants` | scripts/ci/cxx_mutants.py:4068-4107 | the builds are the usable mutants in order, each on the original tree; the loop leaves the tree changed only if a signal arrived, and then at most in backed-up files |
| `MutationRunner.Runner.RunBody` | scripts/ci/cxx_mutants.py:4058-4107 | the try block: baseline first, then the mutants; red exactly for a baseline that does not build and pass, and then nothing else is built; finished only after a green one, with the tally of its builds |
| `MutationRunner.Runner.RunGuarded` | scripts/ci/cxx_mutants.py:4058-4110 | the try and its finally: a changed tree takes two signals, one in the try and one in the restore, or a file cut off inside a character |
| `MutationRunner.Runner.RunSuite` | scripts/ci/cxx_mutants.py:3981-4110 | whenever it returns, skipped, red or finished, the tree is as before and the result is the one its baseline and builds call for; no signal is swallowed, and it raises only for a signal, a missing file or a build that raises; then every differing file is covered by a registered restore |
| `MutationRunner.Runner.RunHooks` | scripts/ci/cxx_mutants.py:4045-4056 | the exit-time restores leave an intact tree intact, and give a changed one back unless another signal arrives among them or a file cannot be read |
| `MutationRunner.Runner.RunSuites` | scripts/ci/cxx_mutants.py:4175-4190 | the loop over the suites stops at the first that raises; each result is what its suite calls for, builds numbered on from suite to suite; every build sees the original or one mutant of it |
| `MutationRunner.Runner.RunAll` | scripts/ci/cxx_mutants.py:4161-4190 | signals at any step, exit-time restores included: unless a signal cuts a write inside a character, the tree ends as the original for any one or two signals; a changed tree takes three, two before the exit-time restores and one among them |
| `MutationRunner.ThreeSignalsLeaveItEmpty` | scripts/ci/cxx_mutants.py:4037-4056 | three are enough, for any tree and any usable mutant: in the mutant's write, in the restore of the finally and in the exit-time restore; the file stays empty |
| `MutationRunner.OneSignalLeavesItUnreadable` | scripts/ci/cxx_mutants.py:4037-4043 | and one is, for any mutant with a character of several bytes in its file: cut inside it, the file can no longer be read, and every restore stops there |
| `MutationRunner.TallyAddsUp` | scripts/ci/cxx_mutants.py:4088-4107 | killed + survived + broken is the number of mutants |
| `MutationRunner.TallyIsFair` | scripts/ci/cxx_mutants.py:4071-4107 | survived holds exactly the mutants that compiled and passed against their claim; broken exactly those with no single anchor, no compiling build, or a kill that was declared impossible |
| `MutationRunner.BuildsSeeOneFragment` | scripts/ci/cxx_mutants.py:4071-4084 | every mutant build sees the original tree with exactly one fragment of one file exchanged |
| `MutationRunner.VerifyClean` | scripts/ci/cxx_mutants.py:4129-4158 | the check is silent exactly when every anchor of the table stands once; leftovers and rotted anchors are told apart by the mutation's presence |
| `MutationRunner.CleanIsNotUnmutated` | scripts/ci/cxx_mutants.py:4129-4137 | silence does not prove that no mutation is left: one that contains its anchor passes a table with no other entry for the file |
| `MutationRunner.OtherEntryReports` | scripts/ci/cxx_mutants.py:4139-4150 | and an entry's own silence does not make the check silent: another entry of the file may report the mutation, as a rotted anchor |
| `MutationRunner.LeftoverIsMissedIff` | scripts/ci/cxx_mutants.py:4139-4150 | the whole check, for any table whose anchors all stood once: it is silent about a mutation left in its file exactly when every entry for that file misses it |
| `MutationRunner.EntryIsSilentIff` | scripts/ci/cxx_mutants.py:4145-4146 | an entry misses a mutation exactly when the stretch of text that holds both fragments, with the mutation in place and as much around it as its anchor can reach, counts that anchor once |
| `MutationRunner.FarEntryIsSilentIff` | scripts/ci/cxx_mutants.py:4145-4146 | an entry whose own place is out of reach misses the mutation exactly when the mutated fragment with that much around it does not hold its anchor |
| `PyText.ReplaceOnce` | scripts/ci/cxx_mutants.py:4072-4081 | replacing a fragment that is counted once exchanges exactly that occurrence |
| `SpeechTiming.FindOnset` | scripts/ai_runtime/measure_tts_timing.py:186-200 | the first loop finds the least start of three loud frames, or there is none |
| `SpeechTiming.FindSpeech` | scripts/ai_runtime/measure_tts_timing.py:168-208 | an answer is given exactly when there is an utterance, and it is the least onset and the least closing silence from it on |
| `SpeechTiming.UtteranceIsUnique` | scripts/ai_runtime/measure_tts_timing.py:168-208 | there is at most one utterance to find |
| `SpeechTiming.EndFollowsSpeech` | scripts/ai_runtime/measure_tts_timing.py:179-183 | the frame before the end is loud and the end is at least three frames past the onset |
| `SpeechTiming.LongerRecordingAgrees` | scripts/ai_runtime/measure_tts_timing.py:179-183 | recording on never changes an answer that was found |
| `SpeechTiming.RoundUpIsLeastMultiple` | scripts/ai_runtime/measure_tts_timing.py:293-295 | the rounding is the least multiple of 50 not below the value, negative values included |
| `SpeechTiming.Worst` | scripts/ai_runtime/measure_tts_timing.py:312-312 | the worst overrun is one of the measured ones and none is worse |
| `SpeechTiming.ShortestIsFirst` | scripts/ai_runtime/measure_tts_timing.py:316-316 | among equally short phrases the one measured first is compared |
| `SpeechTiming.LongestIsFirst` | scripts/ai_runtime/measure_tts_timing.py:317-317 | among equally long phrases the one measured first is compared |
| `SpeechTiming.RecommendationIsLeast` | scripts/ai_runtime/measure_tts_timing.py:146-338 | the recommendation is the least multiple of 50, at least 200, that covers every measured end by 300 ms |
| `SpeechTiming.NoMarginIff` | scripts/ai_runtime/measure_tts_timing.py:314-326 | no margin is recommended exactly where the first of the longest phrases overran by more than 500 ms over the first of the shortest |
| `SpeechTiming.GateStaysClosed` | scripts/ai_runtime/measure_tts_timing.py:146-338 | from frames to gate: with the recommended margin every loud frame of a measured utterance is over 300 ms before that phrase's gate opens |
| `TableRows.SplitRow` | scripts/doccheck/key_registry.py:95-121 | the cursor loop cuts the row of the specification, separator rows included |
| `TableRows.EachEscapeMergesTwoCells` | scripts/doccheck/key_registry.py:105-114 | before trimming: the registry cuts one cell less for each escaped pipe, and the same cells where there is none |
| `TableRows.RowsAgreeIff` | scripts/todo_lint.py:122-130 | on every line the two splitters return the same row exactly when it is no table line, both then returning none, or holds no escaped pipe; otherwise the registry's row is that many cells shorter, except where its cells are a separator and the plain row is not |
| `TableRows.EscapedSeparator` | scripts/todo_lint.py:122-130 | the exception happens: a separator for the registry and two cells for the plain splitter |
| `TableRows.CellsKeepTheText` | scripts/doccheck/key_registry.py:100-116 | no character is lost: the raw cells joined by pipes are the line with its escapes taken out |
| `TableRows.SplitUndoesRender` | scripts/doccheck/key_registry.py:95-121 | splitting undoes rendering, for any trimmed cells with any white-space padding, unless the row is a separator |
| `TableRows.SkippedIff` | scripts/doccheck/key_registry.py:117-121 | a rendered row is skipped exactly if every cell is made of dashes, colons and spaces |
| `TableRows.FlushBackslashMerges` | scripts/doccheck/key_registry.py:105-108 | why a cell must not end in a backslash flush against its pipe: two such cells are written exactly like one |
| `KeyRegistry.ExtractSection` | scripts/doccheck/key_registry.py:197-229 | the flagged loop gives the records of a section up to its comparison marker and none after it |
| `KeyRegistry.SectionsConcatenate` | scripts/doccheck/key_registry.py:197-207 | records of consecutive lines add up, and a marker silences everything behind it |
| `KeyRegistry.MarkerSilences` | scripts/doccheck/key_registry.py:182-187 | either word of the comparison table, anywhere on a line, ends the records of the section there |
| `KeyRegistry.PlainLineGoesOn` | scripts/doccheck/key_registry.py:198-207 | and a line without them ends nothing |
| `KeyRegistry.Extract` | scripts/doccheck/key_registry.py:190-230 | the document loop gives sections 1 to 9 in order |
| `KeyRegistry.Tally` | scripts/doccheck/key_registry.py:254-264 | both counters of every group are its patterns and its instances |
| `KeyRegistry.Check` | scripts/doccheck/key_registry.py:267-271 | the check lists the disagreeing groups with what was got and wanted |
| `KeyRegistry.GreenIff` | scripts/doccheck/key_registry.py:267-271 | the list is empty exactly when every group agrees in both numbers |
| `KeyRegistry.VariablesOfPath` | scripts/doccheck/key_registry.py:173-178 | variable segments never span two path segments, and come in order |
| `KeyRegistry.InstancesMultiply` | scripts/doccheck/key_registry.py:167-179 | apart from the overridden key, a path counts for the product of what its segments count for, at least 1 |
| `KeyRegistry.VariableSegmentCounts` | scripts/doccheck/key_registry.py:63-68 | a variable segment counts seven for domain, four for severity and once otherwise |
| `KeyRegistry.PlainSegmentCounts` | scripts/doccheck/key_registry.py:173-176 | a segment without a variable counts once |
| `KeyRegistry.CombinatorialCountsOnce` | scripts/doccheck/key_registry.py:70-76 | and the one combinatorial key counts once |
| `KeyRegistry.SectionsInFigures` | scripts/doccheck/key_registry.py:53-56 | the nine sections are the nine groups in order, and an acknowledgement is one wherever it stands |
| `KeyRegistry.KeyEndsAt` | scripts/doccheck/key_registry.py:132-140 | a key ends at white space, a backquote, an asterisk or a pipe and at nothing else |
| `KeyRegistry.KeysAreKeys` | scripts/doccheck/key_registry.py:136-139 | whatever is taken for a key is not empty and holds none of the characters that end one |
| `KeyRegistry.KeyCellHasKey` | scripts/doccheck/key_registry.py:124-140 | a key cell without a tombstone, under either name of the identity segment, yields exactly its pattern |
| `KeyRegistry.TombstoneHasNoKey` | scripts/doccheck/key_registry.py:128-133 | a struck cell has no key, whatever emphasis or blanks stand in front |
| `KeyRegistry.RenderedRowHasKey` | scripts/doccheck/key_registry.py:95-140 | so does a whole rendered row |
| `KeyInsertion.SectionWithLine` | scripts/doccheck/key_registry.py:79-92 | a line that is no heading goes into the sections its place lies in and leaves all others as they were |
| `KeyInsertion.InsertedRowCounts` | scripts/doccheck/key_registry.py:190-264 | for any document, row and place: each group gains one pattern and the row's instances once for every section that takes it, and nothing else changes |
| `KeyInsertion.SharedPlaceIff` | scripts/doccheck/key_registry.py:79-92 | for any document, some place lies in two given sections exactly when both exist and the later of their headings stands before the earlier of their ends |
| `KeyInsertion.SharedRowIff` | scripts/doccheck/key_registry.py:190-207 | and both read a row at some place exactly when, besides, no marker line stands from the first of their headings to the second |
| `KeyInsertion.RecordsAdded` | scripts/doccheck/key_registry.py:190-230 | a key row put anywhere adds one record for every section that reads it |
| `KeyInsertion.RecordedOnceIff` | scripts/doccheck/key_registry.py:190-230 | so a document records a new key row at most once, wherever it is put, exactly when no two of its sections 1 to 9 overlap in that way |
| `KeyInsertion.AtMostOneSection` | scripts/doccheck/key_registry.py:79-92 | where heading numbers rise no two sections meet, so a place lies in at most one |
| `KeyInsertion.ExactlyOneGroupMoves` | scripts/doccheck/key_registry.py:190-264 | there, one key row more moves exactly one group's tally, by one pattern and its instances, before the comparison table, and none after it |
| `KeyInsertion.UntalliedRowIsReported` | scripts/doccheck/key_registry.py:309-359 | so on a green document the check then names exactly that group with its new numbers, and stays green for a row in the comparison table |
| `KeyInsertion.DisorderTalliesTwice` | scripts/doccheck/key_registry.py:190-194 | with headings out of order a row is tallied for two groups |

## Left out

- Floating-point rounding: arithmetic is over reals, so accumulated rounding of tick sums and of angles is not modelled; NaN is not a value.
- MotionGuards.MotionGuard.constructor: asks for a positive request, since a Dafny constructor cannot refuse; the code's refusal is `MotionGuards.LimitsOf` giving none. An unknown kind cannot be written: the kinds are the closed set of six.
- ClosedLoop.ObservedIsTravel: the robot is the ideal one that executes each command for a tick; slip and latency appear as arbitrary observations in `GuardEnvelope` and, within bounds, in `ExactTracking.RoughTrackingNeverAlarms`.
- BenchConsole.TargetOnlyDuringMotion: the settle second after a verdict is one state whose logging ticks are not told apart, and the operator's confirmation and the precheck gates are not modelled, so more runs are covered than the console allows.
- BenchConsole.InvariantsHold: one motion worker at a time, as the prompt enforces. A further Ctrl+C while it waits for the worker ends the process, and the death of the process is not modelled.
- BenchConsole.BumpStopsAnyMotion: asks that quadruped does not go back to the old generation before the worker looks again; a bump that is undone between two looks is not seen by the code.
- Message payloads other than velocity, generation and number, zenoh sessions, acknowledgements, CSV and session logs, and the fixed-rate sleeps of the stream.
- AgeReplay.TickAges: frames are assumed sorted by receive time, as the loader leaves them, and not empty, as the caller checks; parsing, warm-up skipping, user windows and the printed table are left out.
- Percentiles.PctMeaning: for a non-empty list and a share of at least zero, as the only caller passes; an empty list raises in the code.
- RxLedger.Ledger.OnSample: parsing a payload is an input (a frame or an error); the start time, the window length and the CSV are left out.
- DisciplineAudit.AuditRule: a rule's regular expression is any predicate on a line; reading files, the relative path and the list of scanned directories in the message of a missing required pattern are left out.
- CommentStripper.StrippingIsLexing: string literals are code text like any other, as the script itself notes; so is a line continuation.
- AcceptanceReport.VerifyReport: a problem is a value that names the row or the case, not the printed sentence; running pytest and parsing its XML are left out.
- MutationRunner.Runner.RunAll: a file's content is its text as read, so line ends are not told apart (text mode writes a file of CRLF lines back with LF), and no write or read fails but by a signal or on a cut-off character; compiling C sources, missing dependencies and build trees are one flag of a suite, and the mutant tables are inputs.
- MutationRunner.VerifyClean: the files of all mutants exist; the message lines and the total are left out.
- SpeechTiming.FindSpeech: frame levels and the trigger are inputs; recording, the noise floor and the per-character advice are left out.
- KeyRegistry.Extract: a heading is any function from a line to a number, in place of its regular expression; publishers, subscribers, QoS and plane of a record are left out, since no count depends on them.
- KeyRegistry.RenderedRowHasKey: for the plain form of a key cell; bold-wrapped cells are covered by the definition but have no lemma of their own.
- The document lints (`scripts/todo_lint.py` beyond its splitter, `debt21_scan`, `sec12_scan` and similar): each line or file is matched against fixed patterns on its own and two sets of names are compared, so there is no state, order or arithmetic to state a property about.
- `scripts/doccheck/prune_dead_docs.py`: two of its cleanup patterns (lines 67 and 71) cannot be compiled, so the module does not load as written.
- `parse_payload` of the perception keys and the quadruped's side of the envelope are not part of this model.
