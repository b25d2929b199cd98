# CronGuard core: a verified model

CronGuard watches Kubernetes CronJobs. It works out which runs a cron expression calls for, counts
the ones that did not happen, keeps a short history of the ones that did, and publishes a burn
counter that must survive crashes, conflicts and failovers. This project models those four parts in
Dafny and proves what they promise for every input and every run.

| file | what it holds |
|---|---|
| `Basics.dfy` | options, minimum and maximum |
| `Calendar.dfy` | the proleptic Gregorian calendar in UTC; instants are nanoseconds since year 1, so Go's zero time is 0 |
| `Slots.dfy` | an arbitrary set of slots: first after, last up to, count in a window |
| `Schedule.dfy` | the search loops of `internal/schedule`, over any slot set and a `Next` that sees about five years |
| `Cron.dfy` | five-field matching, the `Next` it gives rise to, satisfiability and the eight-year gap theorem |
| `CronSearch.dfy` | the searches on concrete expressions, and how much lookback is needed |
| `BurnCounter.dfy` | the checkpoint protocol of one monitor as a state machine, with a ledger kept from the events alone |
| `World.dfy` | the shared in-memory tables, and interleavings of many monitors |
| `Accounting.dfy` | the missed-run floor, and the counter expressed in slots |
| `Ring.dfy`, `RingLog.dfy` | `history.Merge`, and the ring as the front of a log that forgets nothing |
| `Jobs.dfy` | from a Job to an execution record |
| `Conditions.dfy` | the condition verdicts, and what pruning and truncation can do to them |
| `Trails.dfy` | latches and drift annotations over whole runs of reconciles |
| `PrunedRuns.dfy` | orphan pruning over whole runs: what it can hide once the ring is truncated, and when it cannot |
| `Monitor.dfy` | the status object the reconciler rewrites in place |

Loops and in-place updates of the original are methods with loops and classes with mutable fields,
each specified by a function or relation; the theorems are about those. `dafny verify dfyconfig.toml`
checks the whole project.

Six places where the code does not do all that is said about it. The code is modelled as it is:

- A schedule matching 1 January of year 1, 00:00 has a slot that `Next` cannot tell from "none".
  `NextSlot` is right exactly when the first slot after its argument is not that one, and
  `MissedRunsSince` below its safety rail exactly when the counted window does not hold it. No
  instant from year 1 on can meet it.
- The comment at `internal/schedule/schedule.go:186-188` says a restricted weekday recurs at least
  weekly. It does exactly when no month is left out (`WeeklyIffEveryMonth`); what holds in any case is
  a slot in every year, which is all the lookback needs.
- A status write that lands but is answered with an error leaves the baseline above the checkpoint,
  against `internal/controller/cronjobmonitor_controller.go:690-693`, exactly when the count had fallen
  below the mark the process holds (`BoundaryInvariant`). Part of the next streak then goes unreported
  without any crash (`LostReplySwallowsAStreak`). `Conservation` accounts for it in every run, and the
  counter never over-reports (`NeverOverReports`).
- A Job first seen Running with its creation time and finished with an earlier real start moves back.
  The ring stops being the front of the log exactly when such a record falls behind one that was
  already dropped (`OneViewExactly`), and a drift annotation carried to another second is wrong unless
  the drift block reviews it in the same reconcile (`StepOwnExactly`, `WrongAnnotationIsReachable`).
- The admission rule at `api/v1alpha1/cronjobmonitor_types.go:37` does not by itself make the ring long
  enough for the failure threshold: Running records take room too (`RunningRecordHidesAFailure`).
- Pruning is described at `internal/controller/cronjobmonitor_controller.go:385-393` as changing only
  the running count. That holds for the reconcile that prunes, but not for later ones: the prune of a
  truncated ring makes room in front of completed runs that were dropped, and an older failure that is
  still listed can take it. The verdict is then wrong although the ring has room for the threshold
  (`PruneHidesASuccess`). Both ring and log stay in step exactly while every prune fits
  (`PrefixPruneExactly`, `RingRefinesPrunedLogExactly`).

Assumptions: one leader at a time, a reconcile reads the latest persisted status, and one key is never
reconciled by two workers at once.

## Model

| member | source | states |
|---|---|---|
| Schedule.ClimbPast | internal/schedule/schedule.go:160-174 | for any slot set and any reach: a slot found is the first after `from` exactly when the zero time is not; "none" clears everything up to the limit |
| Schedule.NextSlot | internal/schedule/schedule.go:153-174 | the same with the UTC reach and the nine-year limit |
| Schedule.NoSlotInRange | internal/schedule/schedule.go:205-224 | the five-year ladder is an exact emptiness test on (x, at], in at most two calls where two rungs cover the range |
| Schedule.ReachFrom | internal/schedule/schedule.go:226-241 | the reach lies exactly five calendar years on and at least a second ahead |
| Schedule.ReachIsNewYearsEve | internal/schedule/schedule.go:231-241 | it is midnight at the start of 31 December |
| Cron.ReachEndsWithYear | internal/schedule/schedule.go:176-180 | one library call sees to the last instant of the fifth year on |
| Schedule.Bisect | internal/schedule/schedule.go:275-285 | the bisection ends on a whole second with a slot in (lo, at] and none in (lo + 1s, at]; two calls per halving |
| Schedule.LastAbove | internal/schedule/schedule.go:270-286 | for any reach and floor: found exactly when (floor, at] holds a slot, and then it is the last one |
| Schedule.Prev | internal/schedule/schedule.go:243-287 | the last slot at or before `at`, found exactly when year(at) is 10 or later and the window from 1 January nine years back holds one; never more than 61 oracle calls |
| Schedule.WindowHalvings | internal/schedule/schedule_test.go:384-389 | ten calendar years of seconds need at most 29 halvings, whence 61 calls and the budget of 64 |
| Schedule.WindowWidth | internal/schedule/schedule.go:264-274 | the lookback window spans more than nine common years and less than 3653 days |
| Schedule.DriftIsDistance | internal/schedule/schedule.go:289-292 | the drift in seconds is d exactly when p + d seconds <= at < p + (d + 1) seconds |
| Schedule.DriftFits | internal/controller/cronjobmonitor_controller.go:358-368 | published drift is that distance, lies between 0 and 3653 days, and so the int32 conversion is exact |
| Schedule.MissedRunsSince | internal/schedule/schedule.go:294-336 | unless the zero time is a slot inside, equals the number of slots in (lastStart, now-grace] up to 100000 and is 100001 above, for every slot set and gap width; never over-counts; exact up to 100000 if and only if the zero time is not a slot inside |
| Schedule.MissedAddsUp | internal/schedule/schedule.go:300-336 | counts add up over adjacent windows below the rail and never exceed the sum above it |
| Schedule.MissedMonotone | internal/schedule/schedule.go:300-336 | the count never rises with a later start or a wider grace and never falls with a later clock |
| Schedule.PrevOfNext | internal/schedule/schedule.go:160-174 | `Prev` maps every slot that `NextSlot` reports in year 10 or later to itself |
| Schedule.NextOfPrev | internal/schedule/schedule.go:264-287 | the slot after `Prev(at)` is later than `at` or absent |
| Schedule.MissedSincePrev | internal/schedule/schedule.go:300-336 | nothing is missed between `Prev(at)` and `at` |
| Cron.SearchToFirst | internal/schedule/schedule.go:176-180 | one library call returns the first slot of its reach, and the zero time exactly when the reach is empty |
| Cron.CronOracle | internal/schedule/schedule.go:176-180 | five-field matching on the UTC calendar meets the contract the search loops rely on |
| Cron.SlotMeans | internal/schedule/schedule.go:176-192 | an instant is a slot exactly when it is a whole minute, its minute, hour and month are listed, and its date and weekday match, joined by "and" if either day field is a star and by "or" if both are restricted |
| Calendar.CivilIsDate | internal/schedule/schedule.go:226-241 | the recursive calendar gives a day the date that the closed formula for leap years and the table of month lengths gives |
| Calendar.KnownDays | internal/schedule/schedule_test.go:119-126 | 1 January 2000 is a Saturday and 24 April 2026 a Friday |
| Cron.SatisfiableIffCanFire | internal/schedule/schedule.go:184-192 | an expression matches some date exactly when its weekday is restricted or a listed month has a listed day |
| Cron.SlotInYear | internal/schedule/schedule.go:184-192 | an expression that can fire does so in every leap year, and in every year if its weekday is restricted |
| Cron.GapAtMostEightYears | internal/schedule/schedule.go:182-193 | every satisfiable expression has a slot within eight calendar years after every instant |
| CronSearch.CronNextSlot | internal/schedule/schedule.go:153-174 | for every expression and instant: true exactly for satisfiable expressions with the first slot after `from`, if and only if that slot is not the zero time; the slot lies on the listed minutes, hours, dates and weekdays |
| CronSearch.CronPrev | internal/schedule/schedule.go:264-274 | from year 10 on found exactly when the expression is satisfiable, with the last slot up to `at`, on the listed minutes, hours, dates and weekdays, in at most 61 calls |
| CronSearch.EightYearsIsReached | internal/schedule/schedule.go:188-192 | across a century "0 0 29 2 *" has slots exactly eight calendar years apart |
| CronSearch.LookbackNeedsEight | internal/schedule/schedule.go:182-193 | a lookback finds every satisfiable expression from everywhere exactly when it is at least eight years |
| CronSearch.WeeklyIffEveryMonth | internal/schedule/schedule.go:186-188 | an expression with a restricted weekday has a slot in every seven days exactly when all twelve months are listed |
| CronSearch.SentinelHidesYearOne | internal/schedule/schedule.go:164-166 | the zero time hides a slot exactly for expressions matching it, and never from year 1 on |
| BurnCounter.StepKeepsInv | internal/controller/cronjobmonitor_controller.go:685-727 | every step, lost replies included, keeps checkpoint, baseline, held mark and books in agreement |
| BurnCounter.Conservation | internal/controller/cronjobmonitor_controller.go:685-727 | over every run: emitted + lost + due + swallowed = rises of the checkpoint + one min(m, checkpoint) per recovery seeded from a 0 marker |
| BurnCounter.BalancedExactly | internal/controller/cronjobmonitor_controller.go:685-727 | the law holds without the swallowed term exactly for runs in which no landed count meets a held mark above the expected baseline |
| BurnCounter.BoundaryInvariant | internal/controller/cronjobmonitor_controller.go:690-693 | the baseline leads the checkpoint at no reconcile boundary exactly when no reply to a write below the held mark is lost; the persisted value is always the checkpoint or the marker |
| BurnCounter.ResidualsHaveCauses | internal/controller/cronjobmonitor_controller.go:554-559 | replays need a restart on a 0 marker, losses a crash or lost reply between write and commit, swallowed misses a lost reply to a falling count |
| BurnCounter.LostReplySwallowsAStreak | internal/controller/cronjobmonitor_controller.go:690-698 | for all streaks a and b around a lost reset there is a crash-free run that emits a + max(0, b - a) and swallows min(a, b) |
| BurnCounter.NeverOverReports | internal/controller/cronjobmonitor_controller.go:710-717 | whatever replies are lost, the counter never exceeds the rises plus the replays |
| BurnCounter.HappyPassEffect | internal/controller/cronjobmonitor_controller.go:459-498 | a happy reconcile persists the count, advances the baseline to it and emits the positive difference |
| World.Reconciler.SyncMissedBaseline | internal/controller/cronjobmonitor_controller.go:560-566 | raises one key's baseline to the value and never lowers it; it is the Begin and the marker-sync section of the interleaved process |
| World.Reconciler.CommitMissed | internal/controller/cronjobmonitor_controller.go:719-727 | sets one key's baseline and adds the positive difference; it is the Advance and Emit sections of the interleaved process |
| World.Reconciler.ReconcileMissed | internal/controller/cronjobmonitor_controller.go:459-498 | the happy path on the shared tables is the protocol run of its events for its key, and leaves every other key alone |
| World.Reconciler.ReconcileUnmeasured | internal/controller/cronjobmonitor_controller.go:528-545 | an early return on the shared tables is the protocol run of its events, emits nothing and leaves every other key alone |
| World.EarlyEffect | internal/controller/cronjobmonitor_controller.go:536-543 | an early return persists the marker only if its write is durable, and the second sync never moves the baseline |
| World.SectionIsLocal | internal/controller/cronjobmonitor_controller.go:66-80 | a guarded section on the shared tables is one protocol step of its own key and none of any other |
| World.Independent | internal/controller/cronjobmonitor_controller.go:66-80 | for every interleaving each key's baseline, counter and checkpoint equal those of its own sections run alone in order |
| World.ConservationEverywhere | internal/controller/cronjobmonitor_controller.go:66-80 | the books of every key balance in every interleaved run, lost replies included |
| Accounting.MeasureMissed | internal/controller/cronjobmonitor_controller.go:397-438 | the published count is the number of slots after the raised floor up to 100000 and 100001 above, and fits an int32 |
| Accounting.AlertExactly | internal/controller/conditions.go:166-186 | the schedule verdict is False exactly when at least `alertAfter` slots, up to 100001, lie between floor and horizon |
| Monitor.Status.MeasureSchedule | internal/controller/cronjobmonitor_controller.go:397-466 | so is the condition that a happy reconcile writes |
| Accounting.WitnessOnlyLowers | internal/controller/cronjobmonitor_controller.go:404-437 | an admitted witness lowers the count by exactly the slots it passes and never turns ScheduleHealthy False; a refused one changes nothing |
| Accounting.CounterAtMostSlots | internal/controller/cronjobmonitor_controller.go:398-464 | with floors moving forward, every run grows the counter by at most the slots that crossed the grace horizon plus what was replayed, lost and swallowed misses included; nothing is replayed without a restart on a 0 marker |
| Accounting.CounterEqualsSlots | internal/controller/cronjobmonitor_controller.go:440-464 | with a fixed floor the growth of the counter, plus lost and swallowed, minus replayed, is exactly the slots after the floor that crossed the horizon |
| Accounting.QuietBooks | internal/controller/cronjobmonitor_controller.go:440-464 | with neither documented residual and no mark above the checkpoint at the start, those three terms are zero |
| Accounting.FloorMovesForward | internal/controller/cronjobmonitor_controller.go:398-437 | while the latch holds, the floor moves back exactly when an admitted witness is withdrawn, put in the future or moved back without being overtaken |
| Accounting.FirstSightingLowersFloor | internal/controller/cronjobmonitor_controller.go:398-403 | without witnesses the first Job seen lowers the floor exactly when it started before the monitor was created |
| Accounting.FixedFloorHidesNothing | internal/controller/cronjobmonitor_controller.go:440-464 | under a fixed floor counts never fall, so nothing is swallowed |
| Ring.Merge | internal/history/ring.go:13-56 | the result is the newest `limit` records of the merged log, whatever the map order and the sort |
| Ring.Admit | internal/history/ring.go:22-40 | one incoming record inserts, loses, or replaces and inherits the annotation |
| Ring.TopIsUnique | internal/history/ring.go:46-54 | only one sequence is sorted, drawn from the log, as long as fits and without a newer record left out |
| Ring.TakeIsTop | internal/history/ring.go:46-54 | and the prefix of the ordered log is that sequence |
| Ring.NewestFirstMeans | internal/history/ring.go:46-51 | the order is by later start and, for equal starts, by later name |
| Ring.StrLessMeans | internal/history/ring.go:50 | names are compared by their first difference |
| RingLog.RingRefinesLog | internal/history/ring.go:13-56 | if no merge moves a record of the log back or carries an annotation onto a later start, any sequence of truncated merges leaves the newest `limit` records of the untruncated merges |
| RingLog.NeverBackIsOrderly | internal/history/ring.go:65-71 | that holds for all views read from Jobs that never start before the log's record of their name, reused names with later starts included |
| RingLog.OneStartIsOrderly | internal/history/ring.go:13-56 | and for one start per Job name, whatever the annotations |
| RingLog.OneViewExactly | internal/history/ring.go:60-65 | one unannotated view breaks the refinement exactly when the ring keeps its name and the survivor falls behind a dropped record |
| RingLog.MergeStep | internal/history/ring.go:52-54 | truncating before or after one merge gives the same ring, if no kept record moves back |
| RingLog.LongerRingExtends | internal/history/ring.go:52-54 | over the same merges a longer ring extends a shorter one |
| Trails.LatchIsLogLatch | internal/controller/cronjobmonitor_controller.go:589-596 | in every reachable history, through changing limits, pruning, annotation and start times that move either way, the LastScheduleTime latch is the one a log that forgets nothing would give |
| Trails.LatchIsGreatestStart | internal/controller/cronjobmonitor_controller.go:582-596 | if every listing names each Job once, the latch is exactly the greatest start time ever listed |
| Trails.LatchNeverFalls | internal/controller/cronjobmonitor_controller.go:582-588 | it never moves back |
| Trails.LatchIsNewestStart | internal/controller/cronjobmonitor_controller.go:589-596 | if no view starts before its record, it is the newest start in the log |
| RingLog.MovingStartBreaksRefinement | internal/history/ring.go:60-63 | a start time that moves back makes the ring keep a record the log ranks second |
| RingLog.MergeIsIdempotent | internal/history/ring.go:13-56 | merging the same distinct-named observation twice changes nothing |
| RingLog.TerminalStaysInRing | internal/history/ring.go:65-69 | over any sequence of merges a name that stays in the ring stays terminal, and never gets older, unless a Running view starts after its record |
| RingLog.ArriveIsMaximum | internal/history/ring.go:70-71 | within a phase class the survivor has the greatest (start, has-end) of all views |
| RingLog.ArrivalOrderIsIrrelevant | internal/history/ring.go:70-71 | so the same views in any order leave equally ranked survivors |
| Jobs.JobOutcome | internal/controller/reconcile_helpers.go:52-74 | Succeeded exactly when the first true final condition is Complete or SuccessCriteriaMet, Failed exactly when it is Failed or FailureTarget, Running exactly when there is none; the time is that condition's |
| Jobs.JobToRecord | internal/controller/reconcile_helpers.go:76-97 | the record's phase as above, its start and end from the Job, an end only if it does not precede the start, and a duration that is the whole span if and only if it is under 2^31 seconds |
| Jobs.OutcomeIsFinal | internal/controller/reconcile_helpers.go:41-48 | conditions added later never change a decided outcome |
| Conditions.PruningIsInvisible | internal/controller/reconcile_helpers.go:136-200 | one prune changes neither the failure streak nor the execution and duration verdicts, for every history |
| PrunedRuns.PruningALogIsInvisible | internal/controller/reconcile_helpers.go:136-200 | however often a log that is never truncated is pruned, its verdicts are those of the log that forgets nothing |
| PrunedRuns.PrefixPruneExactly | internal/controller/reconcile_helpers.go:164-185 | pruning a prefix gives the prefix of the pruned whole exactly when the prefix has no orphan or only orphans follow it |
| PrunedRuns.RingRefinesPrunedLogExactly | internal/controller/cronjobmonitor_controller.go:312-395 | over an orderly run the ring, annotations aside, is at all times the front of the log that prunes but never truncates, exactly when every prune fits |
| PrunedRuns.NeverBackIsOrderlyRun | internal/history/ring.go:65-71 | views that never start before the whole log's record of their name make an orderly run |
| PrunedRuns.FittingRingReportsTheLog | internal/controller/conditions.go:20-62 | while every prune fits, a ring with the threshold's room reports what the log that forgets nothing would, through merges, annotations and prunes |
| PrunedRuns.PruneHidesASuccess | internal/controller/cronjobmonitor_controller.go:385-395 | a reachable run with room for the threshold in which ring and log give opposite verdicts |
| PrunedRuns.TrioIsOrderly | internal/controller/cronjobmonitor_controller.go:385-395 | that run is orderly |
| PrunedRuns.TrioMisfits | internal/controller/cronjobmonitor_controller.go:385-395 | and only its prune does not fit |
| Conditions.KeptTerminals | internal/controller/reconcile_helpers.go:144-147 | pruning keeps every terminal record, in order |
| Conditions.KeptSorted | internal/controller/reconcile_helpers.go:170-187 | pruning keeps the newest-first order |
| Conditions.TruncationIsInvisibleIff | internal/controller/conditions.go:20-62 | no older part of a newest-first history of distinct Jobs can change ExecutionHealthy exactly when the ring holds a success or enough completed runs |
| Conditions.RoomyRingReportsTheWhole | internal/controller/conditions.go:20-62 | a prefix with the threshold's room beside its Running records reports what the whole history would |
| Conditions.RingReportsTheLog | internal/controller/conditions.go:20-62 | over every orderly run of merges, without prunes, such a ring reports what the log that forgets nothing would |
| Conditions.TruncationHidesNoDurationIff | internal/controller/conditions.go:64-123 | no older part of a history can change DurationHealthy exactly when the ring holds a run that settles it |
| Conditions.DurationByFirst | internal/controller/conditions.go:64-123 | the duration check judges the newest run that succeeded or failed at or over budget, and is open exactly when there is none |
| Conditions.StreakCounts | internal/controller/conditions.go:20-33 | the streak is the number of failures before the first success |
| Conditions.TerminalsAre | internal/history/ring.go:90-92 | the completed runs are the Succeeded and the Failed ones |
| RingLog.HistoryIsReachable | internal/history/ring.go:13-56 | every newest-first sequence of distinct Jobs is a ring that Merge can leave |
| Conditions.RunningRecordHidesAFailure | api/v1alpha1/cronjobmonitor_types.go:37 | in every history of a Running record and two failures, room for two records hides the second failure from a threshold of two |
| Conditions.ReadyIsDetermined | internal/controller/conditions.go:125-161 | first False, else first Unknown, else all pass: this fixes status and reason |
| Conditions.ReadyCascade | internal/controller/conditions.go:127-152 | the order is Reconciled, ScheduleHealthy, ExecutionHealthy, DurationHealthy, and each gives its own reason |
| Conditions.EarlyReturnIsNotReady | internal/controller/conditions.go:127-152 | Reconciled=False makes Ready False with the same reason |
| Conditions.ReadyMeansAllGreen | internal/controller/conditions.go:125-161 | Ready is True exactly when all four axes are |
| Monitor.Status.UpdateLastObservedTimes | internal/controller/cronjobmonitor_controller.go:582-613 | the three latches take the running maximum over the history |
| Trails.LatchIsMaximum | internal/controller/cronjobmonitor_controller.go:582-588 | a latch is the greatest of its old value and the ends it was shown, and never moves back |
| Monitor.Status.AnnotateDrift | internal/controller/cronjobmonitor_controller.go:349-383 | publishes the latch's distance to its own slot, and annotates only the front record and only if it is that run |
| Monitor.DropOrphanedRunning | internal/controller/reconcile_helpers.go:164-185 | keeps everything but the old Running records without a live Job, in order, and names the dropped ones |
| Conditions.DroppedNames | internal/controller/reconcile_helpers.go:170-181 | the reported names are exactly those of the dropped records |
| Monitor.Status.PruneOrphanedRunning | internal/controller/reconcile_helpers.go:190-200 | exactly the Running records at least sixty seconds old that neither the Job list nor the active list names are dropped |
| Monitor.Status.MergeAndLatch | internal/controller/cronjobmonitor_controller.go:308-314 | merges with the configured limit, or ten if it is unset, and latches |
| Monitor.Status.ObserveJobs | internal/controller/cronjobmonitor_controller.go:320-395 | merge, latch, annotate, prune: one history step of a happy reconcile |
| Trails.StepOwnExactly | internal/controller/cronjobmonitor_controller.go:349-395 | a reconcile keeps each annotation on its record's own slot exactly when no annotated record moved to another second, unless it is the front record at the latch |
| Trails.AnnotationsStayTrue | internal/controller/cronjobmonitor_controller.go:349-395 | with one start per Job name, in every reachable history each annotated record carries the greatest slot at or before its start and their difference |
| Trails.AnnotationsStayTrueExactly | internal/controller/cronjobmonitor_controller.go:349-395 | in general all histories of a run are so exactly when every reconcile of it is steady |
| Trails.CarriedExactly | internal/history/ring.go:30-39 | a carried annotation is right exactly when old and new start fall in the same second |
| Trails.WrongAnnotationIsReachable | internal/history/ring.go:60-63 | two happy reconciles of a Job whose start moves back end with an annotation that is not its own |
| Monitor.Status.EvaluateExecutionHealthy | internal/controller/conditions.go:20-62 | Unknown exactly when all records are Running, else False exactly when the streak reaches a positive threshold |
| Monitor.Status.EvaluateScheduleHealthy | internal/controller/conditions.go:166-186 | False exactly when the count reaches a positive threshold, else True |
| Monitor.Status.EvaluateDurationHealthy | internal/controller/conditions.go:68-123 | the loop computes the duration verdict of the history |
| Monitor.Status.EvaluateReady | internal/controller/conditions.go:127-161 | the loop with early exit finds the deciding axis |
| Monitor.Status.FinishEarlyReturn | internal/controller/cronjobmonitor_controller.go:507-546 | after Reconciled=False: no next run, and Ready is False for that reason |
| Monitor.Status.ReportUnmeasured | internal/controller/cronjobmonitor_controller.go:181-197 | an early return resets the schedule numbers to the marker or freezes them, and reports not ready with its reason |
| Monitor.Status.FinishHappy | internal/controller/cronjobmonitor_controller.go:466-478 | the four axes from history and count, the schedule axis spelled out; Ready is True exactly when all three SLO verdicts are |

## Left out

- Parsing of cron text, panic recovery and the internals of the cron library: the model starts from parsed fields and the documented behaviour of `Next`.
- Zones other than UTC, daylight saving and `time.Local`: the loops take an arbitrary slot set and reach bound, the calendar theorems are for UTC.
- Kubernetes clients, caches, watches, events, logging, metrics registration, leader election, charts and scripts: I/O; a status write is kept as its outcome.
- Stale reads and two simultaneous leaders: excluded by the assumptions above.
- Deletion of a monitor (controller lines 121-136), which drops its baseline and its counter: a recreated monitor is a fresh one.
- Condition messages and timestamps, ObservedGeneration and transition events: strings and bookkeeping beside status, reason and counts.
- `sortJobsNewestFirst`: the merge result depends on the order only through views of one name, and Kubernetes lists each Job once.
- Aliasing of slices and maps in the history and conditions: they are fields holding values that the methods replace.
- Ring.Merge: the library sort is an insertion sort here; `TopIsUnique` shows that any correct sort gives the same result.
- RingLog.RingRefinesLog: is about merges only; `RingRefinesPrunedLogExactly` adds the prunes of every happy reconcile.
- PrunedRuns.FittingRingReportsTheLog: takes one history limit throughout; a limit raised in mid-run leaves the ring shorter than the front of the log until new runs fill it.
