/**
The status of one monitor as the reconciler rewrites it in place: history, latches, drift annotation,
orphan pruning and the condition axes.
*/
module Monitor {
  import opened Basics
  import opened Calendar
  import opened Slots
  import opened Schedule
  import opened Ring
  import opened RingLog
  import opened Conditions
  import opened Trails
  import opened Accounting

  /** `dropOrphanedRunning`: keep the rest in order, and report the names that went. */
  method DropOrphanedRunning(recs: seq<Record>, live: set<string>, now: Instant, minAge: int)
    returns (out: seq<Record>, dropped: seq<string>)
    ensures out == Kept(recs, live, now, minAge) && dropped == Dropped(recs, live, now, minAge)
  {
    out, dropped := [], [];
    for i := 0 to |recs|
      invariant out == Kept(recs[..i], live, now, minAge) && dropped == Dropped(recs[..i], live, now, minAge)
    {
      var rec := recs[i];
      assert recs[..i + 1] == recs[..i] + [rec];
      KeptSnoc(recs[..i], rec, live, now, minAge);
      DroppedSnoc(recs[..i], rec, live, now, minAge);
      if rec.phase == Running {
        if rec.jobName !in live && now - rec.start >= minAge {
          dropped := dropped + [rec.jobName];
          continue;
        }
      }
      out := out + [rec];
    }
    assert recs[..|recs|] == recs;
    if dropped == [] {
      out := recs;
    }
  }

  class Status {
    var recentExecutions: seq<Record>
    var lastSchedule: Option<int>
    var lastSuccess: Option<int>
    var lastFailure: Option<int>
    var nextExpected: Option<int>
    var consecutiveFailures: int
    var missedRuns: int
    var driftSeconds: int
    var conditions: Axes

    constructor ()
      ensures recentExecutions == [] && lastSchedule == lastSuccess == lastFailure == None && conditions == map[]
    {
      recentExecutions, conditions := [], map[];
      lastSchedule, lastSuccess, lastFailure, nextExpected := None, None, None, None;
      consecutiveFailures, missedRuns, driftSeconds := 0, 0, 0;
    }

    method UpdateLastObservedTimes()
      modifies this`lastSchedule, this`lastSuccess, this`lastFailure
      ensures lastSchedule == LatchStart(old(lastSchedule), recentExecutions)
      ensures lastSuccess == LatchEnd(old(lastSuccess), recentExecutions, Succeeded)
      ensures lastFailure == LatchEnd(old(lastFailure), recentExecutions, Failed)
    {
      for i := 0 to |recentExecutions|
        invariant lastSchedule == LatchStart(old(lastSchedule), recentExecutions[..i])
        invariant lastSuccess == LatchEnd(old(lastSuccess), recentExecutions[..i], Succeeded)
        invariant lastFailure == LatchEnd(old(lastFailure), recentExecutions[..i], Failed)
      {
        assert recentExecutions[..i + 1][..i] == recentExecutions[..i];
        var rec := recentExecutions[i];
        if lastSchedule.None? || rec.start > lastSchedule.value {
          lastSchedule := Some(rec.start);
        }
        var t := EndOrStart(rec);
        match rec.phase {
          case Succeeded => if lastSuccess.None? || t > lastSuccess.value { lastSuccess := Some(t); }
          case Failed => if lastFailure.None? || t > lastFailure.value { lastFailure := Some(t); }
          case Running =>
        }
      }
      assert recentExecutions[..|recentExecutions|] == recentExecutions;
    }

    /** The drift block: publish the latch's drift, and annotate the front record only if it is that run. */
    method AnnotateDrift(next: NextFn, ghost slot: SlotSet)
      requires Oracle(next, ReachFrom, slot) && OnSeconds(slot)
      modifies this`recentExecutions, this`driftSeconds
      ensures AnnotatedBy(slot, lastSchedule, old(recentExecutions), recentExecutions)
      ensures lastSchedule.None? ==> driftSeconds == old(driftSeconds)
      ensures lastSchedule.Some? ==> IsDriftOf(slot, lastSchedule.value, driftSeconds)
    {
      if lastSchedule.Some? {
        var at := lastSchedule.value;
        var annotatable := |recentExecutions| > 0 && recentExecutions[0].start == at;
        var expected, found;
        ghost var calls;
        expected, found, calls := Prev(next, slot, at);
        if found {
          DriftFits(slot, at, expected);
          driftSeconds := DriftSeconds(at, expected);
          if annotatable {
            recentExecutions := recentExecutions[0 := recentExecutions[0].(expected := Some(expected),
                                                                           drift := Some(driftSeconds))];
          }
        } else {
          driftSeconds := 0;
          if annotatable {
            recentExecutions := recentExecutions[0 := recentExecutions[0].(expected := None, drift := None)];
          }
        }
      }
    }

    /** `pruneOrphanedRunning`: drop what the live set and the minimum age disown, and name it. */
    method PruneOrphanedRunning(owned: set<string>, active: set<string>, now: Instant) returns (dropped: seq<string>)
      modifies this`recentExecutions
      ensures recentExecutions == Kept(old(recentExecutions), owned + active, now, MINUTE)
      ensures forall r :: r in recentExecutions <==>
                && r in old(recentExecutions)
                && !(r.phase == Running && r.jobName !in owned && r.jobName !in active
                     && now - r.start >= 60_000_000_000)
      ensures dropped == Dropped(old(recentExecutions), owned + active, now, MINUTE)
    {
      recentExecutions, dropped := DropOrphanedRunning(recentExecutions, owned + active, now, MINUTE);
    }

    /** Annotate first, prune afterwards, so that pruning cannot change the published drift. */
    method AnnotateAndPrune(next: NextFn, ghost slot: SlotSet, owned: set<string>, active: set<string>, now: Instant)
      requires Oracle(next, ReachFrom, slot) && OnSeconds(slot)
      modifies this`recentExecutions, this`driftSeconds
      ensures Finished(slot, lastSchedule, old(recentExecutions), owned + active, now, recentExecutions)
      ensures lastSchedule.Some? ==> IsDriftOf(slot, lastSchedule.value, driftSeconds)
    {
      AnnotateDrift(next, slot);
      var dropped := PruneOrphanedRunning(owned, active, now);
    }

    /** The history part of a happy-path `Reconcile`. */
    method ObserveJobs(next: NextFn, ghost slot: SlotSet, incoming: seq<Record>, historyLimit: int,
                       owned: set<string>, active: set<string>, now: Instant)
      requires Oracle(next, ReachFrom, slot) && OnSeconds(slot)
      modifies this`recentExecutions, this`lastSchedule, this`lastSuccess, this`lastFailure, this`driftSeconds
      ensures HistoryStep(slot, old(Trail(recentExecutions, lastSchedule)),
                          Happy(incoming, if historyLimit > 0 then historyLimit else 10, owned + active, now),
                          Trail(recentExecutions, lastSchedule))
      ensures var merged := Merged(old(recentExecutions), incoming, if historyLimit > 0 then historyLimit else 10);
              && lastSuccess == LatchEnd(old(lastSuccess), merged, Succeeded)
              && lastFailure == LatchEnd(old(lastFailure), merged, Failed)
    {
      MergeAndLatch(incoming, historyLimit);
      AnnotateAndPrune(next, slot, owned, active, now);
    }

    /** An unset history limit means ten records. */
    method MergeAndLatch(incoming: seq<Record>, historyLimit: int)
      modifies this`recentExecutions, this`lastSchedule, this`lastSuccess, this`lastFailure
      ensures recentExecutions ==
                Merged(old(recentExecutions), incoming, if historyLimit > 0 then historyLimit else 10)
      ensures lastSchedule == LatchStart(old(lastSchedule), recentExecutions)
      ensures lastSuccess == LatchEnd(old(lastSuccess), recentExecutions, Succeeded)
      ensures lastFailure == LatchEnd(old(lastFailure), recentExecutions, Failed)
    {
      var limit := historyLimit;
      if limit <= 0 {
        limit := 10;
      }
      recentExecutions := Merge(recentExecutions, incoming, limit);
      UpdateLastObservedTimes();
    }

    method EvaluateExecutionHealthy(maxFailures: int)
      modifies this`consecutiveFailures, this`conditions
      ensures consecutiveFailures == FailureStreak(recentExecutions)
      ensures conditions == old(conditions)[ExecutionHealthy := ExecutionVerdict(recentExecutions, maxFailures)]
      ensures conditions[ExecutionHealthy] ==
                if forall r :: r in recentExecutions ==> r.phase == Running then Condition(Unknown, NoRuns)
                else if consecutiveFailures >= maxFailures && maxFailures > 0 then Condition(False, ConsecutiveFailures)
                else Condition(True, RecentSuccess)
    {
      NoTerminals(recentExecutions);
      var count, sawAny, i := 0, false, 0;
      while i < |recentExecutions|
        invariant 0 <= i <= |recentExecutions|
        invariant count + FailureStreak(recentExecutions[i..]) == FailureStreak(recentExecutions)
        invariant sawAny || Terminals(recentExecutions[i..]) != [] <==> Terminals(recentExecutions) != []
      {
        var rec := recentExecutions[i];
        assert recentExecutions[i..][1..] == recentExecutions[i + 1..];
        if rec.phase == Running {
          i := i + 1;
          continue;
        }
        sawAny := true;
        if rec.phase == Succeeded {
          break;
        }
        count := count + 1;
        i := i + 1;
      }
      consecutiveFailures := count;
      conditions := conditions[ExecutionHealthy :=
        if !sawAny then Condition(Unknown, NoRuns)
        else if count >= maxFailures && maxFailures > 0 then Condition(False, ConsecutiveFailures)
        else Condition(True, RecentSuccess)];
    }

    method EvaluateDurationHealthy(maxDuration: Option<int>)
      modifies this`conditions
      ensures conditions == old(conditions)[DurationHealthy := DurationVerdict(recentExecutions, maxDuration)]
      ensures maxDuration.None? ==> conditions[DurationHealthy] == Condition(Unknown, CheckDisabled)
    {
      if maxDuration.None? {
        conditions := conditions[DurationHealthy := Condition(Unknown, CheckDisabled)];
        return;
      }
      var budget := maxDuration.value;
      for i := 0 to |recentExecutions|
        invariant conditions == old(conditions)
        invariant DurationScan(recentExecutions, budget) == DurationScan(recentExecutions[i..], budget)
      {
        var rec := recentExecutions[i];
        assert recentExecutions[i..][1..] == recentExecutions[i + 1..];
        if rec.phase == Running || rec.duration.None? {
          continue;
        }
        var took, failed := rec.duration.value, rec.phase == Failed;
        if took > budget || (failed && took >= budget) {
          conditions := conditions[DurationHealthy := Condition(False, DurationExceeded)];
          return;
        }
        if failed {
          continue;
        }
        conditions := conditions[DurationHealthy := Condition(True, WithinBudget)];
        return;
      }
      conditions := conditions[DurationHealthy := Condition(Unknown, NoRuns)];
    }

    method EvaluateScheduleHealthy(missed: int, alertAfter: int)
      modifies this`missedRuns, this`conditions
      ensures missedRuns == missed
      ensures alertAfter > 0 && missed >= alertAfter ==>
                conditions == old(conditions)[ScheduleHealthy := Condition(False, ScheduleMissed)]
      ensures !(alertAfter > 0 && missed >= alertAfter) ==>
                conditions == old(conditions)[ScheduleHealthy := Condition(True, OnSchedule)]
    {
      missedRuns := missed;
      if alertAfter > 0 && missed >= alertAfter {
        conditions := conditions[ScheduleHealthy := Condition(False, ScheduleMissed)];
        return;
      }
      conditions := conditions[ScheduleHealthy := Condition(True, OnSchedule)];
    }

    /**
    The missed-run part of a happy reconcile as a whole: the alert fires exactly when enough slots crossed
    the grace horizon since the floor.
    */
    method MeasureSchedule(next: NextFn, ghost slot: SlotSet, creation: Instant, record: Option<Instant>,
                           overridden: bool, zoneGiven: bool, now: Instant, grace: int, alertAfter: int)
      requires Oracle(next, ReachFrom, slot)
      modifies this`missedRuns, this`conditions
      ensures forall floor :: FloorFrom(floor, lastSchedule, creation, record, overridden, zoneGiven, now)
                              && !SkipsZero(slot, floor, now - grace) ==>
                conditions == old(conditions)[ScheduleHealthy :=
                  if 0 < alertAfter <= 100_001 && Count(slot, floor, now - grace) >= alertAfter
                  then Condition(False, ScheduleMissed) else Condition(True, OnSchedule)]
    {
      var missed := MeasureMissed(next, slot, lastSchedule, creation, record, overridden, zoneGiven, now, grace);
      EvaluateScheduleHealthy(missed, alertAfter);
    }

    /** `evaluateReady`: any False, else any Unknown, else all pass; absent axes are skipped. */
    method EvaluateReady()
      modifies this`conditions
      ensures Ready in conditions && IsReady(old(conditions), CHECKED, conditions[Ready])
      ensures conditions == old(conditions)[Ready := conditions[Ready]]
    {
      var c := conditions;
      var status, reason := Conditions.Status.True, AllChecksPass;
      var i := 0;
      ghost var first := 0;
      while i < |CHECKED|
        invariant 0 <= i <= |CHECKED|
        invariant status != False && NoneReports(c, CHECKED[..i], False)
        invariant status == True ==> reason == AllChecksPass && NoneReports(c, CHECKED[..i], Unknown)
        invariant status == Unknown ==> FirstToReport(c, CHECKED, first, Unknown) && reason == c[CHECKED[first]].reason
      {
        var axis := CHECKED[i];
        assert CHECKED[..i + 1] == CHECKED[..i] + [axis];
        if axis in c {
          if c[axis].status == False {
            assert FirstToReport(c, CHECKED, i, False);
            status, reason := False, c[axis].reason;
            break;
          }
          if c[axis].status == Unknown && status == True {
            assert FirstToReport(c, CHECKED, i, Unknown);
            first, status, reason := i, Unknown, c[axis].reason;
          }
        }
        i := i + 1;
      }
      assert status != False ==> CHECKED[..i] == CHECKED;
      conditions := c[Ready := Condition(status, reason)];
    }

    /** Not measuring: the schedule numbers are reset to the 0 marker, or frozen while suspended. */
    method StopMeasuring(reason: Reason, scheduleReason: Reason, frozen: bool)
      modifies this`missedRuns, this`driftSeconds, this`conditions
      ensures missedRuns == (if frozen then old(missedRuns) else 0)
      ensures driftSeconds == (if frozen then old(driftSeconds) else 0)
      ensures conditions == old(conditions)[Reconciled := Condition(False, reason)]
                              [ScheduleHealthy := Condition(Unknown, scheduleReason)]
    {
      conditions := conditions[Reconciled := Condition(False, reason)];
      if !frozen {
        missedRuns, driftSeconds := 0, 0;
      }
      conditions := conditions[ScheduleHealthy := Condition(Unknown, scheduleReason)];
    }

    /** The common tail of the early returns: no next run, and never reported as ready. */
    method FinishEarlyReturn(maxFailures: int, maxDuration: Option<int>)
      requires Reports(conditions, Reconciled, False)
      modifies this`nextExpected, this`consecutiveFailures, this`conditions
      ensures nextExpected == None && consecutiveFailures == FailureStreak(recentExecutions)
      ensures Reports(conditions, Ready, False) && conditions[Ready].reason == old(conditions[Reconciled].reason)
      ensures conditions == old(conditions)[ExecutionHealthy := ExecutionVerdict(recentExecutions, maxFailures)]
                              [DurationHealthy := DurationVerdict(recentExecutions, maxDuration)][Ready := conditions[Ready]]
    {
      nextExpected := None;
      EvaluateExecutionHealthy(maxFailures);
      EvaluateDurationHealthy(maxDuration);
      ghost var c := conditions;
      EvaluateReady();
      EarlyReturnIsNotReady(c, conditions[Ready]);
    }

    /** An early return as a whole: whatever was measured before, the monitor is not reported as ready. */
    method ReportUnmeasured(reason: Reason, scheduleReason: Reason, frozen: bool,
                            maxFailures: int, maxDuration: Option<int>)
      modifies this`missedRuns, this`driftSeconds, this`nextExpected, this`consecutiveFailures, this`conditions
      ensures nextExpected == None
      ensures missedRuns == (if frozen then old(missedRuns) else 0)
      ensures driftSeconds == (if frozen then old(driftSeconds) else 0)
      ensures Reports(conditions, Ready, False) && conditions[Ready].reason == reason
    {
      StopMeasuring(reason, scheduleReason, frozen);
      FinishEarlyReturn(maxFailures, maxDuration);
    }

    /** The happy tail: the four axes and their conjunction. Without a duration budget it is never all green. */
    method FinishHappy(nextT: int, missed: int, alertAfter: int, maxFailures: int, maxDuration: Option<int>)
      modifies this`missedRuns, this`nextExpected, this`consecutiveFailures, this`conditions
      ensures nextExpected == Some(nextT) && missedRuns == missed
      ensures conditions.Keys >= {Reconciled, ScheduleHealthy, ExecutionHealthy, DurationHealthy, Ready}
      ensures conditions[Reconciled] == Condition(True, ReconcileSuccess)
      ensures conditions[ScheduleHealthy] ==
                if alertAfter > 0 && missed >= alertAfter then Condition(False, ScheduleMissed)
                else Condition(True, OnSchedule)
      ensures conditions[ExecutionHealthy] == ExecutionVerdict(recentExecutions, maxFailures)
      ensures conditions[DurationHealthy] == DurationVerdict(recentExecutions, maxDuration)
      ensures conditions[Ready].status == True <==>
                && !(alertAfter > 0 && missed >= alertAfter)
                && ExecutionVerdict(recentExecutions, maxFailures).status == True
                && DurationVerdict(recentExecutions, maxDuration).status == True
      ensures maxDuration == None ==> conditions[Ready].status != True
    {
      nextExpected := Some(nextT);
      EvaluateScheduleHealthy(missed, alertAfter);
      EvaluateExecutionHealthy(maxFailures);
      EvaluateDurationHealthy(maxDuration);
      conditions := conditions[Reconciled := Condition(True, ReconcileSuccess)];
      ghost var c := conditions;
      EvaluateReady();
      ReadyMeansAllGreen(c, conditions[Ready]);
    }
  }
}
