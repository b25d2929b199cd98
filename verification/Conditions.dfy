/**
The condition verdicts as functions of the execution history, and what orphan pruning and ring
truncation can and cannot change about them.
*/
module Conditions {
  import opened Basics
  import opened Ring
  import opened RingLog

  datatype Axis = Reconciled | ScheduleHealthy | ExecutionHealthy | DurationHealthy | Ready

  datatype Status = True | False | Unknown

  datatype Reason =
    | ReconcileSuccess | InvalidSchedule | UnsatisfiableSchedule | InvalidTimeZone
    | CronJobNotFound | CronJobSuspended | Suspended | NoSchedule | OnSchedule | ScheduleMissed | RecentSuccess
    | ConsecutiveFailures | NoRuns | WithinBudget | DurationExceeded | CheckDisabled | AllChecksPass

  datatype Condition = Condition(status: Status, reason: Reason)

  // ---------- Verdicts ----------

  /** The completed runs of a history, in order. */
  function Terminals(s: seq<Record>): seq<Record> {
    if s == [] then []
    else if IsTerminal(s[0].phase) then [s[0]] + Terminals(s[1..])
    else Terminals(s[1..])
  }

  /** How many completed runs failed before the newest success. */
  function FailureStreak(s: seq<Record>): nat {
    if s == [] || s[0].phase == Succeeded then 0
    else FailureStreak(s[1..]) + if s[0].phase == Failed then 1 else 0
  }

  function ExecutionVerdict(s: seq<Record>, maxFailures: int): Condition {
    if Terminals(s) == [] then Condition(Unknown, NoRuns)
    else if FailureStreak(s) >= maxFailures && maxFailures > 0 then Condition(False, ConsecutiveFailures)
    else Condition(True, RecentSuccess)
  }

  /** A completed run decides the duration check unless it failed within budget or has no duration. */
  function DurationScan(s: seq<Record>, budget: int): Condition {
    if s == [] then Condition(Unknown, NoRuns)
    else if s[0].phase == Running || s[0].duration.None? then DurationScan(s[1..], budget)
    else if s[0].duration.value > budget || (s[0].phase == Failed && s[0].duration.value >= budget) then
      Condition(False, DurationExceeded)
    else if s[0].phase == Failed then DurationScan(s[1..], budget)
    else Condition(True, WithinBudget)
  }

  /** The completed runs, spelled out. */
  lemma {:induction false} TerminalsAre(s: seq<Record>)
    ensures forall r :: r in Terminals(s) <==> r in s && r.phase in {Succeeded, Failed}
    decreases |s|
  {
    if s != [] {
      TerminalsAre(s[1..]);
      assert s == [s[0]] + s[1..];
    }
  }

  lemma NoTerminals(s: seq<Record>)
    ensures Terminals(s) == [] <==> forall r :: r in s ==> r.phase == Running
  {
    TerminalsAre(s);
    if Terminals(s) != [] { assert Terminals(s)[0] in Terminals(s); }
  }

  function Phases(s: seq<Record>): (p: seq<ExecutionPhase>)
    ensures |p| == |s| && forall i :: 0 <= i < |s| ==> p[i] == s[i].phase
  {
    seq(|s|, i requires 0 <= i < |s| => s[i].phase)
  }

  /** The streak counts the failures before the first success, or all of them if there is none. */
  lemma {:induction false} StreakCounts(s: seq<Record>, k: nat)
    requires k <= |s| && (k == |s| || s[k].phase == Succeeded)
    requires forall i :: 0 <= i < k ==> s[i].phase != Succeeded
    ensures FailureStreak(s) == multiset(Phases(s)[..k])[Failed]
    decreases |s|
  {
    if 0 < k {
      StreakCounts(s[1..], k - 1);
      PhasesCons(s, k);
    }
  }

  lemma PhasesCons(s: seq<Record>, k: nat)
    requires 0 < k <= |s|
    ensures multiset(Phases(s)[..k]) == multiset{s[0].phase} + multiset(Phases(s[1..])[..k - 1])
  {
    assert Phases(s)[..k] == [s[0].phase] + Phases(s[1..])[..k - 1];
  }

  /** A success always settles the duration check; a failure only when it used up the budget. */
  predicate Settles(r: Record, budget: int) {
    r.phase != Running && r.duration.Some? && (r.phase == Succeeded || r.duration.value >= budget)
  }

  /** `s[i]` is the newest run that settles the check. */
  ghost predicate FirstToSettle(s: seq<Record>, budget: int, i: int) {
    0 <= i < |s| && Settles(s[i], budget) && forall j :: 0 <= j < i ==> !Settles(s[j], budget)
  }

  /** The duration check judges the newest run that settles it, and is open exactly when none does. */
  lemma {:induction false} DurationByFirst(s: seq<Record>, budget: int)
    ensures forall i :: FirstToSettle(s, budget, i) ==>
              DurationScan(s, budget) ==
                if s[i].phase == Succeeded && s[i].duration.value <= budget then Condition(True, WithinBudget)
                else Condition(False, DurationExceeded)
    ensures (forall i :: 0 <= i < |s| ==>
              !(s[i].phase == Succeeded && s[i].duration.Some?) &&
              !(s[i].phase == Failed && s[i].duration.Some? && s[i].duration.value >= budget)) <==>
              DurationScan(s, budget) == Condition(Unknown, NoRuns)
    decreases |s|
  {
    if s != [] {
      DurationByFirst(s[1..], budget);
      if !Settles(s[0], budget) {
        forall i | FirstToSettle(s, budget, i) ensures FirstToSettle(s[1..], budget, i - 1) {}
        assert forall i :: 1 <= i < |s| ==> s[i] == s[1..][i - 1];
      }
    }
  }

  function DurationVerdict(s: seq<Record>, budget: Option<int>): Condition {
    if budget.None? then Condition(Unknown, CheckDisabled) else DurationScan(s, budget.value)
  }

  function ScheduleVerdict(missed: int, alertAfter: int): Condition {
    if alertAfter > 0 && missed >= alertAfter then Condition(False, ScheduleMissed)
    else Condition(True, OnSchedule)
  }

  // ---------- Running records are invisible ----------

  lemma {:induction false} OnlyTerminalsCount(s: seq<Record>, budget: int)
    ensures FailureStreak(Terminals(s)) == FailureStreak(s)
    ensures Terminals(Terminals(s)) == Terminals(s)
    ensures DurationScan(Terminals(s), budget) == DurationScan(s, budget)
    decreases |s|
  {
    if s != [] {
      OnlyTerminalsCount(s[1..], budget);
      if IsTerminal(s[0].phase) { assert ([s[0]] + Terminals(s[1..]))[1..] == Terminals(s[1..]); }
    }
  }

  /** A Running record whose Job is gone and which is at least `minAge` old. */
  predicate IsOrphan(r: Record, live: set<string>, now: int, minAge: int) {
    r.phase == Running && r.jobName !in live && now - r.start >= minAge
  }

  /** The history after orphan pruning. */
  function Kept(s: seq<Record>, live: set<string>, now: int, minAge: int): (k: seq<Record>)
    ensures forall r :: r in k <==> r in s && !IsOrphan(r, live, now, minAge)
  {
    if s == [] then []
    else if IsOrphan(s[0], live, now, minAge) then Kept(s[1..], live, now, minAge)
    else [s[0]] + Kept(s[1..], live, now, minAge)
  }

  /** The names pruning reports. */
  function Dropped(s: seq<Record>, live: set<string>, now: int, minAge: int): (names: seq<string>)
    ensures names == [] ==> Kept(s, live, now, minAge) == s
    ensures |names| + |Kept(s, live, now, minAge)| == |s|
  {
    if s == [] then []
    else if IsOrphan(s[0], live, now, minAge) then [s[0].jobName] + Dropped(s[1..], live, now, minAge)
    else Dropped(s[1..], live, now, minAge)
  }

  /** The reported names are those of the dropped records, spelled out. */
  lemma {:induction false} DroppedNames(s: seq<Record>, live: set<string>, now: int, minAge: int, name: string)
    ensures name in Dropped(s, live, now, minAge) <==>
              exists r :: r in s && r.jobName == name && r.phase == Running && name !in live && now - r.start >= minAge
    decreases |s|
  {
    if s != [] {
      DroppedNames(s[1..], live, now, minAge, name);
      assert s == [s[0]] + s[1..];
    }
  }

  lemma {:induction false} KeptSnoc(s: seq<Record>, r: Record, live: set<string>, now: int, minAge: int)
    ensures Kept(s + [r], live, now, minAge) ==
              Kept(s, live, now, minAge) + if IsOrphan(r, live, now, minAge) then [] else [r]
    decreases |s|
  {
    if s == [] {
      assert s + [r] == [r] && [r][1..] == [];
    } else {
      assert (s + [r])[1..] == s[1..] + [r];
      KeptSnoc(s[1..], r, live, now, minAge);
    }
  }

  lemma {:induction false} DroppedSnoc(s: seq<Record>, r: Record, live: set<string>, now: int, minAge: int)
    ensures Dropped(s + [r], live, now, minAge) ==
              Dropped(s, live, now, minAge) + if IsOrphan(r, live, now, minAge) then [r.jobName] else []
    decreases |s|
  {
    if s == [] {
      assert s + [r] == [r] && [r][1..] == [];
    } else {
      assert (s + [r])[1..] == s[1..] + [r];
      DroppedSnoc(s[1..], r, live, now, minAge);
    }
  }

  lemma {:induction false} KeptTerminals(s: seq<Record>, live: set<string>, now: int, minAge: int)
    ensures Terminals(Kept(s, live, now, minAge)) == Terminals(s)
    decreases |s|
  {
    if s != [] {
      KeptTerminals(s[1..], live, now, minAge);
      var rest := Kept(s[1..], live, now, minAge);
      if !IsOrphan(s[0], live, now, minAge) { assert ([s[0]] + rest)[1..] == rest; }
    }
  }

  lemma {:induction false} KeptSorted(s: seq<Record>, live: set<string>, now: int, minAge: int)
    requires NewestFirst(s)
    ensures NewestFirst(Kept(s, live, now, minAge))
    decreases |s|
  {
    if s != [] {
      KeptSorted(s[1..], live, now, minAge);
      var rest := Kept(s[1..], live, now, minAge);
      forall i | 0 <= i < |rest| ensures Newer(s[0], rest[i]) { assert rest[i] in s[1..]; }
    }
  }

  /** Pruning changes neither the failure streak nor any verdict, for every history. */
  lemma PruningIsInvisible(s: seq<Record>, live: set<string>, now: int, minAge: int,
                           maxFailures: int, budget: Option<int>)
    ensures var k := Kept(s, live, now, minAge);
            && FailureStreak(k) == FailureStreak(s)
            && ExecutionVerdict(k, maxFailures) == ExecutionVerdict(s, maxFailures)
            && DurationVerdict(k, budget) == DurationVerdict(s, budget)
  {
    var k, b := Kept(s, live, now, minAge), if budget.Some? then budget.value else 0;
    KeptTerminals(s, live, now, minAge);
    OnlyTerminalsCount(s, b);
    OnlyTerminalsCount(k, b);
  }

  // ---------- Truncation ----------

  ghost predicate HasSuccess(s: seq<Record>) { exists i :: 0 <= i < |s| && s[i].phase == Succeeded }

  lemma {:induction false} TerminalsAppend(a: seq<Record>, b: seq<Record>)
    ensures Terminals(a + b) == Terminals(a) + Terminals(b)
    decreases |a|
  {
    if a == [] { assert a + b == b; } else {
      assert (a + b)[1..] == a[1..] + b;
      TerminalsAppend(a[1..], b);
    }
  }

  /** Up to the first success an older tail adds its own streak; behind it the tail is not seen. */
  lemma {:induction false} StreakAppend(a: seq<Record>, b: seq<Record>)
    ensures FailureStreak(a + b) == FailureStreak(a) + if HasSuccess(a) then 0 else FailureStreak(b)
    ensures !HasSuccess(a) ==> FailureStreak(a) == |Terminals(a)|
    ensures HasSuccess(a) ==> Terminals(a) != []
    decreases |a|
  {
    if a == [] {
      assert a + b == b;
    } else {
      assert (a + b)[1..] == a[1..] + b;
      StreakAppend(a[1..], b);
      if a[0].phase != Succeeded {
        if HasSuccess(a[1..]) {
          var i :| 0 <= i < |a[1..]| && a[1..][i].phase == Succeeded;
          assert a[i + 1].phase == Succeeded;
        }
        if HasSuccess(a) { var i :| 0 <= i < |a| && a[i].phase == Succeeded; assert a[1..][i - 1].phase == Succeeded; }
      }
    }
  }

  /** The ring already decides the verdict: it holds a success, or enough completed runs. */
  ghost predicate Decides(ring: seq<Record>, maxFailures: int) {
    HasSuccess(ring) || |Terminals(ring)| >= maxFailures
  }

  lemma TailIsIgnored(ring: seq<Record>, tail: seq<Record>, maxFailures: int)
    requires maxFailures >= 1 && Decides(ring, maxFailures)
    ensures ExecutionVerdict(ring + tail, maxFailures) == ExecutionVerdict(ring, maxFailures)
  {
    StreakAppend(ring, tail);
    TerminalsAppend(ring, tail);
  }

  /** What the ring can hold: newest first, one record per Job (`HistoryIsReachable`). */
  ghost predicate IsHistory(s: seq<Record>) { NewestFirst(s) && DistinctNames(s) }

  function LongName(n: nat): (name: string)
    ensures |name| == n
  {
    seq(n, _ => 'a')
  }

  /** `n` failed runs, one before the other from `top` down, each with a longer name. */
  function Failures(n: nat, top: int, length: nat): (s: seq<Record>)
    ensures |s| == n
    ensures forall i :: 0 <= i < n ==> s[i].phase == Failed && s[i].start == top - i && |s[i].jobName| == length + i
  {
    if n == 0 then []
    else [Record(LongName(length), top, None, None, None, None, Failed)] + Failures(n - 1, top - 1, length + 1)
  }

  lemma {:induction false} AllFailed(s: seq<Record>)
    requires forall i :: 0 <= i < |s| ==> s[i].phase == Failed
    ensures FailureStreak(s) == |s| && Terminals(s) == s
    decreases |s|
  {
    if s != [] {
      AllFailed(s[1..]);
      assert s == [s[0]] + s[1..];
    }
  }

  function LongestName(s: seq<Record>): (n: nat)
    ensures forall i :: 0 <= i < |s| ==> |s[i].jobName| <= n
  {
    if s == [] then 0 else
    var rest := LongestName(s[..|s| - 1]);
    if rest < |s[|s| - 1].jobName| then |s[|s| - 1].jobName| else rest
  }

  /** Every history goes back to older failures. */
  lemma OlderFailures(ring: seq<Record>, n: nat) returns (tail: seq<Record>)
    requires IsHistory(ring)
    ensures IsHistory(ring + tail) && |tail| == n && FailureStreak(tail) == n && Terminals(tail) == tail
  {
    var top := if ring == [] then 0 else ring[|ring| - 1].start - 1;
    tail := Failures(n, top, LongestName(ring) + 1);
    AllFailed(tail);
    forall i | 0 <= i < |ring| ensures top < ring[i].start {
      if i < |ring| - 1 { assert Newer(ring[i], ring[|ring| - 1]); }
    }
  }

  /** Truncation is invisible to `ExecutionHealthy` exactly when the ring decides the verdict by itself. */
  lemma TruncationIsInvisibleIff(ring: seq<Record>, maxFailures: int)
    requires maxFailures >= 1 && IsHistory(ring)
    ensures Decides(ring, maxFailures) <==>
              forall tail :: IsHistory(ring + tail) ==>
                ExecutionVerdict(ring + tail, maxFailures) == ExecutionVerdict(ring, maxFailures)
  {
    if Decides(ring, maxFailures) {
      forall tail ensures ExecutionVerdict(ring + tail, maxFailures) == ExecutionVerdict(ring, maxFailures) {
        TailIsIgnored(ring, tail, maxFailures);
      }
    } else {
      var tail := OlderFailures(ring, maxFailures);
      TailIsSeen(ring, tail, maxFailures);
    }
  }

  /** Scanning on behind a history that settles nothing. */
  lemma {:induction false} DurationAppend(a: seq<Record>, b: seq<Record>, budget: int)
    ensures DurationScan(a + b, budget) ==
              if exists r :: r in a && Settles(r, budget) then DurationScan(a, budget) else DurationScan(b, budget)
    decreases |a|
  {
    if a == [] {
      assert a + b == b;
    } else {
      assert (a + b)[1..] == a[1..] + b && a == [a[0]] + a[1..];
      DurationAppend(a[1..], b, budget);
      if Settles(a[0], budget) {
        assert a[0] in a;
      } else {
        assert forall r :: r in a && Settles(r, budget) <==> r in a[1..] && Settles(r, budget);
      }
    }
  }

  /** Every history goes back to an older success of no length. */
  lemma OlderSuccess(ring: seq<Record>) returns (r: Record)
    requires IsHistory(ring)
    ensures IsHistory(ring + [r]) && r.phase == Succeeded && r.duration == Some(0)
  {
    var tail := OlderFailures(ring, 1);
    r := tail[0].(phase := Succeeded, duration := Some(0));
    assert forall i :: 0 <= i < |ring| ==> (ring + tail)[i] == (ring + [r])[i];
    assert (ring + tail)[|ring|] == tail[0];
  }

  /** Truncation is invisible to `DurationHealthy` exactly when the ring holds a run that settles it. */
  lemma TruncationHidesNoDurationIff(ring: seq<Record>, budget: int)
    requires IsHistory(ring)
    ensures (exists r :: r in ring && Settles(r, budget)) <==>
              forall tail :: IsHistory(ring + tail) ==>
                DurationVerdict(ring + tail, Some(budget)) == DurationVerdict(ring, Some(budget))
  {
    if exists r :: r in ring && Settles(r, budget) {
      forall tail ensures DurationVerdict(ring + tail, Some(budget)) == DurationVerdict(ring, Some(budget)) {
        DurationAppend(ring, tail, budget);
      }
    } else {
      var r := OlderSuccess(ring);
      DurationAppend(ring, [r], budget);
      DurationByFirst(ring, budget);
      assert forall i :: 0 <= i < |ring| ==> !Settles(ring[i], budget);
      assert DurationVerdict(ring + [r], Some(budget)) != DurationVerdict(ring, Some(budget));
    }
  }

  lemma TailIsSeen(ring: seq<Record>, tail: seq<Record>, maxFailures: int)
    requires maxFailures >= 1 && !Decides(ring, maxFailures)
    requires FailureStreak(tail) >= maxFailures && Terminals(tail) != []
    ensures ExecutionVerdict(ring + tail, maxFailures) != ExecutionVerdict(ring, maxFailures)
  {
    StreakAppend(ring, tail);
    TerminalsAppend(ring, tail);
  }

  function RunningCount(s: seq<Record>): nat {
    if s == [] then 0 else RunningCount(s[1..]) + if s[0].phase == Running then 1 else 0
  }

  lemma {:induction false} RunningAndTerminals(s: seq<Record>)
    ensures RunningCount(s) + |Terminals(s)| == |s|
    decreases |s|
  {
    if s != [] { RunningAndTerminals(s[1..]); }
  }

  /** A ring whose limit leaves room for the threshold beside its Running records reports as the whole history does. */
  lemma RoomyRingReportsTheWhole(history: seq<Record>, limit: nat, maxFailures: int)
    requires maxFailures >= 1 && limit < |history|
    requires limit - RunningCount(history[..limit]) >= maxFailures
    ensures ExecutionVerdict(history[..limit], maxFailures) == ExecutionVerdict(history, maxFailures)
  {
    RunningAndTerminals(history[..limit]);
    TailIsIgnored(history[..limit], history[limit..], maxFailures);
    assert history[..limit] + history[limit..] == history;
  }

  /** So for every orderly run of merges, the ring reports what the log that forgets nothing would. */
  lemma RingReportsTheLog(batches: seq<seq<Record>>, limit: int, maxFailures: int)
    requires Orderly(batches) && maxFailures >= 1
    requires limit - RunningCount(RingOf(batches, limit)) >= maxFailures
    ensures ExecutionVerdict(RingOf(batches, limit), maxFailures) ==
              ExecutionVerdict(Ordered(LogOf(batches)), maxFailures)
  {
    RingRefinesLog(batches, limit);
    var whole := Ordered(LogOf(batches));
    if limit < |whole| { RoomyRingReportsTheWhole(whole, limit, maxFailures); }
  }

  /**
  The admission rule maxConsecutiveFailures <= historyLimit alone is not enough: with room for two
  records and a threshold of two, one Running record hides the second failure.
  */
  lemma RunningRecordHidesAFailure(run: Record, f: Record, g: Record)
    requires IsHistory([run, f, g]) && run.phase == Running && f.phase == g.phase == Failed
    ensures ExecutionVerdict([run, f, g][..2], 2) == Condition(True, RecentSuccess)
    ensures ExecutionVerdict([run, f, g], 2) == Condition(False, ConsecutiveFailures)
  {
    var whole := [run, f, g];
    var ring := whole[..2];
    assert ring == [run, f] && ring[1..] == [f] && ring[1..][1..] == [];
    assert whole[1..] == [f, g] && whole[1..][1..] == [g] && whole[1..][1..][1..] == [];
    AllFailed([f]);
    AllFailed([f, g]);
  }

  // ---------- Ready ----------

  type Axes = map<Axis, Condition>

  const CHECKED: seq<Axis> := [Reconciled, ScheduleHealthy, ExecutionHealthy, DurationHealthy]

  ghost predicate Reports(c: Axes, a: Axis, st: Status) { a in c && c[a].status == st }

  /** `order[i]` is the first axis that reports `st`. */
  ghost predicate FirstToReport(c: Axes, order: seq<Axis>, i: int, st: Status) {
    0 <= i < |order| && Reports(c, order[i], st) && forall j :: 0 <= j < i ==> !Reports(c, order[j], st)
  }

  ghost predicate NoneReports(c: Axes, order: seq<Axis>, st: Status) {
    forall j :: 0 <= j < |order| ==> !Reports(c, order[j], st)
  }

  /** `Ready`: the first False decides, else the first Unknown, else all checks pass. */
  ghost predicate IsReady(c: Axes, order: seq<Axis>, r: Condition) {
    match r.status
    case False => exists i :: FirstToReport(c, order, i, False) && r.reason == c[order[i]].reason
    case Unknown =>
      && NoneReports(c, order, False)
      && exists i :: FirstToReport(c, order, i, Unknown) && r.reason == c[order[i]].reason
    case True => NoneReports(c, order, False) && NoneReports(c, order, Unknown) && r.reason == AllChecksPass
  }

  /** That fixes the verdict completely. */
  lemma ReadyIsDetermined(c: Axes, order: seq<Axis>, r: Condition, r': Condition)
    requires IsReady(c, order, r) && IsReady(c, order, r')
    ensures r == r'
  {
    if r.status != True && r'.status == r.status {
      var i :| FirstToReport(c, order, i, r.status) && r.reason == c[order[i]].reason;
      var i' :| FirstToReport(c, order, i', r.status) && r'.reason == c[order[i']].reason;
      assert i == i';
    }
  }

  /** Spelled out: the first False of the four in this order decides, else the first Unknown, else all pass. */
  lemma ReadyCascade(c: Axes, r: Condition)
    requires IsReady(c, CHECKED, r)
    ensures r ==
      if Reports(c, Reconciled, False) then Condition(False, c[Reconciled].reason)
      else if Reports(c, ScheduleHealthy, False) then Condition(False, c[ScheduleHealthy].reason)
      else if Reports(c, ExecutionHealthy, False) then Condition(False, c[ExecutionHealthy].reason)
      else if Reports(c, DurationHealthy, False) then Condition(False, c[DurationHealthy].reason)
      else if Reports(c, Reconciled, Unknown) then Condition(Unknown, c[Reconciled].reason)
      else if Reports(c, ScheduleHealthy, Unknown) then Condition(Unknown, c[ScheduleHealthy].reason)
      else if Reports(c, ExecutionHealthy, Unknown) then Condition(Unknown, c[ExecutionHealthy].reason)
      else if Reports(c, DurationHealthy, Unknown) then Condition(Unknown, c[DurationHealthy].reason)
      else Condition(True, AllChecksPass)
  {
    assert CHECKED[0] == Reconciled && CHECKED[1] == ScheduleHealthy;
    assert CHECKED[2] == ExecutionHealthy && CHECKED[3] == DurationHealthy;
  }

  /** An early return is never reported as health: Reconciled=False makes Ready False for its reason. */
  lemma EarlyReturnIsNotReady(c: Axes, r: Condition)
    requires Reports(c, Reconciled, False) && IsReady(c, CHECKED, r)
    ensures r == Condition(False, c[Reconciled].reason)
  {
    assert FirstToReport(c, CHECKED, 0, False);
    ReadyIsDetermined(c, CHECKED, r, Condition(False, c[Reconciled].reason));
  }

  /** Ready is True exactly when every checked axis is. */
  lemma ReadyMeansAllGreen(c: Axes, r: Condition)
    requires IsReady(c, CHECKED, r)
    requires c.Keys >= {Reconciled, ScheduleHealthy, ExecutionHealthy, DurationHealthy}
    ensures r.status == True <==>
              && c[Reconciled].status == c[ScheduleHealthy].status == True
              && c[ExecutionHealthy].status == c[DurationHealthy].status == True
  {
    assert CHECKED[0] == Reconciled && CHECKED[1] == ScheduleHealthy;
    assert CHECKED[2] == ExecutionHealthy && CHECKED[3] == DurationHealthy;
  }
}
