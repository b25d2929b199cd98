/**
What orphan pruning does to a bounded history over whole runs. Pruning a history that was never
truncated cannot be seen in any verdict. Pruning a truncated one makes room that older records can
come back into; this says exactly when, and what the verdicts are worth until then.
*/
module PrunedRuns {
  import opened Basics
  import opened Calendar
  import opened Slots
  import opened Schedule
  import opened Ring
  import opened RingLog
  import opened Conditions
  import opened Trails

  // ---------- Pruning a prefix ----------

  lemma {:induction false} KeptAppend(a: seq<Record>, b: seq<Record>, live: set<string>, now: int, minAge: int)
    ensures Kept(a + b, live, now, minAge) == Kept(a, live, now, minAge) + Kept(b, live, now, minAge)
    decreases |a|
  {
    if a == [] {
      assert a + b == b;
    } else {
      assert (a + b)[1..] == a[1..] + b;
      KeptAppend(a[1..], b, live, now, minAge);
    }
  }

  ghost predicate NoOrphans(s: seq<Record>, live: set<string>, now: int, minAge: int) {
    forall r :: r in s ==> !IsOrphan(r, live, now, minAge)
  }

  ghost predicate OnlyOrphans(s: seq<Record>, live: set<string>, now: int, minAge: int) {
    forall r :: r in s ==> IsOrphan(r, live, now, minAge)
  }

  lemma {:induction false} KeptAll(s: seq<Record>, live: set<string>, now: int, minAge: int)
    ensures |Kept(s, live, now, minAge)| <= |s|
    ensures |Kept(s, live, now, minAge)| == |s| <==> NoOrphans(s, live, now, minAge)
    decreases |s|
  {
    if s != [] {
      KeptAll(s[1..], live, now, minAge);
      assert s == [s[0]] + s[1..];
    }
  }

  lemma KeptNone(s: seq<Record>, live: set<string>, now: int, minAge: int)
    ensures Kept(s, live, now, minAge) == [] <==> OnlyOrphans(s, live, now, minAge)
  {
    var k := Kept(s, live, now, minAge);
    if k != [] { assert k[0] in k; }
  }

  lemma PrefixOfAppend(a: seq<Record>, b: seq<Record>, k: nat)
    requires |a| <= k
    ensures a == Take(a + b, k) <==> |a| == k || b == []
  {
    if |a| == k {
      assert (a + b)[..k] == a;
    } else if b == [] {
      assert a + b == a;
    } else {
      assert |Take(a + b, k)| > |a|;
    }
  }

  /**
  Pruning the front of a history gives the front of the pruned history exactly when there is nothing
  to prune in the front or nothing left behind it.
  */
  lemma PrefixPruneExactly(o: seq<Record>, k: nat, live: set<string>, now: int, minAge: int)
    requires k <= |o|
    ensures Kept(o[..k], live, now, minAge) == Take(Kept(o, live, now, minAge), k) <==>
              NoOrphans(o[..k], live, now, minAge) || OnlyOrphans(o[k..], live, now, minAge)
  {
    var a, b := Kept(o[..k], live, now, minAge), Kept(o[k..], live, now, minAge);
    assert o == o[..k] + o[k..];
    KeptAppend(o[..k], o[k..], live, now, minAge);
    KeptAll(o[..k], live, now, minAge);
    KeptNone(o[k..], live, now, minAge);
    PrefixOfAppend(a, b, k);
  }

  // ---------- A log that prunes but never truncates ----------

  function PruneLog(m: Log, live: set<string>, now: Instant): (p: Log)
    ensures ByName(m) ==> ByName(p)
  {
    map n | n in m && !IsOrphan(m[n], live, now, MINUTE) :: m[n]
  }

  function PrunedAfter(m: Log, e: HistoryEvent): (p: Log)
    ensures ByName(m) ==> ByName(p)
  {
    var seen := Absorb(m, Views(e));
    match e
    case Happy(_, _, live, now) => PruneLog(seen, live, now)
    case Unsatisfied(_, _) => seen
    case PruneOnly(live, now) => PruneLog(seen, live, now)
  }

  function PrunedUpTo(es: seq<HistoryEvent>, k: nat): (m: Log)
    requires k <= |es|
    ensures ByName(m)
  {
    if k == 0 then map[] else PrunedAfter(PrunedUpTo(es, k - 1), es[k - 1])
  }

  /** A newest-first sequence that lists a log is its order. */
  lemma SortedIsOrdered(s: seq<Record>, m: Log)
    requires ByName(m) && NewestFirst(s)
    requires forall r :: r in s <==> r.jobName in m && m[r.jobName] == r
    ensures s == Ordered(m)
  {
    forall i, j | 0 <= i < j < |s| ensures s[i].jobName != s[j].jobName {
      assert s[i] in s && s[j] in s && Newer(s[i], s[j]);
      NewerTotal(s[i], s[i]);
    }
    NamesCount(s);
    SameNames(s, m);
    assert forall i :: 0 <= i < |s| ==> s[i] in s;
    TopIsUnique(s, m, |m|);
  }

  lemma SameNames(s: seq<Record>, m: Log)
    requires ByName(m) && forall r :: r in s <==> r.jobName in m && m[r.jobName] == r
    ensures NamesOf(s) == m.Keys && |NamesOf(s)| == |m|
  {
    forall n | n in m ensures n in NamesOf(s) {
      assert m[n] in s;
      var i :| 0 <= i < |s| && s[i] == m[n];
    }
    forall n | n in NamesOf(s) ensures n in m {
      var i :| 0 <= i < |s| && s[i].jobName == n;
      assert s[i] in s;
    }
    assert |m| == |m.Keys|;
  }

  lemma OrderedMembers(m: Log)
    requires ByName(m)
    ensures forall r :: r in Ordered(m) <==> r.jobName in m && m[r.jobName] == r
  {
    forall r: Record | r.jobName in m && m[r.jobName] == r ensures r in Ordered(m) { OrderedComplete(m, r.jobName); }
  }

  lemma KeptOrdered(m: Log, live: set<string>, now: Instant)
    requires ByName(m)
    ensures Kept(Ordered(m), live, now, MINUTE) == Ordered(PruneLog(m, live, now))
  {
    OrderedSorted(m);
    OrderedMembers(m);
    KeptSorted(Ordered(m), live, now, MINUTE);
    SortedIsOrdered(Kept(Ordered(m), live, now, MINUTE), PruneLog(m, live, now));
  }

  // ---------- Pruning the log cannot be seen ----------

  function Completed(m: Log): (d: Log)
    ensures ByName(m) ==> ByName(d)
  {
    map n | n in m && IsTerminal(m[n].phase) :: m[n]
  }

  lemma {:induction false} TerminalsSorted(s: seq<Record>)
    requires NewestFirst(s)
    ensures NewestFirst(Terminals(s)) && forall r :: r in Terminals(s) <==> r in s && IsTerminal(r.phase)
    decreases |s|
  {
    if s != [] {
      TerminalsSorted(s[1..]);
      var rest := Terminals(s[1..]);
      forall i | 0 <= i < |rest| ensures Newer(s[0], rest[i]) { assert rest[i] in s[1..]; }
      assert s == [s[0]] + s[1..];
    }
  }

  lemma TerminalsOrdered(m: Log)
    requires ByName(m)
    ensures Terminals(Ordered(m)) == Ordered(Completed(m))
  {
    OrderedSorted(m);
    OrderedMembers(m);
    TerminalsSorted(Ordered(m));
    SortedIsOrdered(Terminals(Ordered(m)), Completed(m));
  }

  /** Two bare entries of one name are the same, or neither is a completed run. */
  ghost predicate Level(a: Log, b: Log, n: string) {
    && (n in a ==> Bare(a[n])) && (n in b ==> Bare(b[n]))
    && ((n in a && n in b && a[n] == b[n]) ||
        ((n in a ==> a[n].phase == Running) && (n in b ==> b[n].phase == Running)))
  }

  lemma ViewKeepsLevel(a: Log, b: Log, r: Record)
    requires Bare(r) && Level(a, b, r.jobName)
    ensures Level(AbsorbOne(a, r), AbsorbOne(b, r), r.jobName)
  {}

  lemma {:induction false} BatchKeepsLevel(a: Log, b: Log, s: seq<Record>, n: string)
    requires AllBare(s) && Level(a, b, n)
    ensures Level(Absorb(a, s), Absorb(b, s), n)
    decreases |s|
  {
    if s != [] {
      var front, r := s[..|s| - 1], s[|s| - 1];
      BatchKeepsLevel(a, b, front, n);
      if r.jobName == n { ViewKeepsLevel(Absorb(a, front), Absorb(b, front), r); }
    }
  }

  lemma PruneKeepsLevel(a: Log, b: Log, live: set<string>, now: Instant, n: string)
    requires Level(a, b, n)
    ensures Level(PruneLog(a, live, now), b, n)
  {}

  lemma EventKeepsLevel(p: Log, m: Log, e: HistoryEvent, n: string)
    requires AllBare(Views(e)) && Level(p, m, n)
    ensures Level(PrunedAfter(p, e), Absorb(m, Views(e)), n)
  {
    BatchKeepsLevel(p, m, Views(e), n);
    if !e.Unsatisfied? { PruneKeepsLevel(Absorb(p, Views(e)), Absorb(m, Views(e)), e.live, e.now, n); }
  }

  ghost predicate AllViewsBare(es: seq<HistoryEvent>) { forall i :: 0 <= i < |es| ==> AllBare(Views(es[i])) }

  ghost predicate AllLevel(a: Log, b: Log) { forall n :: Level(a, b, n) }

  lemma EventKeepsAllLevel(p: Log, m: Log, e: HistoryEvent)
    requires AllBare(Views(e)) && AllLevel(p, m)
    ensures AllLevel(PrunedAfter(p, e), Absorb(m, Views(e)))
  {
    forall n ensures Level(PrunedAfter(p, e), Absorb(m, Views(e)), n) {
      assert Level(p, m, n);
      EventKeepsLevel(p, m, e, n);
    }
  }

  lemma {:induction false} PrunedIsLevel(es: seq<HistoryEvent>, k: nat)
    requires k <= |es| && AllViewsBare(es)
    ensures AllLevel(PrunedUpTo(es, k), LogUpTo(es, k))
    decreases k
  {
    if 0 < k {
      PrunedIsLevel(es, k - 1);
      EventKeepsAllLevel(PrunedUpTo(es, k - 1), LogUpTo(es, k - 1), es[k - 1]);
    }
  }

  lemma SameVerdicts(s: seq<Record>, s': seq<Record>, maxFailures: int, budget: Option<int>)
    requires Terminals(s) == Terminals(s')
    ensures ExecutionVerdict(s, maxFailures) == ExecutionVerdict(s', maxFailures)
    ensures DurationVerdict(s, budget) == DurationVerdict(s', budget)
  {
    var b := if budget.Some? then budget.value else 0;
    OnlyTerminalsCount(s, b);
    OnlyTerminalsCount(s', b);
  }

  lemma LevelCompleted(a: Log, b: Log)
    requires AllLevel(a, b)
    ensures Completed(a) == Completed(b)
  {
    forall n ensures n in Completed(a) <==> n in Completed(b) { assert Level(a, b, n); }
    forall n | n in Completed(a) ensures Completed(a)[n] == Completed(b)[n] { assert Level(a, b, n); }
  }

  /** However often a log that is never truncated is pruned, its verdicts are those of the log that forgets nothing. */
  lemma PruningALogIsInvisible(es: seq<HistoryEvent>, k: nat, maxFailures: int, budget: Option<int>)
    requires k <= |es| && AllViewsBare(es)
    ensures var p, m := Ordered(PrunedUpTo(es, k)), Ordered(LogUpTo(es, k));
            && ExecutionVerdict(p, maxFailures) == ExecutionVerdict(m, maxFailures)
            && DurationVerdict(p, budget) == DurationVerdict(m, budget)
  {
    var p, m := PrunedUpTo(es, k), LogUpTo(es, k);
    PrunedIsLevel(es, k);
    LevelCompleted(p, m);
    TerminalsOrdered(p);
    TerminalsOrdered(m);
    SameVerdicts(Ordered(p), Ordered(m), maxFailures, budget);
  }

  // ---------- Records without their annotations ----------

  function Bared(r: Record): Record { r.(expected := None, drift := None) }

  function Stripped(s: seq<Record>): (t: seq<Record>)
    ensures |t| == |s| && forall i :: 0 <= i < |s| ==> t[i] == Bared(s[i])
  {
    seq(|s|, i requires 0 <= i < |s| => Bared(s[i]))
  }

  function StripLog(m: Log): (b: Log)
    ensures b.Keys == m.Keys && (ByName(m) ==> ByName(b))
  {
    map n | n in m :: Bared(m[n])
  }

  lemma BaredSurvivor(prev: Record, r: Record)
    requires Bare(r)
    ensures Bared(Survivor(prev, r)) == Survivor(Bared(prev), r)
  {}

  lemma StripOne(m: Log, r: Record)
    requires Bare(r)
    ensures StripLog(AbsorbOne(m, r)) == AbsorbOne(StripLog(m), r)
  {
    if r.jobName in m { BaredSurvivor(m[r.jobName], r); }
  }

  lemma {:induction false} StripAbsorb(m: Log, s: seq<Record>)
    requires AllBare(s)
    ensures StripLog(Absorb(m, s)) == Absorb(StripLog(m), s)
    decreases |s|
  {
    if s != [] {
      StripAbsorb(m, s[..|s| - 1]);
      StripOne(Absorb(m, s[..|s| - 1]), s[|s| - 1]);
    }
  }

  lemma LoadSnoc(s: seq<Record>, r: Record)
    ensures Load(s + [r]) == Load(s)[r.jobName := r]
  {
    assert (s + [r])[..|s|] == s;
  }

  lemma StripSnoc(s: seq<Record>, r: Record)
    ensures Stripped(s + [r]) == Stripped(s) + [Bared(r)]
  {}

  lemma StripUpdate(m: Log, r: Record)
    ensures StripLog(m[r.jobName := r]) == StripLog(m)[r.jobName := Bared(r)]
  {}

  lemma {:induction false} StripLoad(s: seq<Record>)
    ensures StripLog(Load(s)) == Load(Stripped(s))
    decreases |s|
  {
    if s != [] {
      var front, r := s[..|s| - 1], s[|s| - 1];
      assert s == front + [r];
      StripLoad(front);
      LoadSnoc(front, r);
      StripUpdate(Load(front), r);
      StripSnoc(front, r);
      LoadSnoc(Stripped(front), Bared(r));
    }
  }

  lemma StripMember(s: seq<Record>, r: Record)
    ensures r in s ==> Bared(r) in Stripped(s)
  {
    if r in s {
      var j :| 0 <= j < |s| && s[j] == r;
      assert Stripped(s)[j] == Bared(r);
    }
  }

  lemma StripTop(s: seq<Record>, m: Log, k: nat)
    requires ByName(m) && IsTop(s, m, k)
    ensures IsTop(Stripped(s), StripLog(m), k)
  {
    var t, b := Stripped(s), StripLog(m);
    assert |b| == |b.Keys| == |m.Keys| == |m|;
    forall n, i | n in b && b[n] !in t && 0 <= i < |t| ensures Newer(t[i], b[n]) {
      StripMember(s, m[n]);
    }
  }

  lemma StripMerged(s: seq<Record>, batch: seq<Record>, limit: int)
    requires AllBare(batch)
    ensures Stripped(Merged(s, batch, limit)) == Merged(Stripped(s), batch, limit)
  {
    if 0 < limit {
      var m := Absorb(Load(s), batch);
      StripLoad(s);
      StripAbsorb(Load(s), batch);
      TakeIsTop(m, limit);
      StripTop(Take(Ordered(m), limit), m, limit);
      TopIsUnique(Stripped(Take(Ordered(m), limit)), StripLog(m), limit);
    }
  }

  lemma {:induction false} StripKept(s: seq<Record>, live: set<string>, now: int, minAge: int)
    ensures Stripped(Kept(s, live, now, minAge)) == Kept(Stripped(s), live, now, minAge)
    decreases |s|
  {
    if s != [] {
      StripKept(s[1..], live, now, minAge);
      assert Stripped(s)[1..] == Stripped(s[1..]);
      assert Stripped(s)[0] == Bared(s[0]);
    }
  }

  lemma StripAnnotated(slot: SlotSet, latch: Option<int>, s: seq<Record>, s': seq<Record>)
    requires AnnotatedBy(slot, latch, s, s')
    ensures Stripped(s') == Stripped(s)
  {
    if s' != s {
      forall i | 0 <= i < |s| ensures Bared(s'[i]) == Bared(s[i]) {
        if 0 < i { assert s'[i] == s'[1..][i - 1] == s[1..][i - 1] == s[i]; }
      }
    }
  }

  lemma {:induction false} StripVerdict(s: seq<Record>, maxFailures: int)
    ensures FailureStreak(Stripped(s)) == FailureStreak(s) && |Terminals(Stripped(s))| == |Terminals(s)|
    ensures RunningCount(Stripped(s)) == RunningCount(s)
    ensures ExecutionVerdict(Stripped(s), maxFailures) == ExecutionVerdict(s, maxFailures)
    decreases |s|
  {
    if s != [] {
      StripVerdict(s[1..], maxFailures);
      assert Stripped(s)[1..] == Stripped(s[1..]);
      assert Stripped(s)[0] == Bared(s[0]);
    }
  }

  // ---------- The ring as the front of the pruned log ----------

  /** The ring, without annotations, is the front of `m`. */
  ghost predicate IsFront(s: seq<Record>, m: Log, limit: int)
    requires ByName(m)
  {
    Stripped(s) == Take(Ordered(m), limit)
  }

  /** The ring a reconcile is about to prune has nothing to prune, or nothing but orphans was truncated off it. */
  ghost predicate PruneFits(m: Log, limit: nat, live: set<string>, now: Instant)
    requires ByName(m)
  {
    var o := Ordered(m);
    limit < |o| ==> NoOrphans(o[..limit], live, now, MINUTE) || OnlyOrphans(o[limit..], live, now, MINUTE)
  }

  ghost predicate Fits(m: Log, limit: nat, e: HistoryEvent)
    requires ByName(m)
  {
    !e.Unsatisfied? ==> PruneFits(Absorb(m, Views(e)), limit, e.live, e.now)
  }

  lemma PruneFront(s: seq<Record>, m: Log, limit: nat, live: set<string>, now: Instant)
    requires ByName(m) && IsFront(s, m, limit)
    ensures IsFront(Kept(s, live, now, MINUTE), PruneLog(m, live, now), limit) <==> PruneFits(m, limit, live, now)
  {
    var o := Ordered(m);
    StripKept(s, live, now, MINUTE);
    KeptOrdered(m, live, now);
    if limit < |o| {
      PrefixPruneExactly(o, limit, live, now, MINUTE);
    } else {
      KeptAll(o, live, now, MINUTE);
    }
  }

  lemma MergeFront(s: seq<Record>, m: Log, batch: seq<Record>, limit: nat)
    requires ByName(m) && IsFront(s, m, limit) && AllBare(batch) && Settled(m, batch)
    ensures IsFront(Merged(s, batch, limit), Absorb(m, batch), limit)
  {
    StripMerged(s, batch, limit);
    MergeStep(Stripped(s), m, batch, limit);
  }

  ghost predicate LimitIs(e: HistoryEvent, limit: nat) { !e.PruneOnly? ==> e.limit == limit }

  lemma StepFront(slot: SlotSet, h: Trail, e: HistoryEvent, h': Trail, m: Log, limit: nat)
    requires HistoryStep(slot, h, e, h') && ByName(m) && IsFront(h.ring, m, limit)
    requires LimitIs(e, limit) && AllBare(Views(e)) && Settled(m, Views(e))
    ensures IsFront(h'.ring, PrunedAfter(m, e), limit) <==> Fits(m, limit, e)
  {
    match e {
      case Happy(batch, _, live, now) =>
        var merged := Merged(h.ring, batch, limit);
        var s :| AnnotatedBy(slot, h'.latch, merged, s) && h'.ring == Kept(s, live, now, MINUTE);
        MergeFront(h.ring, m, batch, limit);
        StripAnnotated(slot, h'.latch, merged, s);
        PruneFront(s, Absorb(m, batch), limit, live, now);
      case Unsatisfied(batch, _) => MergeFront(h.ring, m, batch, limit);
      case PruneOnly(live, now) => PruneFront(h.ring, m, limit, live, now);
    }
  }

  /** The `i`-th listing is merged to this limit and moves no record of the pruned log back. */
  ghost predicate OrderlyAt(es: seq<HistoryEvent>, i: nat, limit: nat) {
    i < |es| && LimitIs(es[i], limit) && Settled(PrunedUpTo(es, i), Views(es[i]))
  }

  /** One limit, fresh views, and no listing that moves a record of the pruned log back. */
  ghost predicate OrderlyRun(es: seq<HistoryEvent>, limit: nat) {
    AllViewsBare(es) && forall i: nat :: i < |es| ==> OrderlyAt(es, i, limit)
  }

  /** The `i`-th prune, if it is one, fits. */
  ghost predicate FitsAt(es: seq<HistoryEvent>, i: nat, limit: nat) {
    i < |es| && Fits(PrunedUpTo(es, i), limit, es[i])
  }

  /** What never steps back on a log does not on a log behind it. */
  lemma {:induction false} BehindNeverStepsBack(a: Log, m: Log, s: seq<Record>)
    requires NoStepBack(m, s) && forall n :: n in a ==> n in m && a[n].start <= m[n].start
    ensures NoStepBack(a, s)
    decreases |s|
  {
    if s != [] {
      BehindNeverStepsBack(a, m, s[..|s| - 1]);
      StartFollows(a, m, s[..|s| - 1], s[|s| - 1].jobName);
    }
  }

  ghost predicate Behind(a: Log, b: Log) { forall n :: n in a ==> n in b && a[n].start <= b[n].start }

  lemma EventStaysBehind(p: Log, m: Log, e: HistoryEvent)
    requires NoStepBack(m, Views(e)) && Behind(p, m)
    ensures Behind(PrunedAfter(p, e), Absorb(m, Views(e)))
  {
    var q, big := PrunedAfter(p, e), Absorb(m, Views(e));
    forall n | n in q ensures n in big && q[n].start <= big[n].start { StartFollows(p, m, Views(e), n); }
  }

  lemma StepStaysBehind(es: seq<HistoryEvent>, k: nat)
    requires 0 < k <= |es| && ForwardAt(es, k - 1) && Behind(PrunedUpTo(es, k - 1), LogUpTo(es, k - 1))
    ensures Behind(PrunedUpTo(es, k), LogUpTo(es, k))
  {
    EventStaysBehind(PrunedUpTo(es, k - 1), LogUpTo(es, k - 1), es[k - 1]);
  }

  lemma {:induction false} PrunedStaysBehind(es: seq<HistoryEvent>, k: nat)
    requires k <= |es| && forall i: nat :: i < k ==> ForwardAt(es, i)
    ensures Behind(PrunedUpTo(es, k), LogUpTo(es, k))
    decreases k
  {
    if k == 0 {
      assert PrunedUpTo(es, k) == map[];
    } else {
      PrunedStaysBehind(es, k - 1);
      assert ForwardAt(es, k - 1);
      StepStaysBehind(es, k);
    }
  }

  lemma BareIsSettled(m: Log, s: seq<Record>)
    requires NoStepBack(m, s) && AllBare(s) && forall n :: n in m ==> Bare(m[n])
    ensures Settled(m, s)
  {
    forall n | n in m ensures m[n].start <= Absorb(m, s)[n].start { StartFollows(m, m, s, n); }
  }

  /** Views that never start before the whole log's record of their name make an orderly run. */
  lemma NeverBackIsOrderlyRun(es: seq<HistoryEvent>, limit: nat)
    requires AllViewsBare(es) && forall i :: 0 <= i < |es| ==> LimitIs(es[i], limit)
    requires forall i: nat :: i < |es| ==> ForwardAt(es, i)
    ensures OrderlyRun(es, limit)
  {
    forall i: nat | i < |es| ensures OrderlyAt(es, i, limit) { NeverBackSettles(es, i); }
  }

  lemma NeverBackSettles(es: seq<HistoryEvent>, i: nat)
    requires i < |es| && AllViewsBare(es) && forall j: nat :: j <= i ==> ForwardAt(es, j)
    ensures Settled(PrunedUpTo(es, i), Views(es[i]))
  {
    var p, m := PrunedUpTo(es, i), LogUpTo(es, i);
    PrunedIsLevel(es, i);
    forall n | n in p ensures Bare(p[n]) { assert Level(p, m, n); }
    PrunedStaysBehind(es, i);
    assert ForwardAt(es, i);
    BehindNeverStepsBack(p, m, Views(es[i]));
    BareIsSettled(p, Views(es[i]));
  }

  lemma {:induction false} FittingRun(slot: SlotSet, hs: seq<Trail>, es: seq<HistoryEvent>, limit: nat, k: nat)
    requires HistoryRun(slot, hs, es) && OrderlyRun(es, limit) && k < |hs|
    requires forall i: nat :: i < k ==> FitsAt(es, i, limit)
    ensures IsFront(hs[k].ring, PrunedUpTo(es, k), limit)
    decreases k
  {
    if 0 < k {
      var i := k - 1;
      FittingRun(slot, hs, es, limit, i);
      assert HistoryStep(slot, hs[i], es[i], hs[i + 1]) && OrderlyAt(es, i, limit) && FitsAt(es, i, limit);
      StepFront(slot, hs[i], es[i], hs[k], PrunedUpTo(es, i), limit);
    }
  }

  /**
  Over an orderly run the ring is at all times the front of the log that prunes but never truncates,
  exactly when every prune finds nothing to drop from the ring or only orphans truncated off it.
  */
  lemma RingRefinesPrunedLogExactly(slot: SlotSet, hs: seq<Trail>, es: seq<HistoryEvent>, limit: nat)
    requires HistoryRun(slot, hs, es) && OrderlyRun(es, limit)
    ensures (forall k :: 0 <= k < |hs| ==> IsFront(hs[k].ring, PrunedUpTo(es, k), limit)) <==>
            (forall i: nat :: i < |es| ==> FitsAt(es, i, limit))
  {
    if forall k :: 0 <= k < |hs| ==> IsFront(hs[k].ring, PrunedUpTo(es, k), limit) {
      forall i: nat | i < |es| ensures FitsAt(es, i, limit) {
        assert HistoryStep(slot, hs[i], es[i], hs[i + 1]) && OrderlyAt(es, i, limit);
        StepFront(slot, hs[i], es[i], hs[i + 1], PrunedUpTo(es, i), limit);
      }
    }
    if forall i: nat :: i < |es| ==> FitsAt(es, i, limit) {
      forall k | 0 <= k < |hs| ensures IsFront(hs[k].ring, PrunedUpTo(es, k), limit) {
        FittingRun(slot, hs, es, limit, k);
      }
    }
  }

  lemma FrontReports(s: seq<Record>, m: Log, limit: nat, maxFailures: int)
    requires ByName(m) && IsFront(s, m, limit) && maxFailures >= 1 && limit - RunningCount(s) >= maxFailures
    ensures ExecutionVerdict(s, maxFailures) == ExecutionVerdict(Ordered(m), maxFailures)
  {
    StripVerdict(s, maxFailures);
    if limit < |Ordered(m)| { RoomyRingReportsTheWhole(Ordered(m), limit, maxFailures); }
  }

  /**
  So while every prune fits, a ring with the threshold's room beside its Running records reports what
  the log that forgets nothing would, through merges, annotations and prunes.
  */
  lemma FittingRingReportsTheLog(slot: SlotSet, hs: seq<Trail>, es: seq<HistoryEvent>, limit: nat, k: nat,
                                 maxFailures: int)
    requires HistoryRun(slot, hs, es) && OrderlyRun(es, limit) && k < |hs|
    requires forall i: nat :: i < k ==> FitsAt(es, i, limit)
    requires maxFailures >= 1 && limit - RunningCount(hs[k].ring) >= maxFailures
    ensures ExecutionVerdict(hs[k].ring, maxFailures) == ExecutionVerdict(Ordered(LogUpTo(es, k)), maxFailures)
  {
    FittingRun(slot, hs, es, limit, k);
    FrontReports(hs[k].ring, PrunedUpTo(es, k), limit, maxFailures);
    PruningALogIsInvisible(es, k, maxFailures, None);
  }

  // ---------- A prune that does not fit ----------

  /** A record always has an annotation its start deserves. */
  lemma Annotation(slot: SlotSet, r: Record) returns (r': Record)
    requires Bare(r)
    ensures Reannotated(slot, r, r')
  {
    r' := r;
    if SlotInWindow(slot, r.start) {
      var p := LastSlot(slot, Floor(r.start), r.start);
      WindowDrift(slot, r.start, p);
      r' := r.(expected := Some(p), drift := Some(DriftSeconds(r.start, p)));
    }
  }

  lemma LastSlot(slot: SlotSet, floor: Instant, at: Instant) returns (p: Instant)
    requires !Vacant(slot, floor, at)
    ensures IsLastUpTo(slot, at, p)
  {
    ghost var t :| floor < t <= at && slot(t);
    p := at;
    while !slot(p)
      invariant t <= p <= at && Vacant(slot, p, at)
      decreases p - t
    {
      p := p - 1;
    }
  }

  /** A Running record, an older success and a failure older still. */
  ghost predicate IsTrio(b: seq<Record>) {
    && |b| == 3 && IsHistory(b) && AllBare(b) && b[2].start < b[1].start < b[0].start
    && b[0].phase == Running && b[1].phase == Succeeded && b[2].phase == ExecutionPhase.Failed
  }

  /** All three are listed; the Running Job disappears; only the failed one is still listed. */
  ghost predicate TrioEvents(es: seq<HistoryEvent>, b: seq<Record>, now: Instant) {
    && |b| == |es| == 3
    && es[0] == Happy(b, 1, {b[0].jobName}, now) && es[1] == PruneOnly({}, now) && es[2] == Happy([b[2]], 1, {}, now)
  }

  /** A first listing is its own log, and a ring of one keeps its front. */
  lemma FirstListing(b: seq<Record>)
    requires IsHistory(b) && b != []
    ensures Ordered(Absorb(map[], b)) == b && Merged([], b, 1) == [b[0]]
  {
    var m := Absorb(map[], b);
    HistoryIsReachable(b);
    NamesCount(b);
    assert |m| == |m.Keys| == |b|;
    assert Load([]) == map[];
    assert Take(b, 1) == [b[0]];
  }

  /** Listing one of its Jobs again adds nothing. */
  lemma ListedAgain(b: seq<Record>, i: nat)
    requires IsHistory(b) && i < |b|
    ensures Absorb(Absorb(map[], b), [b[i]]) == Absorb(map[], b)
  {
    var m := Absorb(map[], b);
    AbsorbDistinct(map[], b, i);
    SingleLogs(m, b[i]);
    SurvivorIsStable(b[i], b[i]);
    assert m[b[i].jobName := b[i]] == m;
  }

  lemma LatchOfOne(last: Option<int>, r: Record)
    ensures LatchStart(last, [r]) == if last.None? || r.start > last.value then Some(r.start) else last
  {
    assert [r][..0] == [];
  }

  /** A happy reconcile that leaves one record in the ring. */
  lemma HappyOne(slot: SlotSet, latch: Option<int>, batch: seq<Record>, r: Record, r': Record,
                 live: set<string>, now: Instant, latch': Option<int>)
    requires Merged([], batch, 1) == [r] && latch' == LatchStart(latch, [r])
    requires AnnotatedBy(slot, latch', [r], [r']) && (r'.jobName in live || IsTerminal(r'.phase))
    ensures HistoryStep(slot, Trail([], latch), Happy(batch, 1, live, now), Trail([r'], latch'))
  {
    KeptAlone(r', live, now);
    assert Trails.Finished(slot, latch', [r], live, now, [r']);
  }

  lemma OnlyReannotated(slot: SlotSet, r: Record, r': Record)
    requires Reannotated(slot, r, r')
    ensures AnnotatedBy(slot, Some(r.start), [r], [r'])
  {}

  lemma TrioStart(slot: SlotSet, b: seq<Record>, r': Record, now: Instant)
    requires IsTrio(b) && Reannotated(slot, b[0], r')
    ensures HistoryStep(slot, Trail([], None), Happy(b, 1, {b[0].jobName}, now), Trail([r'], Some(b[0].start)))
  {
    var r := b[0];
    assert Merged([], b, 1) == [r] by { FirstListing(b); }
    LatchOfOne(None, r);
    OnlyReannotated(slot, r, r');
    HappyOne(slot, None, b, b[0], r', {b[0].jobName}, now, Some(b[0].start));
  }

  lemma TrioEnd(slot: SlotSet, f: Record, latch: int, now: Instant)
    requires Bare(f) && f.phase == ExecutionPhase.Failed && f.start < latch
    ensures HistoryStep(slot, Trail([], Some(latch)), Happy([f], 1, {}, now), Trail([f], Some(latch)))
  {
    FirstListing([f]);
    LatchOfOne(Some(latch), f);
    HappyOne(slot, Some(latch), [f], f, f, {}, now, Some(latch));
  }

  lemma PrunedAway(slot: SlotSet, r: Record, latch: Option<int>, now: Instant)
    requires r.phase == Running && now - r.start >= MINUTE
    ensures HistoryStep(slot, Trail([r], latch), PruneOnly({}, now), Trail([], latch))
  {
    assert [r][1..] == [];
  }

  lemma TrioVerdicts(b: seq<Record>)
    requires IsTrio(b)
    ensures ExecutionVerdict([b[2]], 1) == Condition(False, ConsecutiveFailures) && RunningCount([b[2]]) == 0
    ensures ExecutionVerdict(b, 1) == Condition(True, RecentSuccess)
  {
    assert [b[2]][1..] == [];
    assert b[1..][0] == b[1];
    assert FailureStreak(b[1..]) == 0 && Terminals(b[1..]) != [];
  }

  lemma TrioLog(b: seq<Record>, es: seq<HistoryEvent>)
    requires IsTrio(b) && |es| == 3 && Views(es[0]) == b && Views(es[1]) == [] && Views(es[2]) == [b[2]]
    ensures Ordered(LogUpTo(es, |es|)) == b
  {
    FirstListing(b);
    ListedAgain(b, 2);
    assert LogUpTo(es, 0) == map[];
    assert LogUpTo(es, 1) == Absorb(map[], b);
    assert LogUpTo(es, 2) == LogUpTo(es, 1);
  }

  /** Three linked steps of any kind. */
  lemma Linked<S, E>(step: (S, E, S) -> bool, hs: seq<S>, es: seq<E>)
    requires |hs| == 4 && |es| == 3
    requires step(hs[0], es[0], hs[1]) && step(hs[1], es[1], hs[2]) && step(hs[2], es[2], hs[3])
    ensures forall i :: 0 <= i < |es| ==> step(hs[i], es[i], hs[i + 1])
  {
    forall i | 0 <= i < |es| ensures step(hs[i], es[i], hs[i + 1]) {
      if i != 0 && i != 1 { assert i == 2; }
    }
  }

  lemma TrioHistory(slot: SlotSet, b: seq<Record>, es: seq<HistoryEvent>, now: Instant) returns (hs: seq<Trail>)
    requires IsTrio(b) && now - b[0].start >= MINUTE && TrioEvents(es, b, now)
    ensures HistoryRun(slot, hs, es) && hs[3].ring == [b[2]]
  {
    var r := Annotation(slot, b[0]);
    var latch := Some(b[0].start);
    hs := [Trail([], None), Trail([r], latch), Trail([], latch), Trail([b[2]], latch)];
    ghost var step := (h: Trail, e: HistoryEvent, h': Trail) => HistoryStep(slot, h, e, h');
    assert step(hs[0], es[0], hs[1]) by { TrioStart(slot, b, r, now); }
    assert step(hs[1], es[1], hs[2]) by { PrunedAway(slot, r, latch, now); }
    assert step(hs[2], es[2], hs[3]) by { TrioEnd(slot, b[2], b[0].start, now); }
    Linked(step, hs, es);
    forall i | 0 <= i < |es| ensures HistoryStep(slot, hs[i], es[i], hs[i + 1]) { assert step(hs[i], es[i], hs[i + 1]); }
  }

  /**
  A ring of one, a threshold of one. The prune drops the Running record and leaves an empty ring in
  front of a success that was truncated; the older failure is listed again and takes the place. The
  ring then reports a failing Job, and the log that forgets nothing a healthy one. No view steps back.
  */
  lemma PruneHidesASuccess(slot: SlotSet, b: seq<Record>, es: seq<HistoryEvent>, now: Instant) returns (hs: seq<Trail>)
    requires IsTrio(b) && now - b[0].start >= MINUTE && TrioEvents(es, b, now)
    ensures HistoryRun(slot, hs, es) && hs[3].ring == [b[2]] && RunningCount(hs[3].ring) == 0
    ensures ExecutionVerdict(hs[3].ring, 1) == Condition(False, ConsecutiveFailures)
    ensures ExecutionVerdict(Ordered(LogUpTo(es, |es|)), 1) == Condition(True, RecentSuccess)
  {
    hs := TrioHistory(slot, b, es, now);
    TrioVerdicts(b);
    TrioLog(b, es);
  }

  lemma ListingKeepsAll(b: seq<Record>, live: set<string>, now: Instant)
    requires IsHistory(b) && b != [] && NoOrphans(b, live, now, MINUTE)
    ensures PruneLog(Absorb(map[], b), live, now) == Absorb(map[], b)
  {
    var m := Absorb(map[], b);
    FirstListing(b);
    forall n | n in m ensures !IsOrphan(m[n], live, now, MINUTE) { OrderedComplete(m, n); }
  }

  lemma ListedAgainIsSettled(m: Log, r: Record)
    requires r.jobName in m && m[r.jobName] == r
    ensures Settled(m, [r])
  {
    SingleLogs(m, r);
    SurvivorIsStable(r, r);
  }

  lemma NothingIsSettled(m: Log)
    ensures Settled(m, [])
  {}

  lemma TrioPruned(b: seq<Record>, es: seq<HistoryEvent>, now: Instant)
    requires IsTrio(b) && TrioEvents(es, b, now)
    ensures PrunedUpTo(es, 0) == map[] && PrunedUpTo(es, 1) == Absorb(map[], b)
    ensures PrunedUpTo(es, 2) == PruneLog(Absorb(map[], b), {}, now)
  {
    ListingKeepsAll(b, {b[0].jobName}, now);
    assert PrunedUpTo(es, 0) == map[];
    assert PrunedUpTo(es, 1) == PrunedAfter(map[], es[0]);
    assert PrunedUpTo(es, 2) == PrunedAfter(PrunedUpTo(es, 1), es[1]);
  }

  /** An orphan in the front of a history and a record behind it that is none. */
  lemma Misfit(m: Log, limit: nat, live: set<string>, now: Instant, i: nat, j: nat)
    requires ByName(m) && i < limit <= j < |Ordered(m)|
    requires IsOrphan(Ordered(m)[i], live, now, MINUTE) && !IsOrphan(Ordered(m)[j], live, now, MINUTE)
    ensures !PruneFits(m, limit, live, now)
  {
    var o := Ordered(m);
    assert o[..limit][i] == o[i] && o[limit..][j - limit] == o[j];
  }

  lemma TrioSettled(b: seq<Record>, now: Instant)
    requires IsTrio(b)
    ensures Settled(map[], b) && Settled(Absorb(map[], b), []) && Settled(PruneLog(Absorb(map[], b), {}, now), [b[2]])
  {
    AbsorbDistinct(map[], b, 2);
    NothingIsSettled(Absorb(map[], b));
    ListedAgainIsSettled(PruneLog(Absorb(map[], b), {}, now), b[2]);
  }

  lemma OrderlyThree(es: seq<HistoryEvent>, limit: nat)
    requires |es| == 3 && AllBare(Views(es[0])) && AllBare(Views(es[1])) && AllBare(Views(es[2]))
    requires OrderlyAt(es, 0, limit) && OrderlyAt(es, 1, limit) && OrderlyAt(es, 2, limit)
    ensures OrderlyRun(es, limit)
  {
    forall i: nat | i < |es| ensures AllBare(Views(es[i])) && OrderlyAt(es, i, limit) {
      if i != 0 && i != 1 { assert i == 2; }
    }
  }

  /** That run is orderly. */
  lemma TrioIsOrderly(b: seq<Record>, es: seq<HistoryEvent>, now: Instant)
    requires IsTrio(b) && TrioEvents(es, b, now)
    ensures OrderlyRun(es, 1)
  {
    TrioPruned(b, es, now);
    TrioSettled(b, now);
    OrderlyThree(es, 1);
  }

  lemma EventMisfits(b: seq<Record>, m: Log, e: HistoryEvent, now: Instant)
    requires IsTrio(b) && now - b[0].start >= MINUTE && ByName(m) && Ordered(m) == b && e == PruneOnly({}, now)
    ensures !Fits(m, 1, e)
  {
    Misfit(m, 1, {}, now, 0, 1);
  }

  /** Only its prune does not fit. */
  lemma TrioMisfits(b: seq<Record>, es: seq<HistoryEvent>, now: Instant)
    requires IsTrio(b) && now - b[0].start >= MINUTE && TrioEvents(es, b, now)
    ensures !FitsAt(es, 1, 1)
  {
    TrioPruned(b, es, now);
    FirstListing(b);
    EventMisfits(b, Absorb(map[], b), es[1], now);
  }
}
