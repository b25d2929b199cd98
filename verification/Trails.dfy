/**
The execution history of one monitor over whole runs: its latches and drift annotations, and what
holds in every history a run of reconciles can reach.
*/
module Trails {
  import opened Basics
  import opened Calendar
  import opened Slots
  import opened Schedule
  import opened Ring
  import opened RingLog
  import opened Conditions

  // ---------- Latches ----------

  /** When a completed run ended, as far as it is known. */
  function EndOrStart(r: Record): int { if r.end.Some? then r.end.value else r.start }

  /** The latest end among records of one phase; the latch never rolls back. */
  function LatchEnd(last: Option<int>, s: seq<Record>, phase: ExecutionPhase): Option<int> {
    if s == [] then last else
    var before, r := LatchEnd(last, s[..|s| - 1], phase), s[|s| - 1];
    if r.phase == phase && (before.None? || EndOrStart(r) > before.value) then Some(EndOrStart(r)) else before
  }

  /** A latch holds the maximum of what it held and of everything it was shown. */
  lemma {:induction false} LatchIsMaximum(last: Option<int>, s: seq<Record>, phase: ExecutionPhase)
    ensures var l := LatchEnd(last, s, phase);
            && (last.Some? ==> l.Some? && last.value <= l.value)
            && (forall r :: r in s && r.phase == phase ==>
                  l.Some? && (if r.end.Some? then r.end.value else r.start) <= l.value)
            && (l.Some? ==> l == last || exists r ::
                  r in s && r.phase == phase && l.value == if r.end.Some? then r.end.value else r.start)
    decreases |s|
  {
    if s != [] {
      var front, x := s[..|s| - 1], s[|s| - 1];
      LatchIsMaximum(last, front, phase);
      assert s == front + [x];
      var l, b := LatchEnd(last, s, phase), LatchEnd(last, front, phase);
      if l.Some? && l != last {
        if l == b {
          var r :| r in front && r.phase == phase && l == Some(EndOrStart(r));
          assert r in s;
        } else {
          assert x in s && x.phase == phase && l == Some(EndOrStart(x));
        }
      }
    }
  }

  // ---------- Drift annotation ----------

  /** `at` lies `d` whole seconds after `p`. */
  ghost predicate SecondsAfter(p: Instant, d: int, at: Instant) {
    p + d * 1_000_000_000 <= at < p + (d + 1) * 1_000_000_000
  }

  /** An annotation that names the record's own slot: the last one at or before its start. */
  ghost predicate OwnSlot(slot: SlotSet, r: Record) {
    && (r.expected.Some? <==> r.drift.Some?)
    && (r.expected.Some? ==>
          && IsLastUpTo(slot, r.start, r.expected.value)
          && SecondsAfter(r.expected.value, r.drift.value, r.start)
          && 0 <= r.drift.value <= 3653 * 86_400)
  }

  ghost predicate AllOwn(slot: SlotSet, s: seq<Record>) { forall r :: r in s ==> OwnSlot(slot, r) }

  /** The record with the annotation its start time deserves. */
  ghost predicate Reannotated(slot: SlotSet, r: Record, r': Record) {
    && r' == r.(expected := r'.expected, drift := r'.drift)
    && OwnSlot(slot, r')
    && (r'.expected.Some? <==> SlotInWindow(slot, r.start))
  }

  /** Only the front record, and only when it is the run the latch refers to, is annotated. */
  ghost predicate AnnotatedBy(slot: SlotSet, latch: Option<int>, s: seq<Record>, s': seq<Record>) {
    if latch.None? || s == [] || s[0].start != latch.value then s' == s
    else |s'| == |s| && s'[1..] == s[1..] && Reannotated(slot, s[0], s'[0])
  }

  /** The published drift: distance to the run's own slot, 0 when there is none, and always small. */
  ghost predicate IsDriftOf(slot: SlotSet, at: Instant, d: int) {
    && 0 <= d <= 3653 * 86_400
    && (if SlotInWindow(slot, at) then exists p :: IsLastUpTo(slot, at, p) && SecondsAfter(p, d, at) else d == 0)
  }

  // ---------- Runs of the history ----------

  /** What the history of a status consists of. */
  datatype Trail = Trail(ring: seq<Record>, latch: Option<int>)

  /** How a reconcile whose status write landed can change the history. */
  datatype HistoryEvent =
    | Happy(batch: seq<Record>, limit: int, live: set<string>, now: Instant)
    | Unsatisfied(batch: seq<Record>, limit: int)
    | PruneOnly(live: set<string>, now: Instant)

  /** The merged history, annotated and then pruned. */
  ghost predicate Finished(slot: SlotSet, latch: Option<int>, merged: seq<Record>, live: set<string>, now: Instant,
                           ring: seq<Record>) {
    exists s :: AnnotatedBy(slot, latch, merged, s) && ring == Kept(s, live, now, MINUTE)
  }

  ghost predicate HistoryStep(slot: SlotSet, h: Trail, e: HistoryEvent, h': Trail) {
    match e
    case Happy(batch, limit, live, now) =>
      var merged := Merged(h.ring, batch, limit);
      && h'.latch == LatchStart(h.latch, merged)
      && Finished(slot, h'.latch, merged, live, now, h'.ring)
    case Unsatisfied(batch, limit) =>
      h'.ring == Merged(h.ring, batch, limit) && h'.latch == LatchStart(h.latch, h'.ring)
    case PruneOnly(live, now) =>
      h'.ring == Kept(h.ring, live, now, MINUTE) && h'.latch == h.latch
  }

  /** The Job views a reconcile merges. */
  function Views(e: HistoryEvent): seq<Record> { if e.PruneOnly? then [] else e.batch }

  /** Fresh observations carry no annotation and report one start time per Job name. */
  ghost predicate FairEvent(e: HistoryEvent, startOf: StartFn) { AllBare(Views(e)) && StartsBy(Views(e), startOf) }

  /** Absorbing fresh views leaves a known name its annotation and gives a new one none. */
  lemma {:induction false} AbsorbCarries(m: Log, batch: seq<Record>, n: string)
    requires AllBare(batch) && n in Absorb(m, batch)
    ensures var x := Absorb(m, batch)[n];
            if n in m then x.expected == m[n].expected && x.drift == m[n].drift else Bare(x)
    decreases |batch|
  {
    if batch != [] && n in Absorb(m, batch[..|batch| - 1]) { AbsorbCarries(m, batch[..|batch| - 1], n); }
  }

  /** The annotation of a merged record is that of its predecessor in the ring. */
  lemma MergedCarries(s: seq<Record>, batch: seq<Record>, limit: int, x: Record)
    requires AllBare(batch) && x in Merged(s, batch, limit)
    ensures var n := x.jobName;
            if n in NamesOf(s) then Load(s)[n] in s && x.expected == Load(s)[n].expected && x.drift == Load(s)[n].drift
            else Bare(x)
    ensures x.jobName in Absorb(Load(s), batch) && Absorb(Load(s), batch)[x.jobName] == x
  {
    var m, n := Absorb(Load(s), batch), x.jobName;
    TakeIsTop(m, limit);
    AbsorbCarries(Load(s), batch, n);
    if n in NamesOf(s) { LoadLast(s, n); }
  }

  lemma LoadStarts(s: seq<Record>, startOf: StartFn)
    requires StartsBy(s, startOf)
    ensures LogStartsBy(Load(s), startOf)
  {
    forall n | n in Load(s) ensures Load(s)[n].start == startOf(n) {
      LoadLast(s, n);
      var i :| 0 <= i < |s| && s[i] == Load(s)[n];
    }
  }

  lemma MergeKeepsOwn(slot: SlotSet, s: seq<Record>, batch: seq<Record>, limit: int, startOf: StartFn)
    requires AllOwn(slot, s) && StartsBy(s, startOf) && StartsBy(batch, startOf) && AllBare(batch)
    ensures AllOwn(slot, Merged(s, batch, limit)) && StartsBy(Merged(s, batch, limit), startOf)
  {
    LoadStarts(s, startOf);
    OneStartNeverStepsBack(Load(s), batch, startOf);
    forall x | x in Merged(s, batch, limit) ensures OwnSlot(slot, x) && x.start == startOf(x.jobName) {
      MergedCarries(s, batch, limit, x);
    }
  }

  lemma StepKeepsOwn(slot: SlotSet, h: Trail, e: HistoryEvent, h': Trail, startOf: StartFn)
    requires HistoryStep(slot, h, e, h') && FairEvent(e, startOf)
    requires AllOwn(slot, h.ring) && StartsBy(h.ring, startOf)
    ensures AllOwn(slot, h'.ring) && StartsBy(h'.ring, startOf)
  {
    match e {
      case Happy(batch, limit, live, now) =>
        var merged := Merged(h.ring, batch, limit);
        MergeKeepsOwn(slot, h.ring, batch, limit, startOf);
        var s :| AnnotatedBy(slot, h'.latch, merged, s) && h'.ring == Kept(s, live, now, MINUTE);
        AnnotationKeepsOwn(slot, h'.latch, merged, s, startOf);
        KeptKeepsOwn(slot, s, live, now, startOf);
      case Unsatisfied(batch, limit) => MergeKeepsOwn(slot, h.ring, batch, limit, startOf);
      case PruneOnly(live, now) => KeptKeepsOwn(slot, h.ring, live, now, startOf);
    }
  }

  lemma AnnotationKeepsOwn(slot: SlotSet, latch: Option<int>, s: seq<Record>, s': seq<Record>, startOf: StartFn)
    requires AnnotatedBy(slot, latch, s, s') && AllOwn(slot, s) && StartsBy(s, startOf)
    ensures AllOwn(slot, s') && StartsBy(s', startOf)
  {
    if s' != s {
      forall i | 0 <= i < |s'| ensures OwnSlot(slot, s'[i]) && s'[i].start == startOf(s'[i].jobName) {
        if 0 < i { assert s'[i] == s'[1..][i - 1] == s[1..][i - 1] == s[i]; }
      }
    }
  }

  lemma KeptKeepsOwn(slot: SlotSet, s: seq<Record>, live: set<string>, now: Instant, startOf: StartFn)
    requires AllOwn(slot, s) && StartsBy(s, startOf)
    ensures AllOwn(slot, Kept(s, live, now, MINUTE)) && StartsBy(Kept(s, live, now, MINUTE), startOf)
  {
    var k := Kept(s, live, now, MINUTE);
    forall i | 0 <= i < |k| ensures k[i].start == startOf(k[i].jobName) {
      assert k[i] in k;
      var j :| 0 <= j < |s| && s[j] == k[i];
    }
  }

  /** The states a run passes through, one per event. */
  ghost predicate HistoryRun(slot: SlotSet, hs: seq<Trail>, es: seq<HistoryEvent>) {
    && |hs| == |es| + 1 && hs[0] == Trail([], None)
    && forall i :: 0 <= i < |es| ==> HistoryStep(slot, hs[i], es[i], hs[i + 1])
  }

  /**
  In every reachable history each annotated record carries its own slot: through carry-forward,
  truncation, pruning and the latch gate, for every slot set and every sequence of limits.
  */
  lemma {:induction false} AnnotationsStayTrue(slot: SlotSet, hs: seq<Trail>, es: seq<HistoryEvent>, startOf: StartFn,
                                               k: nat)
    requires HistoryRun(slot, hs, es) && k < |hs|
    requires forall i :: 0 <= i < |es| ==> FairEvent(es[i], startOf)
    ensures AllOwn(slot, hs[k].ring) && StartsBy(hs[k].ring, startOf)
    decreases k
  {
    if 0 < k {
      AnnotationsStayTrue(slot, hs, es, startOf, k - 1);
      assert HistoryStep(slot, hs[k - 1], es[k - 1], hs[k - 1 + 1]);
      StepKeepsOwn(slot, hs[k - 1], es[k - 1], hs[k], startOf);
    }
  }

  // ---------- Start times that move ----------

  lemma SecondsApart(t: Instant, e: Instant)
    requires e % 1_000_000_000 == 0
    ensures Seconds(t - e) == Seconds(t) - Seconds(e)
  {
    assert e == Seconds(e) * 1_000_000_000;
  }

  /** On a grid of whole seconds, instants of the same second have the same last slot. */
  lemma SameSecondSameSlot(slot: SlotSet, a: Instant, b: Instant, e: Instant)
    requires OnSeconds(slot) && Seconds(a) == Seconds(b) && IsLastUpTo(slot, a, e)
    ensures IsLastUpTo(slot, b, e)
  {
    forall t | t == e || e < t <= b ensures slot(t) ==> t <= a && t <= b {
      if slot(t) { SecondsApart(a, t); SecondsApart(b, t); }
    }
  }

  /** An annotation that is right on one record is right on another exactly when both start in the same second. */
  lemma CarriedExactly(slot: SlotSet, prev: Record, x: Record)
    requires OnSeconds(slot) && OwnSlot(slot, prev) && x.expected == prev.expected && x.drift == prev.drift
    ensures OwnSlot(slot, x) <==> prev.expected.None? || Seconds(prev.start) == Seconds(x.start)
  {
    if prev.expected.Some? {
      var e := prev.expected.value;
      SecondsApart(prev.start, e);
      SecondsApart(x.start, e);
      DriftIsDistance(prev.start, e, prev.drift.value);
      DriftIsDistance(x.start, e, prev.drift.value);
      if Seconds(prev.start) == Seconds(x.start) { SameSecondSameSlot(slot, prev.start, x.start, e); }
    }
  }

  /** The ring had annotated this Job, at another second. */
  ghost predicate Moved(ring: seq<Record>, x: Record) {
    && x.jobName in NamesOf(ring)
    && Load(ring)[x.jobName].expected.Some? && Seconds(Load(ring)[x.jobName].start) != Seconds(x.start)
  }

  lemma MergedOwnExactly(slot: SlotSet, ring: seq<Record>, batch: seq<Record>, limit: int, x: Record)
    requires OnSeconds(slot) && AllOwn(slot, ring) && AllBare(batch) && x in Merged(ring, batch, limit)
    ensures OwnSlot(slot, x) <==> !Moved(ring, x)
  {
    MergedCarries(ring, batch, limit, x);
    if x.jobName in NamesOf(ring) { CarriedExactly(slot, Load(ring)[x.jobName], x); }
  }

  /** The drift block of this reconcile annotates `x` afresh: it is the front record and the latch names its start. */
  ghost predicate Reviewed(h: Trail, e: HistoryEvent, h': Trail, x: Record) {
    && e.Happy?
    && var merged := Merged(h.ring, e.batch, e.limit);
       merged != [] && h'.latch == Some(merged[0].start) && merged[0].jobName == x.jobName
  }

  /** No annotated record moved to another second, unless the drift block reviews it. */
  ghost predicate Steady(h: Trail, e: HistoryEvent, h': Trail) {
    !e.PruneOnly? ==> forall x :: x in h'.ring ==> !Moved(h.ring, x) || Reviewed(h, e, h', x)
  }

  lemma HappyRecordExactly(slot: SlotSet, h: Trail, e: HistoryEvent, h': Trail, s: seq<Record>, x: Record)
    requires e.Happy? && OnSeconds(slot) && AllOwn(slot, h.ring) && AllBare(e.batch)
    requires AnnotatedBy(slot, h'.latch, Merged(h.ring, e.batch, e.limit), s) && x in s
    ensures OwnSlot(slot, x) <==> !Moved(h.ring, x) || Reviewed(h, e, h', x)
  {
    var merged := Merged(h.ring, e.batch, e.limit);
    var i :| 0 <= i < |s| && s[i] == x;
    if Reviewed(h, e, h', merged[0]) && i == 0 {
      assert Reannotated(slot, merged[0], x);
    } else {
      if 0 < i && s != merged { assert s[i] == s[1..][i - 1] == merged[1..][i - 1] == merged[i]; }
      assert x == merged[i];
      MergedOwnExactly(slot, h.ring, e.batch, e.limit, x);
      if 0 < i { OtherName(h.ring, e.batch, e.limit, i); }
    }
  }

  lemma OtherName(s: seq<Record>, batch: seq<Record>, limit: int, i: nat)
    requires 0 < i < |Merged(s, batch, limit)|
    ensures Merged(s, batch, limit)[0].jobName != Merged(s, batch, limit)[i].jobName
  {
    var m := Absorb(Load(s), batch);
    TakeIsTop(m, limit);
    TopHasDistinctNames(Take(Ordered(m), limit), m, limit);
  }

  /** One reconcile keeps every annotation on its own slot exactly when it is steady. */
  lemma StepOwnExactly(slot: SlotSet, h: Trail, e: HistoryEvent, h': Trail)
    requires HistoryStep(slot, h, e, h') && OnSeconds(slot) && AllOwn(slot, h.ring) && AllBare(Views(e))
    ensures AllOwn(slot, h'.ring) <==> Steady(h, e, h')
  {
    match e {
      case Happy(batch, limit, live, now) =>
        var s :| AnnotatedBy(slot, h'.latch, Merged(h.ring, batch, limit), s) && h'.ring == Kept(s, live, now, MINUTE);
        forall x | x in h'.ring ensures OwnSlot(slot, x) <==> !Moved(h.ring, x) || Reviewed(h, e, h', x) {
          HappyRecordExactly(slot, h, e, h', s, x);
        }
      case Unsatisfied(batch, limit) =>
        forall x | x in h'.ring ensures OwnSlot(slot, x) <==> !Moved(h.ring, x) {
          MergedOwnExactly(slot, h.ring, batch, limit, x);
        }
      case PruneOnly(live, now) =>
    }
  }

  /** Every history of a run has only true annotations exactly when every reconcile of it is steady. */
  lemma AnnotationsStayTrueExactly(slot: SlotSet, hs: seq<Trail>, es: seq<HistoryEvent>)
    requires HistoryRun(slot, hs, es) && OnSeconds(slot)
    requires forall i :: 0 <= i < |es| ==> AllBare(Views(es[i]))
    ensures (forall k :: 0 <= k < |hs| ==> AllOwn(slot, hs[k].ring)) <==>
            (forall i :: 0 <= i < |es| ==> Steady(hs[i], es[i], hs[i + 1]))
  {
    if forall k :: 0 <= k < |hs| ==> AllOwn(slot, hs[k].ring) {
      forall i | 0 <= i < |es| ensures Steady(hs[i], es[i], hs[i + 1]) {
        assert HistoryStep(slot, hs[i], es[i], hs[i + 1]);
        StepOwnExactly(slot, hs[i], es[i], hs[i + 1]);
      }
    }
    if forall i :: 0 <= i < |es| ==> Steady(hs[i], es[i], hs[i + 1]) {
      forall k | 0 <= k < |hs| ensures AllOwn(slot, hs[k].ring) { SteadyRun(slot, hs, es, k); }
    }
  }

  lemma {:induction false} SteadyRun(slot: SlotSet, hs: seq<Trail>, es: seq<HistoryEvent>, k: nat)
    requires HistoryRun(slot, hs, es) && OnSeconds(slot) && k < |hs|
    requires forall i :: 0 <= i < |es| ==> AllBare(Views(es[i]))
    requires forall i :: 0 <= i < |es| ==> Steady(hs[i], es[i], hs[i + 1])
    ensures AllOwn(slot, hs[k].ring)
    decreases k
  {
    if 0 < k {
      var i := k - 1;
      SteadyRun(slot, hs, es, i);
      assert HistoryStep(slot, hs[i], es[i], hs[i + 1]);
      StepOwnExactly(slot, hs[i], es[i], hs[i + 1]);
    }
  }

  /**
  A Job first seen Running at its creation time `b.start` and then finished with an earlier real start
  reaches, in two happy reconciles, a history whose annotation belongs to another second.
  */
  lemma WrongAnnotationIsReachable(slot: SlotSet, b: Record, b': Record, p: Instant, now: Instant)
    returns (hs: seq<Trail>, es: seq<HistoryEvent>)
    requires OnSeconds(slot) && Bare(b) && Bare(b') && b.jobName == b'.jobName
    requires b.phase == Running && IsTerminal(b'.phase) && Seconds(b'.start) < Seconds(b.start)
    requires SlotInWindow(slot, b.start) && IsLastUpTo(slot, b.start, p)
    ensures |es| == 2 && HistoryRun(slot, hs, es) && AllBare(Views(es[0])) && AllBare(Views(es[1]))
    ensures !AllOwn(slot, hs[2].ring)
  {
    var r1 := b.(expected := Some(p), drift := Some(DriftSeconds(b.start, p)));
    var r2 := Survivor(r1, b');
    var h0, h1, h2 := Trail([], None), Trail([r1], Some(b.start)), Trail([r2], Some(b.start));
    es := [Happy([b], 1, {b.jobName}, now), Happy([b'], 1, {}, now)];
    hs := [h0, h1, h2];
    FirstSighting(slot, b, p, now);
    LaterSighting(slot, r1, b', now);
    assert OwnSlot(slot, r1) by { WindowDrift(slot, b.start, p); }
    CarriedExactly(slot, r1, r2);
    assert r2 in h2.ring;
  }

  lemma WindowDrift(slot: SlotSet, at: Instant, p: Instant)
    requires SlotInWindow(slot, at) && IsLastUpTo(slot, at, p)
    ensures 0 <= DriftSeconds(at, p) <= 3653 * 86_400 && SecondsAfter(p, DriftSeconds(at, p), at)
  {
    var t :| Floor(at) < t <= at && slot(t);
    DriftFits(slot, at, p);
  }

  lemma FirstSighting(slot: SlotSet, b: Record, p: Instant, now: Instant)
    requires Bare(b) && SlotInWindow(slot, b.start) && IsLastUpTo(slot, b.start, p)
    ensures var r1 := b.(expected := Some(p), drift := Some(DriftSeconds(b.start, p)));
            HistoryStep(slot, Trail([], None), Happy([b], 1, {b.jobName}, now), Trail([r1], Some(b.start)))
  {
    var r1 := b.(expected := Some(p), drift := Some(DriftSeconds(b.start, p)));
    HistoryIsReachable([b]);
    assert LatchStart(None, [b]) == Some(b.start) by { assert [b][..0] == []; }
    WindowDrift(slot, b.start, p);
    assert AnnotatedBy(slot, Some(b.start), [b], [r1]);
    KeptAlone(r1, {b.jobName}, now);
  }

  lemma LaterSighting(slot: SlotSet, r1: Record, b': Record, now: Instant)
    requires r1.jobName == b'.jobName && r1.phase == Running && IsTerminal(b'.phase) && b'.start < r1.start
    ensures HistoryStep(slot, Trail([r1], Some(r1.start)), Happy([b'], 1, {}, now),
                        Trail([Survivor(r1, b')], Some(r1.start)))
  {
    var r2 := Survivor(r1, b');
    RingOfOne(r1, b');
    assert LatchStart(Some(r1.start), [r2]) == Some(r1.start) by { assert [r2][..0] == []; }
    assert AnnotatedBy(slot, Some(r1.start), [r2], [r2]);
    KeptAlone(r2, {}, now);
  }

  lemma KeptAlone(r: Record, live: set<string>, now: Instant)
    requires r.jobName in live || IsTerminal(r.phase)
    ensures Kept([r], live, now, MINUTE) == [r]
  {
    assert [r][1..] == [];
  }

  // ---------- The latch and the whole log ----------

  /** Everything a run has been shown up to its `k`-th reconcile. */
  function LogUpTo(es: seq<HistoryEvent>, k: nat): (m: Log)
    requires k <= |es|
    ensures ByName(m)
  {
    if k == 0 then map[] else Absorb(LogUpTo(es, k - 1), Views(es[k - 1]))
  }

  /** What the latch of a log that forgets nothing would be: the greatest of its newest starts so far. */
  ghost function LogLatch(es: seq<HistoryEvent>, k: nat): Option<int>
    requires k <= |es|
  {
    if k == 0 then None else Raised(LogLatch(es, k - 1), LogUpTo(es, k))
  }

  /** A latch that has been shown the whole of `m`. */
  ghost function Raised(latch: Option<int>, m: Log): Option<int>
    requires ByName(m)
  {
    Later(latch, NewestStart(m))
  }

  ghost predicate UpTo(latch: Option<int>, t: int) { latch.Some? && t <= latch.value }

  ghost predicate RingUpTo(latch: Option<int>, s: seq<Record>) { forall r :: r in s ==> UpTo(latch, r.start) }

  ghost predicate EntryUpTo(latch: Option<int>, m: Log, n: string) { n in m ==> UpTo(latch, m[n].start) }

  ghost predicate LogUpToLatch(latch: Option<int>, m: Log) { forall n :: EntryUpTo(latch, m, n) }

  /** Two records that no further view can tell apart. */
  predicate SameRank(a: Record, b: Record) {
    a.start == b.start && IsTerminal(a.phase) == IsTerminal(b.phase) && a.end.Some? == b.end.Some?
  }

  /** For the latch the entries of `n` are as good as equal: neither passes it, or they rank the same. */
  ghost predicate InStep(latch: Option<int>, a: Log, b: Log, n: string) {
    || (EntryUpTo(latch, a, n) && EntryUpTo(latch, b, n))
    || (n in a && n in b && SameRank(a[n], b[n]))
  }

  lemma ViewKeepsStep(latch: Option<int>, a: Log, b: Log, r: Record)
    requires InStep(latch, a, b, r.jobName)
    ensures InStep(latch, AbsorbOne(a, r), AbsorbOne(b, r), r.jobName)
  {}

  lemma {:induction false} BatchKeepsStep(latch: Option<int>, a: Log, b: Log, s: seq<Record>, n: string)
    requires InStep(latch, a, b, n)
    ensures InStep(latch, Absorb(a, s), Absorb(b, s), n)
    decreases |s|
  {
    if s != [] {
      var front, r := s[..|s| - 1], s[|s| - 1];
      BatchKeepsStep(latch, a, b, front, n);
      if r.jobName == n { ViewKeepsStep(latch, Absorb(a, front), Absorb(b, front), r); }
    }
  }

  lemma NewestCovers(m: Log, n: string)
    requires ByName(m) && n in m
    ensures UpTo(NewestStart(m), m[n].start)
  {
    var r := Newest(m);
    assert r.jobName == n || Newer(r, m[n]);
  }

  lemma LaterCovers(a: Option<int>, b: Option<int>, t: int)
    requires UpTo(a, t) || UpTo(b, t)
    ensures UpTo(Later(a, b), t)
  {}

  lemma StepIsCovered(latch: Option<int>, a: Log, b: Log, n: string)
    requires ByName(b) && n in a && InStep(latch, a, b, n)
    ensures UpTo(Later(latch, NewestStart(b)), a[n].start)
  {
    if !UpTo(latch, a[n].start) { NewestCovers(b, n); }
    LaterCovers(latch, NewestStart(b), a[n].start);
  }

  /** So two logs in step move the latch to the same instant. */
  lemma SameLatch(latch: Option<int>, a: Log, b: Log)
    requires ByName(a) && ByName(b) && forall n :: InStep(latch, a, b, n)
    ensures Later(latch, NewestStart(a)) == Later(latch, NewestStart(b))
  {
    if a != map[] { StepIsCovered(latch, a, b, Newest(a).jobName); }
    if b != map[] {
      var n := Newest(b).jobName;
      assert InStep(latch, a, b, n);
      StepIsCovered(latch, b, a, n);
    }
  }

  lemma TopFront(m: Log, limit: int)
    requires ByName(m) && 0 < limit
    ensures FrontStart(Take(Ordered(m), limit)) == NewestStart(m)
  {
    if m != map[] { OrderedHead(m); }
  }

  lemma FrontLatch(s: seq<Record>, batch: seq<Record>, limit: int, latch: Option<int>)
    requires 0 < limit
    ensures LatchStart(latch, Merged(s, batch, limit)) == Later(latch, NewestStart(Absorb(Load(s), batch)))
  {
    var m := Absorb(Load(s), batch);
    TakeIsTop(m, limit);
    TopFront(m, limit);
    LatchSeesFront(latch, Merged(s, batch, limit));
  }

  lemma LoadedUpTo(latch: Option<int>, s: seq<Record>, n: string)
    requires RingUpTo(latch, s)
    ensures EntryUpTo(latch, Load(s), n)
  {
    if n in Load(s) { LoadLast(s, n); }
  }

  /** The latch moves with the log, whatever the ring behind it has forgotten. */
  lemma MergeMovesLatch(s: seq<Record>, m: Log, batch: seq<Record>, limit: int, latch: Option<int>)
    requires ByName(m) && 0 < limit && RingUpTo(latch, s) && LogUpToLatch(latch, m)
    ensures LatchStart(latch, Merged(s, batch, limit)) == Later(latch, NewestStart(Absorb(m, batch)))
  {
    forall n ensures InStep(latch, Absorb(Load(s), batch), Absorb(m, batch), n) {
      LoadedUpTo(latch, s, n);
      assert EntryUpTo(latch, m, n);
      BatchKeepsStep(latch, Load(s), m, batch, n);
    }
    SameLatch(latch, Absorb(Load(s), batch), Absorb(m, batch));
    FrontLatch(s, batch, limit, latch);
  }

  lemma {:induction false} LatchCovers(latch: Option<int>, s: seq<Record>, t: int)
    requires UpTo(latch, t) || exists r :: r in s && r.start == t
    ensures UpTo(LatchStart(latch, s), t)
    decreases |s|
  {
    if s != [] {
      var front, x := s[..|s| - 1], s[|s| - 1];
      assert s == front + [x];
      if UpTo(latch, t) || exists r :: r in front && r.start == t { LatchCovers(latch, front, t); }
    }
  }

  lemma RingIsLatched(latch: Option<int>, s: seq<Record>)
    ensures RingUpTo(LatchStart(latch, s), s)
  {
    forall r | r in s ensures UpTo(LatchStart(latch, s), r.start) { LatchCovers(latch, s, r.start); }
  }

  lemma LogIsLatched(latch: Option<int>, m: Log)
    requires ByName(m)
    ensures LogUpToLatch(Later(latch, NewestStart(m)), m)
  {
    forall n ensures EntryUpTo(Later(latch, NewestStart(m)), m, n) {
      if n in m {
        NewestCovers(m, n);
        LaterCovers(latch, NewestStart(m), m[n].start);
      }
    }
  }

  lemma FinishedUpTo(slot: SlotSet, latch: Option<int>, merged: seq<Record>, live: set<string>, now: Instant,
                     ring: seq<Record>)
    requires Finished(slot, latch, merged, live, now, ring) && RingUpTo(latch, merged)
    ensures RingUpTo(latch, ring)
  {
    var s :| AnnotatedBy(slot, latch, merged, s) && ring == Kept(s, live, now, MINUTE);
    forall r | r in ring ensures UpTo(latch, r.start) {
      var i :| 0 <= i < |s| && s[i] == r;
      assert merged[i] in merged;
      if 0 < i && s != merged { assert s[i] == s[1..][i - 1] == merged[1..][i - 1]; }
    }
  }

  lemma LatchStep(slot: SlotSet, h: Trail, e: HistoryEvent, h': Trail, m: Log)
    requires HistoryStep(slot, h, e, h') && ByName(m) && (!e.PruneOnly? ==> 0 < e.limit)
    requires RingUpTo(h.latch, h.ring) && LogUpToLatch(h.latch, m)
    ensures h'.latch == Later(h.latch, NewestStart(Absorb(m, Views(e)))) && RingUpTo(h'.latch, h'.ring)
  {
    if e.PruneOnly? {
      if m != map[] { assert EntryUpTo(h.latch, m, Newest(m).jobName); }
    } else {
      var merged := Merged(h.ring, e.batch, e.limit);
      MergeMovesLatch(h.ring, m, e.batch, e.limit, h.latch);
      RingIsLatched(h.latch, merged);
      if e.Happy? { FinishedUpTo(slot, h'.latch, merged, e.live, e.now, h'.ring); }
    }
  }

  ghost predicate PositiveLimits(es: seq<HistoryEvent>) {
    forall i :: 0 <= i < |es| && !es[i].PruneOnly? ==> 0 < es[i].limit
  }

  lemma {:induction false} LatchedRun(slot: SlotSet, hs: seq<Trail>, es: seq<HistoryEvent>, k: nat)
    requires HistoryRun(slot, hs, es) && k < |hs| && PositiveLimits(es)
    ensures RingUpTo(hs[k].latch, hs[k].ring) && LogUpToLatch(hs[k].latch, LogUpTo(es, k))
    ensures 0 < k ==> hs[k].latch == Raised(hs[k - 1].latch, LogUpTo(es, k))
    decreases k
  {
    if 0 < k {
      var i := k - 1;
      LatchedRun(slot, hs, es, i);
      assert HistoryStep(slot, hs[i], es[i], hs[i + 1]);
      LatchStep(slot, hs[i], es[i], hs[k], LogUpTo(es, i));
      LogIsLatched(hs[i].latch, LogUpTo(es, k));
    }
  }

  /** The latches of the run, each raised from the one before. */
  ghost predicate Follows(hs: seq<Trail>, es: seq<HistoryEvent>) {
    && |hs| == |es| + 1 && hs[0].latch == None
    && forall i :: 0 < i < |hs| ==> hs[i].latch == Raised(hs[i - 1].latch, LogUpTo(es, i))
  }

  lemma RunFollows(slot: SlotSet, hs: seq<Trail>, es: seq<HistoryEvent>)
    requires HistoryRun(slot, hs, es) && PositiveLimits(es)
    ensures Follows(hs, es)
  {
    forall i | 0 < i < |hs| ensures hs[i].latch == Raised(hs[i - 1].latch, LogUpTo(es, i)) {
      LatchedRun(slot, hs, es, i);
    }
  }

  lemma {:induction false} FollowsLog(hs: seq<Trail>, es: seq<HistoryEvent>, k: nat)
    requires Follows(hs, es) && k < |hs|
    ensures hs[k].latch == LogLatch(es, k)
    decreases k
  {
    if 0 < k { FollowsLog(hs, es, k - 1); }
  }

  /**
  In every reachable history the `LastScheduleTime` latch is the one a log that forgets nothing would
  give: truncation to any limits, pruning, annotation and start times that move cannot show.
  */
  lemma LatchIsLogLatch(slot: SlotSet, hs: seq<Trail>, es: seq<HistoryEvent>, k: nat)
    requires HistoryRun(slot, hs, es) && k < |hs| && PositiveLimits(es)
    ensures hs[k].latch == LogLatch(es, k)
  {
    RunFollows(slot, hs, es);
    FollowsLog(hs, es, k);
  }

  /** Some view listed before the `k`-th reconcile starts at `t`. */
  ghost predicate ListedAt(es: seq<HistoryEvent>, k: nat, t: int)
    requires k <= |es|
  {
    exists i, r :: 0 <= i < k && r in Views(es[i]) && r.start == t
  }

  /** The start of an absorbed record is the old one, for j = |s|, or that of the view `s[j]`. */
  lemma {:induction false} AbsorbedStart(m: Log, s: seq<Record>, n: string) returns (j: nat)
    requires n in Absorb(m, s)
    ensures j <= |s| && (j == |s| ==> n in m && Absorb(m, s)[n].start == m[n].start)
    ensures j < |s| ==> s[j].start == Absorb(m, s)[n].start
    decreases |s|
  {
    j := |s|;
    if s != [] {
      var front, x := s[..|s| - 1], s[|s| - 1];
      if n !in Absorb(m, front) {
        j := |front|;
      } else {
        j := AbsorbedStart(m, front, n);
        if x.jobName == n && Absorb(m, s)[n].start == x.start { j := |front|; }
        else if j == |front| { j := |s|; }
      }
    }
  }

  lemma {:induction false} LogIsListed(es: seq<HistoryEvent>, k: nat, n: string)
    requires k <= |es| && n in LogUpTo(es, k)
    ensures ListedAt(es, k, LogUpTo(es, k)[n].start)
    decreases k
  {
    if 0 < k {
      var m, t := LogUpTo(es, k - 1), LogUpTo(es, k)[n].start;
      var j := AbsorbedStart(m, Views(es[k - 1]), n);
      if j == |Views(es[k - 1])| {
        LogIsListed(es, k - 1, n);
      } else {
        assert Views(es[k - 1])[j] in Views(es[k - 1]);
      }
    }
  }

  lemma {:induction false} LatchIsListed(slot: SlotSet, hs: seq<Trail>, es: seq<HistoryEvent>, k: nat)
    requires HistoryRun(slot, hs, es) && k < |hs| && PositiveLimits(es) && hs[k].latch.Some?
    ensures ListedAt(es, k, hs[k].latch.value)
    decreases k
  {
    if 0 < k {
      LatchedRun(slot, hs, es, k);
      if hs[k].latch == hs[k - 1].latch {
        LatchIsListed(slot, hs, es, k - 1);
      } else {
        LogIsListed(es, k, Newest(LogUpTo(es, k)).jobName);
      }
    }
  }

  /** The log after a listing is at least as new as every view of it. */
  lemma ListingIsCovered(m: Log, s: seq<Record>, j: nat)
    requires ByName(m) && DistinctNames(s) && j < |s|
    ensures UpTo(NewestStart(Absorb(m, s)), s[j].start)
  {
    var n := s[j].jobName;
    AbsorbDistinct(m, s, j);
    if n in m { SurvivorIsStable(m[n], s[j]); }
    NewestCovers(Absorb(m, s), n);
  }

  /** The latch never moves back. */
  lemma {:induction false} LatchNeverFalls(slot: SlotSet, hs: seq<Trail>, es: seq<HistoryEvent>, i: nat, k: nat, t: int)
    requires HistoryRun(slot, hs, es) && i <= k < |hs| && UpTo(hs[i].latch, t)
    ensures UpTo(hs[k].latch, t)
    decreases k
  {
    if i < k {
      var h, e := hs[k - 1], es[k - 1];
      LatchNeverFalls(slot, hs, es, i, k - 1, t);
      assert HistoryStep(slot, h, e, hs[k - 1 + 1]);
      if !e.PruneOnly? { LatchCovers(h.latch, Merged(h.ring, e.batch, e.limit), t); }
    }
  }

  lemma RaisedCovers(latch: Option<int>, m: Log, s: seq<Record>, j: nat)
    requires ByName(m) && DistinctNames(s) && j < |s|
    ensures UpTo(Raised(latch, Absorb(m, s)), s[j].start)
  {
    ListingIsCovered(m, s, j);
    LaterCovers(latch, NewestStart(Absorb(m, s)), s[j].start);
  }

  lemma ListingIsLatched(slot: SlotSet, hs: seq<Trail>, es: seq<HistoryEvent>, i: nat, j: nat)
    requires HistoryRun(slot, hs, es) && PositiveLimits(es)
    requires i < |es| && j < |Views(es[i])| && DistinctNames(Views(es[i]))
    ensures UpTo(hs[i + 1].latch, Views(es[i])[j].start)
  {
    assert hs[i + 1].latch == Raised(hs[i].latch, LogUpTo(es, i + 1)) by { LatchedRun(slot, hs, es, i + 1); }
    RaisedCovers(hs[i].latch, LogUpTo(es, i), Views(es[i]), j);
  }

  lemma ListedIsLatched(slot: SlotSet, hs: seq<Trail>, es: seq<HistoryEvent>, k: nat, i: nat, r: Record)
    requires HistoryRun(slot, hs, es) && PositiveLimits(es)
    requires i < k < |hs| && r in Views(es[i]) && DistinctNames(Views(es[i]))
    ensures UpTo(hs[k].latch, r.start)
  {
    var j :| 0 <= j < |Views(es[i])| && Views(es[i])[j] == r;
    ListingIsLatched(slot, hs, es, i, j);
    LatchNeverFalls(slot, hs, es, i + 1, k, r.start);
  }

  /**
  And if every listing names each Job once, the latch is the greatest start time ever listed, even of
  views that were dropped, replaced by an earlier start or never entered the ring.
  */
  lemma LatchIsGreatestStart(slot: SlotSet, hs: seq<Trail>, es: seq<HistoryEvent>, k: nat)
    requires HistoryRun(slot, hs, es) && k < |hs| && PositiveLimits(es)
    requires forall i :: 0 <= i < k ==> DistinctNames(Views(es[i]))
    ensures forall i, r :: 0 <= i < k && r in Views(es[i]) ==> UpTo(hs[k].latch, r.start)
    ensures hs[k].latch.Some? ==> ListedAt(es, k, hs[k].latch.value)
  {
    forall i, r | 0 <= i < k && r in Views(es[i]) ensures UpTo(hs[k].latch, r.start) {
      ListedIsLatched(slot, hs, es, k, i, r);
    }
    if hs[k].latch.Some? { LatchIsListed(slot, hs, es, k); }
  }

  lemma LaterIsLast(a: Option<int>, b: Option<int>)
    requires a.None? || UpTo(b, a.value)
    ensures Later(a, b) == b
  {}

  lemma NewestNeverFalls(m: Log, batch: seq<Record>)
    requires ByName(m) && NoStepBack(m, batch)
    ensures Later(NewestStart(m), NewestStart(Absorb(m, batch))) == NewestStart(Absorb(m, batch))
  {
    if m != map[] {
      var n := Newest(m).jobName;
      assert n in Absorb(m, batch) && m[n].start <= Absorb(m, batch)[n].start by { StartFollows(m, m, batch, n); }
      NewestCovers(Absorb(m, batch), n);
    }
    LaterIsLast(NewestStart(m), NewestStart(Absorb(m, batch)));
  }

  /** No view of the `i`-th listing starts before the whole log's record of its name. */
  ghost predicate ForwardAt(es: seq<HistoryEvent>, i: nat) {
    i < |es| && NoStepBack(LogUpTo(es, i), Views(es[i]))
  }

  lemma {:induction false} FollowsNewest(hs: seq<Trail>, es: seq<HistoryEvent>, k: nat)
    requires Follows(hs, es) && k < |hs|
    requires forall i: nat :: i < k ==> ForwardAt(es, i)
    ensures hs[k].latch == NewestStart(LogUpTo(es, k))
    decreases k
  {
    if 0 < k {
      FollowsNewest(hs, es, k - 1);
      assert ForwardAt(es, k - 1);
      NewestNeverFalls(LogUpTo(es, k - 1), Views(es[k - 1]));
    }
  }

  /** If no view starts before its record, that is the newest start in the log. */
  lemma LatchIsNewestStart(slot: SlotSet, hs: seq<Trail>, es: seq<HistoryEvent>, k: nat)
    requires HistoryRun(slot, hs, es) && k < |hs| && PositiveLimits(es)
    requires forall i: nat :: i < k ==> ForwardAt(es, i)
    ensures hs[k].latch == NewestStart(LogUpTo(es, k))
  {
    RunFollows(slot, hs, es);
    FollowsNewest(hs, es, k);
  }
}
