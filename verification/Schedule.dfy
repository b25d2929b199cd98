/**
The search layer of `internal/schedule`: everything is built from one oracle call that sees
about five years ahead and answers the zero time both for "never" and for "too far".

The loops take the reach bound as a parameter (`reachFrom` for one fixed zone); `NextSlot` and
`Prev` fix it to the UTC calendar.
*/
module Schedule {
  import opened Basics
  import opened Calendar
  import opened Slots

  /** The cron library behind a parsed expression; a zero answer means "none found". */
  type NextFn = Instant -> Instant

  /** A lower bound on how far one `Next` call sees. */
  type ReachFn = Instant -> Instant

  const REACH_YEARS: int := 5
  const LOOKBACK_YEARS: int := 9
  const CAP: int := 100_001

  /**
  What the library promises about `Next`. A nonzero answer is the first slot after `x`. A zero
  answer means that nothing lies within a reach of at least `reach(x)`, or that the first slot is
  the zero time itself and so cannot be told apart from "none".
  */
  ghost predicate Oracle(next: NextFn, reach: ReachFn, slot: SlotSet) {
    && (forall x :: x < reach(x))
    && (forall x :: next(x) != ZERO ==> IsFirstAfter(slot, x, next(x)))
    && (forall x :: next(x) == ZERO ==> IsFirstAfter(slot, x, ZERO) || Vacant(slot, x, reach(x)))
  }

  /** Cron slots fall on whole seconds. */
  ghost predicate OnSeconds(slot: SlotSet) { forall t :: slot(t) ==> t % 1_000_000_000 == 0 }

  /** The first slot after `from` is the zero time: the one slot `Next` cannot report. */
  ghost predicate HidesZero(slot: SlotSet, from: Instant) { IsFirstAfter(slot, from, ZERO) }

  /** No slot after `x` can be mistaken for "none". */
  ghost predicate ZeroSafe(slot: SlotSet, x: Instant) { ZERO <= x || !slot(ZERO) }

  // ---------- The loops ----------

  /** The loop of `NextSlot`, stopping once the searched range covers `limit`. */
  method ClimbPast(next: NextFn, reach: ReachFn, ghost slot: SlotSet, from: Instant, limit: Instant)
    returns (n: Instant, ok: bool)
    requires Oracle(next, reach, slot)
    ensures ok ==> from < n && slot(n) && n != ZERO
    ensures ok ==> (IsFirstAfter(slot, from, n) <==> !HidesZero(slot, from))
    ensures !ok ==> n == ZERO
    ensures !ok && !HidesZero(slot, from) ==> Vacant(slot, from, limit)
  {
    var x := from;
    while true
      invariant x == from || from < x < limit
      invariant !HidesZero(slot, from) ==> Vacant(slot, from, x)
      decreases limit - x, if x == from then 1 else 0
    {
      n := next(x);
      if n != ZERO {
        return n, true;
      }
      var covered := reach(x);
      if covered >= limit {
        return ZERO, false;
      }
      x := covered;
    }
  }

  /** Two rungs of the ladder from `x` cover `at`. */
  ghost predicate TwoRungs(reach: ReachFn, x: Instant, at: Instant) {
    reach(x) >= at || reach(reach(x)) >= at
  }

  /** `noSlotInRange`: the ladder as an exact emptiness test on (x0, at]. */
  method NoSlotInRange(next: NextFn, reach: ReachFn, ghost slot: SlotSet, x0: Instant, at: Instant)
    returns (empty: bool, ghost calls: nat)
    requires Oracle(next, reach, slot)
    ensures ZeroSafe(slot, x0) ==> (empty <==> Vacant(slot, x0, at))
    ensures TwoRungs(reach, x0, at) ==> calls <= 2
  {
    var x := x0;
    calls := 0;
    while true
      invariant x == x0 || x0 < x < at
      invariant ZeroSafe(slot, x0) ==> Vacant(slot, x0, x)
      invariant calls == 0 ==> x == x0
      invariant calls == 1 ==> x == reach(x0)
      invariant 1 <= calls ==> reach(x0) < at
      invariant 2 <= calls ==> reach(reach(x0)) < at
      decreases at - x, if x == x0 then 1 else 0
    {
      var n := next(x);
      calls := calls + 1;
      if n != ZERO {
        return n > at, calls;
      }
      var covered := reach(x);
      if covered >= at {
        return true, calls;
      }
      x := covered;
    }
  }

  /** A slot inside the window that the count must skip because it looks like "none". */
  ghost predicate SkipsZero(slot: SlotSet, lastStart: Instant, horizon: Instant) {
    lastStart < ZERO <= horizon && slot(ZERO)
  }

  /** The missed-run count as documented: slots in (lastStart, now - grace], stopped by the safety rail. */
  ghost function Missed(slot: SlotSet, lastStart: Instant, horizon: Instant): (m: nat)
    ensures m <= CAP
  {
    Min(Count(slot, lastStart, horizon), CAP)
  }

  /**
  `MissedRunsSince`: exact for every slot set and every gap width, up to the safety rail. It never
  over-counts, and below the rail it is exact if and only if the zero time is not a slot inside.
  */
  method MissedRunsSince(next: NextFn, reach: ReachFn, ghost slot: SlotSet,
                         lastStart: Instant, now: Instant, grace: int)
    returns (count: nat)
    requires Oracle(next, reach, slot)
    ensures count <= Missed(slot, lastStart, now - grace)
    ensures !SkipsZero(slot, lastStart, now - grace) ==> count == Missed(slot, lastStart, now - grace)
    ensures !SkipsZero(slot, lastStart, now - grace) ==>
              && (Count(slot, lastStart, now - grace) <= 100_000 ==> count == Count(slot, lastStart, now - grace))
              && (Count(slot, lastStart, now - grace) > 100_000 ==> count == 100_001)
    ensures Count(slot, lastStart, now - grace) <= 100_000 ==>
              (count == Count(slot, lastStart, now - grace) <==> !SkipsZero(slot, lastStart, now - grace))
  {
    var horizon := now - grace;
    if horizon <= lastStart {
      return 0;
    }
    count := 0;
    var cursor := lastStart;
    while true
      invariant lastStart <= cursor <= horizon
      invariant count < CAP
      invariant count + (if SkipsZero(slot, lastStart, cursor) then 1 else 0) <= Count(slot, lastStart, cursor)
      invariant !SkipsZero(slot, lastStart, cursor) ==> count == Count(slot, lastStart, cursor)
      decreases horizon - cursor
    {
      var n := next(cursor);
      if n == ZERO {
        var covered := reach(cursor);
        CursorJump(next, reach, slot, cursor, Min(covered, horizon));
        CountSplits(slot, lastStart, cursor, Min(covered, horizon));
        if covered >= horizon {
          return;
        }
        cursor := covered;
        continue;
      }
      if n > horizon {
        CountVacant(slot, cursor, horizon);
        CountSplits(slot, lastStart, cursor, horizon);
        return;
      }
      CountFirst(slot, cursor, n);
      CountSplits(slot, lastStart, cursor, n);
      count := count + 1;
      cursor := n;
      if count > 100_000 {
        CountSplits(slot, lastStart, cursor, horizon);
        return;
      }
    }
  }

  /** A climb over a zero answer loses no slot, save the zero time when it is the next one. */
  lemma CursorJump(next: NextFn, reach: ReachFn, slot: SlotSet, cursor: Instant, to: Instant)
    requires Oracle(next, reach, slot) && next(cursor) == ZERO && cursor <= to <= reach(cursor)
    ensures !(cursor < ZERO <= to && slot(ZERO)) ==> Count(slot, cursor, to) == 0
    ensures cursor < ZERO <= to && slot(ZERO) ==> 1 <= Count(slot, cursor, to)
  {
    CountVacant(slot, cursor, to);
    if !(cursor < ZERO <= to && slot(ZERO)) {
      assert Vacant(slot, cursor, to);
    } else {
      assert !Vacant(slot, cursor, to);
    }
  }

  // ---------- The UTC calendar ----------

  /** `reachFrom` in UTC: the start of 31 December, five years on. */
  function ReachFrom(x: Instant): (r: Instant)
    ensures x + 1_000_000_000 <= r
    ensures YearOf(r) == YearOf(x) + 5
  {
    var y := YearOf(x) + REACH_YEARS;
    var r := StartOfYear(y + 1) - 86_400_000_000_000;
    YearBounds(x);
    YearsOrder(YearOf(x) + 1, y);
    YearsOrder(y, y + 1);
    YearOfUnique(r, y);
    r
  }

  /** That is midnight at the start of 31 December. */
  lemma ReachIsNewYearsEve(x: Instant)
    ensures ReachFrom(x) % 86_400_000_000_000 == 0
    ensures DateOfDay(ReachFrom(x) / 86_400_000_000_000) == Date(YearOf(x) + 5, 12, 31)
  {
    LastDay(YearOf(x) + 5);
    Midnights(DaysBeforeYear(YearOf(x) + 6) - 1, ReachFrom(x));
  }

  lemma Midnights(day: int, t: Instant)
    requires t == day * 86_400_000_000_000
    ensures t % 86_400_000_000_000 == 0 && t / 86_400_000_000_000 == day
  {}

  lemma LastDay(y: int)
    ensures DateOfDay(DaysBeforeYear(y + 1) - 1) == Date(y, 12, 31)
  {
    YearStep(y);
    TwelveMonths(IsLeap(y));
    DateRoundTrip(Date(y, 12, 31));
  }

  /**
  `NextSlot`: the first slot strictly after `from` whenever that slot is not the zero time; the
  answer false clears everything up to nine calendar years ahead.
  */
  method NextSlot(next: NextFn, ghost slot: SlotSet, from: Instant) returns (n: Instant, ok: bool)
    requires Oracle(next, ReachFrom, slot)
    ensures ok ==> from < n && slot(n) && n != ZERO
    ensures ok ==> (IsFirstAfter(slot, from, n) <==> !HidesZero(slot, from))
    ensures !ok ==> n == ZERO
    ensures !ok && !HidesZero(slot, from) ==> Vacant(slot, from, AddYears(from, 9))
  {
    n, ok := ClimbPast(next, ReachFrom, slot, from, AddYears(from, LOOKBACK_YEARS));
  }

  function Floor(at: Instant): Instant { StartOfYear(YearOf(at) - LOOKBACK_YEARS) }

  /** `Prev`'s window spans at most ten calendar years, which hold at most 3653 days. */
  lemma WindowWidth(at: Instant)
    ensures Floor(at) + 9 * 365 * DAY <= at < Floor(at) + 3653 * DAY
  {
    var y := YearOf(at);
    YearBounds(at);
    YearsOrder(y - 9, y);
    TenYears(y - 9);
  }

  /** Inside the lookback window two rungs always cover what is left. */
  lemma LookbackRungs(x: Instant, at: Instant)
    requires YearOf(at) - LOOKBACK_YEARS <= YearOf(x)
    ensures TwoRungs(ReachFrom, x, at)
  {
    var x2 := ReachFrom(ReachFrom(x));
    if x2 < at { YearOfMonotone(x2, at); }
  }

  /** What `Prev` needs of its window: no hidden slot, and two calls per probe. */
  lemma WindowProbes(at0: Instant, at: Instant)
    requires LOOKBACK_YEARS < YearOf(at0) && at <= at0
    ensures ZERO <= Floor(at0)
    ensures forall x :: Floor(at0) <= x ==> TwoRungs(ReachFrom, x, at)
  {
    var y := YearOf(at0) - LOOKBACK_YEARS;
    YearStartsOnSecond(y);
    forall x | Floor(at0) <= x ensures TwoRungs(ReachFrom, x, at) {
      ProbeYear(at0, at, x);
      LookbackRungs(x, at);
    }
  }

  lemma ProbeYear(at0: Instant, at: Instant, x: Instant)
    requires at <= at0 && Floor(at0) <= x
    ensures YearOf(at) - LOOKBACK_YEARS <= YearOf(x)
  {
    var y := YearOf(at0) - LOOKBACK_YEARS;
    YearOfStart(y);
    YearOfMonotone(StartOfYear(y), x);
    YearOfMonotone(at, at0);
  }

  lemma YearOfStart(y: int)
    ensures YearOf(StartOfYear(y)) == y
  {
    YearsOrder(y, y + 1);
    YearOfUnique(StartOfYear(y), y);
  }

  lemma YearStartsOnSecond(y: int)
    ensures StartOfYear(y) % 1_000_000_000 == 0
    ensures 1 <= y ==> ZERO <= StartOfYear(y)
  {
    assert StartOfYear(y) == (DaysBeforeYear(y) * 86_400) * 1_000_000_000;
    if 1 <= y { YearsOrder(1, y); }
  }

  // ---------- Bisection ----------

  function Power2(k: nat): (p: nat)
    ensures 1 <= p
  {
    if k == 0 then 1 else 2 * Power2(k - 1)
  }

  /** Halvings needed to bring a window of `w` seconds down to one. */
  ghost function Halvings(w: nat): nat { if w <= 1 then 0 else 1 + Halvings((w + 1) / 2) }

  lemma {:induction false} HalvingsBound(w: nat, k: nat)
    requires w <= Power2(k)
    ensures Halvings(w) <= k
    decreases k
  {
    if 1 < w { HalvingsBound((w + 1) / 2, k - 1); }
  }

  lemma {:induction false} HalvingsMonotone(v: nat, w: nat)
    requires v <= w
    ensures Halvings(v) <= Halvings(w)
    decreases w
  {
    if 1 < v { HalvingsMonotone((v + 1) / 2, (w + 1) / 2); }
  }

  function Seconds(d: int): int { d / 1_000_000_000 }

  function Middle(lo: Instant, hi: Instant): Instant { TruncateToSecond(lo + (hi - lo) / 2) }

  lemma MiddleOf(a: int, b: int)
    ensures Middle(a * 1_000_000_000, b * 1_000_000_000) == (a + (b - a) / 2) * 1_000_000_000
  {
    var w := b - a;
    assert (w * 1_000_000_000) / 2 == w * 500_000_000;
    assert a * 1_000_000_000 + w * 500_000_000 == (a + w / 2) * 1_000_000_000 + (w % 2) * 500_000_000;
  }

  /**
  The bisection of `Prev`, on whole seconds: (lo, at] holds a slot, (hi, at] does not, and the
  two ends close in on each other until they are one second apart.
  */
  method Bisect(next: NextFn, reach: ReachFn, ghost slot: SlotSet, floor: Instant, at: Instant,
                ghost a0: int, ghost b0: int)
    returns (lo: Instant, ghost calls: nat)
    requires Oracle(next, reach, slot)
    requires ZERO <= floor == a0 * 1_000_000_000 && at == b0 * 1_000_000_000 && a0 < b0
    requires forall x :: floor <= x ==> TwoRungs(reach, x, at)
    requires !Vacant(slot, floor, at)
    ensures floor <= lo < at && lo % 1_000_000_000 == 0
    ensures !Vacant(slot, lo, at) && Vacant(slot, lo + SECOND, at)
    ensures calls <= 2 * Halvings(b0 - a0)
  {
    var hi := at;
    lo, calls := floor, 0;
    ghost var a, b := a0, b0;
    while hi - lo > SECOND
      invariant a0 <= a < b <= b0
      invariant lo == a * 1_000_000_000 && hi == b * 1_000_000_000
      invariant !Vacant(slot, lo, at) && Vacant(slot, hi, at)
      invariant calls + 2 * Halvings(b - a) <= 2 * Halvings(b0 - a0)
      decreases b - a
    {
      MiddleOf(a, b);
      ghost var m, w := a + (b - a) / 2, b - a;
      HalvingsMonotone(w / 2, (w + 1) / 2);
      var mid := Middle(lo, hi);
      var empty;
      ghost var more;
      empty, more := NoSlotInRange(next, reach, slot, mid, at);
      calls := calls + more;
      if empty { hi, b := mid, m; } else { lo, a := mid, m; }
    }
  }

  /** `Prev` once the floor is known: probe the floor, bisect, and ask for the slot itself. */
  method LastAbove(next: NextFn, reach: ReachFn, ghost slot: SlotSet, floor: Instant, at: Instant)
    returns (p: Instant, found: bool, ghost calls: nat)
    requires Oracle(next, reach, slot) && OnSeconds(slot)
    requires ZERO <= floor && floor % 1_000_000_000 == 0 && at % 1_000_000_000 == 0
    requires forall x :: x + 1_000_000_000 <= reach(x)
    requires forall x :: floor <= x ==> TwoRungs(reach, x, at)
    ensures found <==> !Vacant(slot, floor, at)
    ensures found ==> IsLastUpTo(slot, at, p) && floor < p
    ensures !found ==> p == ZERO
    ensures calls <= 3 + 2 * Halvings(Max(0, Seconds(at) - Seconds(floor)))
  {
    var empty;
    empty, calls := NoSlotInRange(next, reach, slot, floor, at);
    if empty {
      return ZERO, false, calls;
    }
    var lo;
    ghost var more;
    lo, more := Bisect(next, reach, slot, floor, at, Seconds(floor), Seconds(at));
    p, found, calls := next(lo), true, calls + more + 1;
    LastSecond(next, reach, slot, lo, at);
  }

  lemma WindowHalvings(at0: Instant, at: Instant)
    requires at <= at0
    ensures Halvings(Max(0, Seconds(at) - Seconds(Floor(at0)))) <= 29
  {
    WindowWidth(at0);
    assert Power2(10) == 1024;
    assert Power2(20) == 1024 * Power2(10);
    assert Power2(29) == 512 * Power2(20);
    HalvingsBound(Max(0, Seconds(at) - Seconds(Floor(at0))), 29);
  }

  /** The lookback window of `at` exists (year 10 on) and holds a slot. */
  ghost predicate SlotInWindow(slot: SlotSet, at: Instant) {
    LOOKBACK_YEARS < YearOf(at) && !Vacant(slot, Floor(at), at)
  }

  /**
  `Prev`: a floor probe, then a bisection on "is there a slot in (x, at]". It finds the last slot
  at or before `at` exactly when the lookback window holds one, with at most 61 oracle calls.
  */
  method Prev(next: NextFn, ghost slot: SlotSet, at0: Instant)
    returns (p: Instant, found: bool, ghost calls: nat)
    requires Oracle(next, ReachFrom, slot) && OnSeconds(slot)
    ensures found <==> SlotInWindow(slot, at0)
    ensures found ==> IsLastUpTo(slot, at0, p) && Floor(at0) < p
    ensures !found ==> p == ZERO
    ensures calls <= 61
  {
    var year := YearOf(at0);
    if year <= LOOKBACK_YEARS {
      return ZERO, false, 0;
    }
    var at := TruncateToSecond(at0);
    var floor := StartOfYear(year - LOOKBACK_YEARS);
    PrevSetup(slot, at0, at, floor);
    p, found, calls := LastAbove(next, ReachFrom, slot, floor, at);
  }

  /** Everything the search below the floor needs to know about the lookback window. */
  lemma PrevSetup(slot: SlotSet, at0: Instant, at: Instant, floor: Instant)
    requires LOOKBACK_YEARS < YearOf(at0) && OnSeconds(slot)
    requires at == TruncateToSecond(at0) && floor == Floor(at0)
    ensures ZERO <= floor && floor % 1_000_000_000 == 0 && at % 1_000_000_000 == 0 && at <= at0
    ensures forall x :: x + 1_000_000_000 <= ReachFrom(x)
    ensures forall x :: floor <= x ==> TwoRungs(ReachFrom, x, at)
    ensures Halvings(Max(0, Seconds(at) - Seconds(floor))) <= 29
    ensures Vacant(slot, at, at0)
  {
    WindowHalvings(at0, at);
    WindowGrid(slot, at0, at, floor);
    WindowProbes(at0, at);
  }

  lemma WindowGrid(slot: SlotSet, at0: Instant, at: Instant, floor: Instant)
    requires OnSeconds(slot) && at == TruncateToSecond(at0) && floor == Floor(at0)
    ensures floor % 1_000_000_000 == 0 && at % 1_000_000_000 == 0 && at <= at0
    ensures Vacant(slot, at, at0)
  {
    TruncateVacant(slot, at0);
    YearStartsOnSecond(YearOf(at0) - LOOKBACK_YEARS);
  }

  lemma NextSecond(a: Instant, b: Instant)
    requires a % 1_000_000_000 == 0 && b % 1_000_000_000 == 0 && a < b
    ensures a + SECOND <= b
  {
    assert a == (a / 1_000_000_000) * 1_000_000_000 && b == (b / 1_000_000_000) * 1_000_000_000;
  }

  lemma TruncateVacant(slot: SlotSet, at: Instant)
    requires OnSeconds(slot)
    ensures Vacant(slot, TruncateToSecond(at), at)
  {
    forall t | TruncateToSecond(at) < t <= at ensures !slot(t) {
      if slot(t) { NextSecond(TruncateToSecond(at), t); }
    }
  }

  lemma LastSecond(next: NextFn, reach: ReachFn, slot: SlotSet, lo: Instant, at: Instant)
    requires lo + SECOND <= reach(lo)
    requires Oracle(next, reach, slot) && OnSeconds(slot) && ZERO <= lo && lo % 1_000_000_000 == 0
    requires !Vacant(slot, lo, at) && Vacant(slot, lo + SECOND, at)
    ensures next(lo) == lo + SECOND && slot(lo + SECOND)
  {
    var t :| lo < t <= at && slot(t);
    NextSecond(lo, t);
    assert t == lo + SECOND;
    if next(lo) != t { NextSecond(lo, next(lo)); }
  }

  // ---------- Drift and agreement ----------

  /** `Drift` in whole seconds. */
  function DriftSeconds(actual: Instant, expected: Instant): int { Seconds(actual - expected) }

  /** Drift is the whole seconds from the slot to the start, and nothing else is. */
  lemma DriftIsDistance(at: Instant, p: Instant, d: int)
    ensures p + d * 1_000_000_000 <= at < p + (d + 1) * 1_000_000_000 <==> d == DriftSeconds(at, p)
  {}

  /** Published drift lies between 0 and ten calendar years, so the int32 conversion is exact. */
  lemma DriftFits(slot: SlotSet, at: Instant, p: Instant)
    requires IsLastUpTo(slot, at, p) && Floor(at) < p
    ensures 0 <= DriftSeconds(at, p) <= 3653 * 86_400 < 0x8000_0000
    ensures p + DriftSeconds(at, p) * 1_000_000_000 <= at < p + (DriftSeconds(at, p) + 1) * 1_000_000_000
  {
    WindowWidth(at);
  }

  /** `Prev` maps every reported slot of year 10 or later to itself. */
  method PrevOfNext(next: NextFn, ghost slot: SlotSet, from: Instant)
    returns (n: Instant, ok: bool, p: Instant, found: bool)
    requires Oracle(next, ReachFrom, slot) && OnSeconds(slot)
    ensures ok && LOOKBACK_YEARS < YearOf(n) ==> found && p == n
  {
    ghost var calls;
    n, ok := NextSlot(next, slot, from);
    p, found, calls := Prev(next, slot, n);
    WindowWidth(n);
  }

  /** After `Prev(at)`, the next slot is later than `at` or absent. */
  method NextOfPrev(next: NextFn, ghost slot: SlotSet, at: Instant)
    returns (p: Instant, found: bool, n: Instant, ok: bool)
    requires Oracle(next, ReachFrom, slot) && OnSeconds(slot)
    ensures found && ok ==> at < n
  {
    ghost var calls;
    p, found, calls := Prev(next, slot, at);
    n, ok := NextSlot(next, slot, p);
  }

  /** Nothing was missed since the slot that `Prev` reports. */
  method MissedSincePrev(next: NextFn, ghost slot: SlotSet, at: Instant)
    returns (p: Instant, found: bool, missed: nat)
    requires Oracle(next, ReachFrom, slot) && OnSeconds(slot)
    ensures found ==> missed == 0
  {
    ghost var calls;
    p, found, calls := Prev(next, slot, at);
    missed := MissedUpTo(next, slot, p, at);
  }

  method MissedUpTo(next: NextFn, ghost slot: SlotSet, p: Instant, at: Instant) returns (missed: nat)
    requires Oracle(next, ReachFrom, slot)
    ensures IsLastUpTo(slot, at, p) ==> missed == 0
  {
    missed := MissedRunsSince(next, ReachFrom, slot, p, at, 0);
    NothingMissed(slot, at, p);
  }

  lemma NothingMissed(slot: SlotSet, at: Instant, p: Instant)
    ensures IsLastUpTo(slot, at, p) ==> Missed(slot, p, at) == 0
  {
    CountVacant(slot, p, at);
  }

  /** Windows add up below the rail, and the count moves only the documented way at each end. */
  lemma MissedAddsUp(slot: SlotSet, a: Instant, b: Instant, c: Instant)
    requires a <= b <= c
    ensures Missed(slot, a, c) <= Missed(slot, a, b) + Missed(slot, b, c)
    ensures Count(slot, a, c) < CAP ==> Missed(slot, a, c) == Missed(slot, a, b) + Missed(slot, b, c)
    ensures Missed(slot, b, c) <= Missed(slot, a, c) && Missed(slot, a, b) <= Missed(slot, a, c)
  {
    CountSplits(slot, a, b, c);
  }

  /** A later start or a wider grace never raises the count; a later clock never lowers it. */
  lemma MissedMonotone(slot: SlotSet, lastStart: Instant, now: Instant, grace: int,
                       lastStart': Instant, now': Instant, grace': int)
    requires lastStart' <= lastStart && now <= now' && grace' <= grace
    ensures Missed(slot, lastStart, now - grace) <= Missed(slot, lastStart', now' - grace')
  {
    CountMonotone(slot, lastStart', now' - grace', lastStart, now - grace);
  }
}
