/**
The searches of `internal/schedule` on five-field expressions in UTC: with the calendar theorem
the limited library call becomes a complete decision of "never fires".
*/
module CronSearch {
  import opened Calendar
  import opened Slots
  import opened Schedule
  import opened Cron

  lemma SomeSlot(s: Spec, t: Instant)
    requires Matches(s, t)
    ensures Satisfiable(s)
  {}

  /** Nine calendar years ahead always hold a slot of an expression that matches any date. */
  lemma AheadHasSlot(s: Spec, t: Instant)
    requires Parsed(s) && Satisfiable(s)
    ensures !Vacant(SlotsOf(s), t, AddYears(t, 9))
  {
    var n := GapAtMostEightYears(s, t);
    AddYearsBounds(t, 9);
    assert SlotsOf(s)(n);
  }

  /** A whole minute whose minute, hour and date the expression lists. */
  ghost predicate OnGrid(s: Spec, t: Instant) {
    && t % 60_000_000_000 == 0 && (t / 60_000_000_000) % 60 in s.minutes && (t / 3_600_000_000_000) % 24 in s.hours
    && exists y, m, d :: Civil(t / 86_400_000_000_000, y, m, d) && m in s.months
                         && (d in s.doms || (t / 86_400_000_000_000 + 1) % 7 in s.dows)
                         && (s.dowStar ==> d in s.doms)
  }

  lemma MatchOnGrid(s: Spec, t: Instant)
    requires SlotsOf(s)(t) && Parsed(s)
    ensures OnGrid(s, t) && (s.domStar ==> (t / 86_400_000_000_000 + 1) % 7 in s.dows)
  {
    var y, m, d := DateExists(t);
    SlotMeans(s, t, y, m, d);
  }

  /** What `NextSlot` promises: the first slot after `from`, or the news that no date matches at all. */
  ghost predicate NextSlotAnswer(s: Spec, from: Instant, n: Instant, ok: bool) {
    && (ok <==> Satisfiable(s))
    && (ok ==> IsFirstAfter(SlotsOf(s), from, n))
  }

  /** `NextSlot` keeps its promise for every expression, exactly where the zero time is not the answer. */
  method CronNextSlot(s: Spec, from: Instant) returns (n: Instant, ok: bool)
    requires Parsed(s)
    ensures NextSlotAnswer(s, from, n, ok) <==> !HidesZero(SlotsOf(s), from)
    ensures ok ==> from < n && Matches(s, n) && OnGrid(s, n)
    ensures ok && s.domStar ==> (n / 86_400_000_000_000 + 1) % 7 in s.dows
  {
    CronOracle(s);
    n, ok := NextSlot(NextOf(s), SlotsOf(s), from);
    if ok {
      SomeSlot(s, n);
      MatchOnGrid(s, n);
    } else if Satisfiable(s) {
      AheadHasSlot(s, from);
    } else if HidesZero(SlotsOf(s), from) {
      SomeSlot(s, ZERO);
    }
  }

  /** The window back to 1 January, `lookback` years before `at`. */
  ghost predicate WindowHasSlot(slot: SlotSet, at: Instant, lookback: nat) {
    !Vacant(slot, StartOfYear(YearOf(at) - lookback), at)
  }

  lemma AddYearsTo(c: Date, n: int)
    requires IsDate(c)
    ensures var t := DayNumber(c.year, c.month, c.day) * 86_400_000_000_000;
            AddYears(t, n) == DayNumber(c.year + n, c.month, c.day) * 86_400_000_000_000
  {
    var day := DayNumber(c.year, c.month, c.day);
    DateRoundTrip(c);
    Midnight(day);
  }

  lemma NewYearPlus(y: int, n: int)
    ensures AddYears(StartOfYear(y), n) == StartOfYear(y + n)
  {
    AddYearsTo(Date(y, 1, 1), n);
    assert DayNumber(y, 1, 1) == DaysBeforeYear(y);
    assert DayNumber(y + n, 1, 1) == DaysBeforeYear(y + n);
  }

  lemma Midnight(day: int)
    ensures DayOf(day * 86_400_000_000_000) == day && (day * 86_400_000_000_000) % 86_400_000_000_000 == 0
  {}

  /** Eight calendar years after `a`, at the latest, there has been a slot. */
  lemma SlotByThen(s: Spec, a: Instant, at: Instant)
    requires Parsed(s) && Satisfiable(s) && AddYears(a, 8) <= at
    ensures !Vacant(SlotsOf(s), a, at)
  {
    var n := GapAtMostEightYears(s, a);
    assert SlotsOf(s)(n);
  }

  lemma NewYearReached(y: int, at: Instant)
    requires YearOf(at) == y + 8
    ensures AddYears(StartOfYear(y), 8) <= at
  {
    NewYearPlus(y, 8);
    YearBounds(at);
  }

  lemma EightYearsBack(s: Spec, at: Instant)
    requires Parsed(s) && Satisfiable(s)
    ensures WindowHasSlot(SlotsOf(s), at, 8)
  {
    NewYearReached(YearOf(at) - 8, at);
    SlotByThen(s, StartOfYear(YearOf(at) - 8), at);
  }

  lemma LongerWindow(slot: SlotSet, at: Instant, lookback: nat)
    requires WindowHasSlot(slot, at, 8) && 8 <= lookback
    ensures WindowHasSlot(slot, at, lookback)
  {
    var y := YearOf(at);
    YearsOrder(y - lookback, y - 8);
    WiderIsNotVacant(slot, StartOfYear(y - 8), StartOfYear(y - lookback), at);
  }

  lemma SlotMeansSatisfiable(s: Spec, a: Instant, b: Instant)
    requires !Vacant(SlotsOf(s), a, b)
    ensures Satisfiable(s)
  {
    var t :| a < t <= b && SlotsOf(s)(t);
    SomeSlot(s, t);
  }

  lemma WindowIffSatisfiable(s: Spec, at: Instant)
    requires Parsed(s)
    ensures !Vacant(SlotsOf(s), Floor(at), at) <==> Satisfiable(s)
  {
    if Satisfiable(s) {
      EightYearsBack(s, at);
      LongerWindow(SlotsOf(s), at, 9);
    }
    if !Vacant(SlotsOf(s), Floor(at), at) { SlotMeansSatisfiable(s, Floor(at), at); }
  }

  /** From year 10 on, `Prev` finds a slot exactly when the expression is satisfiable. */
  method CronPrev(s: Spec, at: Instant) returns (p: Instant, found: bool, ghost calls: nat)
    requires Parsed(s)
    ensures found <==> 10 <= YearOf(at) && Satisfiable(s)
    ensures found ==> IsLastUpTo(SlotsOf(s), at, p) && OnGrid(s, p)
    ensures found && s.domStar ==> (p / 86_400_000_000_000 + 1) % 7 in s.dows
    ensures calls <= 61
  {
    CronOracle(s);
    WindowIffSatisfiable(s, at);
    p, found, calls := Prev(NextOf(s), SlotsOf(s), at);
    if found { MatchOnGrid(s, p); }
  }

  // ---------- How far back is far enough ----------

  /** "0 0 29 2 *". */
  ghost predicate IsLeapDaySpec(s: Spec) {
    && s.minutes == {0} && s.hours == {0} && s.doms == {29} && s.months == {2}
    && s.dows == {0, 1, 2, 3, 4, 5, 6} && !s.domStar && s.dowStar
  }

  /** The instant 29 February, 00:00 of a leap year. */
  function LeapDay(y: int): Instant { DayNumber(y, 2, 29) * 86_400_000_000_000 }

  predicate IsLeapDay(t: Instant) { IsLeap(YearOf(t)) && t == LeapDay(YearOf(t)) }

  lemma LeapDaySlot(s: Spec, t: Instant)
    requires IsLeapDaySpec(s) && Matches(s, t)
    ensures IsLeapDay(t)
  {
    assert MinuteOfDay(t) % 60 == 0 && MinuteOfDay(t) / 60 == 0;
    MidnightOnly(t);
    LeapDayFrom(t);
  }

  lemma LeapDayFrom(t: Instant)
    requires DateOfDay(DayOf(t)).month == 2 && DateOfDay(DayOf(t)).day == 29
    requires t == DayOf(t) * 86_400_000_000_000
    ensures IsLeapDay(t)
  {}

  lemma MidnightOnly(t: Instant)
    requires t % 60_000_000_000 == 0 && MinuteOfDay(t) == 0
    ensures t == DayOf(t) * 86_400_000_000_000
  {
    var r := t % 86_400_000_000_000;
    assert t == 60_000_000_000 * (t / 60_000_000_000);
    assert r == 60_000_000_000 * (t / 60_000_000_000 - 1440 * DayOf(t));
  }

  lemma LeapDayMatches(s: Spec, y: int)
    requires IsLeapDaySpec(s) && IsLeap(y)
    ensures Parsed(s) && Satisfiable(s) && Matches(s, LeapDay(y))
  {
    var day := DayNumber(y, 2, 29);
    DateMatches(s, y, 2, 29);
    AtMatches(s, day, 0, 0);
    assert At(day, 0, 0) == LeapDay(y);
  }

  lemma LeapDayInYear(y: int)
    requires IsLeap(y)
    ensures YearOf(LeapDay(y)) == y
  {
    DateRoundTrip(Date(y, 2, 29));
    Midnight(DayNumber(y, 2, 29));
  }

  /** Two leap years eight years apart with none between them, as around 2100. */
  ghost predicate CenturyGap(y: int) {
    IsLeap(y) && IsLeap(y + 8) && forall k :: y < k < y + 8 ==> !IsLeap(k)
  }

  lemma CenturyGapAround2100()
    ensures CenturyGap(2096)
  {}

  lemma SomeCenturyGap() returns (y: int)
    ensures CenturyGap(y)
  {
    CenturyGapAround2100();
    y := 2096;
  }

  lemma YearInGap(y: int, t: Instant)
    requires CenturyGap(y) && LeapDay(y) <= t <= LeapDay(y + 8)
    ensures y <= YearOf(t) <= y + 8
  {
    LeapDayInYear(y);
    LeapDayInYear(y + 8);
    YearOfMonotone(LeapDay(y), t);
    YearOfMonotone(t, LeapDay(y + 8));
  }

  lemma NoLeapDayInGap(y: int, y': int, t: Instant)
    requires CenturyGap(y) && LeapDay(y) < t < LeapDay(y + 8) && y <= y' <= y + 8
    ensures !(IsLeap(y') && t == LeapDay(y'))
  {}

  lemma NoSlotInGap(s: Spec, y: int, t: Instant)
    requires IsLeapDaySpec(s) && CenturyGap(y) && LeapDay(y) < t < LeapDay(y + 8)
    ensures !Matches(s, t)
  {
    YearInGap(y, t);
    NoLeapDayInGap(y, YearOf(t), t);
    if Matches(s, t) { LeapDaySlot(s, t); }
  }

  lemma GapVacant(s: Spec, y: int)
    requires IsLeapDaySpec(s) && CenturyGap(y)
    ensures Vacant(SlotsOf(s), LeapDay(y), LeapDay(y + 8) - 1)
  {
    var slot := SlotsOf(s);
    forall t | LeapDay(y) < t <= LeapDay(y + 8) - 1 ensures !slot(t) { NoSlotInGap(s, y, t); }
  }

  /** Across a century the slots of "0 0 29 2 *" lie exactly eight calendar years apart. */
  lemma EightYearsIsReached(s: Spec, y: int)
    requires IsLeapDaySpec(s) && CenturyGap(y)
    ensures IsFirstAfter(SlotsOf(s), LeapDay(y), LeapDay(y + 8))
    ensures AddYears(LeapDay(y), 8) == LeapDay(y + 8)
  {
    assert SlotsOf(s)(LeapDay(y + 8)) by { LeapDayMatches(s, y + 8); }
    GapVacant(s, y);
    LeapDayPlusEight(y);
  }

  lemma LeapDayPlusEight(y: int)
    requires IsLeap(y) && IsLeap(y + 8)
    ensures LeapDay(y) < LeapDay(y + 8) == AddYears(LeapDay(y), 8)
  {
    AddYearsTo(Date(y, 2, 29), 8);
    YearsApart(y, y + 8);
  }

  /** A lookback is complete when it never misses a slot of an expression that has one. */
  ghost predicate Complete(lookback: nat) {
    forall s: Spec, at: Instant :: Parsed(s) && Satisfiable(s) ==> WindowHasSlot(SlotsOf(s), at, lookback)
  }

  /** Eight years of lookback are enough and seven are not: nine leaves exactly one year of slack. */
  lemma LookbackNeedsEight(lookback: nat)
    ensures Complete(lookback) <==> 8 <= lookback
  {
    if 8 <= lookback {
      forall s: Spec, at: Instant | Parsed(s) && Satisfiable(s) ensures WindowHasSlot(SlotsOf(s), at, lookback) {
        EightYearsBack(s, at);
        LongerWindow(SlotsOf(s), at, lookback);
      }
    } else {
      var s, at := MissedByShortLookback(lookback);
    }
  }

  lemma MissedByShortLookback(lookback: nat) returns (s: Spec, at: Instant)
    requires lookback < 8
    ensures Parsed(s) && Satisfiable(s) && !WindowHasSlot(SlotsOf(s), at, lookback)
  {
    var y := SomeCenturyGap();
    s, at := Spec({0}, {0}, {29}, {2}, {0, 1, 2, 3, 4, 5, 6}, false, true), StartOfYear(y + 8);
    LeapDayMatches(s, y);
    GapVacant(s, y);
    ShortWindow(SlotsOf(s), y, lookback);
  }

  lemma ShortWindow(slot: SlotSet, y: int, lookback: nat)
    requires IsLeap(y) && IsLeap(y + 8) && lookback < 8
    requires Vacant(slot, LeapDay(y), LeapDay(y + 8) - 1)
    ensures !WindowHasSlot(slot, StartOfYear(y + 8), lookback)
  {
    var a, b := StartOfYear(y + 8 - lookback), StartOfYear(y + 8);
    assert LeapDay(y) < a by { BeforeLeapDay(y, y + 8 - lookback); }
    assert b < LeapDay(y + 8) by { BeforeLeapDay(y + 8, y + 9); }
    assert YearOf(b) == y + 8 by { YearOfStart(y + 8); }
    if !Vacant(slot, a, b) { WiderIsNotVacant(slot, a, LeapDay(y), b); }
  }

  lemma BeforeLeapDay(y: int, y': int)
    requires IsLeap(y) && y < y'
    ensures StartOfYear(y) < LeapDay(y) < StartOfYear(y')
  {
    YearsApart(y + 1, y');
    YearStep(y);
    assert DaysBeforeMonth(true, 2) == 31;
  }

  // ---------- Restricted weekdays ----------

  ghost predicate WeekHasSlot(s: Spec, t: Instant) { !Vacant(SlotsOf(s), t, t + 7 * DAY) }

  /** The expression recurs at least weekly. */
  ghost predicate Weekly(s: Spec) { forall t :: WeekHasSlot(s, t) }

  predicate EveryMonth(s: Spec) { forall m :: 1 <= m <= 12 ==> m in s.months }

  /** The first seven days of a month the expression leaves out hold no slot. */
  lemma SkippedMonth(s: Spec, y: int, m: int)
    requires 1 <= m <= 12 && m !in s.months
    ensures !WeekHasSlot(s, DayNumber(y, m, 1) * 86_400_000_000_000 - 1)
  {
    var slot, first := SlotsOf(s), DayNumber(y, m, 1);
    var t0 := first * 86_400_000_000_000 - 1;
    forall t | t0 < t <= t0 + 7 * DAY ensures !slot(t) {
      MonthStart(y, m, DayOf(t));
    }
  }

  lemma MonthStart(y: int, m: int, day: int)
    requires 1 <= m <= 12 && DayNumber(y, m, 1) <= day < DayNumber(y, m, 1) + 7
    ensures DateOfDay(day).month == m
  {
    var c := Date(y, m, day - DayNumber(y, m, 1) + 1);
    assert IsDate(c) && DayNumber(y, m, c.day) == day;
    DateRoundTrip(c);
  }

  lemma WeekdayComes(s: Spec, t: Instant)
    requires Parsed(s) && !s.dowStar && EveryMonth(s)
    ensures WeekHasSlot(s, t)
  {
    var h, mi := TimeOfDay(s);
    var w := Pick(s.dows);
    var next := DayOf(t - At(0, h, mi)) + 1;
    var day := WeekdayFrom(next, w);
    assert MatchesDay(s, day);
    AtMatches(s, day, h, mi);
    assert SlotsOf(s)(At(day, h, mi));
  }

  /** An expression with a restricted weekday recurs at least weekly exactly when it runs in every month. */
  lemma WeeklyIffEveryMonth(s: Spec)
    requires Parsed(s) && !s.dowStar
    ensures Weekly(s) <==> EveryMonth(s)
  {
    if EveryMonth(s) {
      forall t ensures WeekHasSlot(s, t) { WeekdayComes(s, t); }
    } else {
      var m :| 1 <= m <= 12 && m !in s.months;
      SkippedMonth(s, 1, m);
    }
  }

  /**
  The zero-time sentinel: an expression that matches 1 January of year 1, 00:00 has a slot that
  `NextSlot` reads as "none", and only instants before year 1 can meet it.
  */
  lemma SentinelHidesYearOne(s: Spec)
    ensures HidesZero(SlotsOf(s), -1) <==> Matches(s, ZERO)
    ensures forall from :: 0 <= from ==> !HidesZero(SlotsOf(s), from)
  {
    assert SlotsOf(s)(ZERO) == Matches(s, ZERO);
  }
}
