/**
Five-field cron expressions on the UTC calendar: what they match, when they match anything at
all, how far apart their slots can lie, and the oracle the search layer is built on.
*/
module Cron {
  import opened Calendar
  import opened Slots
  import opened Schedule

  /** A parsed expression. A star flag records that the day field was written as `*`. */
  datatype Spec = Spec(
    minutes: set<int>, hours: set<int>, doms: set<int>, months: set<int>, dows: set<int>,
    domStar: bool, dowStar: bool)

  /** What the parser builds: nonempty fields within their ranges, and a star admits every value. */
  ghost predicate Parsed(s: Spec) {
    && s.minutes != {} && s.hours != {} && s.doms != {} && s.months != {} && s.dows != {}
    && (forall x :: x in s.minutes ==> 0 <= x < 60)
    && (forall x :: x in s.hours ==> 0 <= x < 24)
    && (forall x :: x in s.doms ==> 1 <= x <= 31)
    && (forall x :: x in s.months ==> 1 <= x <= 12)
    && (forall x :: x in s.dows ==> 0 <= x < 7)
    && (s.domStar ==> forall x :: 1 <= x <= 31 ==> x in s.doms)
    && (s.dowStar ==> forall x :: 0 <= x < 7 ==> x in s.dows)
  }

  /** Two restricted day fields match in either way; with a star in one, the other decides. */
  predicate DayFields(s: Spec, dom: int, dow: int) {
    if s.domStar || s.dowStar then dom in s.doms && dow in s.dows else dom in s.doms || dow in s.dows
  }

  predicate MatchesDay(s: Spec, day: int) {
    var c := DateOfDay(day);
    c.month in s.months && DayFields(s, c.day, Weekday(day))
  }

  function MinuteOfDay(t: Instant): int { (t % 86_400_000_000_000) / 60_000_000_000 }

  predicate Matches(s: Spec, t: Instant) {
    && t % 60_000_000_000 == 0
    && MinuteOfDay(t) % 60 in s.minutes
    && MinuteOfDay(t) / 60 in s.hours
    && MatchesDay(s, DayOf(t))
  }

  function SlotsOf(s: Spec): SlotSet { (t: Instant) => Matches(s, t) }

  /**
  A slot, spelled out: a whole minute, listed minute and hour, listed month, and the day fields joined
  by "and" if one of them is a star and by "or" if both are restricted.
  */
  lemma SlotMeans(s: Spec, t: Instant, y: int, m: int, d: int)
    requires Civil(t / 86_400_000_000_000, y, m, d)
    ensures SlotsOf(s)(t) <==>
              && t % 60_000_000_000 == 0
              && (t / 60_000_000_000) % 60 in s.minutes && (t / 3_600_000_000_000) % 24 in s.hours && m in s.months
              && if s.domStar || s.dowStar then d in s.doms && (t / 86_400_000_000_000 + 1) % 7 in s.dows
                 else d in s.doms || (t / 86_400_000_000_000 + 1) % 7 in s.dows
  {
    CivilIsDate(t / 86_400_000_000_000, y, m, d);
    ClockParts(t);
  }

  lemma ClockParts(t: Instant)
    ensures MinuteOfDay(t) % 60 == (t / 60_000_000_000) % 60 && MinuteOfDay(t) / 60 == (t / 3_600_000_000_000) % 24
  {
    var day, r := t / 86_400_000_000_000, t % 86_400_000_000_000;
    assert t == day * 86_400_000_000_000 + r;
    assert t / 60_000_000_000 == 1440 * day + r / 60_000_000_000;
    assert t / 3_600_000_000_000 == 24 * day + r / 3_600_000_000_000;
    assert r / 60_000_000_000 / 60 == r / 3_600_000_000_000;
    assert (1440 * day + r / 60_000_000_000) % 60 == (r / 60_000_000_000) % 60;
  }

  /** Every instant has a date, so `SlotMeans` speaks of all of them. */
  lemma DateExists(t: Instant) returns (y: int, m: int, d: int)
    ensures Civil(t / 86_400_000_000_000, y, m, d)
  {
    var c := DateOfDay(t / 86_400_000_000_000);
    CivilIsDate(t / 86_400_000_000_000, c.year, c.month, c.day);
    y, m, d := c.year, c.month, c.day;
  }

  // ---------- The oracle ----------

  function MinuteMark(k: int): Instant { k * 60_000_000_000 }

  ghost predicate OnMinutes(slot: SlotSet) {
    forall t :: slot(t) ==> t == MinuteMark(t / 60_000_000_000)
  }

  /** No minute from number `a` up to, but not including, `b` is a slot. */
  ghost predicate Idle(slot: SlotSet, a: int, b: int) {
    forall k :: a <= k < b ==> !slot(MinuteMark(k))
  }

  /** The number of the first minute from `m` to `last` that is a slot, or `last + 1`. */
  function Scan(slot: SlotSet, m: int, last: int): (k: int)
    requires m <= last + 1
    ensures m <= k <= last + 1 && Idle(slot, m, k)
    ensures k <= last ==> slot(MinuteMark(k))
    decreases last - m
  {
    if last < m || slot(MinuteMark(m)) then m else Scan(slot, m + 1, last)
  }

  /** One library call: the first slot in (x, end], or the zero time when there is none. */
  function SearchTo(slot: SlotSet, x: Instant, end: Instant): Instant
    requires x <= end
  {
    var last := end / 60_000_000_000;
    var k := Scan(slot, x / 60_000_000_000 + 1, last);
    if k <= last then MinuteMark(k) else ZERO
  }

  lemma IdleVacant(slot: SlotSet, x: Instant, k: int, t: Instant)
    requires OnMinutes(slot) && Idle(slot, x / 60_000_000_000 + 1, k)
    requires x < t && t / 60_000_000_000 < k
    ensures !slot(t)
  {
    var m := t / 60_000_000_000;
    if t == MinuteMark(m) { assert x / 60_000_000_000 < m; }
  }

  lemma SearchToFirst(slot: SlotSet, x: Instant, end: Instant)
    requires OnMinutes(slot) && x <= end
    ensures var n := SearchTo(slot, x, end);
            if Vacant(slot, x, end) then n == ZERO else IsFirstAfter(slot, x, n) && n <= end
  {
    var last := end / 60_000_000_000;
    var k := Scan(slot, x / 60_000_000_000 + 1, last);
    if last < k {
      forall t | x < t <= end ensures !slot(t) { IdleVacant(slot, x, k, t); }
    } else {
      var n := MinuteMark(k);
      assert x < n <= end;
      forall t | x < t < n ensures !slot(t) { IdleVacant(slot, x, k, t); }
      assert slot(n);
    }
  }

  /** The last instant one library call sees: the end of year(x) + 5. */
  function EndOfReach(x: Instant): (e: Instant)
    ensures ReachFrom(x) <= e
  {
    StartOfYear(YearOf(x) + 6) - 1
  }

  /** It ends with the fifth year, to the nanosecond. */
  lemma ReachEndsWithYear(x: Instant)
    ensures YearOf(EndOfReach(x)) == YearOf(x) + 5 && YearOf(EndOfReach(x) + 1) == YearOf(x) + 6
  {
    var y := YearOf(x) + 5;
    YearsOrder(y, y + 1);
    YearsOrder(y + 1, y + 2);
    YearOfUnique(EndOfReach(x), y);
    YearOfUnique(EndOfReach(x) + 1, y + 1);
  }

  function NextOf(s: Spec): NextFn { (x: Instant) => SearchTo(SlotsOf(s), x, EndOfReach(x)) }

  /** The library call meets the contract the search layer relies on. */
  lemma CronOracle(s: Spec)
    ensures Oracle(NextOf(s), ReachFrom, SlotsOf(s)) && OnSeconds(SlotsOf(s))
  {
    var slot := SlotsOf(s);
    forall t | slot(t) ensures t == MinuteMark(t / 60_000_000_000) && t % 1_000_000_000 == 0 { WholeMinutes(t); }
    assert OnMinutes(slot);
    forall x ensures x < ReachFrom(x) && OracleAt(slot, x, NextOf(s)(x)) { OracleAtHolds(slot, x); }
  }

  ghost predicate OracleAt(slot: SlotSet, x: Instant, n: Instant) {
    if n != ZERO then IsFirstAfter(slot, x, n)
    else IsFirstAfter(slot, x, ZERO) || Vacant(slot, x, ReachFrom(x))
  }

  lemma OracleAtHolds(slot: SlotSet, x: Instant)
    requires OnMinutes(slot)
    ensures OracleAt(slot, x, SearchTo(slot, x, EndOfReach(x)))
  {
    SearchToFirst(slot, x, EndOfReach(x));
  }

  lemma WholeMinutes(t: Instant)
    requires t % 60_000_000_000 == 0
    ensures t % 1_000_000_000 == 0
  {
    assert t == (60 * (t / 60_000_000_000)) * 1_000_000_000;
  }

  // ---------- Satisfiability ----------

  /** The expression matches some date of the Gregorian calendar. */
  ghost predicate Satisfiable(s: Spec) { exists day :: MatchesDay(s, day) }

  /** Some listed month has some listed day, counting 29 February. */
  predicate HasDate(s: Spec) {
    exists m, d :: m in s.months && d in s.doms && d <= DaysInMonth(true, m)
  }

  /** A restricted weekday always finds a day; otherwise a month must be long enough. */
  predicate CanFire(s: Spec) { !s.dowStar || HasDate(s) }

  lemma Pick<T>(values: set<T>) returns (x: T)
    requires values != {}
    ensures x in values
  {
    x :| x in values;
  }

  /** The first day from `first` on that falls on weekday `w`. */
  function WeekdayFrom(first: int, w: int): (day: int)
    requires 0 <= w < 7
    ensures Weekday(day) == w && 0 <= day - first < 7
  {
    first + (w - Weekday(first)) % 7
  }

  /** The first day of month `m` of year `y` that falls on weekday `w`. */
  function WeekdayIn(y: int, m: int, w: int): (day: int)
    requires 1 <= m <= 12 && 0 <= w < 7
    ensures Weekday(day) == w && 0 <= day - DayNumber(y, m, 1) < 7
  {
    WeekdayFrom(DayNumber(y, m, 1), w)
  }

  lemma WeekdayMatches(s: Spec, y: int, m: int, w: int)
    requires Parsed(s) && !s.dowStar && m in s.months && w in s.dows
    ensures MatchesDay(s, WeekdayIn(y, m, w)) && YearOfDay(WeekdayIn(y, m, w)) == y
  {
    var c := Date(y, m, WeekdayIn(y, m, w) - DayNumber(y, m, 1) + 1);
    DateRoundTrip(c);
  }

  lemma DateMatches(s: Spec, y: int, m: int, d: int)
    requires Parsed(s) && s.dowStar && m in s.months && d in s.doms && d <= DaysInMonth(IsLeap(y), m)
    ensures MatchesDay(s, DayNumber(y, m, d)) && YearOfDay(DayNumber(y, m, d)) == y
  {
    DateRoundTrip(Date(y, m, d));
  }

  lemma PickDate(s: Spec) returns (m: int, d: int)
    requires HasDate(s)
    ensures m in s.months && d in s.doms && d <= DaysInMonth(true, m)
  {
    m, d :| m in s.months && d in s.doms && d <= DaysInMonth(true, m);
  }

  /** An expression that can fire has a matching day in every leap year, and with a weekday in every year. */
  lemma MatchingDay(s: Spec, y: int) returns (day: int)
    requires Parsed(s) && CanFire(s) && (IsLeap(y) || !s.dowStar)
    ensures MatchesDay(s, day) && YearOfDay(day) == y
  {
    if s.dowStar {
      var m, d := PickDate(s);
      day := DayNumber(y, m, d);
      DateMatches(s, y, m, d);
    } else {
      var m := Pick(s.months);
      var w := Pick(s.dows);
      day := WeekdayIn(y, m, w);
      WeekdayMatches(s, y, m, w);
    }
  }

  /** "Matches no date" is decided by the fields alone. */
  lemma SatisfiableIffCanFire(s: Spec)
    requires Parsed(s)
    ensures Satisfiable(s) <==> CanFire(s)
  {
    if CanFire(s) { var day := MatchingDay(s, 4); }
    if Satisfiable(s) && s.dowStar {
      var day :| MatchesDay(s, day);
      var c := DateOfDay(day);
      assert c.month in s.months && c.day in s.doms && c.day <= DaysInMonth(true, c.month);
    }
  }

  // ---------- Gaps ----------

  /** An instant on a given day at a given hour and minute. */
  function At(day: int, h: int, mi: int): Instant { day * 86_400_000_000_000 + (60 * h + mi) * 60_000_000_000 }

  lemma AtMatches(s: Spec, day: int, h: int, mi: int)
    requires Parsed(s) && MatchesDay(s, day) && h in s.hours && mi in s.minutes
    ensures Matches(s, At(day, h, mi)) && DayOf(At(day, h, mi)) == day
  {
    var k := 60 * h + mi;
    assert 0 <= k < 1440;
    DayOfUnique(At(day, h, mi), day);
    AtParts(day, k);
  }

  lemma AtParts(day: int, k: int)
    requires 0 <= k < 1440
    ensures var t := day * 86_400_000_000_000 + k * 60_000_000_000;
            t % 60_000_000_000 == 0 && MinuteOfDay(t) == k
  {
    var t := day * 86_400_000_000_000 + k * 60_000_000_000;
    assert t == (1440 * day + k) * 60_000_000_000;
    assert t % 86_400_000_000_000 == k * 60_000_000_000;
  }

  lemma TimeOfDay(s: Spec) returns (h: int, mi: int)
    requires Parsed(s)
    ensures h in s.hours && mi in s.minutes && 0 <= h < 24 && 0 <= mi < 60
  {
    h := Pick(s.hours);
    mi := Pick(s.minutes);
  }

  /** A slot in year `y`, for a leap year or a restricted weekday. */
  lemma SlotInYear(s: Spec, y: int) returns (t: Instant)
    requires Parsed(s) && CanFire(s) && (IsLeap(y) || !s.dowStar)
    ensures Matches(s, t) && StartOfYear(y) <= t < StartOfYear(y + 1)
  {
    var day := MatchingDay(s, y);
    var h, mi := TimeOfDay(s);
    AtMatches(s, day, h, mi);
    t := At(day, h, mi);
    YearBounds(t);
  }

  lemma AddYearsBounds(t: Instant, n: int)
    ensures StartOfYear(YearOf(t) + n) <= AddYears(t, n)
  {}

  lemma AddYearsLeap(t: Instant, n: int)
    requires IsLeap(YearOf(t)) == IsLeap(YearOf(t) + n)
    ensures AddYears(t, n) == t + StartOfYear(YearOf(t) + n) - StartOfYear(YearOf(t))
  {
    assert t == DayOf(t) * 86_400_000_000_000 + t % 86_400_000_000_000;
  }

  /**
  The calendar theorem: an expression that matches any date at all fires within eight calendar
  years of every instant.
  */
  lemma GapAtMostEightYears(s: Spec, t: Instant) returns (n: Instant)
    requires Parsed(s) && Satisfiable(s)
    ensures Matches(s, n) && t < n <= AddYears(t, 8)
    ensures n < StartOfYear(YearOf(t) + 9)
  {
    SatisfiableIffCanFire(s);
    var y := YearOf(t);
    var a := LeapWithinEight(y);
    var b := LeapWithinEight(y + 1);
    if !s.dowStar {
      n := SlotInLaterYear(s, t, y + 1);
    } else if b < y + 8 {
      n := SlotInLaterYear(s, t, b);
    } else if y < a {
      n := SlotInLaterYear(s, t, a);
    } else {
      n := Anniversary(s, t);
    }
  }

  lemma SlotInLaterYear(s: Spec, t: Instant, y: int) returns (n: Instant)
    requires Parsed(s) && CanFire(s) && (IsLeap(y) || !s.dowStar)
    requires YearOf(t) < y < YearOf(t) + 8
    ensures Matches(s, n) && t < n <= AddYears(t, 8)
    ensures n < StartOfYear(YearOf(t) + 9)
  {
    n := SlotInYear(s, y);
    LaterYear(t, y, n);
  }

  lemma LaterYear(t: Instant, y: int, n: Instant)
    requires YearOf(t) < y < YearOf(t) + 8 && StartOfYear(y) <= n < StartOfYear(y + 1)
    ensures t < n <= AddYears(t, 8)
    ensures n < StartOfYear(YearOf(t) + 9)
  {
    var y0 := YearOf(t);
    assert t < StartOfYear(y0 + 1) by { YearBounds(t); }
    assert StartOfYear(y0 + 1) <= StartOfYear(y) by { YearsOrder(y0 + 1, y); }
    assert StartOfYear(y + 1) <= StartOfYear(y0 + 8) by { YearsOrder(y + 1, y0 + 8); }
    assert StartOfYear(y0 + 8) <= StartOfYear(y0 + 9) by { YearsOrder(y0 + 8, y0 + 9); }
    AddYearsBounds(t, 8);
  }

  /** Between two leap years eight years apart, a date of the first one recurs in the second. */
  lemma Anniversary(s: Spec, t: Instant) returns (n: Instant)
    requires Parsed(s) && CanFire(s) && s.dowStar && IsLeap(YearOf(t)) && IsLeap(YearOf(t) + 8)
    ensures Matches(s, n) && t < n <= AddYears(t, 8)
    ensures n < StartOfYear(YearOf(t) + 9)
  {
    var y := YearOf(t);
    var m, d := PickDate(s);
    var h, mi := TimeOfDay(s);
    var s0 := LeapDate(s, y, m, d, h, mi);
    var s8 := LeapDate(s, y + 8, m, d, h, mi);
    AnniversaryBounds(t, s0, s8);
    n := if t < s0 then s0 else s8;
  }

  lemma AnniversaryBounds(t: Instant, s0: Instant, s8: Instant)
    requires IsLeap(YearOf(t)) && IsLeap(YearOf(t) + 8)
    requires s0 < StartOfYear(YearOf(t) + 1)
    requires StartOfYear(YearOf(t) + 8) <= s8 < StartOfYear(YearOf(t) + 9)
    requires s8 - s0 == StartOfYear(YearOf(t) + 8) - StartOfYear(YearOf(t))
    ensures t < s8 && (t < s0 || s8 <= AddYears(t, 8))
    ensures s0 <= AddYears(t, 8) && s0 < StartOfYear(YearOf(t) + 9)
  {
    var y := YearOf(t);
    assert AddYears(t, 8) - t == s8 - s0 by { AddYearsLeap(t, 8); }
    assert t < StartOfYear(y + 1) <= StartOfYear(y + 8) by {
      YearBounds(t);
      YearsOrder(y + 1, y + 8);
    }
    AddYearsBounds(t, 8);
  }

  lemma LeapDate(s: Spec, y: int, m: int, d: int, h: int, mi: int) returns (t: Instant)
    requires Parsed(s) && s.dowStar && IsLeap(y) && m in s.months && d in s.doms && d <= DaysInMonth(true, m)
    requires h in s.hours && mi in s.minutes
    ensures Matches(s, t) && StartOfYear(y) <= t < StartOfYear(y + 1)
    ensures t == StartOfYear(y) + At(DaysBeforeMonth(true, m) + d - 1, h, mi)
  {
    DateMatches(s, y, m, d);
    AtMatches(s, DayNumber(y, m, d), h, mi);
    t := At(DayNumber(y, m, d), h, mi);
    YearBounds(t);
  }
}
