/**
The proleptic Gregorian calendar in UTC, as Go's `time` package computes it.

An instant is a whole number of nanoseconds since 1 January of year 1, 00:00 UTC.
That is Go's zero time, so `IsZero` is equality with 0.
*/
module Calendar {

  type Instant = int

  const SECOND: int := 1_000_000_000
  const MINUTE: int := 60_000_000_000
  const DAY: int := 86_400_000_000_000

  /** The value Go's `time.Time{}` denotes; the schedule package reads it as "no slot". */
  const ZERO: Instant := 0

  // ---------- Years ----------

  predicate IsLeap(y: int) { y % 4 == 0 && (y % 100 != 0 || y % 400 == 0) }

  function YearLength(y: int): int { if IsLeap(y) then 366 else 365 }

  /** Days from 1 January of year 1 to 1 January of year `y`: the lengths of the years between. */
  function DaysBeforeYear(y: int): int
    decreases if 1 < y then y - 1 else 1 - y
  {
    if y == 1 then 0
    else if 1 < y then DaysBeforeYear(y - 1) + YearLength(y - 1)
    else DaysBeforeYear(y + 1) - YearLength(y)
  }

  lemma YearStep(y: int)
    ensures DaysBeforeYear(y + 1) == DaysBeforeYear(y) + YearLength(y)
  {}

  lemma {:induction false} YearsApart(a: int, b: int)
    requires a <= b
    ensures DaysBeforeYear(a) + 365 * (b - a) <= DaysBeforeYear(b) <= DaysBeforeYear(a) + 366 * (b - a)
    decreases b - a
  {
    if a < b {
      YearsApart(a, b - 1);
      YearStep(b - 1);
    }
  }

  function FindYear(y: int, day: int): (r: int)
    ensures DaysBeforeYear(r) <= day < DaysBeforeYear(r + 1)
    decreases if DaysBeforeYear(y) <= day then day - DaysBeforeYear(y) else DaysBeforeYear(y) - day,
              DaysBeforeYear(y) > day
  {
    YearStep(y);
    YearStep(y - 1);
    if day < DaysBeforeYear(y) then
      (if DaysBeforeYear(y - 1) <= day then y - 1 else FindYear(y - 1, day))
    else if day < DaysBeforeYear(y + 1) then y
    else FindYear(y + 1, day)
  }

  /** The calendar year that holds day number `day`. */
  function YearOfDay(day: int): (y: int)
    ensures DaysBeforeYear(y) <= day < DaysBeforeYear(y + 1)
  {
    FindYear(1, day)
  }

  lemma YearOfDayUnique(day: int, y: int)
    requires DaysBeforeYear(y) <= day < DaysBeforeYear(y + 1)
    ensures YearOfDay(day) == y
  {
    var r := YearOfDay(day);
    if r < y { YearsApart(r + 1, y); } else if y < r { YearsApart(y + 1, r); }
  }

  /** Any eight consecutive years hold a leap year: century gaps cannot be adjacent. */
  lemma LeapWithinEight(y: int) returns (l: int)
    ensures y <= l < y + 8 && IsLeap(l)
  {
    var a := y + (-y) % 4;
    assert a % 4 == 0;
    if IsLeap(a) {
      l := a;
    } else {
      l := a + 4;
      var q := a / 100;
      assert l == 100 * q + 4;
      assert l == 4 * (25 * q + 1);
    }
  }

  lemma LeapSpacing(y: int, k: int)
    requires 1 <= k <= 3
    ensures !(IsLeap(y) && IsLeap(y + k))
  {
    if y % 4 == 0 { assert y + k == 4 * (y / 4) + k; }
  }

  lemma FourYears(y: int)
    ensures DaysBeforeYear(y + 4) - DaysBeforeYear(y) <= 1461
    ensures DaysBeforeYear(y + 2) - DaysBeforeYear(y) <= 731
  {
    LeapSpacing(y, 1);
    LeapSpacing(y, 2);
    LeapSpacing(y, 3);
    LeapSpacing(y + 1, 1);
    LeapSpacing(y + 1, 2);
    LeapSpacing(y + 2, 1);
    assert DaysBeforeYear(y + 2) == DaysBeforeYear(y) + YearLength(y) + YearLength(y + 1) by {
      YearStep(y);
      YearStep(y + 1);
    }
    YearStep(y + 2);
    YearStep(y + 3);
  }

  /** Ten consecutive years hold at most three leap days. */
  lemma TenYears(y: int)
    ensures DaysBeforeYear(y + 10) - DaysBeforeYear(y) <= 3653
  {
    FourYears(y);
    FourYears(y + 4);
    FourYears(y + 8);
  }

  // ---------- Months and dates ----------

  function DaysInMonth(leap: bool, m: int): (d: int)
    ensures 28 <= d <= 31
  {
    if m == 2 then (if leap then 29 else 28)
    else if m == 4 || m == 6 || m == 9 || m == 11 then 30
    else 31
  }

  function DaysBeforeMonth(leap: bool, m: int): (d: int)
    requires 1 <= m <= 13
    ensures 0 <= d
    decreases m
  {
    if m == 1 then 0 else DaysBeforeMonth(leap, m - 1) + DaysInMonth(leap, m - 1)
  }

  lemma TwelveMonths(leap: bool)
    ensures DaysBeforeMonth(leap, 13) == if leap then 366 else 365
  {
    assert DaysBeforeMonth(leap, 4) == if leap then 91 else 90;
    assert DaysBeforeMonth(leap, 7) == DaysBeforeMonth(leap, 4) + 91;
    assert DaysBeforeMonth(leap, 10) == DaysBeforeMonth(leap, 7) + 92;
  }

  lemma {:induction false} MonthsApart(leap: bool, a: int, b: int)
    requires 1 <= a <= b <= 13
    ensures DaysBeforeMonth(leap, a) + 28 * (b - a) <= DaysBeforeMonth(leap, b)
    decreases b
  {
    if a < b { MonthsApart(leap, a, b - 1); }
  }

  function ClimbMonth(leap: bool, m: int, doy: int): (r: int)
    requires 1 <= m <= 12
    requires DaysBeforeMonth(leap, m) <= doy < DaysBeforeMonth(leap, 13)
    ensures 1 <= r <= 12 && DaysBeforeMonth(leap, r) <= doy < DaysBeforeMonth(leap, r + 1)
    decreases 12 - m
  {
    if doy < DaysBeforeMonth(leap, m + 1) then m else ClimbMonth(leap, m + 1, doy)
  }

  predicate InMonth(leap: bool, m: int, doy: int)
    requires 1 <= m <= 12
  {
    DaysBeforeMonth(leap, m) <= doy < DaysBeforeMonth(leap, m) + DaysInMonth(leap, m)
  }

  lemma MonthUnique(leap: bool, doy: int, a: int, b: int)
    requires 1 <= a <= 12 && 1 <= b <= 12
    requires InMonth(leap, a, doy) && InMonth(leap, b, doy)
    ensures a == b
  {
    if a < b { MonthsApart(leap, a + 1, b); } else if b < a { MonthsApart(leap, b + 1, a); }
  }

  datatype Date = Date(year: int, month: int, day: int)

  predicate IsDate(c: Date) {
    1 <= c.month <= 12 && 1 <= c.day <= DaysInMonth(IsLeap(c.year), c.month)
  }

  /** Go's `time.Date` on whole days; like Go it lets the day run past the month's end. */
  function DayNumber(y: int, m: int, d: int): int
    requires 1 <= m <= 12
  {
    DaysBeforeYear(y) + DaysBeforeMonth(IsLeap(y), m) + d - 1
  }

  function DateOfDay(day: int): (c: Date)
    ensures IsDate(c) && DayNumber(c.year, c.month, c.day) == day && c.year == YearOfDay(day)
  {
    var y := YearOfDay(day);
    YearStep(y);
    TwelveMonths(IsLeap(y));
    var doy := day - DaysBeforeYear(y);
    var m := ClimbMonth(IsLeap(y), 1, doy);
    Date(y, m, doy - DaysBeforeMonth(IsLeap(y), m) + 1)
  }

  lemma DateInYear(c: Date)
    requires IsDate(c)
    ensures DaysBeforeYear(c.year) <= DayNumber(c.year, c.month, c.day) < DaysBeforeYear(c.year + 1)
  {
    MonthsApart(IsLeap(c.year), c.month + 1, 13);
    TwelveMonths(IsLeap(c.year));
    YearStep(c.year);
  }

  /** Numbering the days and reading the date back are inverse to each other. */
  lemma DateRoundTrip(c: Date)
    requires IsDate(c)
    ensures DateOfDay(DayNumber(c.year, c.month, c.day)) == c
  {
    var n := DayNumber(c.year, c.month, c.day);
    DateInYear(c);
    YearOfDayUnique(n, c.year);
    var r := DateOfDay(n);
    MonthUnique(IsLeap(c.year), n - DaysBeforeYear(c.year), r.month, c.month);
  }

  // ---------- The calendar in closed form ----------

  /** Days and leap days, counted: no recursion. */
  lemma {:induction false} YearStartsAt(y: int)
    ensures DaysBeforeYear(y) == 365 * (y - 1) + (y - 1) / 4 - (y - 1) / 100 + (y - 1) / 400
    decreases if 1 < y then y - 1 else 1 - y
  {
    if 1 < y {
      YearStartsAt(y - 1);
      LeapDayCounts(y - 1);
    } else if y < 1 {
      YearStartsAt(y + 1);
      LeapDayCounts(y);
    }
  }

  /** Over year `y` the count of leap days rises by one exactly in leap years. */
  lemma LeapDayCounts(y: int)
    ensures y / 4 - y / 100 + y / 400 == (y - 1) / 4 - (y - 1) / 100 + (y - 1) / 400 + YearLength(y) - 365
  {
    Quotient(y, 4);
    Quotient(y, 100);
    Quotient(y, 400);
    Multiple(y, 4, 25);
    Multiple(y, 100, 4);
  }

  lemma Quotient(y: int, k: int)
    requires k == 4 || k == 100 || k == 400
    ensures y / k == (y - 1) / k + if y % k == 0 then 1 else 0
  {}

  lemma Multiple(y: int, k: int, j: int)
    requires (k == 4 && j == 25) || (k == 100 && j == 4)
    ensures y % (k * j) == 0 ==> y % k == 0
  {
    if y % (k * j) == 0 { assert y == k * (j * (y / (k * j))); }
  }

  /** The lengths of the twelve months. */
  lemma MonthLengths(leap: bool)
    ensures DaysInMonth(leap, 1) == DaysInMonth(leap, 3) == DaysInMonth(leap, 5) == DaysInMonth(leap, 7) == 31
    ensures DaysInMonth(leap, 8) == DaysInMonth(leap, 10) == DaysInMonth(leap, 12) == 31
    ensures DaysInMonth(leap, 4) == DaysInMonth(leap, 6) == DaysInMonth(leap, 9) == DaysInMonth(leap, 11) == 30
    ensures DaysInMonth(leap, 2) == if leap then 29 else 28
  {}

  /** Days before the first of month `m` in a common year. */
  const MONTH_STARTS: seq<int> := [0, 31, 59, 90, 120, 151, 181, 212, 243, 273, 304, 334, 365]

  lemma MonthStartsAt(leap: bool, m: int)
    requires 1 <= m <= 13
    ensures DaysBeforeMonth(leap, m) == MONTH_STARTS[m - 1] + if leap && 2 < m then 1 else 0
    decreases m
  {
    if 1 < m { MonthStartsAt(leap, m - 1); }
  }

  /** Day number `day` is day `d` of month `m` of year `y`. */
  ghost predicate Civil(day: int, y: int, m: int, d: int) {
    var leap := if y % 4 == 0 && (y % 100 != 0 || y % 400 == 0) then 1 else 0;
    && 1 <= m <= 12 && 1 <= d <= MONTH_STARTS[m] - MONTH_STARTS[m - 1] + (if m == 2 then leap else 0)
    && day == 365 * (y - 1) + (y - 1) / 4 - (y - 1) / 100 + (y - 1) / 400
              + MONTH_STARTS[m - 1] + (if 2 < m then leap else 0) + d - 1
  }

  /** The date of a day is the one the closed form gives, and no other. */
  lemma CivilIsDate(day: int, y: int, m: int, d: int)
    ensures Civil(day, y, m, d) <==> DateOfDay(day) == Date(y, m, d)
  {
    CivilIsDayNumber(day, y, m, d);
    var c := Date(y, m, d);
    if IsDate(c) && DayNumber(y, m, d) == day { DateRoundTrip(c); }
  }

  lemma CivilIsDayNumber(day: int, y: int, m: int, d: int)
    ensures Civil(day, y, m, d) <==> IsDate(Date(y, m, d)) && DayNumber(y, m, d) == day
  {
    if 1 <= m <= 12 {
      YearStartsAt(y);
      MonthStartsAt(IsLeap(y), m);
      MonthTable(IsLeap(y), m);
    }
  }

  lemma MonthTable(leap: bool, m: int)
    requires 1 <= m <= 12
    ensures DaysInMonth(leap, m) == MONTH_STARTS[m] - MONTH_STARTS[m - 1] + if leap && m == 2 then 1 else 0
  {
    MonthStartsAt(leap, m);
    MonthStartsAt(leap, m + 1);
  }

  /** 1 January 2000 was a Saturday, and 24 April 2026 a Friday. */
  lemma KnownDays()
    ensures Civil(730_119, 2000, 1, 1) && Weekday(730_119) == 6
    ensures Civil(739_729, 2026, 4, 24) && Weekday(739_729) == 5
  {}

  /** Sunday is 0; 1 January of year 1 was a Monday. */
  function Weekday(day: int): (w: int)
    ensures 0 <= w < 7
  {
    (day + 1) % 7
  }

  // ---------- Instants ----------

  function DayOf(t: Instant): (d: int)
    ensures d * 86_400_000_000_000 <= t < (d + 1) * 86_400_000_000_000
  {
    t / 86_400_000_000_000
  }

  lemma DayOfUnique(t: Instant, d: int)
    requires d * DAY <= t < (d + 1) * DAY
    ensures DayOf(t) == d
  {}

  function YearOf(t: Instant): int { YearOfDay(DayOf(t)) }

  function StartOfYear(y: int): Instant { DaysBeforeYear(y) * 86_400_000_000_000 }

  lemma YearBounds(t: Instant)
    ensures StartOfYear(YearOf(t)) <= t < StartOfYear(YearOf(t) + 1)
  {}

  lemma YearOfUnique(t: Instant, y: int)
    requires StartOfYear(y) <= t < StartOfYear(y + 1)
    ensures YearOf(t) == y
  {
    YearOfDayUnique(DayOf(t), y);
  }

  lemma YearsOrder(a: int, b: int)
    requires a <= b
    ensures StartOfYear(a) + 365 * (b - a) * DAY <= StartOfYear(b) <= StartOfYear(a) + 366 * (b - a) * DAY
  {
    YearsApart(a, b);
  }

  lemma YearOfMonotone(s: Instant, t: Instant)
    requires s <= t
    ensures YearOf(s) <= YearOf(t)
  {
    if YearOf(t) < YearOf(s) { YearsOrder(YearOf(t) + 1, YearOf(s)); YearBounds(s); YearBounds(t); }
  }

  /** `t.AddDate(n, 0, 0)`: 29 February lands on 1 March when the target year is common. */
  function AddYears(t: Instant, n: int): Instant {
    var c := DateOfDay(DayOf(t));
    DayNumber(c.year + n, c.month, c.day) * 86_400_000_000_000 + t % 86_400_000_000_000
  }

  /** `t.Truncate(time.Second)` for instants at or after the zero time. */
  function TruncateToSecond(t: Instant): (r: Instant)
    ensures r % 1_000_000_000 == 0 && r <= t < r + 1_000_000_000
  {
    t - t % 1_000_000_000
  }
}
