/**
 * Gregorian calendar arithmetic on whole days: the part of the date library
 * that the schedule relies on (1 January of a year, the start of its week,
 * adding days, the year of a day, comparing two days).
 *
 * A day is an integer day number: day 0 is 1 January of year 1 in the
 * proleptic Gregorian calendar, a Monday. A civil date is a `Date`.
 */
module Calendar {

  /** A civil date; `ValidDate` says when it names a real day. */
  datatype Date = Date(year: int, month: int, day: int)

  /** The Gregorian leap-year rule. */
  predicate IsLeapYear(y: int) {
    y % 4 == 0 && (y % 100 != 0 || y % 400 == 0)
  }

  function DaysInYear(y: int): int {
    if IsLeapYear(y) then 366 else 365
  }

  function DaysInMonth(y: int, m: int): int
    requires 1 <= m <= 12
  {
    if m == 2 then (if IsLeapYear(y) then 29 else 28)
    else if m == 4 || m == 6 || m == 9 || m == 11 then 30
    else 31
  }

  predicate ValidDate(d: Date) {
    1 <= d.month <= 12 && 1 <= d.day <= DaysInMonth(d.year, d.month)
  }

  /** Days of year `y` before the first of month `m`; `m == 13` stands for the end of the year. */
  function DaysBeforeMonth(y: int, m: int): int
    requires 1 <= m <= 13
  {
    [0, 31, 59, 90, 120, 151, 181, 212, 243, 273, 304, 334, 365][m - 1]
      + (if m > 2 && IsLeapYear(y) then 1 else 0)
  }

  lemma DaysBeforeMonthStep(y: int, m: int)
    requires 1 <= m <= 12
    ensures DaysBeforeMonth(y, m + 1) == DaysBeforeMonth(y, m) + DaysInMonth(y, m)
    ensures DaysBeforeMonth(y, 13) == DaysInYear(y)
  {
  }

  lemma {:induction false} DaysBeforeMonthMonotone(y: int, a: int, b: int)
    requires 1 <= a <= b <= 13
    ensures DaysBeforeMonth(y, a) <= DaysBeforeMonth(y, b)
    decreases b - a
  {
    if a < b {
      DaysBeforeMonthStep(y, a);
      DaysBeforeMonthMonotone(y, a + 1, b);
    }
  }

  /** The 0-based position of `d` within its year. */
  function OrdinalOf(d: Date): (q: int)
    requires ValidDate(d)
    ensures 0 <= q < DaysInYear(d.year)
  {
    DaysBeforeMonthStep(d.year, d.month);
    DaysBeforeMonthMonotone(d.year, d.month + 1, 13);
    DaysBeforeMonth(d.year, d.month) + d.day - 1
  }

  /** Walks month by month from month `m` to the day `q` days after its first. */
  function MonthWalk(y: int, m: int, q: int): (d: Date)
    requires 1 <= m <= 12 && 0 <= q
    requires DaysBeforeMonth(y, m) + q < DaysInYear(y)
    ensures ValidDate(d) && d.year == y
    ensures OrdinalOf(d) == DaysBeforeMonth(y, m) + q
    decreases 12 - m
  {
    DaysBeforeMonthStep(y, m);
    if q < DaysInMonth(y, m) then Date(y, m, q + 1)
    else MonthWalk(y, m + 1, q - DaysInMonth(y, m))
  }

  /** The date that is day `q` (0-based) of year `y`. */
  function DateOfOrdinal(y: int, q: int): (d: Date)
    requires 0 <= q < DaysInYear(y)
    ensures ValidDate(d) && d.year == y && OrdinalOf(d) == q
  {
    MonthWalk(y, 1, q)
  }

  lemma {:induction false} MonthWalkReaches(d: Date, m: int)
    requires ValidDate(d) && 1 <= m <= d.month
    requires DaysBeforeMonth(d.year, m) <= OrdinalOf(d)
    ensures MonthWalk(d.year, m, OrdinalOf(d) - DaysBeforeMonth(d.year, m)) == d
    decreases d.month - m
  {
    DaysBeforeMonthStep(d.year, m);
    if m < d.month {
      DaysBeforeMonthMonotone(d.year, m + 1, d.month);
      MonthWalkReaches(d, m + 1);
    }
  }

  /** Ordinal and date of a year are inverse to each other. */
  lemma DateOfOrdinalOf(d: Date)
    requires ValidDate(d)
    ensures DateOfOrdinal(d.year, OrdinalOf(d)) == d
  {
    MonthWalkReaches(d, 1);
  }

  /** Day number of 1 January of year `y`. */
  function YearStart(y: int): int {
    365 * (y - 1) + (y - 1) / 4 - (y - 1) / 100 + (y - 1) / 400
  }

  lemma FloorStep4(y: int)
    ensures y / 4 - (y - 1) / 4 == if y % 4 == 0 then 1 else 0
  {
  }

  lemma FloorStep100(y: int)
    ensures y / 100 - (y - 1) / 100 == if y % 100 == 0 then 1 else 0
  {
  }

  lemma FloorStep400(y: int)
    ensures y / 400 - (y - 1) / 400 == if y % 400 == 0 then 1 else 0
  {
  }

  /** Year `y` contributes exactly its own length to the day count. */
  lemma YearStartNext(y: int)
    ensures YearStart(y + 1) == YearStart(y) + DaysInYear(y)
  {
    FloorStep4(y);
    FloorStep100(y);
    FloorStep400(y);
    if y % 400 == 0 {
      assert y % 100 == 0 && y % 4 == 0;
    } else if y % 100 == 0 {
      assert y % 4 == 0;
    }
  }

  lemma {:induction false} YearStartMonotone(a: int, b: int)
    requires a < b
    ensures YearStart(a) + DaysInYear(a) <= YearStart(b)
    decreases b - a
  {
    YearStartNext(a);
    if a + 1 < b {
      YearStartMonotone(a + 1, b);
    }
  }

  /** The day number of a civil date. */
  function DayNumber(d: Date): int
    requires ValidDate(d)
  {
    YearStart(d.year) + OrdinalOf(d)
  }

  /** Day of the week of day `n`: 0 is Sunday, 6 is Saturday. */
  function Weekday(n: int): int {
    (n + 1) % 7
  }

  /** The first day of the week (a Sunday) that contains day `n`. */
  function StartOfWeek(n: int): (s: int)
    ensures Weekday(s) == 0 && s <= n < s + 7
  {
    n - Weekday(n)
  }

  /** Day `n` falls in year `y`. */
  predicate InYear(n: int, y: int) {
    YearStart(y) <= n < YearStart(y) + DaysInYear(y)
  }

  lemma InYearUnique(n: int, y1: int, y2: int)
    requires InYear(n, y1) && InYear(n, y2)
    ensures y1 == y2
  {
    if y1 < y2 {
      YearStartMonotone(y1, y2);
    } else if y2 < y1 {
      YearStartMonotone(y2, y1);
    }
  }

  lemma {:induction false} YearExists(n: int)
    ensures exists y :: InYear(n, y)
    decreases if n < 0 then -n else n
  {
    if n == 0 {
      assert InYear(0, 1);
    } else if n > 0 {
      YearExists(n - 1);
      var y :| InYear(n - 1, y);
      YearStartNext(y);
      if !InYear(n, y) {
        assert InYear(n, y + 1);
      }
    } else {
      YearExists(n + 1);
      var y :| InYear(n + 1, y);
      YearStartNext(y - 1);
      if !InYear(n, y) {
        assert InYear(n, y - 1);
      }
    }
  }

  /** The calendar year that day `n` belongs to. */
  ghost function YearOf(n: int): (y: int)
    ensures InYear(n, y)
    ensures forall y' :: InYear(n, y') ==> y' == y
  {
    YearExists(n);
    var y :| InYear(n, y);
    forall y' | InYear(n, y') ensures y' == y {
      InYearUnique(n, y, y');
    }
    y
  }

  /** The year of a date's day number is the date's own year. */
  lemma DayNumberYear(d: Date)
    requires ValidDate(d)
    ensures InYear(DayNumber(d), d.year) && YearOf(DayNumber(d)) == d.year
  {
    var n := DayNumber(d);
    assert InYear(n, d.year);
    InYearUnique(n, d.year, YearOf(n));
  }

  /** The civil date of day `n`, known to fall in year `y`. */
  function DateInYear(n: int, y: int): (d: Date)
    requires InYear(n, y)
    ensures ValidDate(d) && d.year == y && DayNumber(d) == n
  {
    DateOfOrdinal(y, n - YearStart(y))
  }

  /** Distinct valid dates have distinct day numbers. */
  lemma DayNumberInjective(a: Date, b: Date)
    requires ValidDate(a) && ValidDate(b) && DayNumber(a) == DayNumber(b)
    ensures a == b
  {
    DayNumberYear(a);
    DayNumberYear(b);
    DateOfOrdinalOf(a);
    DateOfOrdinalOf(b);
  }

  /** The following day, as adding one day to a date does. */
  function NextDay(d: Date): (e: Date)
    requires ValidDate(d)
    ensures ValidDate(e) && DayNumber(e) == DayNumber(d) + 1
  {
    DaysBeforeMonthStep(d.year, d.month);
    YearStartNext(d.year);
    if d.day < DaysInMonth(d.year, d.month) then Date(d.year, d.month, d.day + 1)
    else if d.month < 12 then Date(d.year, d.month + 1, 1)
    else Date(d.year + 1, 1, 1)
  }

  /** `a` is the same day as `b` or an earlier one, compared field by field. */
  predicate SameOrBefore(a: Date, b: Date) {
    a.year < b.year
    || (a.year == b.year && (a.month < b.month || (a.month == b.month && a.day <= b.day)))
  }

  /** Comparing dates field by field agrees with comparing their day numbers. */
  lemma SameOrBeforeIffDayNumber(a: Date, b: Date)
    requires ValidDate(a) && ValidDate(b)
    ensures SameOrBefore(a, b) <==> DayNumber(a) <= DayNumber(b)
  {
    if a.year < b.year {
      YearStartMonotone(a.year, b.year);
    } else if b.year < a.year {
      YearStartMonotone(b.year, a.year);
    } else if a.month < b.month {
      DaysBeforeMonthStep(a.year, a.month);
      DaysBeforeMonthMonotone(a.year, a.month + 1, b.month);
    } else if b.month < a.month {
      DaysBeforeMonthStep(a.year, b.month);
      DaysBeforeMonthMonotone(a.year, b.month + 1, a.month);
    }
  }
}
