/** Proleptic Gregorian calendar dates, as Python's `datetime.date` holds them (years 1..9999),
    the successor day that `+ timedelta(days=1)` computes, and the day ordinal that justifies it. */
module Dates {

  datatype Date = Date(year: int, month: int, day: int)

  predicate IsLeapYear(y: int) {
    y % 4 == 0 && (y % 100 != 0 || y % 400 == 0)
  }

  function DaysInMonth(y: int, m: int): int
    requires 1 <= m <= 12
  {
    if m == 2 then (if IsLeapYear(y) then 29 else 28)
    else if m == 4 || m == 6 || m == 9 || m == 11 then 30
    else 31
  }

  function YearLength(y: int): int {
    if IsLeapYear(y) then 366 else 365
  }

  /** A date `datetime` can represent: MINYEAR = 1, MAXYEAR = 9999, and a day that exists in its month. */
  predicate ValidDate(d: Date) {
    1 <= d.year <= 9999 && 1 <= d.month <= 12 && 1 <= d.day <= DaysInMonth(d.year, d.month)
  }

  /** The last representable date; adding a day to it raises OverflowError. */
  const LastDate: Date := Date(9999, 12, 31)

  /** Chronological order (lexicographic on year, month, day). */
  predicate Before(a: Date, b: Date) {
    a.year < b.year ||
    (a.year == b.year && (a.month < b.month || (a.month == b.month && a.day < b.day)))
  }

  /** `d + timedelta(days=1)`: the next day, rolling over the end of a month and of a year. */
  function NextDay(d: Date): (r: Date)
    requires ValidDate(d) && d != LastDate
    ensures ValidDate(r) && Before(d, r)
  {
    if d.day < DaysInMonth(d.year, d.month) then Date(d.year, d.month, d.day + 1)
    else if d.month < 12 then Date(d.year, d.month + 1, 1)
    else Date(d.year + 1, 1, 1)
  }

  // ---------------------------------------------------------------- day ordinal

  function DaysBeforeYear(y: int): nat
    requires y >= 1
    decreases y
  {
    if y == 1 then 0 else DaysBeforeYear(y - 1) + YearLength(y - 1)
  }

  function DaysBeforeMonth(y: int, m: int): nat
    requires 1 <= m <= 13
    decreases m
  {
    if m == 1 then 0 else DaysBeforeMonth(y, m - 1) + DaysInMonth(y, m - 1)
  }

  /** The day number of `d`, counting 0001-01-01 as day 1 (`date.toordinal`). */
  function Ordinal(d: Date): int
    requires ValidDate(d)
  {
    DaysBeforeYear(d.year) + DaysBeforeMonth(d.year, d.month) + d.day
  }

  /** The twelve months add up to the length of the year. */
  lemma MonthsFillYear(y: int)
    ensures DaysBeforeMonth(y, 13) == YearLength(y)
  {
    assert DaysBeforeMonth(y, 2) == 31;
    assert DaysBeforeMonth(y, 3) == 31 + DaysInMonth(y, 2);
    assert DaysBeforeMonth(y, 4) == 62 + DaysInMonth(y, 2);
    assert DaysBeforeMonth(y, 5) == 92 + DaysInMonth(y, 2);
    assert DaysBeforeMonth(y, 6) == 123 + DaysInMonth(y, 2);
    assert DaysBeforeMonth(y, 7) == 153 + DaysInMonth(y, 2);
    assert DaysBeforeMonth(y, 8) == 184 + DaysInMonth(y, 2);
    assert DaysBeforeMonth(y, 9) == 215 + DaysInMonth(y, 2);
    assert DaysBeforeMonth(y, 10) == 245 + DaysInMonth(y, 2);
    assert DaysBeforeMonth(y, 11) == 276 + DaysInMonth(y, 2);
    assert DaysBeforeMonth(y, 12) == 306 + DaysInMonth(y, 2);
  }

  /** Every day of month `m` lies before every day of a later month `n` of the same year. */
  lemma {:induction false} DaysBeforeMonthGrows(y: int, m: int, n: int)
    requires 1 <= m < n <= 13
    ensures DaysBeforeMonth(y, m) + DaysInMonth(y, m) <= DaysBeforeMonth(y, n)
    decreases n
  {
    if n > m + 1 {
      DaysBeforeMonthGrows(y, m, n - 1);
    }
  }

  /** Every day of year `a` lies before every day of a later year `b`. */
  lemma {:induction false} DaysBeforeYearGrows(a: int, b: int)
    requires 1 <= a < b
    ensures DaysBeforeYear(a) + YearLength(a) <= DaysBeforeYear(b)
    decreases b
  {
    if b > a + 1 {
      DaysBeforeYearGrows(a, b - 1);
    }
  }

  /** A date's ordinal stays inside its year. */
  lemma OrdinalWithinYear(d: Date)
    requires ValidDate(d)
    ensures DaysBeforeYear(d.year) < Ordinal(d) <= DaysBeforeYear(d.year) + YearLength(d.year)
  {
    DaysBeforeMonthGrows(d.year, d.month, 13);
    MonthsFillYear(d.year);
  }

  /** NextDay advances the day ordinal by exactly one, so no date is skipped. */
  lemma NextDayOrdinal(d: Date)
    requires ValidDate(d) && d != LastDate
    ensures Ordinal(NextDay(d)) == Ordinal(d) + 1
  {
    if d.day == DaysInMonth(d.year, d.month) && d.month == 12 {
      MonthsFillYear(d.year);
    }
  }

  /** Chronological order is ordinal order, in both directions. */
  lemma OrdinalOrder(a: Date, b: Date)
    requires ValidDate(a) && ValidDate(b)
    ensures Before(a, b) <==> Ordinal(a) < Ordinal(b)
  {
    OrdinalBefore(a, b);
    OrdinalBefore(b, a);
  }

  lemma OrdinalBefore(a: Date, b: Date)
    requires ValidDate(a) && ValidDate(b)
    ensures Before(a, b) ==> Ordinal(a) < Ordinal(b)
    ensures a == b ==> Ordinal(a) == Ordinal(b)
  {
    if a.year < b.year {
      OrdinalWithinYear(a);
      OrdinalWithinYear(b);
      DaysBeforeYearGrows(a.year, b.year);
    } else if a.year == b.year && a.month < b.month {
      DaysBeforeMonthGrows(a.year, a.month, b.month);
    }
  }

  /** NextDay is the immediate successor: a date is later than `d` exactly when it is NextDay(d) or later. */
  lemma NextDayIsSuccessor(d: Date, x: Date)
    requires ValidDate(d) && d != LastDate && ValidDate(x)
    ensures Before(d, x) <==> (x == NextDay(d) || Before(NextDay(d), x))
  {
    NextDayOrdinal(d);
    OrdinalOrder(d, x);
    OrdinalOrder(NextDay(d), x);
    OrdinalOrder(x, NextDay(d));
  }

  /** The rollover cases `+ timedelta(days=1)` must get right. */
  lemma NextDayExamples()
    ensures NextDay(Date(2024, 5, 12)) == Date(2024, 5, 13)
    ensures NextDay(Date(2023, 12, 31)) == Date(2024, 1, 1)
    ensures NextDay(Date(2024, 4, 30)) == Date(2024, 5, 1)
    ensures NextDay(Date(2024, 2, 28)) == Date(2024, 2, 29)
    ensures NextDay(Date(2023, 2, 28)) == Date(2023, 3, 1)
    ensures NextDay(Date(1900, 2, 28)) == Date(1900, 3, 1)
    ensures NextDay(Date(2000, 2, 28)) == Date(2000, 2, 29)
  {
  }
}
