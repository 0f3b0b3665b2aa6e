/** Proleptic Gregorian calendar arithmetic standing in for the host `Date` object.
    Months are 0-based (January = 0), as `Date.prototype.getMonth` returns them. */
module Dates {

  /** A month anchor: what `currentDate` and `miniCalDate` hold once normalised to day 1. */
  datatype YearMonth = YearMonth(year: int, month: int) {
    predicate Valid() { 0 <= month < 12 }
  }

  /** A calendar day with a 0-based month. */
  datatype CalDate = CalDate(year: int, month: int, day: int) {
    predicate Valid() { 0 <= month < 12 && 1 <= day <= DaysInMonth(year, month) }
    function Month(): YearMonth { YearMonth(year, month) }
  }

  predicate IsLeapYear(y: int) {
    y % 4 == 0 && (y % 100 != 0 || y % 400 == 0)
  }

  function DaysInMonth(y: int, m: int): (n: int)
    requires 0 <= m < 12
    ensures 28 <= n <= 31
  {
    if m == 1 then (if IsLeapYear(y) then 29 else 28)
    else if m == 3 || m == 5 || m == 8 || m == 10 then 30
    else 31
  }

  /** Days in the months of year `y` that come before month `m` (a table, independent of DaysInMonth). */
  function DaysBeforeMonth(y: int, m: int): int
    requires 0 <= m <= 12
  {
    [0, 31, 59, 90, 120, 151, 181, 212, 243, 273, 304, 334, 365][m]
      + (if m >= 2 && IsLeapYear(y) then 1 else 0)
  }

  /** Number of leap years in [0, y) (negated count of those in [y, 0) when y < 0). */
  function LeapYearsBefore(y: int): int {
    (y + 3) / 4 - (y + 99) / 100 + (y + 399) / 400
  }

  function DaysBeforeYear(y: int): int {
    365 * y + LeapYearsBefore(y)
  }

  /** Days since 0000-01-01 (negative before it). */
  function DayNumber(d: CalDate): int
    requires 0 <= d.month < 12
  {
    DaysBeforeYear(d.year) + DaysBeforeMonth(d.year, d.month) + d.day - 1
  }

  /** `getDay()`: 0 = Sunday .. 6 = Saturday; 0000-01-01 was a Saturday. */
  function Weekday(d: CalDate): (w: int)
    requires 0 <= d.month < 12
    ensures 0 <= w < 7
  {
    (DayNumber(d) + 6) % 7
  }

  function FirstOf(ym: YearMonth): CalDate {
    CalDate(ym.year, ym.month, 1)
  }

  /** The previous month as the grid builder computes it (two branches on January). */
  function PrevMonth(ym: YearMonth): YearMonth {
    if ym.month == 0 then YearMonth(ym.year - 1, 11) else YearMonth(ym.year, ym.month - 1)
  }

  /** The next month as the grid builder computes it (two branches on December). */
  function NextMonth(ym: YearMonth): YearMonth {
    if ym.month == 11 then YearMonth(ym.year + 1, 0) else YearMonth(ym.year, ym.month + 1)
  }

  /** Months since January of year 0. */
  function MonthIndex(ym: YearMonth): int {
    ym.year * 12 + ym.month
  }

  function FromMonthIndex(n: int): (ym: YearMonth)
    ensures ym.Valid() && MonthIndex(ym) == n
  {
    YearMonth(n / 12, n % 12)
  }

  /** `d.setMonth(d.getMonth() + k)` on a day-1 date. */
  function AddMonths(ym: YearMonth, k: int): (r: YearMonth)
    ensures r.Valid() && MonthIndex(r) == MonthIndex(ym) + k
  {
    FromMonthIndex(MonthIndex(ym) + k)
  }

  /** The year `new Date(y, m, d)` actually uses: years 0..99 are read as 1900..1999. */
  function ConstructorYear(y: int): (r: int)
    ensures 0 <= y <= 99 ==> r == 1900 + y
    ensures (y < 0 || y > 99) ==> r == y
  {
    if 0 <= y <= 99 then 1900 + y else y
  }

  /** `new Date(y, m, 1)` as a month anchor, month overflow normalised. */
  function DateConstructorMonth(y: int, m: int): (r: YearMonth)
    ensures r.Valid() && MonthIndex(r) == ConstructorYear(y) * 12 + m
  {
    FromMonthIndex(ConstructorYear(y) * 12 + m)
  }

  lemma MonthIndexInjective(a: YearMonth, b: YearMonth)
    requires a.Valid() && b.Valid() && MonthIndex(a) == MonthIndex(b)
    ensures a == b
  {
  }

  /** The grid's branch-wise neighbours agree with the navigation's setMonth(±1). */
  lemma NeighboursAreMonthShifts(ym: YearMonth)
    requires ym.Valid()
    ensures PrevMonth(ym) == AddMonths(ym, -1)
    ensures NextMonth(ym) == AddMonths(ym, 1)
  {
    MonthIndexInjective(PrevMonth(ym), AddMonths(ym, -1));
    MonthIndexInjective(NextMonth(ym), AddMonths(ym, 1));
  }

  lemma AddMonthsCompose(ym: YearMonth, a: int, b: int)
    ensures AddMonths(AddMonths(ym, a), b) == AddMonths(ym, a + b)
  {
    MonthIndexInjective(AddMonths(AddMonths(ym, a), b), AddMonths(ym, a + b));
  }

  /** Going forward a month and back again returns to the same anchor. */
  lemma PrevNextInverse(ym: YearMonth)
    requires ym.Valid()
    ensures PrevMonth(NextMonth(ym)) == ym && NextMonth(PrevMonth(ym)) == ym
  {
  }

  lemma LeapYearsStep(y: int)
    ensures LeapYearsBefore(y + 1) == LeapYearsBefore(y) + (if IsLeapYear(y) then 1 else 0)
  {
    assert (y + 4) / 4 - (y + 3) / 4 == (if y % 4 == 0 then 1 else 0);
    assert (y + 100) / 100 - (y + 99) / 100 == (if y % 100 == 0 then 1 else 0);
    assert (y + 400) / 400 - (y + 399) / 400 == (if y % 400 == 0 then 1 else 0);
  }

  /** The month table and the per-month lengths agree: each month starts where the previous ends. */
  lemma DaysBeforeMonthStep(y: int, m: int)
    requires 0 <= m < 12
    ensures DaysBeforeMonth(y, m + 1) == DaysBeforeMonth(y, m) + DaysInMonth(y, m)
  {
  }

  /** The first of the next month is DaysInMonth days after the first of this one. */
  lemma {:induction false} NextMonthStart(ym: YearMonth)
    requires ym.Valid()
    ensures DayNumber(FirstOf(NextMonth(ym))) == DayNumber(FirstOf(ym)) + DaysInMonth(ym.year, ym.month)
  {
    DaysBeforeMonthStep(ym.year, ym.month);
    if ym.month == 11 {
      LeapYearsStep(ym.year);
    }
  }

  /** Within a month, consecutive days have consecutive day numbers. */
  lemma DayNumberInMonth(ym: YearMonth, d: int)
    requires ym.Valid()
    ensures DayNumber(CalDate(ym.year, ym.month, d)) == DayNumber(FirstOf(ym)) + d - 1
  {
  }
}
