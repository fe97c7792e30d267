/** Calendar dates and whole-year tenure, as java.time computes them for the
    quarterly accrual job (Period.between(joinDate, now).years). */
module Dates {

  /** A LocalDate as a (year, month, day) triple. */
  datatype Date = Date(year: int, month: int, day: int)

  predicate ValidDate(d: Date) {
    1 <= d.month <= 12 && 1 <= d.day <= 31
  }

  /** a is the same day as b or earlier. */
  predicate OnOrBefore(a: Date, b: Date) {
    a.year < b.year
    || (a.year == b.year && a.month < b.month)
    || (a.year == b.year && a.month == b.month && a.day <= b.day)
  }

  /** LocalDate.getProlepticMonth: months counted from year 0. */
  function ProlepticMonth(d: Date): int {
    d.year * 12 + (d.month - 1)
  }

  /** Long division on the JVM truncates toward zero. */
  function TruncDiv(a: int, b: int): int
    requires b > 0
  {
    if a >= 0 then a / b else -((-a) / b)
  }

  /** Period.between(start, end).years: the month count, corrected by one when
      the day of month has not been reached, truncated to whole years. */
  function PeriodYears(start: Date, end: Date): (y: int)
    // a tenure is never negative, and a join date in the future gives none
    ensures ValidDate(start) && ValidDate(end) && OnOrBefore(start, end) ==> y >= 0
    ensures ValidDate(start) && ValidDate(end) && OnOrBefore(end, start) ==> y <= 0
  {
    var totalMonths := ProlepticMonth(end) - ProlepticMonth(start);
    var days := end.day - start.day;
    var months :=
      if totalMonths > 0 && days < 0 then totalMonths - 1
      else if totalMonths < 0 && days > 0 then totalMonths + 1
      else totalMonths;
    TruncDiv(months, 12)
  }

  /** Whole years from start to end: the year difference, less one if the
      anniversary (month, day) has not yet come round in the end year. */
  function WholeYears(start: Date, end: Date): int {
    var notYet := end.month < start.month || (end.month == start.month && end.day < start.day);
    (end.year - start.year) - (if notYet then 1 else 0)
  }

  /** For a start on or before the end, Period.between counts whole years. */
  lemma PeriodYearsIsWholeYears(start: Date, end: Date)
    requires ValidDate(start) && ValidDate(end)
    requires OnOrBefore(start, end)
    ensures PeriodYears(start, end) == WholeYears(start, end)
    ensures PeriodYears(start, end) >= 0
  {
    var w := WholeYears(start, end);
    var totalMonths := ProlepticMonth(end) - ProlepticMonth(start);
    var days := end.day - start.day;
    var months := if totalMonths > 0 && days < 0 then totalMonths - 1 else totalMonths;
    assert totalMonths >= 0;
    assert 12 * w <= months < 12 * w + 12;
    assert w >= 0;
    assert months / 12 == w;
  }

  /** Less than one year of tenure earns nothing. */
  lemma UnderOneYearIsZero(start: Date, end: Date)
    requires ValidDate(start) && ValidDate(end)
    requires OnOrBefore(start, end)
    requires !OnOrBefore(Date(start.year + 1, start.month, start.day), end)
    ensures PeriodYears(start, end) == 0
  {
    PeriodYearsIsWholeYears(start, end);
  }

  /** On the n-th anniversary the tenure is exactly n years. */
  lemma AnniversaryTenure(start: Date, n: nat)
    requires ValidDate(start)
    ensures PeriodYears(start, Date(start.year + n, start.month, start.day)) == n
  {
    PeriodYearsIsWholeYears(start, Date(start.year + n, start.month, start.day));
  }

  const SECONDS_PER_DAY := 86400

  /** LocalDate.atStartOfDay for a day number, as a timestamp in seconds. */
  function StartOfDay(epochDay: int): int {
    epochDay * SECONDS_PER_DAY
  }
}
