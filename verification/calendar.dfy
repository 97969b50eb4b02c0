/**
 * Calendar values as the application sees them once a date string has been
 * decoded: a year, a month numbered the way JavaScript's `Date.getMonth()`
 * numbers it (0 is January, 11 is December) and a day of the month.
 */
module Calendar {

  /** A month index as `getMonth()` reports it. */
  type MonthIndex = m: int | 0 <= m < 12

  /** A calendar date without a time component. */
  datatype Date = Date(year: int, month: MonthIndex, day: int)

  /** A calendar month: the key of a history group and the month-navigation cursor. */
  datatype YearMonth = YearMonth(year: int, month: MonthIndex)

  function MonthOf(d: Date): YearMonth {
    YearMonth(d.year, d.month)
  }

  /** Months counted from January of year 0; lays the months out on the integer line. */
  function Ordinal(ym: YearMonth): int {
    ym.year * 12 + ym.month
  }

  /** The month at a given position of the integer line. */
  function FromOrdinal(n: int): (ym: YearMonth)
    ensures Ordinal(ym) == n
  {
    YearMonth(n / 12, n % 12)
  }

  lemma OrdinalInjective(a: YearMonth, b: YearMonth)
    ensures Ordinal(a) == Ordinal(b) <==> a == b
  {
    BeforeIsOrdinalOrder(a, b);
    BeforeIsOrdinalOrder(b, a);
  }

  /**
   * The comparison the month cursor uses: `a` lies in an earlier calendar
   * month than `b` (earlier year, or same year and earlier month).
   */
  predicate Before(a: YearMonth, b: YearMonth) {
    a.year < b.year || (a.year == b.year && a.month < b.month)
  }

  /** Lexicographic month order is exactly the order of the integer line. */
  lemma BeforeIsOrdinalOrder(a: YearMonth, b: YearMonth)
    ensures Before(a, b) <==> Ordinal(a) < Ordinal(b)
  {
    if a.year < b.year {
      assert Ordinal(a) < (a.year + 1) * 12 <= Ordinal(b);
    } else if a.year > b.year {
      assert Ordinal(b) < (b.year + 1) * 12 <= Ordinal(a);
    }
  }

  /** The calendar month right after `ym`; December rolls over into January. */
  function Following(ym: YearMonth): (r: YearMonth)
    ensures Ordinal(r) == Ordinal(ym) + 1
  {
    if ym.month == 11 then YearMonth(ym.year + 1, 0) else YearMonth(ym.year, ym.month + 1)
  }

  /** The calendar month right before `ym`; January rolls back into December. */
  function Preceding(ym: YearMonth): (r: YearMonth)
    ensures Ordinal(r) == Ordinal(ym) - 1
  {
    if ym.month == 0 then YearMonth(ym.year - 1, 11) else YearMonth(ym.year, ym.month - 1)
  }

  /** Gregorian leap years. */
  predicate IsLeapYear(y: int) {
    y % 4 == 0 && (y % 100 != 0 || y % 400 == 0)
  }

  function DaysInMonth(y: int, m: MonthIndex): (n: int)
    ensures 28 <= n <= 31
  {
    if m == 1 then (if IsLeapYear(y) then 29 else 28)
    else if m == 3 || m == 5 || m == 8 || m == 10 then 30
    else 31
  }

  /** A date that names an existing day of the proleptic Gregorian calendar. */
  predicate ValidDate(d: Date) {
    1 <= d.day <= DaysInMonth(d.year, d.month)
  }

  /** The last day of a month and the first day of the next month lie in different months. */
  lemma MonthBoundary(last: Date, first: Date)
    requires ValidDate(last) && last.day == DaysInMonth(last.year, last.month)
    requires first.day == 1 && MonthOf(first) == Following(MonthOf(last))
    ensures MonthOf(last) != MonthOf(first)
    ensures Before(MonthOf(last), MonthOf(first))
  {
    BeforeIsOrdinalOrder(MonthOf(last), MonthOf(first));
  }
}
