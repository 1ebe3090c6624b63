/** Gregorian calendar dates as Python's datetime represents them (years 1 to
    9999), the two relativedelta steps the script uses (one month forward, one
    day back) and calendar months as (year, month) pairs. */
module Dates {
  import opened Outcomes

  const MIN_YEAR: int := 1
  const MAX_YEAR: int := 9999

  datatype Date = Date(year: int, month: int, day: int)

  /** A calendar month: the key of the allocation grid. */
  datatype YearMonth = YearMonth(year: int, month: int)

  predicate IsLeapYear(y: int) {
    y % 4 == 0 && (y % 100 != 0 || y % 400 == 0)
  }

  /** The length of a month, as calendar.monthrange reports it. */
  function DaysInMonth(y: int, m: int): (n: int)
    requires 1 <= m <= 12
    ensures 28 <= n <= 31
  {
    if m == 2 then (if IsLeapYear(y) then 29 else 28)
    else if m == 4 || m == 6 || m == 9 || m == 11 then 30
    else 31
  }

  /** The dates a datetime object can hold. */
  predicate ValidDate(d: Date) {
    && MIN_YEAR <= d.year <= MAX_YEAR
    && 1 <= d.month <= 12
    && 1 <= d.day <= DaysInMonth(d.year, d.month)
  }

  function Min(a: int, b: int): int {
    if a <= b then a else b
  }

  // ---------------------------------------------------------------------
  // Months
  // ---------------------------------------------------------------------

  predicate ValidMonth(ym: YearMonth) {
    MIN_YEAR <= ym.year <= MAX_YEAR && 1 <= ym.month <= 12
  }

  function MonthOf(d: Date): YearMonth {
    YearMonth(d.year, d.month)
  }

  /** The number of months from January of year 0 to ym. */
  function MonthIndex(ym: YearMonth): int {
    12 * ym.year + ym.month - 1
  }

  /** The month with a given index. */
  function MonthAt(k: int): (ym: YearMonth)
    ensures MonthIndex(ym) == k && 1 <= ym.month <= 12
  {
    YearMonth(k / 12, k % 12 + 1)
  }

  /** Months with months in 1..12 are determined by their index. */
  lemma MonthAtIndex(ym: YearMonth)
    requires 1 <= ym.month <= 12
    ensures MonthAt(MonthIndex(ym)) == ym
  {
    var k := MonthIndex(ym);
    assert k == 12 * ym.year + (ym.month - 1);
    assert 0 <= ym.month - 1 < 12;
  }

  /** The order of (year, month) tuples, which is also the order of the first
      days of those months as datetimes. */
  predicate MonthLe(a: YearMonth, b: YearMonth) {
    a.year < b.year || (a.year == b.year && a.month <= b.month)
  }

  /** Tuple order and index order agree. */
  lemma MonthLeIndex(a: YearMonth, b: YearMonth)
    requires 1 <= a.month <= 12 && 1 <= b.month <= 12
    ensures MonthLe(a, b) <==> MonthIndex(a) <= MonthIndex(b)
  {
  }

  /** relativedelta(months=+1) on the first day of a month. */
  function NextMonth(ym: YearMonth): (r: YearMonth)
    requires 1 <= ym.month <= 12
    ensures 1 <= r.month <= 12
    ensures MonthIndex(r) == MonthIndex(ym) + 1
  {
    if ym.month == 12 then YearMonth(ym.year + 1, 1) else YearMonth(ym.year, ym.month + 1)
  }

  // ---------------------------------------------------------------------
  // relativedelta steps on dates
  // ---------------------------------------------------------------------

  /** date + relativedelta(months=1): the same day of the next month, clipped
      to that month's length; the step past December 9999 raises ValueError
      (None here). */
  function AddMonth(d: Date): (r: Option<Date>)
    requires ValidDate(d)
    ensures r.None? <==> d.year == MAX_YEAR && d.month == 12
    ensures r.Some? ==> ValidDate(r.value)
    ensures r.Some? ==> MonthOf(r.value) == NextMonth(MonthOf(d))
    ensures r.Some? ==> r.value.day == Min(d.day, DaysInMonth(r.value.year, r.value.month))
  {
    var next := NextMonth(MonthOf(d));
    if next.year > MAX_YEAR then None
    else Some(Date(next.year, next.month, Min(d.day, DaysInMonth(next.year, next.month))))
  }

  /** date - relativedelta(days=1), for every date after 1 January of year 1. */
  function PrevDay(d: Date): (r: Date)
    requires ValidDate(d) && d != Date(MIN_YEAR, 1, 1)
    ensures ValidDate(r)
  {
    if d.day > 1 then Date(d.year, d.month, d.day - 1)
    else if d.month > 1 then Date(d.year, d.month - 1, DaysInMonth(d.year, d.month - 1))
    else Date(d.year - 1, 12, 31)
  }

  /** The script's end of month: the first of the month, plus one month, minus
      one day. It fails only for December 9999, where the month step leaves
      the datetime range. */
  function EndOfMonth(y: int, m: int): Option<Date>
    requires MIN_YEAR <= y <= MAX_YEAR && 1 <= m <= 12
  {
    match AddMonth(Date(y, m, 1))
    case None => None
    case Some(next) => Some(PrevDay(next))
  }

  /** The computed end of month is the month's last calendar day, so February
      ends on the 29th exactly in leap years. */
  lemma EndOfMonthIsLastDay(y: int, m: int)
    requires MIN_YEAR <= y <= MAX_YEAR && 1 <= m <= 12
    ensures EndOfMonth(y, m) == if y == MAX_YEAR && m == 12 then None
                                else Some(Date(y, m, DaysInMonth(y, m)))
    ensures m == 2 && EndOfMonth(y, m).Some? ==> (EndOfMonth(y, m).value.day == 29 <==> IsLeapYear(y))
  {
  }
}
