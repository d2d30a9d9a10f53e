/**
 * Gregorian calendar dates as (year, month, day) values: the helpers that
 * Ruby's `Date` gives the statistics code (`Date.new`, `next_month`,
 * `end_of_month`, iterating a date range, comparing dates).
 */
module Calendar {

  datatype Date = Date(year: int, month: int, day: int)

  /** A date Ruby's `Date` can hold: always a real calendar day. */
  type Day = d: Date | ValidDate(d) witness Date(1970, 1, 1)

  /** A calendar month, the key of the monthly series ("YYYY-MM"). */
  datatype YearMonth = YearMonth(year: int, month: int)

  predicate IsLeapYear(y: int) {
    (y % 4 == 0 && y % 100 != 0) || y % 400 == 0
  }

  function DaysInMonth(y: int, m: int): (n: int)
    requires 1 <= m <= 12
    ensures 28 <= n <= 31
    ensures n < 30 <==> m == 2
    ensures n == 29 <==> m == 2 && IsLeapYear(y)
  {
    if m == 2 then (if IsLeapYear(y) then 29 else 28)
    else if m == 4 || m == 6 || m == 9 || m == 11 then 30
    else 31
  }

  predicate ValidDate(d: Date) {
    1 <= d.month <= 12 && 1 <= d.day <= DaysInMonth(d.year, d.month)
  }

  /** Chronological order: `a <= b` for Ruby dates. */
  predicate Le(a: Date, b: Date) {
    a.year < b.year ||
    (a.year == b.year && (a.month < b.month || (a.month == b.month && a.day <= b.day)))
  }

  predicate Lt(a: Date, b: Date) {
    Le(a, b) && a != b
  }

  /** `[a, b].min` */
  function MinDate(a: Date, b: Date): (r: Date)
    ensures Le(r, a) && Le(r, b)
    ensures r == a || r == b
  {
    if Le(a, b) then a else b
  }

  function MonthOf(d: Date): YearMonth {
    YearMonth(d.year, d.month)
  }

  function FirstOfYear(y: int): (d: Date)
    ensures ValidDate(d)
  {
    Date(y, 1, 1)
  }

  function LastOfYear(y: int): (d: Date)
    ensures ValidDate(d)
    ensures forall x :: ValidDate(x) && x.year == y ==> Le(x, d)
  {
    Date(y, 12, 31)
  }

  /**
   * The window of a year as far as `today`: January 1 of the year through
   * `[December 31, today].min`, both included.
   */
  predicate InYearWindow(d: Date, year: int, today: Date) {
    Le(FirstOfYear(year), d) && Le(d, MinDate(LastOfYear(year), today))
  }

  /** `date.end_of_month`: the last day of the date's month. */
  function EndOfMonth(d: Date): (r: Date)
    requires ValidDate(d)
    ensures ValidDate(r) && MonthOf(r) == MonthOf(d) && Le(d, r)
    ensures forall x :: ValidDate(x) && MonthOf(x) == MonthOf(d) ==> Le(x, r)
  {
    Date(d.year, d.month, DaysInMonth(d.year, d.month))
  }

  /** `date + 1`: the day after a valid date. */
  function NextDay(d: Date): (r: Date)
    requires ValidDate(d)
    ensures ValidDate(r) && Lt(d, r)
  {
    if d.day < DaysInMonth(d.year, d.month) then Date(d.year, d.month, d.day + 1)
    else if d.month < 12 then Date(d.year, d.month + 1, 1)
    else Date(d.year + 1, 1, 1)
  }

  /**
   * `date.next_month` (Ruby's `date >> 1`): the same day one month later,
   * clamped to the last day of that month (January 31 becomes the last day of
   * February).
   */
  function NextMonth(d: Date): (r: Date)
    requires ValidDate(d)
    ensures ValidDate(r) && Lt(d, r)
    ensures r.day == d.day || (r.day < d.day && r.day == DaysInMonth(r.year, r.month))
    ensures MonthOf(r) == if d.month < 12 then YearMonth(d.year, d.month + 1) else YearMonth(d.year + 1, 1)
  {
    var (y, m) := if d.month < 12 then (d.year, d.month + 1) else (d.year + 1, 1);
    var last := DaysInMonth(y, m);
    Date(y, m, if d.day <= last then d.day else last)
  }

  /** No valid date lies strictly between a date and the day after it. */
  lemma NextDayIsSuccessor(d: Date, x: Date)
    requires ValidDate(d) && ValidDate(x)
    ensures Lt(d, x) <==> Le(NextDay(d), x)
  {
  }

  lemma LeTransitive(a: Date, b: Date, c: Date)
    requires Le(a, b) && Le(b, c)
    ensures Le(a, c)
  {
  }

  lemma LeTotal(a: Date, b: Date)
    ensures Le(a, b) || Le(b, a)
    ensures Le(a, b) && Le(b, a) ==> a == b
  {
  }
}
