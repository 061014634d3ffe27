/**
 * Calendar dates as the controller and the list model handle them (a QDate
 * in the application): a year, a month and a day, ordered lexicographically,
 * which is also the order of their yyyy-MM-dd text form (see DateText).
 * Years are astronomical (year 0 exists).
 */
module Dates {

  datatype Date = Date(year: int, month: int, day: int)

  /** Stands for a default-constructed (null) QDate, which is not a valid day. */
  const NullDate := Date(0, 0, 0)

  predicate IsLeapYear(y: int) {
    (y % 4 == 0 && y % 100 != 0) || y % 400 == 0
  }

  /** Number of days in month `m` of year `y` (Gregorian rules). */
  function DaysInMonth(y: int, m: int): (n: int)
    ensures 28 <= n <= 31
    ensures m == 2 ==> (n == 29 <==> IsLeapYear(y))
  {
    if m == 2 then (if IsLeapYear(y) then 29 else 28)
    else if m == 4 || m == 6 || m == 9 || m == 11 then 30
    else 31
  }

  predicate ValidDate(d: Date) {
    1 <= d.month <= 12 && 1 <= d.day <= DaysInMonth(d.year, d.month)
  }

  /** Strict chronological order on dates: year, then month, then day. */
  predicate Before(a: Date, b: Date) {
    a.year < b.year
    || (a.year == b.year && (a.month < b.month || (a.month == b.month && a.day < b.day)))
  }

  predicate AtOrBefore(a: Date, b: Date) {
    a == b || Before(a, b)
  }

  function Min(a: int, b: int): int {
    if a <= b then a else b
  }

  /** QDate(d.year(), d.month(), 1). */
  function FirstOfMonth(d: Date): (r: Date)
    ensures ValidDate(d) ==> ValidDate(r) && AtOrBefore(r, d)
    ensures r.year == d.year && r.month == d.month && r.day == 1
  {
    Date(d.year, d.month, 1)
  }

  /**
   * QDate::addMonths: move `n` calendar months, carrying into the year, and
   * clamp the day to the length of the target month.
   */
  function AddMonths(d: Date, n: int): (r: Date)
    ensures 1 <= r.month <= 12
    ensures r.year * 12 + (r.month - 1) == d.year * 12 + (d.month - 1) + n
    ensures ValidDate(d) ==> ValidDate(r)
    ensures r.day == Min(d.day, DaysInMonth(r.year, r.month))
  {
    var index := d.year * 12 + (d.month - 1) + n;
    var y := index / 12;
    var m := index % 12 + 1;
    Date(y, m, Min(d.day, DaysInMonth(y, m)))
  }

  /** QDate::addDays(-1). */
  function PrevDay(d: Date): (r: Date)
    ensures ValidDate(d) ==> ValidDate(r) && Before(r, d)
  {
    if d.day > 1 then Date(d.year, d.month, d.day - 1)
    else if d.month > 1 then Date(d.year, d.month - 1, DaysInMonth(d.year, d.month - 1))
    else Date(d.year - 1, 12, 31)
  }

  /**
   * The last day of the month of `d`, computed as the application does it:
   * the first of the month, plus one month, minus one day.
   */
  function LastOfMonth(d: Date): Date {
    PrevDay(AddMonths(FirstOfMonth(d), 1))
  }

  /** `d BETWEEN firstDay AND lastDay` for the month of `month`. */
  predicate InMonth(d: Date, month: Date) {
    AtOrBefore(FirstOfMonth(month), d) && AtOrBefore(d, LastOfMonth(month))
  }

  /** No valid day lies strictly between PrevDay(d) and d. */
  lemma PrevDayIsImmediate(d: Date, x: Date)
    requires ValidDate(d) && ValidDate(x)
    requires Before(x, d)
    ensures AtOrBefore(x, PrevDay(d))
  {
    if d.day == 1 && d.month > 1 {
      assert x.day <= DaysInMonth(x.year, x.month);
    }
  }

  /** Moving one month forward keeps day 1 and wraps December into January. */
  lemma NextMonthWraps(d: Date)
    requires ValidDate(d) && d.day == 1
    ensures AddMonths(d, 1) == if d.month == 12 then Date(d.year + 1, 1, 1) else Date(d.year, d.month + 1, 1)
  {
    var r := AddMonths(d, 1);
    if d.month == 12 {
      assert r.year * 12 + (r.month - 1) == (d.year + 1) * 12;
    } else {
      assert r.year * 12 + (r.month - 1) == d.year * 12 + d.month;
    }
  }

  /** Moving one month back keeps day 1 and wraps January into December. */
  lemma PrevMonthWraps(d: Date)
    requires ValidDate(d) && d.day == 1
    ensures AddMonths(d, -1) == if d.month == 1 then Date(d.year - 1, 12, 1) else Date(d.year, d.month - 1, 1)
  {
    var r := AddMonths(d, -1);
    if d.month == 1 {
      assert r.year * 12 + (r.month - 1) == (d.year - 1) * 12 + 11;
    } else {
      assert r.year * 12 + (r.month - 1) == d.year * 12 + d.month - 2;
    }
  }

  /** For the first of a month, next and previous month are inverse to each other. */
  lemma NextPrevMonthInverse(d: Date)
    requires ValidDate(d) && d.day == 1
    ensures AddMonths(AddMonths(d, 1), -1) == d
    ensures AddMonths(AddMonths(d, -1), 1) == d
  {
    NextMonthWraps(d);
    PrevMonthWraps(d);
    NextMonthWraps(AddMonths(d, -1));
    PrevMonthWraps(AddMonths(d, 1));
  }

  /** first + 1 month - 1 day is the month's last calendar day. */
  lemma LastOfMonthIsMonthEnd(d: Date)
    requires ValidDate(d)
    ensures LastOfMonth(d) == Date(d.year, d.month, DaysInMonth(d.year, d.month))
    ensures ValidDate(LastOfMonth(d))
  {
    NextMonthWraps(FirstOfMonth(d));
  }

  /**
   * For valid dates the BETWEEN range of a month holds exactly the days of
   * that calendar month.
   */
  lemma InMonthIff(d: Date, month: Date)
    requires ValidDate(d) && ValidDate(month)
    ensures InMonth(d, month) <==> d.year == month.year && d.month == month.month
  {
    LastOfMonthIsMonthEnd(month);
  }
}
