/**
 * Proleptic Gregorian dates as Python's `datetime` counts them: day 1 is
 * 1 January of year 1, a Monday, and `weekday()` numbers Monday as 0.
 * Moments are whole seconds since midnight before day 0, so a moment's day is
 * `t / 86400` and its time of day `t % 86400`.
 */
module Calendar {

  const SecondsPerDay := 86400

  datatype Date = Date(year: int, month: int, day: int)

  /** A wall-clock reading: a date and the seconds elapsed since its midnight. */
  datatype Moment = Moment(date: Date, second: int)

  predicate ValidMoment(t: Moment)
  {
    ValidDate(t.date) && 0 <= t.second < SecondsPerDay
  }

  /** Seconds since the start of day 0. */
  function Timestamp(t: Moment): int
    requires ValidMoment(t)
  {
    Ordinal(t.date) * SecondsPerDay + t.second
  }

  predicate IsLeapYear(y: int)
  {
    y % 4 == 0 && (y % 100 != 0 || y % 400 == 0)
  }

  function DaysInMonth(y: int, m: int): (n: int)
    requires 1 <= m <= 12
    ensures 28 <= n <= 31
  {
    if m == 2 then (if IsLeapYear(y) then 29 else 28)
    else if m == 4 || m == 6 || m == 9 || m == 11 then 30
    else 31
  }

  /** The range `datetime` accepts: years 1 to 9999. */
  predicate ValidDate(d: Date)
  {
    1 <= d.year <= 9999 && 1 <= d.month <= 12 && 1 <= d.day <= DaysInMonth(d.year, d.month)
  }

  /** Days in the years before `y`, counted year by year. */
  function DaysBeforeYear(y: int): (n: int)
    requires y >= 1
    ensures n >= 365 * (y - 1)
  {
    if y == 1 then 0 else DaysBeforeYear(y - 1) + (if IsLeapYear(y - 1) then 366 else 365)
  }

  function DaysBeforeMonth(y: int, m: int): (n: int)
    requires 1 <= m <= 12
    ensures 0 <= n <= 335
  {
    var common := [0, 31, 59, 90, 120, 151, 181, 212, 243, 273, 304, 334][m - 1];
    common + (if m > 2 && IsLeapYear(y) then 1 else 0)
  }

  /** `date.toordinal()`. */
  function Ordinal(d: Date): int
    requires ValidDate(d)
  {
    DaysBeforeYear(d.year) + DaysBeforeMonth(d.year, d.month) + d.day
  }

  /** `weekday()` of the day with ordinal `n`: 0 is Monday, 6 is Sunday. */
  function WeekdayOf(n: int): (w: int)
    ensures 0 <= w < 7
  {
    (n + 6) % 7
  }

  /** `d + timedelta(days=1)` on the calendar. */
  function NextDay(d: Date): (e: Date)
    requires ValidDate(d)
  {
    if d.day < DaysInMonth(d.year, d.month) then Date(d.year, d.month, d.day + 1)
    else if d.month < 12 then Date(d.year, d.month + 1, 1)
    else Date(d.year + 1, 1, 1)
  }

  /** The next calendar day is the next ordinal. */
  lemma NextDayOrdinal(d: Date)
    requires ValidDate(d) && d.year < 9999
    ensures ValidDate(NextDay(d)) && Ordinal(NextDay(d)) == Ordinal(d) + 1
  {
  }

  /** Every date of a year lies strictly after the days of the earlier years and within 366 days. */
  lemma OrdinalWithinYear(d: Date)
    requires ValidDate(d)
    ensures DaysBeforeYear(d.year) < Ordinal(d) <= DaysBeforeYear(d.year) + 366
  {
  }

  /** A date in September or later lies on or after 1 September of its year. */
  lemma OrdinalFromSeptember(d: Date)
    requires ValidDate(d) && d.month >= 9
    ensures Ordinal(d) >= Ordinal(Date(d.year, 9, 1))
  {
  }

  /** Moving `k` days ahead moves the weekday by `k`, modulo 7. */
  lemma WeekdayAdd(n: int, k: int)
    ensures WeekdayOf(n + k) == (WeekdayOf(n) + k) % 7
  {
    var q, r := (n + 6) / 7, (n + 6) % 7;
    assert n + 6 == 7 * q + r;
    assert n + k + 6 == 7 * q + (r + k);
  }

  /** Days with the same weekday are a whole number of weeks apart. */
  lemma SameWeekday(a: int, b: int)
    requires WeekdayOf(a) == WeekdayOf(b)
    ensures (b - a) % 7 == 0
  {
    var qa, qb := (a + 6) / 7, (b + 6) / 7;
    assert a + 6 == 7 * qa + WeekdayOf(a);
    assert b + 6 == 7 * qb + WeekdayOf(b);
    assert b - a == 7 * (qb - qa);
  }
}
