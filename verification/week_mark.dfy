/**
 * Academic week parity. The first teaching week starts on the first Monday
 * on or after 1 September; that week is even ("minus") and parity alternates
 * weekly. Dates are handled as ordinals, so the time of day plays no part.
 */
module WeekMark {
  import opened Wrappers
  import opened Calendar

  /** `get_monday`: the Monday of the week holding day `n`. */
  function MondayOf(n: int): (m: int)
    ensures WeekdayOf(m) == 0
    ensures n - 6 <= m <= n
  {
    WeekdayAdd(n, -WeekdayOf(n));
    n - WeekdayOf(n)
  }

  /** The first Monday on or after 1 September of `year`. */
  function FirstMonday(year: int): (m: int)
    requires 1 <= year <= 9999
    ensures WeekdayOf(m) == 0
    ensures Ordinal(Date(year, 9, 1)) <= m < Ordinal(Date(year, 9, 1)) + 7
    ensures WeekdayOf(Ordinal(Date(year, 9, 1))) == 0 ==> m == Ordinal(Date(year, 9, 1))
  {
    var september1st := Ordinal(Date(year, 9, 1));
    var ahead := (7 - WeekdayOf(september1st)) % 7;
    AheadToMonday(september1st);
    september1st + ahead
  }

  /** `(7 - weekday) % 7` days ahead is the first Monday on or after day `n`. */
  lemma AheadToMonday(n: int)
    ensures var ahead := (7 - WeekdayOf(n)) % 7;
      0 <= ahead < 7 && WeekdayOf(n + ahead) == 0 && (WeekdayOf(n) == 0 ==> ahead == 0)
  {
    var w := WeekdayOf(n);
    var ahead := (7 - w) % 7;
    assert ahead == if w == 0 then 0 else 7 - w;
    WeekdayAdd(n, ahead);
  }

  /** The academic year a date belongs to before the fallback: its own year from September, else the previous one. */
  function AcademicYear(today: Date): int
  {
    if today.month >= 9 then today.year else today.year - 1
  }

  /**
   * The first Monday that `is_even_week` counts from: that of the academic
   * year, or of the year before when the current week starts earlier.
   */
  function CountingMonday(today: Date): (fm: int)
    requires ValidDate(today) && today.year >= 2
    ensures WeekdayOf(fm) == 0
  {
    var current := MondayOf(Ordinal(today));
    var year := AcademicYear(today);
    if current < FirstMonday(year) then FirstMonday(year - 1) else FirstMonday(year)
  }

  /**
   * The fallback to the previous year is enough: the counting Monday is
   * never after the current week's Monday, so the week count is never
   * negative. Before September the academic year's own first Monday is
   * already behind; in early September it may be ahead, and then the
   * previous year's is a year behind.
   */
  lemma CountingMondayNotAhead(today: Date)
    requires ValidDate(today) && today.year >= 2
    ensures CountingMonday(today) <= MondayOf(Ordinal(today))
    ensures today.month < 9 ==> CountingMonday(today) == FirstMonday(today.year - 1)
  {
    if today.month >= 9 {
      CountingMondayFromSeptember(today);
    } else {
      CountingMondayBeforeSeptember(today);
    }
  }

  /** From September on, either this year's first Monday has come or the previous year's is used. */
  lemma CountingMondayFromSeptember(today: Date)
    requires ValidDate(today) && today.year >= 2 && today.month >= 9
    ensures CountingMonday(today) <= MondayOf(Ordinal(today))
  {
    var current := MondayOf(Ordinal(today));
    PreviousFirstMondayBeforeCurrent(today);
    assert CountingMonday(today) == if current < FirstMonday(today.year) then FirstMonday(today.year - 1) else FirstMonday(today.year);
  }

  /** Before September the previous year's first Monday has always come. */
  lemma CountingMondayBeforeSeptember(today: Date)
    requires ValidDate(today) && today.year >= 2 && today.month < 9
    ensures CountingMonday(today) == FirstMonday(today.year - 1) <= MondayOf(Ordinal(today))
  {
    PreviousFirstMondayBeforeCurrent(today);
  }

  /** The Monday of any date lies after the previous year's first teaching Monday. */
  lemma PreviousFirstMondayBeforeCurrent(today: Date)
    requires ValidDate(today) && today.year >= 2
    ensures FirstMonday(today.year - 1) < MondayOf(Ordinal(today))
  {
    OrdinalWithinYear(today);
    PreviousFirstMondayBehind(today.year);
  }

  /** The previous year's first teaching Monday lies well before the current year begins. */
  lemma PreviousFirstMondayBehind(year: int)
    requires 2 <= year <= 9999
    ensures FirstMonday(year - 1) + 100 < DaysBeforeYear(year)
  {
    assert DaysBeforeYear(year) >= DaysBeforeYear(year - 1) + 365;
    assert DaysBeforeMonth(year - 1, 9) <= 244;
    assert Ordinal(Date(year - 1, 9, 1)) == DaysBeforeYear(year - 1) + DaysBeforeMonth(year - 1, 9) + 1;
  }

  /** `is_even_week`: whole weeks since the counting Monday are even. */
  function IsEvenWeek(today: Date): bool
    requires ValidDate(today) && today.year >= 2
  {
    EvenWeeksApart(CountingMonday(today), MondayOf(Ordinal(today)))
  }

  /** Whole weeks from `first` to `monday` are even. */
  predicate EvenWeeksApart(first: int, monday: int)
  {
    ((monday - first) / 7) % 2 == 0
  }

  /** `get_week_mark`: the sticker and the word for the current week. */
  function GetWeekMark(even: bool): (mark: (string, string))
    ensures even ==> mark == ("➖", "minus")
    ensures !even ==> mark == ("➕", "plus")
  {
    if even then ("➖", "minus") else ("➕", "plus")
  }

  /** The week that starts on the academic year's first Monday is even. */
  lemma FirstWeekIsEven(today: Date)
    requires ValidDate(today) && today.year >= 2 && today.month >= 9
    requires MondayOf(Ordinal(today)) == FirstMonday(today.year)
    ensures IsEvenWeek(today)
  {
    CountsFromOwnWeek(today);
    assert EvenWeeksApart(MondayOf(Ordinal(today)), MondayOf(Ordinal(today)));
  }

  /** From September on, a week starting on the year's first Monday is counted from itself. */
  lemma CountsFromOwnWeek(today: Date)
    requires ValidDate(today) && today.year >= 2 && today.month >= 9
    requires MondayOf(Ordinal(today)) == FirstMonday(today.year)
    ensures CountingMonday(today) == MondayOf(Ordinal(today))
  {
    assert AcademicYear(today) == today.year;
  }

  lemma ParityFlips(first: int, monday: int)
    requires WeekdayOf(first) == 0 && WeekdayOf(monday) == 0
    ensures EvenWeeksApart(first, monday + 7) <==> !EvenWeeksApart(first, monday)
  {
    SameWeekday(first, monday);
    var q := (monday - first) / 7;
    assert monday - first == 7 * q;
    assert (monday + 7 - first) / 7 == q + 1;
  }

  /** Two weeks in a row counted from the same Monday have opposite parity. */
  lemma ConsecutiveWeeksAlternate(a: Date, b: Date)
    requires ValidDate(a) && a.year >= 2 && ValidDate(b) && b.year >= 2
    requires MondayOf(Ordinal(b)) == MondayOf(Ordinal(a)) + 7
    requires CountingMonday(a) == CountingMonday(b)
    ensures IsEvenWeek(b) == !IsEvenWeek(a)
  {
    ParityFlips(CountingMonday(a), MondayOf(Ordinal(a)));
  }

  /**
   * The next-Monday computation of `update_week_mark`: midnight of the
   * coming Monday, a week later when that is not after `now`.
   */
  function NextMondayMidnight(now: Moment): (next: int)
    requires ValidMoment(now)
    ensures Timestamp(now) < next <= Timestamp(now) + 7 * SecondsPerDay
    ensures next % SecondsPerDay == 0 && WeekdayOf(next / SecondsPerDay) == 0
  {
    var today := Ordinal(now.date);
    var daysUntilMonday := (0 - WeekdayOf(today)) % 7;
    var candidate := (today + daysUntilMonday) * SecondsPerDay;
    WeekdayAdd(today, daysUntilMonday);
    WeekdayAdd(today + daysUntilMonday, 7);
    assert candidate / SecondsPerDay == today + daysUntilMonday;
    assert (candidate + 7 * SecondsPerDay) / SecondsPerDay == today + daysUntilMonday + 7;
    if candidate <= Timestamp(now) then candidate + 7 * SecondsPerDay else candidate
  }

  /** The number of rounds before the first failed send: all of them when none fails. */
  function FirstFailure(sendOk: seq<bool>): (n: nat)
    ensures n <= |sendOk|
    ensures forall i :: 0 <= i < n ==> sendOk[i]
    ensures n < |sendOk| ==> !sendOk[n]
  {
    if sendOk == [] || !sendOk[0] then 0 else 1 + FirstFailure(sendOk[1..])
  }

  /** The module globals `WEEK_MARK_STICKER` and `WEEK_MARK_TXT`. */
  class WeekMarkGlobals {
    var sticker: Option<string>
    var text: Option<string>

    constructor ()
      ensures sticker == None && text == None
    {
      sticker, text := None, None;
    }

    /** `init_week_mark`. */
    method Init(today: Date)
      requires ValidDate(today) && today.year >= 2
      modifies this
      ensures sticker == Some(GetWeekMark(IsEvenWeek(today)).0)
      ensures text == Some(GetWeekMark(IsEvenWeek(today)).1)
    {
      var mark := GetWeekMark(IsEvenWeek(today));
      sticker, text := Some(mark.0), Some(mark.1);
    }

    /**
     * The first `|clock|` rounds of `update_week_mark`: each round sets the
     * globals for the day it runs on, sends the chat notice and then sleeps
     * until the next Monday's midnight, which is returned in `wakeUps`.
     * `sendOk[i]` is whether round `i`'s `send_chat_info_log` returns; the
     * loop has no `try`, so the first failed send ends the task (`raised`)
     * after that round has set the globals and before it sleeps.
     */
    method UpdateRounds(clock: seq<Moment>, sendOk: seq<bool>) returns (wakeUps: seq<int>, raised: bool)
      requires |sendOk| == |clock|
      requires forall i | 0 <= i < |clock| :: ValidDate(clock[i].date) && 0 <= clock[i].second < SecondsPerDay
      requires forall i | 0 <= i < |clock| :: clock[i].date.year >= 2
      modifies this
      ensures raised <==> FirstFailure(sendOk) < |clock|
      ensures |wakeUps| == FirstFailure(sendOk)
      ensures forall i :: 0 <= i < |wakeUps| ==> wakeUps[i] == NextMondayMidnight(clock[i])
      ensures forall i :: 0 <= i < |wakeUps| ==> Timestamp(clock[i]) < wakeUps[i] <= Timestamp(clock[i]) + 7 * SecondsPerDay
      ensures raised ==> sticker == Some(GetWeekMark(IsEvenWeek(clock[|wakeUps|].date)).0)
      ensures raised ==> text == Some(GetWeekMark(IsEvenWeek(clock[|wakeUps|].date)).1)
      ensures !raised && |clock| > 0 ==> sticker == Some(GetWeekMark(IsEvenWeek(clock[|clock| - 1].date)).0)
      ensures !raised && |clock| > 0 ==> text == Some(GetWeekMark(IsEvenWeek(clock[|clock| - 1].date)).1)
      ensures |clock| == 0 ==> text == old(text) && sticker == old(sticker)
    {
      wakeUps, raised := [], false;
      var i := 0;
      while i < |clock|
        invariant 0 <= i <= |clock|
        invariant i <= FirstFailure(sendOk)
        invariant |wakeUps| == i
        invariant forall j :: 0 <= j < i ==> wakeUps[j] == NextMondayMidnight(clock[j])
        invariant i > 0 ==> sticker == Some(GetWeekMark(IsEvenWeek(clock[i - 1].date)).0)
        invariant i > 0 ==> text == Some(GetWeekMark(IsEvenWeek(clock[i - 1].date)).1)
        invariant i == 0 ==> text == old(text) && sticker == old(sticker)
      {
        Init(clock[i].date);
        if !sendOk[i] {
          raised := true;
          return;
        }
        wakeUps := wakeUps + [NextMondayMidnight(clock[i])];
        i := i + 1;
      }
    }
  }
}
