/**
 * The schedule formatter: MarkdownV2 escaping, the slot time table, the
 * week filter, grouping by weekday, and the greedy packing of day blocks
 * into Telegram messages of at most 4000 characters.
 */
module Formatter {
  import opened Wrappers
  import opened Seqs
  import opened Text
  import opened Models

  const MaxMessageLength: nat := 4000

  // ---------------------------------------------------------------------
  // `escape_md_v2`
  // ---------------------------------------------------------------------

  /** The characters MarkdownV2 wants escaped. */
  const Special: string := "_*[]()~`>#+-=|{}.!\\"

  function EscapeChar(c: char): (r: string)
  {
    if c in Special then ['\\', c] else [c]
  }

  function SpecialCount(s: string): nat
  {
    if s == [] then 0 else (if s[0] in Special then 1 else 0) + SpecialCount(s[1..])
  }

  /** A backslash before every special character; the length grows by one per special character. */
  function EscapeMdV2(s: string): (r: string)
    ensures |r| == |s| + SpecialCount(s)
    ensures s == [] <==> r == []
  {
    if s == [] then [] else EscapeChar(s[0]) + EscapeMdV2(s[1..])
  }

  /** Drops the backslash in front of each escaped character. */
  function Unescape(t: string): string
  {
    if t == [] then []
    else if t[0] == '\\' && |t| >= 2 then [t[1]] + Unescape(t[2..])
    else [t[0]] + Unescape(t[1..])
  }

  /** Escaping loses nothing: unescaping gives the original text back. */
  lemma {:induction false} EscapeRoundTrip(s: string)
    ensures Unescape(EscapeMdV2(s)) == s
  {
    if s != [] {
      EscapeRoundTrip(s[1..]);
      var rest := EscapeMdV2(s[1..]);
      if s[0] in Special {
        assert EscapeMdV2(s) == ['\\', s[0]] + rest;
        assert (['\\', s[0]] + rest)[2..] == rest;
      } else {
        assert s[0] != '\\';
        assert EscapeMdV2(s) == [s[0]] + rest;
        assert ([s[0]] + rest)[1..] == rest;
      }
      assert s == [s[0]] + s[1..];
    }
  }

  /** Ordinary characters pass through unchanged. */
  lemma {:induction false} EscapePlain(s: string)
    requires forall i :: 0 <= i < |s| ==> s[i] !in Special
    ensures EscapeMdV2(s) == s
  {
    if s != [] {
      EscapePlain(s[1..]);
      assert s == [s[0]] + s[1..];
    }
  }

  // ---------------------------------------------------------------------
  // The constant tables
  // ---------------------------------------------------------------------

  /** `lessonTimeData`, as (start, end) per slot. */
  const SlotTimes: seq<(string, string)> := [
    ("08:30", "10:05"), ("10:15", "11:50"), ("12:10", "13:45"), ("14:00", "15:35"),
    ("15:55", "17:30"), ("17:45", "19:20"), ("19:30", "21:00")]

  const Unknown: string := "❓❓:❓❓"

  /** `_get_lesson_time`: the table's times for slots 0 to 6, question marks for anything else. */
  function LessonTime(lessonNumber: Option<int>): (r: (string, string))
    ensures lessonNumber.Some? && 0 <= lessonNumber.value < 7 ==> r == SlotTimes[lessonNumber.value]
    ensures !(lessonNumber.Some? && 0 <= lessonNumber.value < 7) ==> r == (Unknown, Unknown)
  {
    if lessonNumber.Some? && 0 <= lessonNumber.value < |SlotTimes| then SlotTimes[lessonNumber.value] else (Unknown, Unknown)
  }

  function DigitOf(c: char): int
  {
    c as int - '0' as int
  }

  /** Minutes since midnight of an "HH:MM" text. */
  function Minutes(t: string): int
    requires |t| == 5
  {
    (DigitOf(t[0]) * 10 + DigitOf(t[1])) * 60 + DigitOf(t[3]) * 10 + DigitOf(t[4])
  }

  /** Every lesson ends after it starts, and before the next one starts. */
  lemma SlotTimesOrdered()
    ensures forall k :: 0 <= k < |SlotTimes| ==> |SlotTimes[k].0| == 5 && |SlotTimes[k].1| == 5
    ensures forall k :: 0 <= k < |SlotTimes| ==> Minutes(SlotTimes[k].0) < Minutes(SlotTimes[k].1)
    ensures forall k :: 0 <= k < |SlotTimes| - 1 ==> Minutes(SlotTimes[k].1) < Minutes(SlotTimes[k + 1].0)
  {
  }

  /** `weekday_names`: Monday is 1; any other key raises. */
  function WeekdayName(wd: int): (r: Option<string>)
    ensures r.Some? <==> 1 <= wd <= 7
  {
    if wd == 1 then Some("Понедельник")
    else if wd == 2 then Some("Вторник")
    else if wd == 3 then Some("Среда")
    else if wd == 4 then Some("Четверг")
    else if wd == 5 then Some("Пятница")
    else if wd == 6 then Some("Суббота")
    else if wd == 7 then Some("Воскресенье")
    else None
  }

  /** `lesson_num_emoji`: the keycap of slot + 1, or a question mark. */
  function SlotEmoji(lessonNumber: Option<int>): string
  {
    if lessonNumber.Some? && 0 <= lessonNumber.value < 7 then
      [('1' as int + lessonNumber.value) as char, '️', '⃣']
    else "❓"
  }

  // ---------------------------------------------------------------------
  // Rows, the week filter and grouping
  // ---------------------------------------------------------------------

  /** What the formatter reads of a lesson of either table. */
  datatype Row = Row(
    weekday: Option<int>, lessonNumber: Option<int>,
    subject: Option<string>, rooms: Option<string>, weekMark: Option<string>,
    professors: Option<string>)

  function LessonRow(l: Lesson): Row
  {
    Row(l.weekday, l.lessonNumber, l.subject, l.rooms, l.weekMark, l.professors)
  }

  function ProfessorRow(pl: ProfessorLesson): Row
  {
    Row(pl.weekday, pl.lessonNumber, pl.subject, pl.rooms, pl.weekMark, None)
  }

  /** Whether the week filter keeps a row: the given week, every week, or no mark. */
  predicate KeptIn(week: string, r: Row)
  {
    if week == "plus" then r.weekMark in {Some("plus"), Some("every"), None}
    else if week == "minus" then r.weekMark in {Some("minus"), Some("every"), None}
    else true
  }

  function FilterByWeek(rows: seq<Row>, week: string): seq<Row>
  {
    Filter(rows, (r: Row) => KeptIn(week, r))
  }

  /**
   * The filter keeps order and keeps exactly the rows of the week, of every
   * week and without a mark; any week other than "plus" and "minus" keeps
   * the whole list.
   */
  lemma FilterByWeekEffect(rows: seq<Row>, week: string)
    ensures IsSubsequence(FilterByWeek(rows, week), rows)
    ensures week == "plus" ==> forall r :: r in FilterByWeek(rows, week) <==> r in rows && r.weekMark in {Some("plus"), Some("every"), None}
    ensures week == "minus" ==> forall r :: r in FilterByWeek(rows, week) <==> r in rows && r.weekMark in {Some("minus"), Some("every"), None}
    ensures week != "plus" && week != "minus" ==> FilterByWeek(rows, week) == rows
  {
    FilterIsSubsequence(rows, (r: Row) => KeptIn(week, r));
    if week != "plus" && week != "minus" {
      FilterKeepsAll(rows, (r: Row) => KeptIn(week, r));
    }
  }

  function OnDay(d: int): Row -> bool
  {
    (r: Row) => r.weekday == Some(d)
  }

  function DaysOf(rows: seq<Row>): set<int>
  {
    set r | r in rows && r.weekday.Some? :: r.weekday.value
  }

  /** The `defaultdict` of `_create_lessons_by_day`. */
  function GroupByDay(rows: seq<Row>): map<int, seq<Row>>
  {
    map d | d in DaysOf(rows) :: Filter(rows, OnDay(d))
  }

  /**
   * The keys are exactly the weekdays that occur; each day holds exactly
   * that day's rows in input order; rows without a weekday are dropped.
   */
  lemma GroupByDayEffect(rows: seq<Row>)
    ensures forall d :: d in GroupByDay(rows) <==> exists r :: r in rows && r.weekday == Some(d)
    ensures forall d :: d in GroupByDay(rows) ==>
      IsSubsequence(GroupByDay(rows)[d], rows)
      && forall r :: r in GroupByDay(rows)[d] <==> r in rows && r.weekday == Some(d)
  {
    forall d | d in GroupByDay(rows) ensures IsSubsequence(GroupByDay(rows)[d], rows) {
      FilterIsSubsequence(rows, OnDay(d));
    }
  }

  /** `byDay` holds exactly the grouping of `rows` by weekday. */
  ghost predicate Grouped(byDay: map<int, seq<Row>>, rows: seq<Row>)
  {
    byDay.Keys == DaysOf(rows) && forall d :: d in byDay ==> byDay[d] == Filter(rows, OnDay(d))
  }

  /** A row without a weekday leaves the grouping as it is. */
  lemma GroupedSkip(byDay: map<int, seq<Row>>, rows: seq<Row>, l: Row)
    requires Grouped(byDay, rows) && l.weekday.None?
    ensures Grouped(byDay, rows + [l])
  {
    forall d | d in byDay ensures byDay[d] == Filter(rows + [l], OnDay(d)) {
      FilterAppend(rows, [l], OnDay(d));
      FilterOne(l, OnDay(d));
    }
  }

  /** A row with a weekday joins the end of that day's list. */
  lemma GroupedAppend(byDay: map<int, seq<Row>>, rows: seq<Row>, l: Row)
    requires Grouped(byDay, rows) && l.weekday.Some?
    ensures var wd := l.weekday.value;
      Grouped(byDay[wd := (if wd in byDay then byDay[wd] else []) + [l]], rows + [l])
  {
    var wd := l.weekday.value;
    if wd !in byDay {
      forall r | r in rows ensures r.weekday != Some(wd) {
      }
      FilterNone(rows, OnDay(wd));
    }
    var after := byDay[wd := (if wd in byDay then byDay[wd] else []) + [l]];
    forall d | d in after ensures after[d] == Filter(rows + [l], OnDay(d)) {
      FilterAppend(rows, [l], OnDay(d));
      FilterOne(l, OnDay(d));
    }
  }

  /** `_create_lessons_by_day`. */
  method CreateLessonsByDay(rows: seq<Row>) returns (byDay: map<int, seq<Row>>)
    ensures byDay == GroupByDay(rows)
  {
    byDay := map[];
    for i := 0 to |rows|
      invariant Grouped(byDay, rows[..i])
    {
      var l := rows[i];
      assert rows[..i + 1] == rows[..i] + [l];
      if l.weekday.Some? {
        var wd := l.weekday.value;
        GroupedAppend(byDay, rows[..i], l);
        var current := if wd in byDay then byDay[wd] else [];
        byDay := byDay[wd := current + [l]];
      } else {
        GroupedSkip(byDay, rows[..i], l);
      }
    }
    assert rows[..|rows|] == rows;
  }

  lemma {:induction false} FilterNone<T(!new)>(s: seq<T>, keep: T -> bool)
    requires forall x :: x in s ==> !keep(x)
    ensures Filter(s, keep) == []
  {
    if s != [] {
      assert s[0] in s;
      assert forall x :: x in s[1..] ==> x in s;
      FilterNone(s[1..], keep);
    }
  }

  // ---------------------------------------------------------------------
  // `sorted(lessons_by_day.keys())`
  // ---------------------------------------------------------------------

  predicate IsLeast(m: int, s: set<int>)
  {
    m in s && forall x :: x in s ==> m <= x
  }

  lemma Inhabited(s: set<int>)
    ensures s == {} || exists y :: y in s
  {
    if forall x :: x !in s {
      assert s == {};
    }
  }

  lemma LeastExists(s: set<int>)
    requires s != {}
    ensures exists m :: IsLeast(m, s)
    decreases |s|
  {
    Inhabited(s);
    var y :| y in s;
    var rest := s - {y};
    if rest == {} {
      assert s == {y};
      assert IsLeast(y, s);
    } else {
      LeastExists(rest);
      var m :| IsLeast(m, rest);
      var least := if y < m then y else m;
      forall x | x in s ensures least <= x {
        if x != y { assert x in rest; }
      }
      assert IsLeast(least, s);
    }
  }

  /** The elements of a set of integers in ascending order. */
  function Ascending(s: set<int>): (r: seq<int>)
    ensures forall i, j :: 0 <= i < j < |r| ==> r[i] < r[j]
    ensures forall x :: x in r <==> x in s
    decreases |s|
  {
    if s == {} then []
    else
      LeastExists(s);
      var m :| IsLeast(m, s);
      [m] + Ascending(s - {m})
  }

  // ---------------------------------------------------------------------
  // `_build_schedule_messages`
  // ---------------------------------------------------------------------

  /** `x.lesson_number or 0`. */
  function SlotKey(r: Row): int
  {
    if r.lessonNumber.Some? then r.lessonNumber.value else 0
  }

  /** One day's block: the escaped day name, then the lessons by slot, two newlines apart. */
  function DayBlock(name: string, lessons: seq<Row>, format: Row -> string): string
  {
    "\U{1F5D3} *" + EscapeMdV2(name) + "*:\n" + Join("\n\n", Map(SortBy(lessons, ByKey(SlotKey)), format)) + "\n\n\n"
  }

  /** The lessons of a block are ordered by slot (no slot as 0) and keep input order within a slot. */
  lemma DayBlockOrder(lessons: seq<Row>, k: int)
    ensures SortedBy(SortBy(lessons, ByKey(SlotKey)), ByKey(SlotKey))
    ensures multiset(SortBy(lessons, ByKey(SlotKey))) == multiset(lessons)
    ensures Filter(SortBy(lessons, ByKey(SlotKey)), HasKey(SlotKey, k)) == Filter(lessons, HasKey(SlotKey, k))
  {
    ByKeyTotal(SlotKey);
    SortBySorted(lessons, ByKey(SlotKey));
    SortByKeyStable(lessons, SlotKey, k);
  }

  /** A day's lessons; a day the map does not hold has none. */
  function DayLessons(byDay: map<int, seq<Row>>, wd: int): seq<Row>
  {
    if wd in byDay then byDay[wd] else []
  }

  /** The block of one day, or None when `weekday_names` has no such key. */
  function BlockFor(byDay: map<int, seq<Row>>, wd: int, format: Row -> string): (r: Option<string>)
    ensures r.Some? <==> 1 <= wd <= 7
  {
    match WeekdayName(wd)
    case None => None
    case Some(name) => Some(DayBlock(name, DayLessons(byDay, wd), format))
  }

  /** The blocks of the given days in that order; a day without a name raises `KeyError`. */
  function DayBlocks(days: seq<int>, byDay: map<int, seq<Row>>, format: Row -> string): (r: Result<seq<string>>)
    ensures r.Success? ==> |r.value| == |days|
    ensures r.Failure? ==> r.error == KeyError("weekday")
    decreases |days|
  {
    if days == [] then Success([])
    else
      var init := DayBlocks(days[..|days| - 1], byDay, format);
      var wd := days[|days| - 1];
      if init.Failure? then init
      else
        var block := BlockFor(byDay, wd, format);
        if block.None? then Failure(KeyError("weekday")) else Success(init.value + [block.value])
  }

  /** The messages sent so far and the text being filled. */
  datatype Packing = Packing(messages: seq<string>, current: string)

  /** One step of the greedy loop: start a new message when the block does not fit. */
  function PackStep(p: Packing, text: string): Packing
  {
    if |p.current| + |text| > MaxMessageLength then Packing(p.messages + [p.current], text)
    else Packing(p.messages, p.current + text)
  }

  function PackAll(p: Packing, texts: seq<string>): Packing
    decreases |texts|
  {
    if texts == [] then p else PackStep(PackAll(p, texts[..|texts| - 1]), texts[|texts| - 1])
  }

  /** The messages: the header and the day blocks, packed greedily; a non-empty last text is sent too. */
  function Pack(header: string, texts: seq<string>): seq<string>
  {
    var p := PackAll(Packing([], header), texts);
    if p.current != "" then p.messages + [p.current] else p.messages
  }

  /** A message is within the limit, or it is one of the pieces on its own. */
  predicate Fits(m: string, pieces: seq<string>)
  {
    |m| <= MaxMessageLength || m in pieces
  }

  lemma {:induction false} PackAllConcat(p: Packing, texts: seq<string>)
    ensures var q := PackAll(p, texts);
      Concat(q.messages) + q.current == Concat(p.messages) + p.current + Concat(texts)
      && (p.current != "" || p.messages != [] ==> q.current != "" || q.messages != [])
    decreases |texts|
  {
    if texts != [] {
      var init, t := texts[..|texts| - 1], texts[|texts| - 1];
      PackAllConcat(p, init);
      var q := PackAll(p, init);
      ConcatSnoc(init, t);
      assert Concat(texts) == Concat(init) + t by {
        assert texts == init + [t];
      }
      var before := Concat(p.messages) + p.current;
      assert Concat(q.messages) + q.current == before + Concat(init);
      if |q.current| + |t| > MaxMessageLength {
        ConcatSnoc(q.messages, q.current);
        calc {
          Concat(q.messages + [q.current]) + t;
          Concat(q.messages) + q.current + t;
          before + Concat(init) + t;
          before + Concat(texts);
        }
      } else {
        calc {
          Concat(q.messages) + (q.current + t);
          Concat(q.messages) + q.current + t;
          before + Concat(init) + t;
          before + Concat(texts);
        }
      }
    }
  }

  lemma {:induction false} PackAllFits(p: Packing, texts: seq<string>, pieces: seq<string>)
    requires Fits(p.current, pieces) && forall m :: m in p.messages ==> Fits(m, pieces)
    requires forall t :: t in texts ==> t in pieces
    ensures var q := PackAll(p, texts);
      Fits(q.current, pieces) && forall m :: m in q.messages ==> Fits(m, pieces)
    decreases |texts|
  {
    if texts != [] {
      var init := texts[..|texts| - 1];
      assert forall x :: x in init ==> x in texts;
      PackAllFits(p, init, pieces);
      assert texts[|texts| - 1] in texts;
    }
  }

  /**
   * The messages concatenate to the header followed by every block in
   * order, and a message longer than the limit is a single piece (the
   * header or one block): the packing never joins pieces past the limit.
   */
  lemma PackEffect(header: string, texts: seq<string>)
    ensures Concat(Pack(header, texts)) == header + Concat(texts)
    ensures forall m :: m in Pack(header, texts) ==> Fits(m, [header] + texts)
    ensures header != "" ==> Pack(header, texts) != []
  {
    var pieces := [header] + texts;
    assert header in pieces;
    PackAllConcat(Packing([], header), texts);
    PackAllFits(Packing([], header), texts, pieces);
    var q := PackAll(Packing([], header), texts);
    assert Concat([]) == "";
    assert Concat(q.messages) + q.current == header + Concat(texts);
    if q.current != "" {
      ConcatSnoc(q.messages, q.current);
    } else {
      assert Concat(q.messages) + q.current == Concat(q.messages);
    }
    assert Concat(Pack(header, texts)) == Concat(q.messages) + q.current;
  }

  /** `_build_schedule_messages`, as a function of the grouped lessons. */
  function BuildMessages(byDay: map<int, seq<Row>>, format: Row -> string, header: string): Result<seq<string>>
  {
    var blocks := DayBlocks(Ascending(byDay.Keys), byDay, format);
    if blocks.Failure? then Failure(blocks.error) else Success(Pack(header, blocks.value))
  }

  /** A named day in the map extends the blocks of the days before it by its own block. */
  lemma DayBlocksStep(days: seq<int>, i: nat, byDay: map<int, seq<Row>>, format: Row -> string, before: seq<string>)
    requires i < |days| && 1 <= days[i] <= 7 && days[i] in byDay
    requires DayBlocks(days[..i], byDay, format) == Success(before)
    ensures DayBlocks(days[..i + 1], byDay, format)
      == Success(before + [DayBlock(WeekdayName(days[i]).value, byDay[days[i]], format)])
  {
    assert days[..i + 1][..i] == days[..i];
    assert days[..i + 1][i] == days[i];
  }

  /** The block loop: days in ascending order, each day's lessons sorted by slot. */
  method DayTexts(byDay: map<int, seq<Row>>, format: Row -> string) returns (r: Result<seq<string>>)
    ensures r == DayBlocks(Ascending(byDay.Keys), byDay, format)
  {
    var days := Ascending(byDay.Keys);
    var dayTexts: seq<string> := [];
    for i := 0 to |days|
      invariant DayBlocks(days[..i], byDay, format) == Success(dayTexts)
    {
      var wd := days[i];
      var name := WeekdayName(wd);
      if name.None? {
        DayBlocksFailure(days, byDay, format);
        assert wd in days;
        assert HasUnnamed(days);
        return Failure(KeyError("weekday"));
      }
      var dayLessons := SortBy(byDay[wd], ByKey(SlotKey));
      var dayBlock := "\U{1F5D3} *" + EscapeMdV2(name.value) + "*:\n" + Join("\n\n", Map(dayLessons, format)) + "\n\n\n";
      assert dayBlock == DayBlock(name.value, byDay[wd], format);
      DayBlocksStep(days, i, byDay, format, dayTexts);
      dayTexts := dayTexts + [dayBlock];
    }
    assert days[..|days|] == days;
    return Success(dayTexts);
  }

  /** Some day of `days` has no name. */
  predicate HasUnnamed(days: seq<int>)
  {
    exists d :: d in days && !(1 <= d <= 7)
  }

  lemma HasUnnamedLast(days: seq<int>)
    requires days != []
    ensures HasUnnamed(days) <==> HasUnnamed(days[..|days| - 1]) || !(1 <= days[|days| - 1] <= 7)
  {
    var init, wd := days[..|days| - 1], days[|days| - 1];
    assert days == init + [wd];
    if HasUnnamed(init) {
      var d :| d in init && !(1 <= d <= 7);
      assert d in days;
    }
    if !(1 <= wd <= 7) {
      assert wd in days;
    }
    if HasUnnamed(days) {
      var d :| d in days && !(1 <= d <= 7);
      assert d in init || d == wd;
    }
  }

  /** The block loop fails exactly when one of the days has no name. */
  lemma {:induction false} DayBlocksFailure(days: seq<int>, byDay: map<int, seq<Row>>, format: Row -> string)
    ensures DayBlocks(days, byDay, format).Failure? <==> HasUnnamed(days)
    decreases |days|
  {
    if days != [] {
      var init := days[..|days| - 1];
      DayBlocksFailure(init, byDay, format);
      HasUnnamedLast(days);
    }
  }

  /** `_build_schedule_messages`: the block loop, then the greedy packing loop. */
  method BuildScheduleMessages(byDay: map<int, seq<Row>>, format: Row -> string, header: string) returns (r: Result<seq<string>>)
    ensures r == BuildMessages(byDay, format, header)
  {
    var dayTexts := DayTexts(byDay, format);
    if dayTexts.Failure? {
      return Failure(dayTexts.error);
    }
    var messages := PackMessages(header, dayTexts.value);
    return Success(messages);
  }

  lemma PackAllSnoc(p: Packing, texts: seq<string>, i: nat)
    requires i < |texts|
    ensures PackAll(p, texts[..i + 1]) == PackStep(PackAll(p, texts[..i]), texts[i])
  {
    assert texts[..i + 1][..i] == texts[..i];
  }

  /** The greedy packing loop of `_build_schedule_messages`. */
  method PackMessages(header: string, texts: seq<string>) returns (messages: seq<string>)
    ensures messages == Pack(header, texts)
  {
    messages := [];
    var currentText := header;
    for i := 0 to |texts|
      invariant PackAll(Packing([], header), texts[..i]) == Packing(messages, currentText)
    {
      PackAllSnoc(Packing([], header), texts, i);
      var dayText := texts[i];
      if |currentText| + |dayText| > MaxMessageLength {
        messages := messages + [currentText];
        currentText := dayText;
      } else {
        currentText := currentText + dayText;
      }
    }
    assert texts[..|texts|] == texts;
    if currentText != "" {
      messages := messages + [currentText];
    }
  }

  // ---------------------------------------------------------------------
  // Header, lesson lines and the two entry points
  // ---------------------------------------------------------------------

  /** `_get_header`: the escaped prefix in bold, the week's sign for "plus" and "minus", a blank line. */
  function Header(prefix: string, week: string): (h: string)
    ensures |h| >= 4 && h[0] == '*' && h[|h| - 2..] == "\n\n"
  {
    var bold := "*" + EscapeMdV2(prefix) + "*";
    if week == "plus" then bold + " ➕\n\n"
    else if week == "minus" then bold + " ➖\n\n"
    else bold + "\n\n"
  }

  /** The plus and minus headers are the plain header with the week's sign before the blank line. */
  lemma HeaderMarker(prefix: string, week: string)
    ensures var plain := Header(prefix, "full");
      Header(prefix, "plus") == plain[..|plain| - 2] + " ➕\n\n"
      && Header(prefix, "minus") == plain[..|plain| - 2] + " ➖\n\n"
      && (week != "plus" && week != "minus" ==> Header(prefix, week) == plain)
  {
    var bold := "*" + EscapeMdV2(prefix) + "*";
    assert Header(prefix, "full") == bold + "\n\n";
    assert (bold + "\n\n")[..|bold|] == bold;
  }

  /** The sign of a lesson's week mark: none for every week, for no mark and for anything unknown. */
  function WeekSign(weekMark: Option<string>): (s: string)
    ensures weekMark == Some("plus") ==> s == "➕"
    ensures weekMark == Some("minus") ==> s == "➖"
    ensures weekMark != Some("plus") && weekMark != Some("minus") ==> s == ""
  {
    var key := if weekMark.None? || weekMark.value == "" then "every" else weekMark.value;
    if key == "plus" then "➕" else if key == "minus" then "➖" else ""
  }

  /**
   * The URL rewriting of the rooms text: the text with every link turned
   * into a Markdown link when the URL pattern matches, None when it does not.
   */
  type Linkify = string -> Option<string>

  /** The room line of `_format_common_lesson_data`. */
  function RoomText(r: Row, linkify: Linkify): string
  {
    var rooms := if r.rooms.Some? && r.rooms.value != "" then r.rooms.value else "Место проведения не указано";
    "\U{1F4CD}" + (if linkify(rooms).Some? then linkify(rooms).value else EscapeMdV2(rooms))
  }

  function SubjectText(r: Row): string
  {
    EscapeMdV2(if r.subject.Some? && r.subject.value != "" then r.subject.value else "Предмет не указан")
  }

  function TimeText(r: Row): string
  {
    var (start, end) := LessonTime(r.lessonNumber);
    "⏳ " + start + " \\- " + end
  }

  /** A lesson in the students' schedule. */
  function StudentLine(r: Row, linkify: Linkify): string
  {
    var professors := if r.professors.Some? && r.professors.value != "" then r.professors.value else "Преподаватель не указан";
    "  " + SlotEmoji(r.lessonNumber) + " " + WeekSign(r.weekMark) + " " + SubjectText(r)
    + "\n  \U{1F468}‍\U{1F3EB} " + EscapeMdV2(professors) + "\n  " + RoomText(r, linkify) + "\n  " + TimeText(r)
  }

  /** A lesson in a professor's schedule: a room line with a link reads "online". */
  function ProfessorLine(r: Row, linkify: Linkify): string
  {
    var room := RoomText(r, linkify);
    var shown := if linkify(room).Some? then "\U{1F4CD}Онлайн" else room;
    "  " + SlotEmoji(r.lessonNumber) + " " + WeekSign(r.weekMark) + " " + SubjectText(r) + "\n  " + shown + "\n  " + TimeText(r)
  }

  function StudentFormat(linkify: Linkify): Row -> string
  {
    (r: Row) => StudentLine(r, linkify)
  }

  function ProfessorFormat(linkify: Linkify): Row -> string
  {
    (r: Row) => ProfessorLine(r, linkify)
  }

  /** Filter by week; nothing left, no messages; otherwise group, head and pack. */
  function FormatSchedule(rows: seq<Row>, week: string, prefix: string, format: Row -> string): Result<seq<string>>
  {
    var filtered := FilterByWeek(rows, week);
    if filtered == [] then Success([])
    else BuildMessages(GroupByDay(filtered), format, Header(prefix, week))
  }

  /** Every weekday that occurs gets exactly one block, in ascending order of days. */
  lemma AscendingDays(byDay: map<int, seq<Row>>)
    ensures |Ascending(byDay.Keys)| == |byDay|
  {
    var days := Ascending(byDay.Keys);
    assert byDay.Keys == set x | x in days;
    DistinctCard(days);
  }

  /**
   * Nothing survives the week filter: no messages. Otherwise the call fails
   * exactly when a weekday has no name; on success there is at least one
   * message, the messages together are the header and then one block per
   * weekday in ascending order, and a message over the limit is a single
   * piece.
   */
  lemma FormatScheduleEffect(rows: seq<Row>, week: string, prefix: string, format: Row -> string)
    ensures FilterByWeek(rows, week) == [] ==> FormatSchedule(rows, week, prefix, format) == Success([])
    ensures FilterByWeek(rows, week) != [] ==>
      var byDay := GroupByDay(FilterByWeek(rows, week));
      var blocks := DayBlocks(Ascending(byDay.Keys), byDay, format);
      var r := FormatSchedule(rows, week, prefix, format);
      (r.Failure? <==> exists d :: d in byDay && !(1 <= d <= 7))
      && (r.Success? ==>
            r.value != [] && Concat(r.value) == Header(prefix, week) + Concat(blocks.value)
            && |blocks.value| == |byDay|
            && forall m :: m in r.value ==> Fits(m, [Header(prefix, week)] + blocks.value))
  {
    var filtered := FilterByWeek(rows, week);
    if filtered != [] {
      var byDay := GroupByDay(filtered);
      var days := Ascending(byDay.Keys);
      DayBlocksFailure(days, byDay, format);
      if HasUnnamed(days) {
        var d :| d in days && !(1 <= d <= 7);
        assert d in byDay;
      }
      if exists d :: d in byDay && !(1 <= d <= 7) {
        var d :| d in byDay && !(1 <= d <= 7);
        assert d in days;
      }
      var blocks := DayBlocks(days, byDay, format);
      if blocks.Success? {
        PackEffect(Header(prefix, week), blocks.value);
        AscendingDays(byDay);
      }
    }
  }

  lemma {:induction false} DistinctCard(s: seq<int>)
    requires forall i, j :: 0 <= i < j < |s| ==> s[i] < s[j]
    ensures |set x | x in s| == |s|
  {
    if s != [] {
      var init := s[..|s| - 1];
      DistinctCard(init);
      var grown := init + [s[|s| - 1]];
      ElementsSnoc(init, s[|s| - 1]);
      assert (set x | x in s) == (set x | x in grown) by {
        SplitLast(s);
      }
      assert s[|s| - 1] !in (set x | x in init) by {
        forall i | 0 <= i < |init| ensures init[i] != s[|s| - 1] {
          assert init[i] == s[i];
        }
      }
    }
  }

  /** `format_schedule_students`. */
  method FormatScheduleStudents(lessons: seq<Lesson>, week: string, prefix: string, linkify: Linkify) returns (r: Result<seq<string>>)
    ensures r == FormatSchedule(Map(lessons, LessonRow), week, prefix, StudentFormat(linkify))
  {
    var filtered := FilterByWeek(Map(lessons, LessonRow), week);
    if filtered == [] {
      return Success([]);
    }
    var lessonsByDay := CreateLessonsByDay(filtered);
    var header := Header(prefix, week);
    r := BuildScheduleMessages(lessonsByDay, StudentFormat(linkify), header);
  }

  /** `format_schedule_professor`. */
  method FormatScheduleProfessor(lessons: seq<ProfessorLesson>, week: string, prefix: string, linkify: Linkify) returns (r: Result<seq<string>>)
    ensures r == FormatSchedule(Map(lessons, ProfessorRow), week, prefix, ProfessorFormat(linkify))
  {
    var filtered := FilterByWeek(Map(lessons, ProfessorRow), week);
    if filtered == [] {
      return Success([]);
    }
    var lessonsByDay := CreateLessonsByDay(filtered);
    var header := Header(prefix, week);
    r := BuildScheduleMessages(lessonsByDay, ProfessorFormat(linkify), header);
  }
}
