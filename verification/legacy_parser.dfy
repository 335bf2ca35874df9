/**
 * The normaliser of the legacy generation. It reads documents exactly as
 * the current one does, but numbers the time table from 1, stores the slot
 * as `lessonNumber + 1`, parses a `dd.mm.yyyy` date, keeps the start and end
 * time and the original container in every record, and deduplicates on seven
 * fields.
 */
module LegacyParser {
  import opened Wrappers
  import opened Seqs
  import opened Text
  import opened Calendar
  import opened TimetableJson
  import opened Parser

  // ---------------------------------------------------------------------
  // `datetime.strptime(date_str, "%d.%m.%Y").date()`
  // ---------------------------------------------------------------------

  function DigitValue(c: char): int
  {
    c as int - '0' as int
  }

  predicate IsDigit(c: char)
  {
    '0' <= c <= '9'
  }

  /** `%d`: `3[01]`, `[12]\d`, `0[1-9]`, `[1-9]` or a space and `[1-9]`. */
  function DayField(p: string): (day: Option<int>)
    ensures day.Some? ==> 1 <= day.value <= 31
  {
    if |p| == 1 && '1' <= p[0] <= '9' then Some(DigitValue(p[0]))
    else if |p| == 2 && p[0] == ' ' && '1' <= p[1] <= '9' then Some(DigitValue(p[1]))
    else if |p| == 2 && IsDigit(p[0]) && IsDigit(p[1]) && 1 <= 10 * DigitValue(p[0]) + DigitValue(p[1]) <= 31 then
      Some(10 * DigitValue(p[0]) + DigitValue(p[1]))
    else None
  }

  /** `%m`: `1[0-2]`, `0[1-9]` or `[1-9]`. */
  function MonthField(p: string): (month: Option<int>)
    ensures month.Some? ==> 1 <= month.value <= 12
  {
    if |p| == 1 && '1' <= p[0] <= '9' then Some(DigitValue(p[0]))
    else if |p| == 2 && IsDigit(p[0]) && IsDigit(p[1]) && 1 <= 10 * DigitValue(p[0]) + DigitValue(p[1]) <= 12 then
      Some(10 * DigitValue(p[0]) + DigitValue(p[1]))
    else None
  }

  /**
   * The whole text must match day, `.`, month, `.`, four digits, and the
   * result must be a real date of years 1 to 9999; anything else is None.
   */
  function ParseDate(s: string): (d: Option<Date>)
    ensures d.Some? ==> ValidDate(d.value)
  {
    var i := IndexOf(s, '.');
    if i == |s| then None
    else
      var rest := s[i + 1..];
      var j := IndexOf(rest, '.');
      if j == |rest| then None
      else
        var day, month, year := DayField(s[..i]), MonthField(rest[..j]), rest[j + 1..];
        if day.None? || month.None? || |year| != 4 || !IsDigits(year) then None
        else
          var date := Date(ParseDigits(year), month.value, day.value);
          if ValidDate(date) then Some(date) else None
  }

  /** Two zero-padded digits. */
  function Pad2(n: nat): (r: string)
    requires n < 100
    ensures |r| == 2 && IsDigit(r[0]) && IsDigit(r[1]) && 10 * DigitValue(r[0]) + DigitValue(r[1]) == n
  {
    [DigitChar(n / 10), DigitChar(n % 10)]
  }

  function Pow10(w: nat): (p: nat)
    ensures p >= 1
  {
    if w == 0 then 1 else 10 * Pow10(w - 1)
  }

  /** `n` written with exactly `w` digits, zero-padded on the left. */
  function PadDigits(n: nat, w: nat): (r: string)
    requires n < Pow10(w)
    ensures |r| == w && IsDigits(r) && ParseDigits(r) == n
  {
    if w == 0 then []
    else
      assert n / 10 < Pow10(w - 1);
      var r := PadDigits(n / 10, w - 1) + [DigitChar(n % 10)];
      ParseDigitsSnoc(PadDigits(n / 10, w - 1), DigitChar(n % 10));
      r
  }

  /** Four zero-padded digits. */
  function Pad4(n: nat): (r: string)
    requires n < 10000
    ensures |r| == 4 && IsDigits(r) && ParseDigits(r) == n
  {
    assert Pow10(4) == 10000;
    PadDigits(n, 4)
  }

  /** `date.strftime("%d.%m.%Y")`. */
  function FormatDate(d: Date): string
    requires ValidDate(d)
  {
    Pad2(d.day) + "." + Pad2(d.month) + "." + Pad4(d.year)
  }

  /** Every valid date written as `dd.mm.yyyy` is read back as itself. */
  lemma ParseFormatDate(d: Date)
    requires ValidDate(d)
    ensures ParseDate(FormatDate(d)) == Some(d)
  {
    var s := FormatDate(d);
    var dd, mm, yyyy := Pad2(d.day), Pad2(d.month), Pad4(d.year);
    assert s == dd + "." + (mm + "." + yyyy);
    assert IndexOf(s, '.') == 2 by {
      assert s[0] == dd[0] && s[1] == dd[1] && s[2] == '.';
    }
    var rest := s[3..];
    assert rest == mm + "." + yyyy;
    assert IndexOf(rest, '.') == 2 by {
      assert rest[0] == mm[0] && rest[1] == mm[1] && rest[2] == '.';
    }
    assert s[..2] == dd;
    assert rest[..2] == mm && rest[3..] == yyyy;
  }

  /** A day that does not exist in its month is refused, not wrapped. */
  lemma ParseDateRefusesImpossibleDay()
    ensures ParseDate("31.02.2024") == None
    ensures ParseDate("") == None
  {
    var s := "31.02.2024";
    DotsOfSample();
    FieldsOfSample();
    YearOfSample();
    assert s[3..] == "02.2024";
    assert s[..2] == "31";
    assert "02.2024"[..2] == "02" && "02.2024"[3..] == "2024";
  }

  lemma DotsOfSample()
    ensures IndexOf("31.02.2024", '.') == 2 && IndexOf("02.2024", '.') == 2
  {
    IndexOfFirst("31.02.2024", '.', 2);
    IndexOfFirst("02.2024", '.', 2);
  }

  lemma FieldsOfSample()
    ensures DayField("31") == Some(31) && MonthField("02") == Some(2)
  {
  }

  lemma YearOfSample()
    ensures IsDigits("2024") && ParseDigits("2024") == 2024 && !ValidDate(Date(2024, 2, 31))
  {
    assert "2024"[..3] == "202" && "202"[..2] == "20" && "20"[..1] == "2" && "2"[..0] == "";
    assert ParseDigits("2") == 2;
    assert ParseDigits("20") == 20;
    assert ParseDigits("202") == 202;
  }

  // ---------------------------------------------------------------------
  // Records
  // ---------------------------------------------------------------------

  /** The seven-field `lesson_key`: no times. */
  datatype LegacyKey = LegacyKey(
    weekday: Option<int>, lessonNumber: Option<int>,
    subject: Option<string>, professors: Option<string>, rooms: Option<string>,
    weekMark: Option<string>, kind: string)

  /** A legacy record, with its date, its times and the container it was read from. */
  datatype LegacyRecord = LegacyRecord(
    groupName: string, date: Option<Date>,
    weekday: Option<int>, lessonNumber: Option<int>,
    start: Option<Time>, end: Option<Time>,
    subject: Option<string>, professors: Option<string>, rooms: Option<string>,
    weekMark: Option<string>, kind: string, raw: Container)

  /** `cont.get("lessonNumber") + 1`, or None. */
  function Slot(c: Container): Option<int>
  {
    if c.lessonNumber.Some? then Some(c.lessonNumber.value + 1) else None
  }

  /** A truthy `date` is parsed; a missing, empty or unparsable one gives None. */
  function DateOf(c: Container): Option<Date>
  {
    if c.date.Some? && c.date.value != "" then ParseDate(c.date.value) else None
  }

  function KeyOfRecord(r: LegacyRecord): LegacyKey
  {
    LegacyKey(r.weekday, r.lessonNumber, r.subject, r.professors, r.rooms, r.weekMark, r.kind)
  }

  /** The record one container gives before the `seen_lessons` check. */
  function Candidate(groupName: string, c: Container, kind: string, tm: map<int, (Time, Time)>): LegacyRecord
  {
    var slot := Slot(c);
    LegacyRecord(groupName, DateOf(c), Weekday(c), slot, StartAt(tm, slot), EndAt(tm, slot),
                 TextAt(c, 1), TextAt(c, 2), TextAt(c, 3), c.weekMark, kind, c)
  }

  function DocCandidates(groupName: string, d: Document): (rs: seq<LegacyRecord>)
    ensures |rs| == |Containers(d)|
    ensures forall i :: 0 <= i < |rs| ==> rs[i] == Candidate(groupName, Containers(d)[i], DocKind(d), DocTimeMap(d, 1))
  {
    var kind, tm := DocKind(d), DocTimeMap(d, 1);
    Map(Containers(d), c => Candidate(groupName, c, kind, tm))
  }

  function AllCandidates(groupName: string, docs: seq<Document>): seq<LegacyRecord>
    decreases |docs|
  {
    if docs == [] then [] else AllCandidates(groupName, docs[..|docs| - 1]) + DocCandidates(groupName, docs[|docs| - 1])
  }

  /** What the legacy `extract_lessons_from_timetable_json` returns. */
  function LegacyExtract(groupName: string, t: Timetable): seq<LegacyRecord>
  {
    DedupBy(AllCandidates(groupName, Documents(t)), KeyOfRecord)
  }

  lemma CandidatesSnoc(groupName: string, docs: seq<Document>, i: nat)
    requires i < |docs|
    ensures AllCandidates(groupName, docs[..i + 1]) == AllCandidates(groupName, docs[..i]) + DocCandidates(groupName, docs[i])
  {
    assert docs[..i + 1][..i] == docs[..i];
  }

  lemma CandidateAt(groupName: string, d: Document, j: nat)
    requires j < |Containers(d)|
    ensures DocCandidates(groupName, d)[j] == Candidate(groupName, Containers(d)[j], DocKind(d), DocTimeMap(d, 1))
  {
  }

  lemma PrefixStep(before: seq<LegacyRecord>, rs: seq<LegacyRecord>, j: nat)
    requires j < |rs|
    ensures before + rs[..j + 1] == (before + rs[..j]) + [rs[j]]
  {
    assert rs[..j + 1] == rs[..j] + [rs[j]];
  }

  lemma SeenStep(prefix: seq<LegacyRecord>, records: seq<LegacyRecord>, seen: set<LegacyKey>, r: LegacyRecord)
    requires records == DedupBy(prefix, KeyOfRecord) && seen == KeySet(records, KeyOfRecord)
    ensures KeyOfRecord(r) in seen ==> DedupBy(prefix + [r], KeyOfRecord) == records
    ensures KeyOfRecord(r) !in seen ==>
      DedupBy(prefix + [r], KeyOfRecord) == records + [r] && seen + {KeyOfRecord(r)} == KeySet(records + [r], KeyOfRecord)
  {
    DedupBySnoc(prefix, r, KeyOfRecord);
    KeySetSnoc(records, r, KeyOfRecord);
  }

  lemma ExtractDone(groupName: string, t: Timetable, records: seq<LegacyRecord>)
    requires records == DedupBy(AllCandidates(groupName, Documents(t)[..|Documents(t)|]), KeyOfRecord)
    ensures records == LegacyExtract(groupName, t)
  {
    assert Documents(t)[..|Documents(t)|] == Documents(t);
  }

  /** The legacy `extract_lessons_from_timetable_json`. */
  method ExtractLessonsFromTimetableJson(groupName: string, t: Timetable) returns (records: seq<LegacyRecord>)
    ensures records == LegacyExtract(groupName, t)
  {
    records := [];
    var timetables := Documents(t);
    var seen: set<LegacyKey> := {};
    for i := 0 to |timetables|
      invariant records == DedupBy(AllCandidates(groupName, timetables[..i]), KeyOfRecord)
      invariant seen == KeySet(records, KeyOfRecord)
    {
      records, seen := ExtractDocument(groupName, timetables[i], AllCandidates(groupName, timetables[..i]), records, seen);
      CandidatesSnoc(groupName, timetables, i);
    }
    ExtractDone(groupName, t, records);
  }

  /** The record the loop builds field by field is the container's candidate. */
  lemma CandidateIs(groupName: string, c: Container, kind: string, tm: map<int, (Time, Time)>,
                    dateObj: Option<Date>, rec: LegacyRecord)
    requires dateObj == DateOf(c)
    requires var n := if c.lessonNumber.Some? then Some(c.lessonNumber.value + 1) else None;
      rec == LegacyRecord(groupName, dateObj, Weekday(c), n, StartAt(tm, n), EndAt(tm, n),
                          TextAt(c, 1), TextAt(c, 2), TextAt(c, 3), c.weekMark, kind, c)
    ensures rec == Candidate(groupName, c, kind, tm)
  {
  }

  /**
   * The body of the container loop: the record built from one container
   * joins the list unless its seven-field key was seen already.
   */
  method ExtractContainer(groupName: string, cont: Container, ttype: string, lessonTimeMap: map<int, (Time, Time)>,
                          records0: seq<LegacyRecord>, seen0: set<LegacyKey>)
    returns (records: seq<LegacyRecord>, seen: set<LegacyKey>)
    ensures var r := Candidate(groupName, cont, ttype, lessonTimeMap);
      (KeyOfRecord(r) in seen0 ==> records == records0 && seen == seen0)
      && (KeyOfRecord(r) !in seen0 ==> records == records0 + [r] && seen == seen0 + {KeyOfRecord(r)})
  {
    records, seen := records0, seen0;
    var lessonNumber := if cont.lessonNumber.Some? then Some(cont.lessonNumber.value + 1) else None;
    var dateObj: Option<Date> := None;
    if cont.date.Some? && cont.date.value != "" {
      dateObj := ParseDate(cont.date.value);
    }
    var rec := LegacyRecord(groupName, dateObj, Weekday(cont), lessonNumber,
                            StartAt(lessonTimeMap, lessonNumber), EndAt(lessonTimeMap, lessonNumber),
                            TextAt(cont, 1), TextAt(cont, 2), TextAt(cont, 3), cont.weekMark, ttype, cont);
    var lessonKey := LegacyKey(rec.weekday, lessonNumber, rec.subject, rec.professors, rec.rooms, rec.weekMark, ttype);
    CandidateIs(groupName, cont, ttype, lessonTimeMap, dateObj, rec);
    assert lessonKey == KeyOfRecord(rec);
    if lessonKey in seen {
      return;
    }
    seen := seen + {lessonKey};
    records := records + [rec];
  }

  /** One container of a document through the `seen_lessons` check. */
  lemma LegacyStep(groupName: string, tt: Document, before: seq<LegacyRecord>, j: nat,
                   records: seq<LegacyRecord>, seen: set<LegacyKey>)
    requires j < |Containers(tt)|
    requires records == DedupBy(before + DocCandidates(groupName, tt)[..j], KeyOfRecord)
    requires seen == KeySet(records, KeyOfRecord)
    ensures var r := DocCandidates(groupName, tt)[j]; var next := before + DocCandidates(groupName, tt)[..j + 1];
      (KeyOfRecord(r) in seen ==> records == DedupBy(next, KeyOfRecord))
      && (KeyOfRecord(r) !in seen ==>
        records + [r] == DedupBy(next, KeyOfRecord) && seen + {KeyOfRecord(r)} == KeySet(records + [r], KeyOfRecord))
  {
    PrefixStep(before, DocCandidates(groupName, tt), j);
    SeenStep(before + DocCandidates(groupName, tt)[..j], records, seen, DocCandidates(groupName, tt)[j]);
  }

  /** One pass of the document loop: its time table, its type, then its containers through `seen_lessons`. */
  method ExtractDocument(groupName: string, tt: Document, ghost before: seq<LegacyRecord>,
                         records0: seq<LegacyRecord>, seen0: set<LegacyKey>)
    returns (records: seq<LegacyRecord>, seen: set<LegacyKey>)
    requires records0 == DedupBy(before, KeyOfRecord) && seen0 == KeySet(records0, KeyOfRecord)
    ensures records == DedupBy(before + DocCandidates(groupName, tt), KeyOfRecord)
    ensures seen == KeySet(records, KeyOfRecord)
  {
    records, seen := records0, seen0;
    var lessonTimeMap: map<int, (Time, Time)> := map[];
    if tt.lessonTimeData.Some? {
      lessonTimeMap := ParseLessonTimeData(tt.lessonTimeData.value, 1);
    }
    assert lessonTimeMap == DocTimeMap(tt, 1);
    var ttype := DocKind(tt);
    var containers := Containers(tt);
    assert before + DocCandidates(groupName, tt)[..0] == before;
    for j := 0 to |containers|
      invariant records == DedupBy(before + DocCandidates(groupName, tt)[..j], KeyOfRecord)
      invariant seen == KeySet(records, KeyOfRecord)
    {
      var r0, s0 := records, seen;
      records, seen := ExtractContainer(groupName, containers[j], ttype, lessonTimeMap, records, seen);
      CandidateAt(groupName, tt, j);
      LegacyStep(groupName, tt, before, j, r0, s0);
    }
    assert DocCandidates(groupName, tt)[..|containers|] == DocCandidates(groupName, tt);
  }

  // ---------------------------------------------------------------------
  // Properties
  // ---------------------------------------------------------------------

  /** A falsy reply gives nothing, and a single document is read as a list holding it. */
  lemma LegacyExtractShape(groupName: string, d: Document)
    ensures LegacyExtract(groupName, EmptyReply) == []
    ensures LegacyExtract(groupName, Several([])) == []
    ensures LegacyExtract(groupName, Single(d)) == LegacyExtract(groupName, Several([d]))
  {
  }

  /** No two records share the seven-field key, and every key of every container is kept once, in order. */
  lemma LegacyKeysDistinct(groupName: string, t: Timetable)
    ensures KeysDistinct(LegacyExtract(groupName, t), KeyOfRecord)
    ensures KeySet(LegacyExtract(groupName, t), KeyOfRecord) == KeySet(AllCandidates(groupName, Documents(t)), KeyOfRecord)
    ensures IsSubsequence(LegacyExtract(groupName, t), AllCandidates(groupName, Documents(t)))
  {
    DedupByKeys(AllCandidates(groupName, Documents(t)), KeyOfRecord);
    DedupBySubsequence(AllCandidates(groupName, Documents(t)), KeyOfRecord);
  }

  lemma {:induction false} CandidatesFrom(groupName: string, docs: seq<Document>, r: LegacyRecord)
    requires r in AllCandidates(groupName, docs)
    ensures exists d :: d in docs && r.raw in Containers(d) && r == Candidate(groupName, r.raw, DocKind(d), DocTimeMap(d, 1))
    decreases |docs|
  {
    var init, last := docs[..|docs| - 1], docs[|docs| - 1];
    if r in AllCandidates(groupName, init) {
      CandidatesFrom(groupName, init, r);
      var d :| d in init && r.raw in Containers(d) && r == Candidate(groupName, r.raw, DocKind(d), DocTimeMap(d, 1));
      assert d in docs;
    } else {
      var i :| 0 <= i < |DocCandidates(groupName, last)| && DocCandidates(groupName, last)[i] == r;
      assert Containers(last)[i] in Containers(last);
    }
  }

  /**
   * Every record carries the group name it was extracted for and the
   * container it was read from as `raw`; its slot is that container's
   * `lessonNumber + 1` and its date is the container's parsed date.
   */
  lemma LegacyRecordsFromRaw(groupName: string, t: Timetable)
    ensures forall r :: r in LegacyExtract(groupName, t) ==>
      r.groupName == groupName && r.lessonNumber == Slot(r.raw) && r.date == DateOf(r.raw)
      && (exists d :: d in Documents(t) && r.raw in Containers(d))
  {
    DedupBySubsequence(AllCandidates(groupName, Documents(t)), KeyOfRecord);
    forall r | r in LegacyExtract(groupName, t)
      ensures r.groupName == groupName && r.lessonNumber == Slot(r.raw) && r.date == DateOf(r.raw)
      ensures exists d :: d in Documents(t) && r.raw in Containers(d)
    {
      SubsequenceMembers(LegacyExtract(groupName, t), AllCandidates(groupName, Documents(t)));
      CandidatesFrom(groupName, Documents(t), r);
    }
  }

  /**
   * The two shifts cancel: the legacy time map starts at 1 and the legacy
   * slot is `lessonNumber + 1`, so a lesson gets the same start and end time
   * in both generations.
   */
  lemma LegacyTimesAgree(entries: seq<TimeEntry>, c: Container)
    ensures StartAt(TimeMap(entries, 1), Slot(c)) == StartAt(TimeMap(entries, 0), c.lessonNumber)
    ensures EndAt(TimeMap(entries, 1), Slot(c)) == EndAt(TimeMap(entries, 0), c.lessonNumber)
  {
  }
}
