/**
 * The normaliser of the current generation: timetable documents into the
 * lesson records the worker stores, deduplicated within one call.
 */
module Parser {
  import opened Wrappers
  import opened Seqs
  import opened TimetableJson

  /** A time entry `time.fromisoformat` accepts at both ends; any other entry is logged and skipped. */
  predicate Parsed(e: TimeEntry)
  {
    e.start.Some? && e.end.Some?
  }

  /**
   * The lesson time map: the well-formed entries keyed by their position,
   * counted from `first`.
   */
  function TimeMap(entries: seq<TimeEntry>, first: int): (m: map<int, (Time, Time)>)
    ensures forall k :: k in m ==>
      first <= k < first + |entries| && Parsed(entries[k - first])
      && m[k] == (entries[k - first].start.value, entries[k - first].end.value)
    ensures forall k :: first <= k < first + |entries| && Parsed(entries[k - first]) ==> k in m
    decreases |entries|
  {
    if entries == [] then map[]
    else
      var m := TimeMap(entries[..|entries| - 1], first);
      var e := entries[|entries| - 1];
      if Parsed(e) then m[first + |entries| - 1 := (e.start.value, e.end.value)] else m
  }

  /**
   * `parse_lesson_time_data`: enumerates the entries from `first` (0 in the
   * current generation, 1 in the legacy one) and keeps the parsable ones.
   */
  method ParseLessonTimeData(entries: seq<TimeEntry>, first: int) returns (m: map<int, (Time, Time)>)
    ensures m == TimeMap(entries, first)
  {
    m := map[];
    for idx := 0 to |entries|
      invariant m == TimeMap(entries[..idx], first)
    {
      assert entries[..idx + 1][..idx] == entries[..idx];
      var lt := entries[idx];
      if lt.start.Some? && lt.end.Some? {
        m := m[first + idx := (lt.start.value, lt.end.value)];
      }
    }
    assert entries[..|entries|] == entries;
  }

  /** `timetable_json if isinstance(timetable_json, list) else [timetable_json]`, after a falsy reply gave nothing. */
  function Documents(t: Timetable): seq<Document>
  {
    match t
    case EmptyReply => []
    case Single(d) => [d]
    case Several(ds) => ds
  }

  /** `tt.get("types") or tt.get("type") or tt.get("typesName") or "classes"`. */
  function DocKind(d: Document): (kind: string)
    ensures kind != ""
  {
    if d.types.Truthy() then d.types.s
    else if d.typeName.Truthy() then d.typeName.s
    else if d.typesName.Truthy() then d.typesName.s
    else "classes"
  }

  /** `tt.get("lessonsContainers") or tt.get("lessons") or []`: the first non-empty list. */
  function Containers(d: Document): seq<Container>
  {
    if d.lessonsContainers.Some? && d.lessonsContainers.value != [] then d.lessonsContainers.value
    else if d.lessons.Some? && d.lessons.value != [] then d.lessons.value
    else []
  }

  /** The time map of a document: empty unless `lessonTimeData` is a list. */
  function DocTimeMap(d: Document, first: int): map<int, (Time, Time)>
  {
    if d.lessonTimeData.Some? then TimeMap(d.lessonTimeData.value, first) else map[]
  }

  /** `cont.get("weekDay") or cont.get("week_day")`: a zero or missing `weekDay` falls through. */
  function Weekday(c: Container): Option<int>
  {
    if c.weekDay.Some? && c.weekDay.value != 0 then c.weekDay else c.weekDayAlt
  }

  /** `texts[i] if len(texts) > i else None`, with `texts = cont.get("texts") or []`. */
  function TextAt(c: Container, i: nat): Option<string>
  {
    var texts := c.texts.UnwrapOr([]);
    if |texts| > i then texts[i] else None
  }

  /** `lesson_time_map.get(slot, {}).get("start")`. */
  function StartAt(tm: map<int, (Time, Time)>, slot: Option<int>): Option<Time>
  {
    if slot.Some? && slot.value in tm then Some(tm[slot.value].0) else None
  }

  function EndAt(tm: map<int, (Time, Time)>, slot: Option<int>): Option<Time>
  {
    if slot.Some? && slot.value in tm then Some(tm[slot.value].1) else None
  }

  /** The nine-field `lesson_key`: everything a record holds, plus the start and end time. */
  datatype LessonKey = LessonKey(
    weekday: Option<int>, lessonNumber: Option<int>,
    subject: Option<string>, professors: Option<string>, rooms: Option<string>,
    weekMark: Option<string>, kind: string, start: Option<Time>, end: Option<Time>)

  /** A record handed to the worker; `kind` is its `type`. */
  datatype LessonRecord = LessonRecord(
    groupName: string,
    weekday: Option<int>, lessonNumber: Option<int>,
    subject: Option<string>, professors: Option<string>, rooms: Option<string>,
    weekMark: Option<string>, kind: string)

  function KeyOf(c: Container, kind: string, tm: map<int, (Time, Time)>): LessonKey
  {
    LessonKey(Weekday(c), c.lessonNumber, TextAt(c, 1), TextAt(c, 2), TextAt(c, 3),
              c.weekMark, kind, StartAt(tm, c.lessonNumber), EndAt(tm, c.lessonNumber))
  }

  function RecordOf(groupName: string, k: LessonKey): LessonRecord
  {
    LessonRecord(groupName, k.weekday, k.lessonNumber, k.subject, k.professors, k.rooms, k.weekMark, k.kind)
  }

  /** The keys of one document's containers, in container order. */
  function DocKeys(d: Document): (keys: seq<LessonKey>)
    ensures |keys| == |Containers(d)|
    ensures forall i :: 0 <= i < |keys| ==> keys[i] == KeyOf(Containers(d)[i], DocKind(d), DocTimeMap(d, 0))
  {
    var kind, tm := DocKind(d), DocTimeMap(d, 0);
    Map(Containers(d), c => KeyOf(c, kind, tm))
  }

  /** The keys of all containers of all documents, in order. */
  function AllKeys(docs: seq<Document>): seq<LessonKey>
    decreases |docs|
  {
    if docs == [] then [] else AllKeys(docs[..|docs| - 1]) + DocKeys(docs[|docs| - 1])
  }

  /** The number of containers the documents hold. */
  function ContainerCount(docs: seq<Document>): nat
    decreases |docs|
  {
    if docs == [] then 0 else ContainerCount(docs[..|docs| - 1]) + |Containers(docs[|docs| - 1])|
  }

  function Identity(k: LessonKey): LessonKey
  {
    k
  }

  /** The keys that survive the `seen_lessons` check: the first of each. */
  function ExtractKeys(t: Timetable): seq<LessonKey>
  {
    DedupBy(AllKeys(Documents(t)), Identity)
  }

  function Records(groupName: string, keys: seq<LessonKey>): (records: seq<LessonRecord>)
    ensures |records| == |keys|
  {
    seq(|keys|, i requires 0 <= i < |keys| => RecordOf(groupName, keys[i]))
  }

  /** What `extract_lessons_from_timetable_json` returns. */
  function Extract(groupName: string, t: Timetable): seq<LessonRecord>
  {
    Records(groupName, ExtractKeys(t))
  }

  lemma RecordsSnoc(groupName: string, keys: seq<LessonKey>, k: LessonKey)
    ensures Records(groupName, keys + [k]) == Records(groupName, keys) + [RecordOf(groupName, k)]
  {
  }

  lemma AllKeysSnoc(docs: seq<Document>, i: nat)
    requires i < |docs|
    ensures AllKeys(docs[..i + 1]) == AllKeys(docs[..i]) + DocKeys(docs[i])
  {
    assert docs[..i + 1][..i] == docs[..i];
  }

  lemma PrefixStep(before: seq<LessonKey>, keys: seq<LessonKey>, j: nat)
    requires j < |keys|
    ensures before + keys[..j + 1] == (before + keys[..j]) + [keys[j]]
  {
    assert keys[..j + 1] == keys[..j] + [keys[j]];
  }

  /** One container through the `seen_lessons` check. */
  lemma SeenStep(groupName: string, prefix: seq<LessonKey>, kept: seq<LessonKey>, seen: set<LessonKey>,
                 records: seq<LessonRecord>, k: LessonKey)
    requires kept == DedupBy(prefix, Identity) && seen == KeySet(kept, Identity) && records == Records(groupName, kept)
    ensures k in seen ==> DedupBy(prefix + [k], Identity) == kept
    ensures k !in seen ==>
      DedupBy(prefix + [k], Identity) == kept + [k] && seen + {k} == KeySet(kept + [k], Identity)
      && records + [RecordOf(groupName, k)] == Records(groupName, kept + [k])
  {
    DedupBySnoc(prefix, k, Identity);
    KeySetSnoc(kept, k, Identity);
    RecordsSnoc(groupName, kept, k);
    assert Identity(k) == k;
  }

  /** `extract_lessons_from_timetable_json`: the loop over documents and containers with its `seen_lessons` set. */
  method ExtractLessonsFromTimetableJson(groupName: string, t: Timetable) returns (records: seq<LessonRecord>)
    ensures records == Extract(groupName, t)
  {
    records := [];
    var timetables := Documents(t);
    ghost var kept: seq<LessonKey> := [];
    var seen: set<LessonKey> := {};
    for i := 0 to |timetables|
      invariant kept == DedupBy(AllKeys(timetables[..i]), Identity)
      invariant seen == KeySet(kept, Identity)
      invariant records == Records(groupName, kept)
    {
      kept, records, seen := ExtractDocument(groupName, timetables[i], AllKeys(timetables[..i]), kept, records, seen);
      AllKeysSnoc(timetables, i);
    }
    ExtractDone(groupName, t, kept, records);
  }

  /** One pass of the document loop: its time table, its type, then its containers through `seen_lessons`. */
  method ExtractDocument(groupName: string, tt: Document, ghost before: seq<LessonKey>, ghost kept0: seq<LessonKey>,
                         records0: seq<LessonRecord>, seen0: set<LessonKey>)
    returns (ghost kept: seq<LessonKey>, records: seq<LessonRecord>, seen: set<LessonKey>)
    requires kept0 == DedupBy(before, Identity) && seen0 == KeySet(kept0, Identity) && records0 == Records(groupName, kept0)
    ensures kept == DedupBy(before + DocKeys(tt), Identity)
    ensures seen == KeySet(kept, Identity) && records == Records(groupName, kept)
  {
    kept, records, seen := kept0, records0, seen0;
    var lessonTimeMap: map<int, (Time, Time)> := map[];
    if tt.lessonTimeData.Some? {
      lessonTimeMap := ParseLessonTimeData(tt.lessonTimeData.value, 0);
    }
    assert lessonTimeMap == DocTimeMap(tt, 0);
    var ttype := DocKind(tt);
    var containers := Containers(tt);
    assert DocKeys(tt)[..0] == [];
    assert before + DocKeys(tt)[..0] == before;
    for j := 0 to |containers|
      invariant kept == DedupBy(before + DocKeys(tt)[..j], Identity)
      invariant seen == KeySet(kept, Identity)
      invariant records == Records(groupName, kept)
    {
      var cont := containers[j];
      var lessonKey := KeyOf(cont, ttype, lessonTimeMap);
      PrefixStep(before, DocKeys(tt), j);
      SeenStep(groupName, before + DocKeys(tt)[..j], kept, seen, records, lessonKey);
      if lessonKey in seen {
        continue;
      }
      seen := seen + {lessonKey};
      kept := kept + [lessonKey];
      records := records + [RecordOf(groupName, lessonKey)];
    }
    assert DocKeys(tt)[..|containers|] == DocKeys(tt);
  }

  lemma ExtractDone(groupName: string, t: Timetable, kept: seq<LessonKey>, records: seq<LessonRecord>)
    requires kept == DedupBy(AllKeys(Documents(t)[..|Documents(t)|]), Identity)
    requires records == Records(groupName, kept)
    ensures records == Extract(groupName, t)
  {
    assert Documents(t)[..|Documents(t)|] == Documents(t);
  }

  // ---------------------------------------------------------------------
  // Properties
  // ---------------------------------------------------------------------

  /** A falsy reply and an empty list of documents both give no records. */
  lemma ExtractEmpty(groupName: string)
    ensures Extract(groupName, EmptyReply) == []
    ensures Extract(groupName, Several([])) == []
  {
  }

  /** A single document is read exactly as a list holding it. */
  lemma ExtractSingle(groupName: string, d: Document)
    ensures Extract(groupName, Single(d)) == Extract(groupName, Several([d]))
  {
  }

  /** Every record carries the group name it was extracted for. */
  lemma ExtractGroupName(groupName: string, t: Timetable)
    ensures forall r :: r in Extract(groupName, t) ==> r.groupName == groupName
  {
  }

  lemma {:induction false} AllKeysCount(docs: seq<Document>)
    ensures |AllKeys(docs)| == ContainerCount(docs)
    decreases |docs|
  {
    if docs != [] {
      AllKeysCount(docs[..|docs| - 1]);
    }
  }

  /** At most one record per container. */
  lemma ExtractCount(groupName: string, t: Timetable)
    ensures |Extract(groupName, t)| <= ContainerCount(Documents(t))
  {
    AllKeysCount(Documents(t));
    DedupBySubsequence(AllKeys(Documents(t)), Identity);
  }

  /**
   * The `seen_lessons` set spans all documents of one call: no two kept keys
   * are equal, every container's key is kept once, and the kept keys follow
   * container order.
   */
  lemma ExtractKeysDistinct(t: Timetable)
    ensures KeysDistinct(ExtractKeys(t), Identity)
    ensures forall k :: k in AllKeys(Documents(t)) ==> k in ExtractKeys(t)
    ensures IsSubsequence(ExtractKeys(t), AllKeys(Documents(t)))
  {
    var all := AllKeys(Documents(t));
    DedupByKeys(all, Identity);
    DedupBySubsequence(all, Identity);
    forall k | k in all ensures k in ExtractKeys(t) {
      assert Identity(k) in KeySet(all, Identity);
    }
  }

  lemma {:induction false} AllKeysFrom(docs: seq<Document>, k: LessonKey)
    requires k in AllKeys(docs)
    ensures exists d, c :: d in docs && c in Containers(d) && k == KeyOf(c, DocKind(d), DocTimeMap(d, 0))
    decreases |docs|
  {
    var init, last := docs[..|docs| - 1], docs[|docs| - 1];
    if k in AllKeys(init) {
      AllKeysFrom(init, k);
      var d, c :| d in init && c in Containers(d) && k == KeyOf(c, DocKind(d), DocTimeMap(d, 0));
      assert d in docs;
    } else {
      var i :| 0 <= i < |DocKeys(last)| && DocKeys(last)[i] == k;
      assert Containers(last)[i] in Containers(last);
    }
  }

  /**
   * Every record comes from one container of one document: its subject,
   * professors and rooms are `texts[1..3]` of that container and its type is
   * the document's type or "classes".
   */
  lemma ExtractFromContainers(groupName: string, t: Timetable)
    ensures forall r :: r in Extract(groupName, t) ==>
      exists d, c :: d in Documents(t) && c in Containers(d) && r == RecordOf(groupName, KeyOf(c, DocKind(d), DocTimeMap(d, 0)))
  {
    var keys := ExtractKeys(t);
    DedupBySubsequence(AllKeys(Documents(t)), Identity);
    forall r | r in Extract(groupName, t)
      ensures exists d, c :: d in Documents(t) && c in Containers(d) && r == RecordOf(groupName, KeyOf(c, DocKind(d), DocTimeMap(d, 0)))
    {
      var i :| 0 <= i < |keys| && Records(groupName, keys)[i] == r;
      SubsequenceMembers(keys, AllKeys(Documents(t)));
      assert keys[i] in keys;
      AllKeysFrom(Documents(t), keys[i]);
    }
  }

  /** A document with one time entry and one container, nothing else. */
  function OneLessonDocument(e: TimeEntry, c: Container): Document
  {
    Document(Missing, Some([e]), Missing, Missing, Missing, Some([c]), None)
  }

  lemma OneLessonKeys(e: TimeEntry, c: Container)
    requires Parsed(e) && c.lessonNumber == Some(0)
    ensures DocKeys(OneLessonDocument(e, c)) == [KeyOf(c, "classes", map[0 := (e.start.value, e.end.value)])]
  {
    var d := OneLessonDocument(e, c);
    var tm := TimeMap([e], 0);
    assert [e][..0] == [];
    assert tm == map[0 := (e.start.value, e.end.value)];
    assert Containers(d) == [c];
  }

  lemma TwoDocumentKeys(d1: Document, d2: Document)
    ensures AllKeys([d1, d2]) == DocKeys(d1) + DocKeys(d2)
  {
    assert [d1, d2][..1] == [d1];
    assert [d1][..0] == [];
    assert AllKeys([d1]) == AllKeys([]) + DocKeys(d1);
  }

  lemma DedupTwo(k1: LessonKey, k2: LessonKey)
    requires k1 != k2
    ensures DedupBy([k1, k2], Identity) == [k1, k2]
  {
    assert [k1, k2][..1] == [k1];
    assert [k1][..0] == [];
    assert DedupBy([k1], Identity) == [k1];
  }

  /**
   * The dedup key holds the start and end time but the stored lesson does
   * not: the same container under two documents with different time tables
   * gives two records that are equal in every stored column, all of them
   * non-null, which the eight-column UNIQUE constraint on lessons refuses.
   */
  lemma TimesSplitStoredKey()
    ensures var c := Container(Some(0), Some(1), None, Some("every"), Some([Some("08:30"), Some("Algebra"), Some("Ivanov I. I."), Some("101")]), None);
      var early := OneLessonDocument(TimeEntry(Some(Time(8, 30, 0)), Some(Time(10, 5, 0))), c);
      var late := OneLessonDocument(TimeEntry(Some(Time(9, 0, 0)), Some(Time(10, 35, 0))), c);
      var records := Extract("A-11", Several([early, late]));
      |records| == 2 && records[0] == records[1]
      && records[0].subject.Some? && records[0].professors.Some? && records[0].rooms.Some?
      && records[0].weekday.Some? && records[0].lessonNumber.Some? && records[0].weekMark.Some?
  {
    var c := Container(Some(0), Some(1), None, Some("every"), Some([Some("08:30"), Some("Algebra"), Some("Ivanov I. I."), Some("101")]), None);
    var e1 := TimeEntry(Some(Time(8, 30, 0)), Some(Time(10, 5, 0)));
    var e2 := TimeEntry(Some(Time(9, 0, 0)), Some(Time(10, 35, 0)));
    var early, late := OneLessonDocument(e1, c), OneLessonDocument(e2, c);
    OneLessonKeys(e1, c);
    OneLessonKeys(e2, c);
    var k1 := KeyOf(c, "classes", map[0 := (Time(8, 30, 0), Time(10, 5, 0))]);
    var k2 := KeyOf(c, "classes", map[0 := (Time(9, 0, 0), Time(10, 35, 0))]);
    TwoDocumentKeys(early, late);
    assert k1.start != k2.start;
    DedupTwo(k1, k2);
    assert AllKeys([early, late]) == [k1, k2];
    assert ExtractKeys(Several([early, late])) == [k1, k2];
    assert TextAt(c, 1) == Some("Algebra");
  }
}
