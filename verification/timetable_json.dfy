/**
 * The JSON the timetable service answers with, as far as the bot reads it:
 * the group catalogue and the per-group timetable documents. A key that is
 * missing and a key holding JSON null are told apart only where the bot's
 * code tells them apart.
 */
module TimetableJson {
  import opened Wrappers

  /** A string-valued key of a JSON object: absent, `null`, or a string. */
  datatype Field = Missing | Null | Text(s: string)
  {
    /** `obj.get(key)`: absent and `null` both read as None. */
    function Get(): (r: Option<string>)
      ensures r.Some? <==> this.Text?
    {
      if Text? then Some(s) else None
    }

    /** Python truthiness of `obj.get(key)`: a non-empty string. */
    predicate Truthy()
    {
      Text? && s != ""
    }
  }

  /** One entry of the group catalogue. */
  datatype CatalogueEntry = CatalogueEntry(groupName: Field, facultyName: Field)

  /** The `groups` key of a catalogue object. */
  datatype GroupList = NoGroups | NullGroups | Groups(entries: seq<CatalogueEntry>)

  /** The catalogue reply: an object with a `groups` key, or a bare list of entries. */
  datatype Catalogue = CatalogueObject(groups: GroupList) | CatalogueList(entries: seq<CatalogueEntry>)

  /** A lesson time as `time.fromisoformat` produces it. */
  datatype Time = Time(hour: int, minute: int, second: int)

  /**
   * One element of `lessonTimeData`: each bound is None when its key is
   * missing or its text is not an ISO time.
   */
  datatype TimeEntry = TimeEntry(start: Option<Time>, end: Option<Time>)

  /** One lesson container. Absent and null keys are both None. */
  datatype Container = Container(
    lessonNumber: Option<int>,
    weekDay: Option<int>,
    weekDayAlt: Option<int>,
    weekMark: Option<string>,
    texts: Option<seq<Option<string>>>,
    date: Option<string>)

  /**
   * One timetable document. `lessonTimeData` is None unless the key holds a
   * list; the three type keys are read in the order `types`, `type`,
   * `typesName`.
   */
  datatype Document = Document(
    message: Field,
    lessonTimeData: Option<seq<TimeEntry>>,
    types: Field, typeName: Field, typesName: Field,
    lessonsContainers: Option<seq<Container>>,
    lessons: Option<seq<Container>>)

  /** The timetable reply: nothing usable, one document, or a list of documents. */
  datatype Timetable = EmptyReply | Single(doc: Document) | Several(docs: seq<Document>)

  /** `isinstance(tt_json, dict) and tt_json.get("message")`: the reply says there is no timetable. */
  predicate HasMessage(t: Timetable)
  {
    t.Single? && t.doc.message.Truthy()
  }

  /** The synthetic reply to a 404 whose body is not JSON. */
  function NotFoundDocument(): (d: Document)
    ensures d.message.Truthy()
  {
    Document(Text("Not found"), None, Missing, Missing, Missing, None, None)
  }
}
