/**
 * The legacy synchronisation worker. It shares the get-or-create of the
 * current worker and never deletes a group.
 *
 * Its upsert hands the lesson row constructor the keywords `date`,
 * `start_time`, `end_time` and `raw_json`, for which the shared `Lesson`
 * class has no attribute. The declarative constructor refuses the first of
 * them with a TypeError, so any non-empty extraction deletes the group's
 * lessons of its type and then raises: the full sync rolls that iteration
 * back without counting it, the one-group sync passes the error on, and
 * only a group whose timetable yields no record is ever committed.
 */
module LegacyWorker {
  import opened Wrappers
  import opened Seqs
  import opened Models
  import opened Store
  import opened TimetableJson
  import opened Parser
  import opened LegacyParser
  import opened Reconcile
  import opened SyncSteps
  import opened Queries

  // ---------------------------------------------------------------------
  // `ensure_faculty_and_group`: the same code as in the current worker
  // ---------------------------------------------------------------------

  lemma FirstGroupUnique(gs: seq<Group>, g: Group)
    requires g in gs
    requires forall h :: h in gs && h.name == g.name ==> h == g
    ensures FirstGroup(gs, g.name) == Some(g)
  {
  }

  /**
   * Get-or-create is idempotent: a second call with the same names finds
   * the faculty and the group the first one left, returns the same group
   * and changes nothing.
   */
  lemma EnsureIdempotent(db: Db, facultyName: Option<string>, groupName: string)
    requires Constraints(db) && IdsBelow(db)
    ensures var e := Ensure(db, facultyName, groupName);
      Ensure(e.db, facultyName, groupName) == e
  {
    EnsureKeepsConstraints(db, facultyName, groupName);
    var e := Ensure(db, facultyName, groupName);
    if Truthy(facultyName) {
      var f :| f in e.db.faculties && f.name == facultyName.value;
      assert FindFaculty(e.db, facultyName.value).Some?;
    }
    FirstGroupUnique(e.db.groups, e.group.value);
    EnsureExistingGroup(e.db, facultyName, groupName);
  }

  /** The call never removes or reorders a group: it may only append one. */
  lemma EnsureGroupsGrow(db: Db, facultyName: Option<string>, groupName: string)
    ensures db.groups <= Ensure(db, facultyName, groupName).db.groups
    ensures Ensure(db, facultyName, groupName).db.lessons == db.lessons
  {
  }

  // ---------------------------------------------------------------------
  // The `Lesson(...)` call of the legacy insert loop
  // ---------------------------------------------------------------------

  /** The mapped attributes of the `Lesson` class, which its constructor accepts as keywords. */
  const LessonAttributes: set<string> :=
    {"id", "group_id", "weekday", "lesson_number", "subject", "professors", "rooms", "week_mark", "type"}

  /** The keywords the legacy insert loop passes to `Lesson(...)`, in the order it passes them. */
  const LegacyLessonKeywords: seq<string> :=
    ["group_id", "date", "weekday", "lesson_number", "start_time", "end_time",
     "subject", "professors", "rooms", "week_mark", "type", "raw_json"]

  /**
   * The check of the declarative constructor: the position of the first
   * keyword the class has no attribute for, or None when it accepts them all.
   */
  function FirstRejected(attributes: set<string>, keywords: seq<string>): (r: Option<nat>)
    ensures r.None? <==> forall i :: 0 <= i < |keywords| ==> keywords[i] in attributes
    ensures r.Some? ==>
      r.value < |keywords| && keywords[r.value] !in attributes
      && forall j :: 0 <= j < r.value ==> keywords[j] in attributes
    decreases |keywords|
  {
    if keywords == [] then None
    else if keywords[0] !in attributes then Some(0)
    else
      match FirstRejected(attributes, keywords[1..])
      case None => None
      case Some(i) => Some(i + 1)
  }

  /** The TypeError the constructor raises for a keyword it refuses. */
  function InvalidKeyword(keyword: string): Error
  {
    TypeError("'" + keyword + "' is an invalid keyword argument for Lesson")
  }

  /** The legacy keywords are refused, and the first refused one is `date`. */
  lemma LegacyKeywordsRejected()
    ensures FirstRejected(LessonAttributes, LegacyLessonKeywords) == Some(1)
    ensures LegacyLessonKeywords[1] == "date"
  {
    assert LegacyLessonKeywords[0] in LessonAttributes;
    assert LegacyLessonKeywords[1] !in LessonAttributes;
  }

  /** What the first `Lesson(...)` of the legacy insert loop raises. */
  function LegacyRowError(): Error
  {
    LegacyKeywordsRejected();
    InvalidKeyword(LegacyLessonKeywords[FirstRejected(LessonAttributes, LegacyLessonKeywords).value])
  }

  // ---------------------------------------------------------------------
  // `upsert_lessons_for_group`
  // ---------------------------------------------------------------------

  /** The values the week-mark column accepts. */
  const AllowedMarks: set<Option<string>> := {None, Some("every"), Some("plus"), Some("minus")}

  /** `rec.get("week_mark") or None`, then anything outside the allowed values becomes None. */
  function CoerceWeekMark(weekMark: Option<string>): (r: Option<string>)
    ensures r in AllowedMarks
    ensures weekMark in AllowedMarks ==> r == weekMark
    ensures weekMark !in AllowedMarks ==> r == None
  {
    var wm := if weekMark == Some("") then None else weekMark;
    if wm in AllowedMarks then wm else None
  }

  /**
   * The upsert as written: no records, 0 and no change. Otherwise the
   * delete of the group's lessons of the first record's type, the flush,
   * and then the first row constructor of the insert loop raises.
   */
  function LegacyUpsert(db: Db, groupId: Id, records: seq<LegacyRecord>): (Db, Result<nat>)
  {
    if records == [] then (db, Success(0))
    else
      var cleared := ClearKind(db, groupId, records[0].kind);
      if !Constraints(cleared) then (cleared, Failure(IntegrityError("flush")))
      else (cleared, Failure(LegacyRowError()))
  }

  /**
   * No records: nothing changes and the count is 0. Otherwise the call
   * fails having deleted exactly the group's lessons of the first record's
   * type and inserted none; faculties and groups are untouched, and once
   * the flush passes the error is the TypeError naming `date`.
   */
  lemma LegacyUpsertEffect(db: Db, groupId: Id, records: seq<LegacyRecord>)
    ensures var (d, r) := LegacyUpsert(db, groupId, records);
      (r.Success? <==> records == [])
      && (records == [] ==> d == db && r == Success(0))
      && (records != [] ==>
            (forall l :: l in d.lessons <==> l in db.lessons && Survives(groupId, records[0].kind, l))
            && d.faculties == db.faculties && d.groups == db.groups && d.nextId == db.nextId
            && (Constraints(d) ==> r == Failure(InvalidKeyword("date"))))
  {
    LegacyKeywordsRejected();
  }

  /** On a consistent database a non-empty upsert always ends in that TypeError. */
  lemma LegacyUpsertRaises(db: Db, groupId: Id, records: seq<LegacyRecord>)
    requires Constraints(db) && records != []
    ensures LegacyUpsert(db, groupId, records).1 == Failure(InvalidKeyword("date"))
  {
    ClearKindConstraints(db, groupId, records[0].kind);
    LegacyUpsertEffect(db, groupId, records);
  }

  /**
   * `upsert_lessons_for_group` of the legacy worker: no records, 0 and no
   * delete; otherwise the delete, a flush that raises on a broken
   * constraint, and the insert loop, whose first `Lesson(...)` raises
   * after the week mark is coerced.
   */
  method LegacyUpsertLessonsForGroup(s: Session, group: Group, records: seq<LegacyRecord>) returns (r: Result<nat>)
    requires s.Valid()
    modifies s
    ensures s.Valid() && s.committed == old(s.committed)
    ensures (s.db, r) == LegacyUpsert(old(s.db), group.id, records)
  {
    if records == [] {
      return Success(0);
    }
    var typeName := records[0].kind;
    s.db := s.db.(lessons := Filter(s.db.lessons, (l: Lesson) => Survives(group.id, typeName, l)));
    var flushed := s.Flush();
    if flushed.Failure? {
      return Failure(flushed.error);
    }
    var wm := CoerceWeekMark(records[0].weekMark);
    var rejected := FirstRejected(LessonAttributes, LegacyLessonKeywords);
    LegacyKeywordsRejected();
    return Failure(InvalidKeyword(LegacyLessonKeywords[rejected.value]));
  }

  // ---------------------------------------------------------------------
  // `run_full_sync`
  // ---------------------------------------------------------------------

  /** The session's rows, the committed rows, and the `total` counter. */
  datatype LegacyLoop = LegacyLoop(db: Db, committed: Db, total: nat)

  /**
   * One iteration: skip an unnamed entry; get-or-create; fetch; skip a
   * "message" reply (the new rows stay pending); upsert; commit and count.
   * Any error rolls back and leaves the counter alone.
   */
  function LegacyGroupStep(st: LegacyLoop, e: CatalogueEntry, fetch: Fetch): LegacyLoop
  {
    if !e.groupName.Truthy() then st
    else
      var name := e.groupName.s;
      var en := Ensure(st.db, e.facultyName.Get(), name);
      var rolledBack := st.(db := st.committed);
      if en.group.Failure? || fetch(name).Failure? then rolledBack
      else if HasMessage(fetch(name).value) then st.(db := en.db)
      else LegacyCommit(st, en.db, en.group.value.id, LegacyExtract(name, fetch(name).value))
  }

  /** The end of an iteration: the upsert, then the commit that counts, or a rollback. */
  function LegacyCommit(st: LegacyLoop, db: Db, gid: Id, records: seq<LegacyRecord>): LegacyLoop
  {
    var (u, r) := LegacyUpsert(db, gid, records);
    if r.Success? && Constraints(u) then LegacyLoop(u, u, st.total + 1)
    else st.(db := st.committed)
  }

  /**
   * On consistent rows, no records commits the session's rows and counts
   * one; any record rolls the iteration back and counts nothing.
   */
  lemma LegacyCommitEffect(st: LegacyLoop, db: Db, gid: Id, records: seq<LegacyRecord>)
    requires Constraints(db)
    ensures records == [] ==> LegacyCommit(st, db, gid, records) == LegacyLoop(db, db, st.total + 1)
    ensures records != [] ==> LegacyCommit(st, db, gid, records) == st.(db := st.committed)
  {
    LegacyUpsertEffect(db, gid, records);
  }

  function LegacyGroupSteps(st: LegacyLoop, es: seq<CatalogueEntry>, fetch: Fetch): LegacyLoop
    decreases |es|
  {
    if es == [] then st else LegacyGroupStep(LegacyGroupSteps(st, es[..|es| - 1], fetch), es[|es| - 1], fetch)
  }

  /** The committed groups are a prefix of the session's, and both tables are consistent. */
  ghost predicate LegacyInv(st: LegacyLoop)
  {
    Consistent(st.db, st.committed) && st.committed.groups <= st.db.groups
  }

  /**
   * An entry the legacy loop commits and counts: a truthy name, a fetched
   * timetable without "message", and no record extracted from it.
   */
  ghost predicate Counted(e: CatalogueEntry, fetch: Fetch)
  {
    e.groupName.Truthy() && fetch(e.groupName.s).Success? && !HasMessage(fetch(e.groupName.s).value)
    && LegacyExtract(e.groupName.s, fetch(e.groupName.s).value) == []
  }

  /** How many of the entries are counted. */
  ghost function CountedEntries(es: seq<CatalogueEntry>, fetch: Fetch): (n: nat)
    ensures n <= |es|
    decreases |es|
  {
    if es == [] then 0
    else CountedEntries(es[..|es| - 1], fetch) + (if Counted(es[|es| - 1], fetch) then 1 else 0)
  }

  /**
   * One iteration keeps the rows consistent and never drops a committed
   * group. The counter grows by one exactly when the entry is counted, and
   * then the group of that name is committed; otherwise nothing new is
   * committed. A named, fetched, message-free timetable that yields a
   * record rolls the iteration back.
   */
  lemma LegacyGroupStepEffect(st: LegacyLoop, e: CatalogueEntry, fetch: Fetch)
    requires LegacyInv(st)
    ensures var r := LegacyGroupStep(st, e, fetch);
      LegacyInv(r) && st.committed.groups <= r.committed.groups
      && (Counted(e, fetch) ==>
            r.total == st.total + 1 && r.committed == r.db && FindGroup(r.committed, e.groupName.s).Some?)
      && (!Counted(e, fetch) ==> r.total == st.total && r.committed == st.committed)
      && (!e.groupName.Truthy() ==> r == st)
      && ((e.groupName.Truthy() && fetch(e.groupName.s).Success? && !HasMessage(fetch(e.groupName.s).value)
           && LegacyExtract(e.groupName.s, fetch(e.groupName.s).value) != []) ==> r == st.(db := st.committed))
  {
    if e.groupName.Truthy() {
      var name := e.groupName.s;
      EnsureKeepsConstraints(st.db, e.facultyName.Get(), name);
      EnsureGroupsGrow(st.db, e.facultyName.Get(), name);
      var en := Ensure(st.db, e.facultyName.Get(), name);
      if fetch(name).Success? && !HasMessage(fetch(name).value) {
        LegacyCommitEffect(st, en.db, en.group.value.id, LegacyExtract(name, fetch(name).value));
      }
    }
  }

  /**
   * Over any run of entries: consistency and the committed groups are kept
   * (no group is ever deleted), and the counter grows by exactly the number
   * of counted entries.
   */
  lemma {:induction false} LegacyGroupStepsEffect(st: LegacyLoop, es: seq<CatalogueEntry>, fetch: Fetch)
    requires LegacyInv(st)
    ensures var r := LegacyGroupSteps(st, es, fetch);
      LegacyInv(r) && st.committed.groups <= r.committed.groups && r.total == st.total + CountedEntries(es, fetch)
    decreases |es|
  {
    if es != [] {
      LegacyGroupStepsEffect(st, es[..|es| - 1], fetch);
      LegacyGroupStepEffect(LegacyGroupSteps(st, es[..|es| - 1], fetch), es[|es| - 1], fetch);
    }
  }

  /**
   * `run_full_sync` of the legacy worker: the catalogue fetch raises; an
   * empty or null group list ends the run; otherwise the loop, stopping at
   * a truthy `limit_groups`. The run reports `total`; closing the session
   * keeps what was committed.
   */
  function LegacyFullSync(db: Db, catalogue: Result<Catalogue>, fetch: Fetch, limitGroups: Option<int>): (Db, Result<nat>)
  {
    if catalogue.Failure? then (db, Failure(catalogue.error))
    else
      var groups := GroupsOf(catalogue.value);
      if groups.None? || groups.value == [] then (db, Success(0))
      else
        var es := groups.value[..Visited(|groups.value|, limitGroups)];
        var st := LegacyGroupSteps(LegacyLoop(db, db, 0), es, fetch);
        (st.committed, Success(st.total))
  }

  /**
   * On a consistent database the run leaves a consistent one and keeps
   * every group it started with; the total it reports is the number of
   * visited entries whose timetable yields no record.
   */
  lemma LegacyFullSyncEffect(db: Db, catalogue: Result<Catalogue>, fetch: Fetch, limitGroups: Option<int>)
    requires Constraints(db) && IdsBelow(db)
    ensures var (after, r) := LegacyFullSync(db, catalogue, fetch, limitGroups);
      Constraints(after) && IdsBelow(after) && db.groups <= after.groups
      && (catalogue.Failure? <==> r.Failure?)
      && (catalogue.Success? && GroupsOf(catalogue.value).Some? ==>
            var groups := GroupsOf(catalogue.value).value;
            r.value == CountedEntries(groups[..Visited(|groups|, limitGroups)], fetch)
            && r.value <= Visited(|groups|, limitGroups))
  {
    if catalogue.Success? {
      var groups := GroupsOf(catalogue.value);
      if groups.Some? {
        var es := groups.value[..Visited(|groups.value|, limitGroups)];
        if groups.value == [] {
          assert es == [];
        } else {
          LegacyGroupStepsEffect(LegacyLoop(db, db, 0), es, fetch);
        }
      }
    }
  }

  /** One iteration of the legacy loop on a session. */
  method LegacySyncGroupStep(s: Session, e: CatalogueEntry, fetch: Fetch, total: nat) returns (newTotal: nat)
    requires s.Valid()
    modifies s
    ensures s.Valid()
    ensures LegacyLoop(s.db, s.committed, newTotal) == LegacyGroupStep(LegacyLoop(old(s.db), old(s.committed), total), e, fetch)
  {
    newTotal := total;
    var groupName := e.groupName.Get();
    var facultyName := e.facultyName.Get();
    if groupName.None? || groupName.value == "" {
      return;
    }
    var name := groupName.value;
    var groupObj := EnsureFacultyAndGroup(s, facultyName, name);
    if groupObj.Failure? {
      s.Rollback();
      return;
    }
    var ttJson := fetch(name);
    if ttJson.Failure? {
      s.Rollback();
      return;
    }
    if HasMessage(ttJson.value) {
      return;
    }
    var records := LegacyParser.ExtractLessonsFromTimetableJson(name, ttJson.value);
    var inserted := LegacyUpsertLessonsForGroup(s, groupObj.value, records);
    if inserted.Failure? {
      s.Rollback();
      return;
    }
    var committed := s.Commit();
    if committed.Failure? {
      s.Rollback();
      return;
    }
    newTotal := newTotal + 1;
  }

  /** `run_full_sync` of the legacy worker, on a fresh session over the database. */
  method LegacyRunFullSync(db: Db, catalogue: Result<Catalogue>, fetch: Fetch, limitGroups: Option<int>)
      returns (after: Db, r: Result<nat>)
    requires Constraints(db) && IdsBelow(db)
    ensures (after, r) == LegacyFullSync(db, catalogue, fetch, limitGroups)
  {
    var s := new Session(db);
    if catalogue.Failure? {
      return db, Failure(catalogue.error);
    }
    var groups := GroupsOf(catalogue.value);
    if groups.None? || groups.value == [] {
      return db, Success(0);
    }
    var entries := groups.value;
    var total := 0;
    var idx := 0;
    while idx < |entries|
      invariant 0 <= idx <= Visited(|entries|, limitGroups)
      invariant s.Valid()
      invariant LegacyLoop(s.db, s.committed, total) == LegacyGroupSteps(LegacyLoop(db, db, 0), entries[..idx], fetch)
    {
      if limitGroups.Some? && limitGroups.value != 0 && idx >= limitGroups.value {
        break;
      }
      assert entries[..idx + 1][..idx] == entries[..idx];
      total := LegacySyncGroupStep(s, entries[idx], fetch, total);
      idx := idx + 1;
    }
    return s.committed, Success(total);
  }

  // ---------------------------------------------------------------------
  // `run_full_sync_for_group`
  // ---------------------------------------------------------------------

  /**
   * Get-or-create with no faculty, fetch, return 0 on a "message" reply,
   * otherwise upsert, commit and return the count. Every error propagates;
   * what was not committed is discarded when the session closes.
   */
  function LegacySyncOneGroup(db: Db, groupName: string, fetch: Fetch): (Db, Result<nat>)
  {
    var en := Ensure(db, None, groupName);
    if en.group.Failure? then (db, Failure(en.group.error))
    else if fetch(groupName).Failure? then (db, Failure(fetch(groupName).error))
    else if HasMessage(fetch(groupName).value) then (db, Success(0))
    else
      var (u, r) := LegacyUpsert(en.db, en.group.value.id, LegacyExtract(groupName, fetch(groupName).value));
      if r.Failure? then (db, r)
      else if Constraints(u) then (u, r)
      else (db, Failure(IntegrityError("flush")))
  }

  /** On a consistent database the run keeps it consistent, and no group is ever deleted. */
  lemma LegacySyncOneGroupKeeps(db: Db, groupName: string, fetch: Fetch)
    requires Constraints(db) && IdsBelow(db)
    ensures var (after, r) := LegacySyncOneGroup(db, groupName, fetch);
      Constraints(after) && IdsBelow(after) && db.groups <= after.groups
  {
    EnsureKeepsConstraints(db, None, groupName);
    EnsureGroupsGrow(db, None, groupName);
    var en := Ensure(db, None, groupName);
    if fetch(groupName).Success? && !HasMessage(fetch(groupName).value) {
      LegacyUpsertEffect(en.db, en.group.value.id, LegacyExtract(groupName, fetch(groupName).value));
    }
  }

  /**
   * A failed fetch changes nothing; a "message" reply returns 0 and leaves
   * the database as it was (the group created in the session is not
   * committed). A timetable that yields a record raises the TypeError and
   * commits nothing; one that yields none commits the group of that name,
   * with no faculty if it is new, and returns 0.
   */
  lemma LegacySyncOneGroupEffect(db: Db, groupName: string, fetch: Fetch)
    requires Constraints(db) && IdsBelow(db)
    ensures var (after, r) := LegacySyncOneGroup(db, groupName, fetch);
      var reply := fetch(groupName);
      (reply.Failure? ==> after == db && r.Failure?)
      && (reply.Success? && HasMessage(reply.value) ==> after == db && r == Success(0))
      && (reply.Success? && !HasMessage(reply.value) && LegacyExtract(groupName, reply.value) != [] ==>
            after == db && r == Failure(InvalidKeyword("date")))
      && (reply.Success? && !HasMessage(reply.value) && LegacyExtract(groupName, reply.value) == [] ==>
            r == Success(0) && FindGroup(after, groupName).Some?
            && (FindGroup(db, groupName).None? ==> FindGroup(after, groupName).value.facultyId == None))
  {
    EnsureKeepsConstraints(db, None, groupName);
    var en := Ensure(db, None, groupName);
    if FindGroup(db, groupName).None? {
      EnsureNewGroupLink(db, None, groupName);
    }
    FirstGroupUnique(en.db.groups, en.group.value);
    if fetch(groupName).Success? && !HasMessage(fetch(groupName).value) {
      var records := LegacyExtract(groupName, fetch(groupName).value);
      LegacyUpsertEffect(en.db, en.group.value.id, records);
      if records != [] {
        LegacyUpsertRaises(en.db, en.group.value.id, records);
      }
    }
  }

  /** `run_full_sync_for_group` of the legacy worker, on a fresh session. */
  method LegacyRunFullSyncForGroup(db: Db, groupName: string, fetch: Fetch) returns (after: Db, r: Result<nat>)
    requires Constraints(db) && IdsBelow(db)
    ensures (after, r) == LegacySyncOneGroup(db, groupName, fetch)
  {
    var s := new Session(db);
    var groupObj := EnsureFacultyAndGroup(s, None, groupName);
    if groupObj.Failure? {
      return s.committed, Failure(groupObj.error);
    }
    var ttJson := fetch(groupName);
    if ttJson.Failure? {
      return s.committed, Failure(ttJson.error);
    }
    if HasMessage(ttJson.value) {
      return s.committed, Success(0);
    }
    var records := LegacyParser.ExtractLessonsFromTimetableJson(groupName, ttJson.value);
    var inserted := LegacyUpsertLessonsForGroup(s, groupObj.value, records);
    if inserted.Failure? {
      return s.committed, Failure(inserted.error);
    }
    var committed := s.Commit();
    if committed.Failure? {
      return s.committed, Failure(committed.error);
    }
    return s.committed, inserted;
  }

  // ---------------------------------------------------------------------
  // `get_schedule_for_group`
  // ---------------------------------------------------------------------

  /** The group's lessons in table order; an unknown group gives none. */
  function LegacyScheduleForGroup(db: Db, groupName: string): seq<Lesson>
  {
    match FindGroup(db, groupName)
    case None => []
    case Some(g) => Filter(db.lessons, (l: Lesson) => OfGroup(g.id, l))
  }

  /** An unknown group gives an empty list; a known one exactly its lessons, in table order. */
  lemma LegacyScheduleForGroupLessons(db: Db, groupName: string)
    ensures FindGroup(db, groupName).None? ==> LegacyScheduleForGroup(db, groupName) == []
    ensures FindGroup(db, groupName).Some? ==>
      var g := FindGroup(db, groupName).value;
      var r := LegacyScheduleForGroup(db, groupName);
      IsSubsequence(r, db.lessons) && forall l :: l in r <==> l in db.lessons && l.groupId == g.id
  {
    if FindGroup(db, groupName).Some? {
      FilterIsSubsequence(db.lessons, (l: Lesson) => OfGroup(FindGroup(db, groupName).value.id, l));
    }
  }
}
