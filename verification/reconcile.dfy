/**
 * The per-group reconciliation steps of the synchronisation, on a database
 * session: get-or-create of a faculty and a group by name, deletion of a
 * group with its lessons, and the delete-then-insert of one group's lessons
 * of one schedule type.
 */
module Reconcile {
  import opened Wrappers
  import opened Seqs
  import opened Models
  import opened Store
  import opened Parser

  // ---------------------------------------------------------------------
  // Lookups by name
  // ---------------------------------------------------------------------

  function FirstFaculty(fs: seq<Faculty>, name: string): (r: Option<Faculty>)
    ensures r.Some? ==> r.value in fs && r.value.name == name
    ensures r.None? <==> forall f :: f in fs ==> f.name != name
  {
    if fs == [] then None
    else if fs[0].name == name then Some(fs[0])
    else FirstFaculty(fs[1..], name)
  }

  function FirstGroup(gs: seq<Group>, name: string): (r: Option<Group>)
    ensures r.Some? ==> r.value in gs && r.value.name == name
    ensures r.None? <==> forall g :: g in gs ==> g.name != name
  {
    if gs == [] then None
    else if gs[0].name == name then Some(gs[0])
    else FirstGroup(gs[1..], name)
  }

  /** `select(Faculty).where(Faculty.name == name)`, first row. */
  function FindFaculty(db: Db, name: string): Option<Faculty>
  {
    FirstFaculty(db.faculties, name)
  }

  /** `select(Group).where(Group.group_name == name)`, first row. */
  function FindGroup(db: Db, name: string): Option<Group>
  {
    FirstGroup(db.groups, name)
  }

  lemma FirstFacultyAppend(fs: seq<Faculty>, f: Faculty, name: string)
    requires FirstFaculty(fs, name).Some?
    ensures FirstFaculty(fs + [f], name) == FirstFaculty(fs, name)
  {
    if fs[0].name != name {
      assert (fs + [f])[1..] == fs[1..] + [f];
      FirstFacultyAppend(fs[1..], f, name);
    }
  }

  lemma FirstGroupAppend(gs: seq<Group>, g: Group, name: string)
    requires FirstGroup(gs, name).Some?
    ensures FirstGroup(gs + [g], name) == FirstGroup(gs, name)
  {
    if gs[0].name != name {
      assert (gs + [g])[1..] == gs[1..] + [g];
      FirstGroupAppend(gs[1..], g, name);
    }
  }

  // ---------------------------------------------------------------------
  // Row insertion
  // ---------------------------------------------------------------------

  function AddFaculty(db: Db, name: string): Db
  {
    db.(faculties := db.faculties + [Faculty(db.nextId, name)], nextId := db.nextId + 1)
  }

  function AddGroup(db: Db, name: string, facultyId: Option<Id>): Db
  {
    db.(groups := db.groups + [Group(db.nextId, name, facultyId)], nextId := db.nextId + 1)
  }

  /** A new faculty with an unused name keeps every constraint. */
  lemma AddFacultyConstraints(db: Db, name: string)
    requires Constraints(db) && IdsBelow(db) && FindFaculty(db, name).None?
    ensures Constraints(AddFaculty(db, name)) && IdsBelow(AddFaculty(db, name))
  {
    var f := Faculty(db.nextId, name);
    forall i | 0 <= i < |db.faculties| ensures FacultiesDistinct(db.faculties[i], f) {
      assert db.faculties[i] in db.faculties;
    }
    PairwiseSnoc(db.faculties, f, FacultiesDistinct);
  }

  /** A new group with an unused name keeps every constraint. */
  lemma AddGroupConstraints(db: Db, name: string, facultyId: Option<Id>)
    requires Constraints(db) && IdsBelow(db) && FindGroup(db, name).None?
    ensures Constraints(AddGroup(db, name, facultyId)) && IdsBelow(AddGroup(db, name, facultyId))
  {
    var g := Group(db.nextId, name, facultyId);
    forall i | 0 <= i < |db.groups| ensures GroupsDistinct(db.groups[i], g) {
      assert db.groups[i] in db.groups;
    }
    PairwiseSnoc(db.groups, g, GroupsDistinct);
  }

  // ---------------------------------------------------------------------
  // `ensure_faculty_and_group`
  // ---------------------------------------------------------------------

  /** The session's rows after the call, and the group it returns or the error it raises. */
  datatype Ensured = Ensured(db: Db, group: Result<Group>)

  predicate Truthy(name: Option<string>)
  {
    name.Some? && name.value != ""
  }

  /** The faculty step: a falsy name gives no faculty; otherwise get-or-create, flushing a new one. */
  function EnsureFaculty(db: Db, facultyName: Option<string>): (Db, Result<Option<Faculty>>)
  {
    if !Truthy(facultyName) then (db, Success(None))
    else
      match FindFaculty(db, facultyName.value)
      case Some(f) => (db, Success(Some(f)))
      case None =>
        var d := AddFaculty(db, facultyName.value);
        if Constraints(d) then (d, Success(Some(Faculty(db.nextId, facultyName.value))))
        else (d, Failure(IntegrityError("flush")))
  }

  /** The group step: get the group of that name, or create it linked to the faculty and flush. */
  function EnsureGroup(d: Db, groupName: string, faculty: Option<Faculty>): Ensured
  {
    match FindGroup(d, groupName)
    case Some(g) => Ensured(d, Success(g))
    case None =>
      var facultyId := if faculty.Some? then Some(faculty.value.id) else None;
      var d' := AddGroup(d, groupName, facultyId);
      if Constraints(d') then Ensured(d', Success(Group(d.nextId, groupName, facultyId)))
      else Ensured(d', Failure(IntegrityError("flush")))
  }

  function Ensure(db: Db, facultyName: Option<string>, groupName: string): Ensured
  {
    var (d, faculty) := EnsureFaculty(db, facultyName);
    if faculty.Failure? then Ensured(d, Failure(faculty.error))
    else EnsureGroup(d, groupName, faculty.value)
  }

  /**
   * On a consistent database the call succeeds and keeps every constraint,
   * so no second faculty or group of a name is ever created; the group it
   * returns is the one row of that name; the lessons are untouched.
   */
  lemma EnsureKeepsConstraints(db: Db, facultyName: Option<string>, groupName: string)
    requires Constraints(db) && IdsBelow(db)
    ensures var e := Ensure(db, facultyName, groupName);
      e.group.Success? && Constraints(e.db) && IdsBelow(e.db)
      && e.group.value in e.db.groups && e.group.value.name == groupName
      && (forall g :: g in e.db.groups && g.name == groupName ==> g == e.group.value)
      && (Truthy(facultyName) ==> exists f :: f in e.db.faculties && f.name == facultyName.value)
      && e.db.lessons == db.lessons && e.db.professors == db.professors
  {
    var (d, faculty) := EnsureFaculty(db, facultyName);
    if Truthy(facultyName) && FindFaculty(db, facultyName.value).None? {
      AddFacultyConstraints(db, facultyName.value);
      assert Faculty(db.nextId, facultyName.value) in d.faculties;
    }
    if FindGroup(d, groupName).None? {
      var facultyId := if faculty.value.Some? then Some(faculty.value.value.id) else None;
      AddGroupConstraints(d, groupName, facultyId);
    }
    var e := Ensure(db, facultyName, groupName);
    forall g | g in e.db.groups && g.name == groupName ensures g == e.group.value {
      GroupNameUnique(e.db.groups, g, e.group.value);
    }
  }

  /** Two groups of one name in a table without duplicate names are the same row. */
  lemma GroupNameUnique(groups: seq<Group>, g: Group, h: Group)
    requires Pairwise(groups, GroupsDistinct) && g in groups && h in groups && g.name == h.name
    ensures g == h
  {
    var i :| 0 <= i < |groups| && groups[i] == g;
    var j :| 0 <= j < |groups| && groups[j] == h;
  }

  /** An existing group is returned as it is: no faculty link is re-pointed and the group table is unchanged. */
  lemma EnsureExistingGroup(db: Db, facultyName: Option<string>, groupName: string)
    requires Constraints(db) && IdsBelow(db) && FindGroup(db, groupName).Some?
    ensures Ensure(db, facultyName, groupName).group == Success(FindGroup(db, groupName).value)
    ensures Ensure(db, facultyName, groupName).db.groups == db.groups
  {
    var (d, faculty) := EnsureFaculty(db, facultyName);
    if Truthy(facultyName) && FindFaculty(db, facultyName.value).None? {
      AddFacultyConstraints(db, facultyName.value);
    }
    assert d.groups == db.groups;
  }

  /** A new group is linked to the faculty of the given name, or to none when the name is falsy. */
  lemma EnsureNewGroupLink(db: Db, facultyName: Option<string>, groupName: string)
    requires Constraints(db) && IdsBelow(db) && FindGroup(db, groupName).None?
    ensures var e := Ensure(db, facultyName, groupName);
      e.group.Success? && e.group.value.id == db.nextId + (if Truthy(facultyName) && FindFaculty(db, facultyName.value).None? then 1 else 0)
      && (!Truthy(facultyName) ==> e.group.value.facultyId == None)
      && (Truthy(facultyName) ==>
            e.group.value.facultyId.Some? && FindFaculty(e.db, facultyName.value).Some?
            && FindFaculty(e.db, facultyName.value).value.id == e.group.value.facultyId.value)
  {
    if Truthy(facultyName) {
      var name := facultyName.value;
      if FindFaculty(db, name).None? {
        AddFacultyConstraints(db, name);
        var d := AddFaculty(db, name);
        assert d.faculties == db.faculties + [Faculty(db.nextId, name)];
        FirstFacultyNew(db.faculties, Faculty(db.nextId, name));
        AddGroupConstraints(d, groupName, Some(db.nextId));
      } else {
        AddGroupConstraints(db, groupName, Some(FindFaculty(db, name).value.id));
      }
    } else {
      AddGroupConstraints(db, groupName, None);
    }
  }

  lemma FirstFacultyNew(fs: seq<Faculty>, f: Faculty)
    requires FirstFaculty(fs, f.name).None?
    ensures FirstFaculty(fs + [f], f.name) == Some(f)
  {
    if fs != [] {
      assert (fs + [f])[1..] == fs[1..] + [f];
      FirstFacultyNew(fs[1..], f);
    }
  }

  /** `ensure_faculty_and_group` on a session. */
  method EnsureFacultyAndGroup(s: Session, facultyName: Option<string>, groupName: string) returns (r: Result<Group>)
    requires s.Valid()
    modifies s
    ensures s.Valid() && s.committed == old(s.committed)
    ensures Ensured(s.db, r) == Ensure(old(s.db), facultyName, groupName)
  {
    var faculty := EnsureFacultyRow(s, facultyName);
    if faculty.Failure? {
      return Failure(faculty.error);
    }
    r := EnsureGroupRow(s, groupName, faculty.value);
  }

  /** The faculty half of `ensure_faculty_and_group`. */
  method EnsureFacultyRow(s: Session, facultyName: Option<string>) returns (faculty: Result<Option<Faculty>>)
    requires s.Valid()
    modifies s
    ensures s.Valid() && s.committed == old(s.committed)
    ensures (s.db, faculty) == EnsureFaculty(old(s.db), facultyName)
  {
    if !(facultyName.Some? && facultyName.value != "") {
      return Success(None);
    }
    var found := FindFaculty(s.db, facultyName.value);
    if found.Some? {
      return Success(found);
    }
    var f := Faculty(s.db.nextId, facultyName.value);
    s.db := s.db.(faculties := s.db.faculties + [f], nextId := s.db.nextId + 1);
    var flushed := s.Flush();
    if flushed.Failure? {
      return Failure(flushed.error);
    }
    return Success(Some(f));
  }

  /** The group half of `ensure_faculty_and_group`, once the faculty is known. */
  method EnsureGroupRow(s: Session, groupName: string, faculty: Option<Faculty>) returns (r: Result<Group>)
    requires s.Valid()
    modifies s
    ensures s.Valid() && s.committed == old(s.committed)
    ensures Ensured(s.db, r) == EnsureGroup(old(s.db), groupName, faculty)
  {
    var group := FindGroup(s.db, groupName);
    if group.Some? {
      return Success(group.value);
    }
    var g := Group(s.db.nextId, groupName, if faculty.Some? then Some(faculty.value.id) else None);
    s.db := s.db.(groups := s.db.groups + [g], nextId := s.db.nextId + 1);
    var flushed := s.Flush();
    if flushed.Failure? {
      return Failure(flushed.error);
    }
    return Success(g);
  }

  // ---------------------------------------------------------------------
  // `delete_group_if_exists`
  // ---------------------------------------------------------------------

  /** Deleting a group's row keeps every constraint. */
  lemma DeleteGroupRowConstraints(db: Db, id: Id)
    requires Constraints(db) && IdsBelow(db)
    ensures Constraints(DeleteGroupRow(db, id)) && IdsBelow(DeleteGroupRow(db, id))
  {
    FilterPairwise(db.groups, (g: Group) => g.id != id, GroupsDistinct);
    FilterPairwise(db.lessons, (l: Lesson) => l.groupId != id, LessonsDistinct);
    PairwiseMap(db.users, (u: User) => u.(groupId := ClearLink(id, u.groupId)), UsersDistinct, UsersDistinct);
  }

  /**
   * Deleting an existing group removes exactly that group and exactly its
   * lessons; nothing of that name is left.
   */
  lemma DeleteGroupEffect(db: Db, groupName: string)
    requires Constraints(db) && IdsBelow(db) && FindGroup(db, groupName).Some?
    ensures var g := FindGroup(db, groupName).value; var d := DeleteGroupRow(db, g.id);
      Constraints(d) && IdsBelow(d) && FindGroup(d, groupName).None?
      && (forall h :: h in d.groups <==> h in db.groups && h != g)
      && (forall l :: l in d.lessons <==> l in db.lessons && l.groupId != g.id)
      && d.faculties == db.faculties && d.professors == db.professors
  {
    var g := FindGroup(db, groupName).value;
    DeleteGroupRowConstraints(db, g.id);
    var d := DeleteGroupRow(db, g.id);
    forall h | h in db.groups && h.id == g.id ensures h == g {
      GroupIdUnique(db.groups, h, g);
    }
    forall h | h in db.groups && h.name == groupName ensures h == g {
      GroupNameUnique(db.groups, h, g);
    }
  }

  /** Two groups with one key in a table without duplicate keys are the same row. */
  lemma GroupIdUnique(groups: seq<Group>, g: Group, h: Group)
    requires Pairwise(groups, GroupsDistinct) && g in groups && h in groups && g.id == h.id
    ensures g == h
  {
    var i :| 0 <= i < |groups| && groups[i] == g;
    var j :| 0 <= j < |groups| && groups[j] == h;
  }

  /** `delete_group_if_exists`: no group of that name, False and nothing changes; otherwise delete, commit, True. */
  method DeleteGroupIfExists(s: Session, groupName: string) returns (r: Result<bool>)
    requires s.Valid()
    modifies s
    ensures s.Valid()
    ensures FindGroup(old(s.db), groupName).None? ==>
      r == Success(false) && s.db == old(s.db) && s.committed == old(s.committed)
    ensures FindGroup(old(s.db), groupName).Some? ==>
      var d := DeleteGroupRow(old(s.db), FindGroup(old(s.db), groupName).value.id);
      s.db == d
      && (Constraints(d) ==> r == Success(true) && s.committed == d)
      && (!Constraints(d) ==> r == Failure(IntegrityError("flush")) && s.committed == old(s.committed))
  {
    var group := FindGroup(s.db, groupName);
    if group.None? {
      return Success(false);
    }
    s.db := DeleteGroupRow(s.db, group.value.id);
    var committed := s.Commit();
    if committed.Failure? {
      return Failure(committed.error);
    }
    return Success(true);
  }

  // ---------------------------------------------------------------------
  // `upsert_lessons_for_group`
  // ---------------------------------------------------------------------

  /** The lesson row stored for one extracted record. */
  function LessonFor(id: Id, groupId: Id, rec: LessonRecord): Lesson
  {
    Lesson(id, groupId, rec.weekday, rec.lessonNumber, rec.subject, rec.professors, rec.rooms, rec.weekMark, Some(rec.kind))
  }

  /** The rows inserted for `records`, with consecutive keys from `start`. */
  function NewLessons(start: Id, groupId: Id, records: seq<LessonRecord>): (ls: seq<Lesson>)
    ensures |ls| == |records|
    ensures forall i :: 0 <= i < |records| ==> ls[i] == LessonFor(start + i, groupId, records[i])
  {
    seq(|records|, i requires 0 <= i < |records| => LessonFor(start + i, groupId, records[i]))
  }

  /** A lesson the delete of `(groupId, kind)` leaves in place. */
  predicate Survives(groupId: Id, kind: string, l: Lesson)
  {
    !(l.groupId == groupId && l.kind == Some(kind))
  }

  /** `delete(Lesson).where(group_id == groupId).where(type == kind)`. */
  function ClearKind(db: Db, groupId: Id, kind: string): Db
  {
    db.(lessons := Filter(db.lessons, (l: Lesson) => Survives(groupId, kind, l)))
  }

  /** Adds one lesson per record, in order, each with the next key. */
  function InsertLessons(db: Db, groupId: Id, records: seq<LessonRecord>): Db
    decreases |records|
  {
    if records == [] then db
    else
      var d := InsertLessons(db, groupId, records[..|records| - 1]);
      d.(lessons := d.lessons + [LessonFor(d.nextId, groupId, records[|records| - 1])], nextId := d.nextId + 1)
  }

  function Upserted(db: Db, groupId: Id, records: seq<LessonRecord>): Db
  {
    if records == [] then db else InsertLessons(ClearKind(db, groupId, records[0].kind), groupId, records)
  }

  lemma {:induction false} InsertLessonsEffect(db: Db, groupId: Id, records: seq<LessonRecord>)
    ensures var d := InsertLessons(db, groupId, records);
      d.lessons == db.lessons + NewLessons(db.nextId, groupId, records)
      && d.nextId == db.nextId + |records|
      && d == db.(lessons := d.lessons, nextId := d.nextId)
    decreases |records|
  {
    if records != [] {
      var init := records[..|records| - 1];
      InsertLessonsEffect(db, groupId, init);
      var n := NewLessons(db.nextId, groupId, records);
      assert n == NewLessons(db.nextId, groupId, init) + [n[|records| - 1]];
    }
  }

  /**
   * No records: nothing changes. Otherwise the group's lessons of the first
   * record's type are gone, every other lesson stays in order, and one row
   * per record follows them with fresh consecutive keys; the other tables
   * are untouched.
   */
  lemma UpsertedEffect(db: Db, groupId: Id, records: seq<LessonRecord>)
    requires IdsBelow(db)
    ensures records == [] ==> Upserted(db, groupId, records) == db
    ensures records != [] ==>
      var d := Upserted(db, groupId, records);
      d.lessons == Filter(db.lessons, (l: Lesson) => Survives(groupId, records[0].kind, l)) + NewLessons(db.nextId, groupId, records)
      && d.nextId == db.nextId + |records|
      && (forall l :: l in db.lessons ==> (l in d.lessons <==> Survives(groupId, records[0].kind, l)))
      && IdsBelow(d)
      && d.faculties == db.faculties && d.groups == db.groups && d.users == db.users
      && d.professors == db.professors && d.professorLessons == db.professorLessons
  {
    if records != [] {
      var kind := records[0].kind;
      var c := ClearKind(db, groupId, kind);
      InsertLessonsEffect(c, groupId, records);
      var d := Upserted(db, groupId, records);
      var n := NewLessons(db.nextId, groupId, records);
      forall l | l in db.lessons ensures l in d.lessons <==> Survives(groupId, kind, l) {
        assert l.id < db.nextId;
        assert forall i :: 0 <= i < |n| ==> n[i].id >= db.nextId;
      }
    }
  }

  /** One more record through the insert loop: the next lesson with the next key. */
  lemma InsertLessonsStep(cleared: Db, groupId: Id, records: seq<LessonRecord>, i: nat, db: Db)
    requires i < |records| && db == InsertLessons(cleared, groupId, records[..i]) && IdsBelow(db)
    ensures var next := db.(lessons := db.lessons + [LessonFor(db.nextId, groupId, records[i])], nextId := db.nextId + 1);
      InsertLessons(cleared, groupId, records[..i + 1]) == next && IdsBelow(next)
  {
    assert records[..i + 1][..i] == records[..i];
  }

  /** `upsert_lessons_for_group`: returns how many rows it added; a failed flush rolls back and raises. */
  method UpsertLessonsForGroup(s: Session, group: Group, records: seq<LessonRecord>) returns (r: Result<nat>)
    requires s.Valid()
    modifies s
    ensures s.Valid() && s.committed == old(s.committed)
    ensures records == [] ==> r == Success(0) && s.db == old(s.db)
    ensures records != [] && Constraints(ClearKind(old(s.db), group.id, records[0].kind)) ==>
      r == Success(|records|) && s.db == Upserted(old(s.db), group.id, records)
    ensures records != [] && !Constraints(ClearKind(old(s.db), group.id, records[0].kind)) ==>
      r == Failure(IntegrityError("flush")) && s.db == old(s.committed)
  {
    if records == [] {
      return Success(0);
    }
    var typeName := records[0].kind;
    s.db := s.db.(lessons := Filter(s.db.lessons, (l: Lesson) => Survives(group.id, typeName, l)));
    ghost var cleared := s.db;
    var flushed := s.Flush();
    if flushed.Failure? {
      s.Rollback();
      return Failure(flushed.error);
    }
    var count := 0;
    for i := 0 to |records|
      invariant s.Valid() && s.committed == old(s.committed)
      invariant count == i
      invariant s.db == InsertLessons(cleared, group.id, records[..i])
    {
      var rec := records[i];
      var lesson := Lesson(s.db.nextId, group.id, rec.weekday, rec.lessonNumber, rec.subject,
                           rec.professors, rec.rooms, rec.weekMark, Some(rec.kind));
      InsertLessonsStep(cleared, group.id, records, i, s.db);
      s.db := s.db.(lessons := s.db.lessons + [lesson], nextId := s.db.nextId + 1);
      count := count + 1;
    }
    assert records[..|records|] == records;
    return Success(count);
  }
}
