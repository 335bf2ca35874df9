/**
 * The relational schema the synchronisation writes to: faculties, groups,
 * their lessons, users, professors and the professor-indexed lessons, with
 * the keys, UNIQUE and NOT NULL constraints and ON DELETE rules declared on
 * them.
 */
module Models {
  import opened Wrappers
  import opened Seqs

  type Id = nat

  datatype Faculty = Faculty(id: Id, name: string)

  /** `faculty_id` is nullable: a group may belong to no faculty. */
  datatype Group = Group(id: Id, name: string, facultyId: Option<Id>)

  /** Every column but the key and the owning group is nullable; `kind` is the `type` column. */
  datatype Lesson = Lesson(
    id: Id, groupId: Id,
    weekday: Option<int>, lessonNumber: Option<int>,
    subject: Option<string>, professors: Option<string>, rooms: Option<string>,
    weekMark: Option<string>, kind: Option<string>)

  /** A Telegram account: its key is the Telegram id, not an allocated one. */
  datatype User = User(id: int, groupId: Option<Id>, facultyId: Option<Id>, role: int)

  datatype Professor = Professor(id: Id, name: string)

  /** `subject` is declared NOT NULL; the option records what was written, so a NULL can be refused. */
  datatype ProfessorLesson = ProfessorLesson(
    id: Id, professorId: Id,
    weekday: Option<int>, lessonNumber: Option<int>,
    subject: Option<string>, rooms: Option<string>, weekMark: Option<string>)

  /** The tables in row order, and one key counter shared by all tables that never hands out a key twice. */
  datatype Db = Db(
    faculties: seq<Faculty>, groups: seq<Group>, lessons: seq<Lesson>, users: seq<User>,
    professors: seq<Professor>, professorLessons: seq<ProfessorLesson>, nextId: Id)

  /** A new user row: the role column defaults to 0, an ordinary user. */
  function NewUser(id: int, groupId: Option<Id>, facultyId: Option<Id>): (u: User)
    ensures u.role == 0
    ensures u.id == id && u.groupId == groupId && u.facultyId == facultyId
  {
    User(id, groupId, facultyId, 0)
  }

  /** Equality of two nullable column values as a UNIQUE index sees it: NULL clashes with nothing. */
  predicate Clash<T(==)>(a: Option<T>, b: Option<T>)
  {
    a.Some? && b.Some? && a.value == b.value
  }

  predicate FacultiesDistinct(a: Faculty, b: Faculty)
  {
    a.id != b.id && a.name != b.name
  }

  predicate GroupsDistinct(a: Group, b: Group)
  {
    a.id != b.id && a.name != b.name
  }

  /** The key columns of `uq_lesson_unique`. */
  predicate LessonKeysClash(a: Lesson, b: Lesson)
  {
    a.groupId == b.groupId && Clash(a.weekday, b.weekday) && Clash(a.lessonNumber, b.lessonNumber)
    && Clash(a.subject, b.subject) && Clash(a.professors, b.professors) && Clash(a.rooms, b.rooms)
    && Clash(a.weekMark, b.weekMark) && Clash(a.kind, b.kind)
  }

  predicate LessonsDistinct(a: Lesson, b: Lesson)
  {
    a.id != b.id && !LessonKeysClash(a, b)
  }

  predicate UsersDistinct(a: User, b: User)
  {
    a.id != b.id
  }

  predicate ProfessorsDistinct(a: Professor, b: Professor)
  {
    a.id != b.id && a.name != b.name
  }

  /** The key columns of `uq_professor_lesson_unique`. */
  predicate ProfessorLessonKeysClash(a: ProfessorLesson, b: ProfessorLesson)
  {
    a.professorId == b.professorId && Clash(a.weekday, b.weekday) && Clash(a.lessonNumber, b.lessonNumber)
    && Clash(a.subject, b.subject) && Clash(a.rooms, b.rooms) && Clash(a.weekMark, b.weekMark)
  }

  predicate ProfessorLessonsDistinct(a: ProfessorLesson, b: ProfessorLesson)
  {
    a.id != b.id && !ProfessorLessonKeysClash(a, b)
  }

  predicate SubjectsPresent(pls: seq<ProfessorLesson>)
  {
    forall i :: 0 <= i < |pls| ==> pls[i].subject.Some?
  }

  /** What the database refuses at flush or commit: duplicate keys, UNIQUE clashes, a NULL subject. */
  predicate Constraints(db: Db)
  {
    && Pairwise(db.faculties, FacultiesDistinct)
    && Pairwise(db.groups, GroupsDistinct)
    && Pairwise(db.lessons, LessonsDistinct)
    && Pairwise(db.users, UsersDistinct)
    && Pairwise(db.professors, ProfessorsDistinct)
    && Pairwise(db.professorLessons, ProfessorLessonsDistinct)
    && SubjectsPresent(db.professorLessons)
  }

  predicate HasFaculty(db: Db, id: Id)
  {
    exists i :: 0 <= i < |db.faculties| && db.faculties[i].id == id
  }

  predicate HasGroup(db: Db, id: Id)
  {
    exists i :: 0 <= i < |db.groups| && db.groups[i].id == id
  }

  predicate HasProfessor(db: Db, id: Id)
  {
    exists i :: 0 <= i < |db.professors| && db.professors[i].id == id
  }

  /** Every foreign key names an existing row (or is NULL where the column allows it). */
  ghost predicate References(db: Db)
  {
    && (forall g | g in db.groups && g.facultyId.Some? :: HasFaculty(db, g.facultyId.value))
    && (forall l | l in db.lessons :: HasGroup(db, l.groupId))
    && (forall u | u in db.users && u.groupId.Some? :: HasGroup(db, u.groupId.value))
    && (forall u | u in db.users && u.facultyId.Some? :: HasFaculty(db, u.facultyId.value))
    && (forall pl | pl in db.professorLessons :: HasProfessor(db, pl.professorId))
  }

  /** Every allocated key is below the next one to be handed out. */
  ghost predicate IdsBelow(db: Db)
  {
    && (forall f | f in db.faculties :: f.id < db.nextId)
    && (forall g | g in db.groups :: g.id < db.nextId)
    && (forall l | l in db.lessons :: l.id < db.nextId)
    && (forall p | p in db.professors :: p.id < db.nextId)
    && (forall pl | pl in db.professorLessons :: pl.id < db.nextId)
  }

  function ClearLink(id: Id, link: Option<Id>): Option<Id>
  {
    if link == Some(id) then None else link
  }

  /** Deleting a faculty: `ON DELETE SET NULL` on groups and users. */
  function DeleteFacultyRow(db: Db, id: Id): (r: Db)
  {
    db.(faculties := Filter(db.faculties, (f: Faculty) => f.id != id),
        groups := Map(db.groups, (g: Group) => g.(facultyId := ClearLink(id, g.facultyId))),
        users := Map(db.users, (u: User) => u.(facultyId := ClearLink(id, u.facultyId))))
  }

  /** Deleting a group: `ON DELETE CASCADE` on its lessons, `SET NULL` on its users. */
  function DeleteGroupRow(db: Db, id: Id): (r: Db)
  {
    db.(groups := Filter(db.groups, (g: Group) => g.id != id),
        lessons := Filter(db.lessons, (l: Lesson) => l.groupId != id),
        users := Map(db.users, (u: User) => u.(groupId := ClearLink(id, u.groupId))))
  }

  /** Deleting a professor: `ON DELETE CASCADE` on the professor's lessons. */
  function DeleteProfessorRow(db: Db, id: Id): (r: Db)
  {
    db.(professors := Filter(db.professors, (p: Professor) => p.id != id),
        professorLessons := Filter(db.professorLessons, (pl: ProfessorLesson) => pl.professorId != id))
  }

  lemma DeleteFacultyRowKeepsSchema(db: Db, id: Id)
    requires Constraints(db) && References(db)
    ensures var r := DeleteFacultyRow(db, id);
      && Constraints(r) && References(r)
      && !HasFaculty(r, id)
      && (forall g | g in r.groups :: g.facultyId != Some(id))
      && |r.groups| == |db.groups| && r.lessons == db.lessons
  {
    var r := DeleteFacultyRow(db, id);
    forall i | 0 <= i < |r.faculties| ensures r.faculties[i].id != id {
      assert r.faculties[i] in r.faculties;
    }
    FilterPairwise(db.faculties, (f: Faculty) => f.id != id, FacultiesDistinct);
    PairwiseMap(db.groups, (g: Group) => g.(facultyId := ClearLink(id, g.facultyId)), GroupsDistinct, GroupsDistinct);
    PairwiseMap(db.users, (u: User) => u.(facultyId := ClearLink(id, u.facultyId)), UsersDistinct, UsersDistinct);
    DeleteFacultyRowReferences(db, id);
  }

  /** Links to the deleted faculty are cleared, and every other link still finds its row. */
  lemma DeleteFacultyRowReferences(db: Db, id: Id)
    requires References(db)
    ensures References(DeleteFacultyRow(db, id))
  {
    var r := DeleteFacultyRow(db, id);
    forall g | g in r.groups && g.facultyId.Some? ensures HasFaculty(r, g.facultyId.value) {
      var k :| 0 <= k < |r.groups| && r.groups[k] == g;
      var f :| 0 <= f < |db.faculties| && db.faculties[f].id == db.groups[k].facultyId.value;
      assert db.faculties[f] in r.faculties;
    }
    forall u | u in r.users && u.facultyId.Some? ensures HasFaculty(r, u.facultyId.value) {
      var k :| 0 <= k < |r.users| && r.users[k] == u;
      var f :| 0 <= f < |db.faculties| && db.faculties[f].id == db.users[k].facultyId.value;
      assert db.faculties[f] in r.faculties;
    }
    forall u | u in r.users && u.groupId.Some? ensures HasGroup(r, u.groupId.value) {
      var k :| 0 <= k < |r.users| && r.users[k] == u;
      assert db.users[k] in db.users;
    }
    forall l | l in r.lessons ensures HasGroup(r, l.groupId) {
      var k :| 0 <= k < |db.groups| && db.groups[k].id == l.groupId;
      assert r.groups[k].id == l.groupId;
    }
  }

  lemma DeleteGroupRowKeepsSchema(db: Db, id: Id)
    requires Constraints(db) && References(db)
    ensures var r := DeleteGroupRow(db, id);
      && Constraints(r) && References(r)
      && !HasGroup(r, id)
      && (forall l | l in db.lessons :: l in r.lessons <==> l.groupId != id)
      && r.faculties == db.faculties && r.professors == db.professors
      && r.professorLessons == db.professorLessons
  {
    var r := DeleteGroupRow(db, id);
    forall i | 0 <= i < |r.groups| ensures r.groups[i].id != id {
      assert r.groups[i] in r.groups;
    }
    FilterPairwise(db.groups, (g: Group) => g.id != id, GroupsDistinct);
    FilterPairwise(db.lessons, (l: Lesson) => l.groupId != id, LessonsDistinct);
    PairwiseMap(db.users, (u: User) => u.(groupId := ClearLink(id, u.groupId)), UsersDistinct, UsersDistinct);
    DeleteGroupRowReferences(db, id);
  }

  /** The deleted group's lessons go with it, its users' links are cleared, and every other link still finds its row. */
  lemma DeleteGroupRowReferences(db: Db, id: Id)
    requires References(db)
    ensures References(DeleteGroupRow(db, id))
  {
    var r := DeleteGroupRow(db, id);
    forall l | l in r.lessons ensures HasGroup(r, l.groupId) {
      var k :| 0 <= k < |db.groups| && db.groups[k].id == l.groupId;
      assert db.groups[k] in r.groups;
    }
    forall u | u in r.users && u.groupId.Some? ensures HasGroup(r, u.groupId.value) {
      var k :| 0 <= k < |r.users| && r.users[k] == u;
      var g :| 0 <= g < |db.groups| && db.groups[g].id == db.users[k].groupId.value;
      assert db.groups[g] in r.groups;
    }
    forall u | u in r.users && u.facultyId.Some? ensures HasFaculty(r, u.facultyId.value) {
      var k :| 0 <= k < |r.users| && r.users[k] == u;
      assert db.users[k] in db.users;
    }
    forall g | g in r.groups && g.facultyId.Some? ensures HasFaculty(r, g.facultyId.value) {
      assert g in db.groups;
    }
  }

  lemma DeleteProfessorRowKeepsSchema(db: Db, id: Id)
    requires Constraints(db) && References(db)
    ensures var r := DeleteProfessorRow(db, id);
      && Constraints(r) && References(r)
      && !HasProfessor(r, id)
      && (forall pl | pl in r.professorLessons :: pl.professorId != id)
      && r.lessons == db.lessons && r.groups == db.groups
      && r == db.(professors := r.professors, professorLessons := r.professorLessons)
      && (forall p :: p in r.professors <==> p in db.professors && p.id != id)
      && (forall pl :: pl in r.professorLessons <==> pl in db.professorLessons && pl.professorId != id)
  {
    var r := DeleteProfessorRow(db, id);
    forall i | 0 <= i < |r.professors| ensures r.professors[i].id != id {
      assert r.professors[i] in r.professors;
    }
    FilterPairwise(db.professors, (p: Professor) => p.id != id, ProfessorsDistinct);
    FilterPairwise(db.professorLessons, (pl: ProfessorLesson) => pl.professorId != id, ProfessorLessonsDistinct);
    forall pl | pl in r.professorLessons ensures HasProfessor(r, pl.professorId) {
      var k :| 0 <= k < |db.professors| && db.professors[k].id == pl.professorId;
      assert db.professors[k] in r.professors;
    }
    forall k | 0 <= k < |r.professorLessons| ensures r.professorLessons[k].subject.Some? {
      assert r.professorLessons[k] in db.professorLessons;
    }
  }
}
