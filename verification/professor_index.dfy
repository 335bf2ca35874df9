/**
 * The professor-indexed copy of the timetable: a full rebuild of the
 * professor-lesson table from the lesson table, creating professors by name
 * as they are met, and the removal of professors left without lessons.
 */
module ProfessorIndex {
  import opened Wrappers
  import opened Seqs
  import opened Text
  import opened Models
  import opened Store
  import opened ProfessorNames

  // ---------------------------------------------------------------------
  // Lookups and rows
  // ---------------------------------------------------------------------

  function FirstProfessor(ps: seq<Professor>, name: string): (r: Option<Professor>)
    ensures r.Some? ==> r.value in ps && r.value.name == name
    ensures r.None? <==> forall p :: p in ps ==> p.name != name
  {
    if ps == [] then None
    else if ps[0].name == name then Some(ps[0])
    else FirstProfessor(ps[1..], name)
  }

  /** `select(Professor).where(Professor.name == name)`, the one row or none. */
  function FindProfessor(db: Db, name: string): Option<Professor>
  {
    FirstProfessor(db.professors, name)
  }

  lemma FirstProfessorAppend(ps: seq<Professor>, p: Professor, name: string)
    requires FirstProfessor(ps, name).Some?
    ensures FirstProfessor(ps + [p], name) == FirstProfessor(ps, name)
  {
    if ps[0].name != name {
      assert (ps + [p])[1..] == ps[1..] + [p];
      FirstProfessorAppend(ps[1..], p, name);
    }
  }

  lemma FirstProfessorNew(ps: seq<Professor>, p: Professor)
    requires FirstProfessor(ps, p.name).None?
    ensures FirstProfessor(ps + [p], p.name) == Some(p)
  {
    if ps != [] {
      assert (ps + [p])[1..] == ps[1..] + [p];
      FirstProfessorNew(ps[1..], p);
    }
  }

  function AddProfessor(db: Db, name: string): Db
  {
    db.(professors := db.professors + [Professor(db.nextId, name)], nextId := db.nextId + 1)
  }

  /** The duplicate guard's key: professor, weekday, slot, subject, rooms, week mark (None equals None). */
  datatype PlKey = PlKey(
    professorId: Id, weekday: Option<int>, lessonNumber: Option<int>,
    subject: Option<string>, rooms: Option<string>, weekMark: Option<string>)

  function KeyFor(professorId: Id, l: Lesson): PlKey
  {
    PlKey(professorId, l.weekday, l.lessonNumber, l.subject, l.rooms, l.weekMark)
  }

  function KeyOfPl(pl: ProfessorLesson): PlKey
  {
    PlKey(pl.professorId, pl.weekday, pl.lessonNumber, pl.subject, pl.rooms, pl.weekMark)
  }

  function AddPl(db: Db, professorId: Id, l: Lesson): Db
  {
    db.(professorLessons := db.professorLessons
          + [ProfessorLesson(db.nextId, professorId, l.weekday, l.lessonNumber, l.subject, l.rooms, l.weekMark)],
        nextId := db.nextId + 1)
  }

  // ---------------------------------------------------------------------
  // The rebuild as a fold over (lesson, name) pairs
  // ---------------------------------------------------------------------

  /** `(lesson.professors or "").strip()`. */
  function ProfessorsText(l: Lesson): string
  {
    Strip(if l.professors.Some? then l.professors.value else "")
  }

  /** The names a lesson contributes: none for blank professor text. */
  function NamesOf(l: Lesson): seq<string>
  {
    if ProfessorsText(l) == "" then [] else ExtractProfessorNames(ProfessorsText(l))
  }

  function LessonPairs(l: Lesson): (ps: seq<(Lesson, string)>)
    ensures |ps| == |NamesOf(l)|
    ensures forall k :: 0 <= k < |ps| ==> ps[k] == (l, NamesOf(l)[k])
  {
    seq(|NamesOf(l)|, k requires 0 <= k < |NamesOf(l)| => (l, NamesOf(l)[k]))
  }

  /** Every (lesson, extracted name) pair, in table order. */
  function Pairs(ls: seq<Lesson>): seq<(Lesson, string)>
    decreases |ls|
  {
    if ls == [] then [] else Pairs(ls[..|ls| - 1]) + LessonPairs(ls[|ls| - 1])
  }

  lemma {:induction false} PairsAppend(a: seq<Lesson>, b: seq<Lesson>)
    ensures Pairs(a + b) == Pairs(a) + Pairs(b)
    decreases |b|
  {
    if b != [] {
      var init, last := b[..|b| - 1], b[|b| - 1];
      assert (a + b)[..|a + b| - 1] == a + init && (a + b)[|a + b| - 1] == last;
      PairsAppend(a, init);
      AppendAssoc(Pairs(a), Pairs(init), LessonPairs(last));
    } else {
      assert a + b == a;
    }
  }

  /** What the loop carries: the session's rows and `added_records`. */
  datatype RebuildState = RebuildState(db: Db, added: set<PlKey>)

  /** One inner iteration: find or create (and flush) the professor, then add the row unless its key was seen. */
  function Step(st: RebuildState, pair: (Lesson, string)): Result<RebuildState>
  {
    var found := FindProfessor(st.db, pair.1);
    var db1 := if found.Some? then st.db else AddProfessor(st.db, pair.1);
    if found.None? && !Constraints(db1) then Failure(IntegrityError("flush"))
    else
      var pid := if found.Some? then found.value.id else st.db.nextId;
      var key := KeyFor(pid, pair.0);
      if key in st.added then Success(RebuildState(db1, st.added))
      else Success(RebuildState(AddPl(db1, pid, pair.0), st.added + {key}))
  }

  function Fold(st: RebuildState, pairs: seq<(Lesson, string)>): Result<RebuildState>
    decreases |pairs|
  {
    if pairs == [] then Success(st)
    else
      match Fold(st, pairs[..|pairs| - 1])
      case Failure(e) => Failure(e)
      case Success(s) => Step(s, pairs[|pairs| - 1])
  }

  /** The professor-lesson table emptied: where the rebuild starts. */
  function Cleared(db: Db): Db
  {
    db.(professorLessons := [])
  }

  /** `upsert_lessons_for_professors`: the fold, then the final flush. */
  function Rebuild(db: Db): Result<Db>
  {
    match Fold(RebuildState(Cleared(db), {}), Pairs(db.lessons))
    case Failure(e) => Failure(e)
    case Success(st) => if Constraints(st.db) then Success(st.db) else Failure(IntegrityError("flush"))
  }

  lemma FoldSnoc(st: RebuildState, a: seq<(Lesson, string)>, x: (Lesson, string))
    ensures Fold(st, a + [x]) == match Fold(st, a) case Failure(e) => Failure(e) case Success(s) => Step(s, x)
  {
    assert (a + [x])[..|a|] == a;
  }

  lemma {:induction false} FoldFailureSticky(st: RebuildState, a: seq<(Lesson, string)>, b: seq<(Lesson, string)>)
    requires Fold(st, a).Failure?
    ensures Fold(st, a + b).Failure?
    decreases |b|
  {
    if b == [] {
      assert a + b == a;
    } else {
      var init := b[..|b| - 1];
      FoldFailureSticky(st, a, init);
      assert a + b == (a + init) + [b[|b| - 1]];
      FoldSnoc(st, a + init, b[|b| - 1]);
    }
  }

  // ---------------------------------------------------------------------
  // What the fold keeps
  // ---------------------------------------------------------------------

  /** The pair's professor exists and its key is recorded. */
  predicate Covered(st: RebuildState, pair: (Lesson, string))
  {
    FindProfessor(st.db, pair.1).Some? && KeyFor(FindProfessor(st.db, pair.1).value.id, pair.0) in st.added
  }

  function DoneNames(done: seq<(Lesson, string)>): set<string>
  {
    set k | 0 <= k < |done| :: done[k].1
  }

  /** Only the professor and professor-lesson tables change; old professors stay in front. */
  ghost predicate Frame(st: RebuildState, base: Db)
  {
    && st.db.faculties == base.faculties && st.db.groups == base.groups
    && st.db.lessons == base.lessons && st.db.users == base.users
    && |base.professors| <= |st.db.professors|
    && st.db.professors[..|base.professors|] == base.professors
  }

  /** Every professor added since `base` bears one of `names`. */
  ghost predicate Named(st: RebuildState, base: Db, names: set<string>)
    requires |base.professors| <= |st.db.professors|
  {
    forall i :: |base.professors| <= i < |st.db.professors| ==> st.db.professors[i].name in names
  }

  /** `added_records` is exactly the keys of the rows, and no key occurs twice. */
  ghost predicate Keys(st: RebuildState)
  {
    st.added == KeySet(st.db.professorLessons, KeyOfPl) && KeysDistinct(st.db.professorLessons, KeyOfPl)
  }

  ghost predicate Cover(st: RebuildState, done: seq<(Lesson, string)>)
  {
    forall k :: 0 <= k < |done| ==> Covered(st, done[k])
  }

  ghost predicate Inv(st: RebuildState, base: Db, done: seq<(Lesson, string)>)
  {
    Frame(st, base) && Named(st, base, DoneNames(done)) && Keys(st) && Cover(st, done)
  }

  lemma StepAddProfessor(st: RebuildState, base: Db, done: seq<(Lesson, string)>, name: string)
    requires Inv(st, base, done) && FindProfessor(st.db, name).None?
    ensures var st1 := RebuildState(AddProfessor(st.db, name), st.added);
      Frame(st1, base) && Named(st1, base, DoneNames(done) + {name}) && Keys(st1) && Cover(st1, done)
      && FindProfessor(st1.db, name) == Some(Professor(st.db.nextId, name))
  {
    var p := Professor(st.db.nextId, name);
    var st1 := RebuildState(AddProfessor(st.db, name), st.added);
    assert st1.db.professors == st.db.professors + [p];
    assert st1.db.professors[..|base.professors|] == st.db.professors[..|base.professors|];
    FirstProfessorNew(st.db.professors, p);
    forall k | 0 <= k < |done| ensures Covered(st1, done[k]) {
      assert Covered(st, done[k]);
      FirstProfessorAppend(st.db.professors, p, done[k].1);
    }
    forall i | |base.professors| <= i < |st1.db.professors|
      ensures st1.db.professors[i].name in DoneNames(done) + {name}
    {
      if i < |st.db.professors| {
        assert st1.db.professors[i] == st.db.professors[i];
      }
    }
  }

  lemma KeysSnoc(pls: seq<ProfessorLesson>, pl: ProfessorLesson)
    requires KeysDistinct(pls, KeyOfPl) && KeyOfPl(pl) !in KeySet(pls, KeyOfPl)
    ensures KeysDistinct(pls + [pl], KeyOfPl) && KeySet(pls + [pl], KeyOfPl) == KeySet(pls, KeyOfPl) + {KeyOfPl(pl)}
  {
    KeySetSnoc(pls, pl, KeyOfPl);
    var all := pls + [pl];
    forall i, j | 0 <= i < j < |all| ensures KeyOfPl(all[i]) != KeyOfPl(all[j]) {
      assert all[i] == pls[i] && pls[i] in pls;
      if j < |pls| {
        assert all[j] == pls[j];
      }
    }
  }

  lemma StepAddRow(st: RebuildState, base: Db, names: set<string>, done: seq<(Lesson, string)>, pid: Id, l: Lesson)
    requires Frame(st, base) && Named(st, base, names) && Keys(st) && Cover(st, done)
    requires KeyFor(pid, l) !in st.added
    ensures var st2 := RebuildState(AddPl(st.db, pid, l), st.added + {KeyFor(pid, l)});
      Frame(st2, base) && Named(st2, base, names) && Keys(st2) && Cover(st2, done)
  {
    var pl := ProfessorLesson(st.db.nextId, pid, l.weekday, l.lessonNumber, l.subject, l.rooms, l.weekMark);
    KeysSnoc(st.db.professorLessons, pl);
    var st2 := RebuildState(AddPl(st.db, pid, l), st.added + {KeyFor(pid, l)});
    forall k | 0 <= k < |done| ensures Covered(st2, done[k]) {
      assert Covered(st, done[k]);
    }
  }

  lemma CoverSnoc(st: RebuildState, done: seq<(Lesson, string)>, pair: (Lesson, string))
    requires Cover(st, done) && Covered(st, pair)
    ensures Cover(st, done + [pair]) && DoneNames(done + [pair]) == DoneNames(done) + {pair.1}
  {
    var all := done + [pair];
    forall k | 0 <= k < |all| ensures Covered(st, all[k]) {
      if k < |done| {
        assert all[k] == done[k];
      }
    }
    assert all[|done|] == pair;
    forall n | n in DoneNames(done) ensures n in DoneNames(all) {
      var k :| 0 <= k < |done| && done[k].1 == n;
      assert all[k] == done[k];
    }
  }

  /** One step keeps the invariant and covers its own pair. */
  lemma StepInv(st: RebuildState, base: Db, done: seq<(Lesson, string)>, pair: (Lesson, string))
    requires Inv(st, base, done) && Step(st, pair).Success?
    ensures Inv(Step(st, pair).value, base, done + [pair])
  {
    var name := pair.1;
    var names := DoneNames(done) + {name};
    var st1 := st;
    if FindProfessor(st.db, name).None? {
      StepAddProfessor(st, base, done, name);
      st1 := RebuildState(AddProfessor(st.db, name), st.added);
    }
    assert Named(st1, base, names);
    var pid := FindProfessor(st1.db, name).value.id;
    var key := KeyFor(pid, pair.0);
    var st2 := st1;
    if key !in st.added {
      StepAddRow(st1, base, names, done, pid, pair.0);
      st2 := RebuildState(AddPl(st1.db, pid, pair.0), st.added + {key});
    }
    assert Step(st, pair).value == st2;
    assert FindProfessor(st2.db, name) == FindProfessor(st1.db, name);
    CoverSnoc(st2, done, pair);
  }

  lemma {:induction false} FoldInv(base: Db, pairs: seq<(Lesson, string)>)
    requires base.professorLessons == []
    requires Fold(RebuildState(base, {}), pairs).Success?
    ensures Inv(Fold(RebuildState(base, {}), pairs).value, base, pairs)
    decreases |pairs|
  {
    var st0 := RebuildState(base, {});
    if pairs == [] {
      assert base.professors[..|base.professors|] == base.professors;
    } else {
      var init, x := pairs[..|pairs| - 1], pairs[|pairs| - 1];
      assert pairs == init + [x];
      FoldSnoc(st0, init, x);
      FoldInv(base, init);
      StepInv(Fold(st0, init).value, base, init, x);
    }
  }

  lemma RebuildInv(db: Db) returns (st: RebuildState)
    requires Rebuild(db).Success?
    ensures Inv(st, Cleared(db), Pairs(db.lessons)) && st.db == Rebuild(db).value && Constraints(st.db)
  {
    FoldInv(Cleared(db), Pairs(db.lessons));
    st := Fold(RebuildState(Cleared(db), {}), Pairs(db.lessons)).value;
  }

  /** After a successful rebuild no two professor-lesson rows share the duplicate guard's key. */
  lemma RebuildKeysDistinct(db: Db)
    requires Rebuild(db).Success?
    ensures KeysDistinct(Rebuild(db).value.professorLessons, KeyOfPl)
  {
    var st := RebuildInv(db);
  }

  /**
   * After a successful rebuild every (lesson with non-blank professors,
   * extracted name) pair has a professor of that name and a row under the
   * duplicate guard's key for that professor and lesson.
   */
  lemma RebuildCovers(db: Db)
    requires Rebuild(db).Success?
    ensures forall k :: 0 <= k < |Pairs(db.lessons)| ==> Covered(RebuildState(Rebuild(db).value, KeySet(Rebuild(db).value.professorLessons, KeyOfPl)), Pairs(db.lessons)[k])
  {
    var st := RebuildInv(db);
  }

  /**
   * After a successful rebuild the professor table is the old one followed
   * only by professors named in some pair, names stay unique, and the
   * other tables are unchanged.
   */
  lemma RebuildProfessors(db: Db)
    requires Rebuild(db).Success?
    ensures var r := Rebuild(db).value;
      |db.professors| <= |r.professors| && r.professors[..|db.professors|] == db.professors
      && (forall i :: |db.professors| <= i < |r.professors| ==> r.professors[i].name in DoneNames(Pairs(db.lessons)))
      && Pairwise(r.professors, ProfessorsDistinct)
      && r.lessons == db.lessons && r.groups == db.groups && r.faculties == db.faculties
  {
    var st := RebuildInv(db);
  }

  /** The subject column is NOT NULL: a successful rebuild implies every lesson with professors has a subject. */
  lemma RebuildNeedsSubjects(db: Db)
    requires Rebuild(db).Success?
    ensures forall k :: 0 <= k < |Pairs(db.lessons)| ==> Pairs(db.lessons)[k].0.subject.Some?
  {
    var st := RebuildInv(db);
    var pairs := Pairs(db.lessons);
    forall k | 0 <= k < |pairs| ensures pairs[k].0.subject.Some? {
      assert Covered(st, pairs[k]);
      AddedKeyHasSubject(st, KeyFor(FindProfessor(st.db, pairs[k].1).value.id, pairs[k].0));
    }
  }

  /** A recorded key is that of a stored row, and stored rows have a subject. */
  lemma AddedKeyHasSubject(st: RebuildState, key: PlKey)
    requires Keys(st) && Constraints(st.db) && key in st.added
    ensures key.subject.Some?
  {
    var pl :| pl in st.db.professorLessons && KeyOfPl(pl) == key;
    var i :| 0 <= i < |st.db.professorLessons| && st.db.professorLessons[i] == pl;
  }

  // ---------------------------------------------------------------------
  // The method
  // ---------------------------------------------------------------------

  /** Every remembered id is the id of the professor of that name. */
  predicate MemoOk(memo: map<string, Id>, db: Db)
  {
    forall n :: n in memo ==> FindProfessor(db, n).Some? && FindProfessor(db, n).value.id == memo[n]
  }

  lemma MemoHit(memo: map<string, Id>, db: Db, name: string)
    requires MemoOk(memo, db) && name in memo
    ensures FindProfessor(db, name).Some? && FindProfessor(db, name).value.id == memo[name]
  {
  }

  lemma MemoPut(memo: map<string, Id>, db: Db, name: string)
    requires MemoOk(memo, db) && FindProfessor(db, name).Some?
    ensures MemoOk(memo[name := FindProfessor(db, name).value.id], db)
  {
  }

  lemma MemoAfterProfessor(memo: map<string, Id>, db: Db, name: string)
    requires MemoOk(memo, db) && FindProfessor(db, name).None?
    ensures MemoOk(memo, AddProfessor(db, name))
    ensures FindProfessor(AddProfessor(db, name), name) == Some(Professor(db.nextId, name))
  {
    forall n | n in memo ensures FindProfessor(AddProfessor(db, name), n) == FindProfessor(db, n) {
      FirstProfessorAppend(db.professors, Professor(db.nextId, name), n);
    }
    FirstProfessorNew(db.professors, Professor(db.nextId, name));
  }

  lemma {:induction false} PairsSnoc(ls: seq<Lesson>, i: nat)
    requires i < |ls|
    ensures Pairs(ls[..i + 1]) == Pairs(ls[..i]) + LessonPairs(ls[i])
  {
    assert ls[..i + 1][..i] == ls[..i];
  }

  /** A lesson without names adds no pairs. */
  lemma PairsSkip(ls: seq<Lesson>, i: nat)
    requires i < |ls| && NamesOf(ls[i]) == []
    ensures Pairs(ls[..i + 1]) == Pairs(ls[..i])
  {
    PairsSnoc(ls, i);
    assert LessonPairs(ls[i]) == [];
  }

  lemma {:induction false} PairsSplit(ls: seq<Lesson>, i: nat)
    requires i < |ls|
    ensures Pairs(ls) == Pairs(ls[..i]) + LessonPairs(ls[i]) + Pairs(ls[i + 1..])
  {
    var a, b := ls[..i + 1], ls[i + 1..];
    assert a + b == ls;
    PairsAppend(a, b);
    assert Pairs(ls) == Pairs(a) + Pairs(b);
    PairsSnoc(ls, i);
    assert Pairs(a) == Pairs(ls[..i]) + LessonPairs(ls[i]);
  }

  /** A failure at pair `j` of a lesson fails the fold over the whole lesson. */
  lemma FailureWithinLesson(st0: RebuildState, before: seq<(Lesson, string)>, lp: seq<(Lesson, string)>, j: nat)
    requires j < |lp| && Fold(st0, before + lp[..j + 1]).Failure?
    ensures Fold(st0, before + lp).Failure?
  {
    FoldFailureSticky(st0, before + lp[..j + 1], lp[j + 1..]);
    assert before + lp == (before + lp[..j + 1]) + lp[j + 1..];
  }

  /** A failure within lesson `i` fails the whole rebuild. */
  lemma FailureSpreads(st0: RebuildState, ls: seq<Lesson>, i: nat)
    requires i < |ls| && Fold(st0, Pairs(ls[..i]) + LessonPairs(ls[i])).Failure?
    ensures Fold(st0, Pairs(ls)).Failure?
  {
    PairsSplit(ls, i);
    FoldFailureSticky(st0, Pairs(ls[..i]) + LessonPairs(ls[i]), Pairs(ls[i + 1..]));
  }

  lemma RebuildDone(db: Db, st0: RebuildState, ls: seq<Lesson>, st: RebuildState)
    requires st0 == RebuildState(Cleared(db), {}) && ls == db.lessons
    requires Fold(st0, Pairs(ls[..|ls|])) == Success(st)
    ensures Constraints(st.db) ==> Rebuild(db) == Success(st.db)
    ensures !Constraints(st.db) ==> Rebuild(db) == Failure(IntegrityError("flush"))
  {
    assert ls[..|ls|] == ls;
  }

  /** A new professor-lesson row takes a fresh id and leaves the professors alone. */
  lemma AddPlFrame(db: Db, memo: map<string, Id>, pid: Id, l: Lesson)
    requires IdsBelow(db) && MemoOk(memo, db)
    ensures IdsBelow(AddPl(db, pid, l)) && MemoOk(memo, AddPl(db, pid, l))
    ensures AddPl(db, pid, l).nextId == db.nextId + 1
  {
    assert AddPl(db, pid, l).professors == db.professors;
  }

  /** A new professor takes a fresh id. */
  lemma AddProfessorIds(db: Db, name: string)
    requires IdsBelow(db)
    ensures IdsBelow(AddProfessor(db, name)) && AddProfessor(db, name).nextId == db.nextId + 1
  {
  }

  /** A step whose professor is already known. */
  lemma StepKnown(st: RebuildState, pair: (Lesson, string), pid: Id)
    requires FindProfessor(st.db, pair.1).Some? && FindProfessor(st.db, pair.1).value.id == pid
    ensures KeyFor(pid, pair.0) in st.added ==> Step(st, pair) == Success(st)
    ensures KeyFor(pid, pair.0) !in st.added ==>
      Step(st, pair) == Success(RebuildState(AddPl(st.db, pid, pair.0), st.added + {KeyFor(pid, pair.0)}))
  {
  }

  /** A step that creates the professor. */
  lemma StepNew(st: RebuildState, pair: (Lesson, string))
    requires FindProfessor(st.db, pair.1).None?
    ensures !Constraints(AddProfessor(st.db, pair.1)) ==> Step(st, pair) == Failure(IntegrityError("flush"))
    ensures Constraints(AddProfessor(st.db, pair.1)) ==>
      Step(st, pair) == Step(RebuildState(AddProfessor(st.db, pair.1), st.added), pair)
  {
    if Constraints(AddProfessor(st.db, pair.1)) {
      MemoAfterProfessor(map[], st.db, pair.1);
    }
  }

  /**
   * The professor of one inner iteration of `upsert_lessons_for_professors`:
   * from the name cache, from the table, or a new row that is flushed at
   * once (a refused flush rolls the session back).
   */
  method ResolveProfessor(s: Session, professorsCache: map<string, Id>, profName: string)
      returns (r: Result<Id>, cache: map<string, Id>)
    requires s.Valid() && MemoOk(professorsCache, s.db)
    modifies s
    ensures s.Valid() && s.committed == old(s.committed)
    ensures var found := FindProfessor(old(s.db), profName);
      r.Success? ==>
        MemoOk(cache, s.db)
        && (found.Some? ==> s.db == old(s.db) && r.value == found.value.id)
        && (found.None? ==> s.db == AddProfessor(old(s.db), profName) && Constraints(s.db) && r.value == old(s.db).nextId)
    ensures r.Failure? ==>
      FindProfessor(old(s.db), profName).None? && !Constraints(AddProfessor(old(s.db), profName))
      && r == Failure(IntegrityError("flush")) && s.db == old(s.committed)
  {
    cache := professorsCache;
    if profName in cache && cache[profName] != 0 {
      MemoHit(cache, s.db, profName);
      return Success(cache[profName]), cache;
    }
    var professor := FindProfessor(s.db, profName);
    var profId: Id;
    if professor.None? {
      MemoAfterProfessor(cache, s.db, profName);
      var created := CreateProfessor(s, profName);
      if created.Failure? {
        return Failure(created.error), cache;
      }
      profId := created.value;
    } else {
      profId := professor.value.id;
    }
    MemoPut(cache, s.db, profName);
    cache := cache[profName := profId];
    r := Success(profId);
  }

  /** A professor row that was not found: added and flushed at once, or the session rolled back. */
  method CreateProfessor(s: Session, profName: string) returns (r: Result<Id>)
    requires s.Valid()
    modifies s
    ensures s.Valid() && s.committed == old(s.committed)
    ensures r.Success? ==> s.db == AddProfessor(old(s.db), profName) && Constraints(s.db) && r.value == old(s.db).nextId
    ensures r.Failure? ==>
      !Constraints(AddProfessor(old(s.db), profName)) && r == Failure(IntegrityError("flush")) && s.db == old(s.committed)
  {
    AddProfessorIds(s.db, profName);
    var profId := s.db.nextId;
    s.db := AddProfessor(s.db, profName);
    var flushed := s.Flush();
    if flushed.Failure? {
      s.Rollback();
      return Failure(flushed.error);
    }
    r := Success(profId);
  }

  /** A step whose professor was resolved to `pid` in `db1`. */
  lemma StepResolved(st: RebuildState, pair: (Lesson, string), db1: Db, pid: Id)
    requires var found := FindProfessor(st.db, pair.1);
      (found.Some? ==> db1 == st.db && pid == found.value.id)
      && (found.None? ==> db1 == AddProfessor(st.db, pair.1) && Constraints(db1) && pid == st.db.nextId)
    ensures KeyFor(pid, pair.0) in st.added ==> Step(st, pair) == Success(RebuildState(db1, st.added))
    ensures KeyFor(pid, pair.0) !in st.added ==>
      Step(st, pair) == Success(RebuildState(AddPl(db1, pid, pair.0), st.added + {KeyFor(pid, pair.0)}))
  {
  }

  /**
   * One inner iteration of `upsert_lessons_for_professors`: the professor,
   * then the professor-lesson row unless its key is in `added_records`.
   */
  method IndexPair(s: Session, professorsCache: map<string, Id>, addedRecords: set<PlKey>, lesson: Lesson, profName: string)
      returns (r: Result<()>, cache: map<string, Id>, added: set<PlKey>)
    requires s.Valid() && MemoOk(professorsCache, s.db)
    modifies s
    ensures s.Valid() && s.committed == old(s.committed)
    ensures r.Success? ==>
      (Step(RebuildState(old(s.db), addedRecords), (lesson, profName)) == Success(RebuildState(s.db, added))
       && MemoOk(cache, s.db))
    ensures r.Failure? ==>
      (Step(RebuildState(old(s.db), addedRecords), (lesson, profName)).Failure?
       && r == Failure(IntegrityError("flush")) && s.db == old(s.committed))
  {
    ghost var st := RebuildState(s.db, addedRecords);
    var found;
    found, cache := ResolveProfessor(s, professorsCache, profName);
    if found.Failure? {
      return Failure(found.error), cache, addedRecords;
    }
    var profId := found.value;
    StepResolved(st, (lesson, profName), s.db, profId);
    var key := PlKey(profId, lesson.weekday, lesson.lessonNumber, lesson.subject, lesson.rooms, lesson.weekMark);
    if key in addedRecords {
      return Success(()), cache, addedRecords;
    }
    added := addedRecords + {key};
    AddPlFrame(s.db, cache, profId, lesson);
    s.db := AddPl(s.db, profId, lesson);
    r := Success(());
  }

  lemma FoldPrefixStep(st0: RebuildState, before: seq<(Lesson, string)>, lp: seq<(Lesson, string)>, j: nat)
    requires j < |lp|
    ensures Fold(st0, before + lp[..j + 1])
      == match Fold(st0, before + lp[..j]) case Failure(e) => Failure(e) case Success(s) => Step(s, lp[j])
  {
    assert before + lp[..j + 1] == (before + lp[..j]) + [lp[j]];
    FoldSnoc(st0, before + lp[..j], lp[j]);
  }

  /** Pair `j` of a lesson through `IndexPair`, seen as one more step of the fold. */
  method IndexPairAt(s: Session, professorsCache: map<string, Id>, addedRecords: set<PlKey>, lesson: Lesson, profName: string,
                     ghost lp: seq<(Lesson, string)>, ghost j: nat, ghost st0: RebuildState, ghost before: seq<(Lesson, string)>)
      returns (r: Result<()>, cache: map<string, Id>, added: set<PlKey>)
    requires j < |lp| && lp[j] == (lesson, profName)
    requires s.Valid() && MemoOk(professorsCache, s.db)
    requires Fold(st0, before + lp[..j]) == Success(RebuildState(s.db, addedRecords))
    modifies s
    ensures s.Valid() && s.committed == old(s.committed)
    ensures r.Success? ==>
      (Fold(st0, before + lp[..j + 1]) == Success(RebuildState(s.db, added)) && MemoOk(cache, s.db))
    ensures r.Failure? ==>
      (Fold(st0, before + lp).Failure? && r == Failure(IntegrityError("flush")) && s.db == old(s.committed))
  {
    FoldPrefixStep(st0, before, lp, j);
    r, cache, added := IndexPair(s, professorsCache, addedRecords, lesson, profName);
    if r.Failure? {
      FailureWithinLesson(st0, before, lp, j);
    }
  }

  /** The inner loop of `upsert_lessons_for_professors`: every name extracted from one lesson. */
  method IndexLesson(s: Session, professorsCache: map<string, Id>, addedRecords: set<PlKey>, lesson: Lesson,
                     professorNames: seq<string>, ghost lp: seq<(Lesson, string)>,
                     ghost st0: RebuildState, ghost before: seq<(Lesson, string)>)
      returns (r: Result<()>, cache: map<string, Id>, added: set<PlKey>)
    requires s.Valid() && MemoOk(professorsCache, s.db)
    requires |lp| == |professorNames| && forall k :: 0 <= k < |lp| ==> lp[k] == (lesson, professorNames[k])
    requires Fold(st0, before) == Success(RebuildState(s.db, addedRecords))
    modifies s
    ensures s.Valid() && s.committed == old(s.committed)
    ensures r.Success? ==>
      (Fold(st0, before + lp) == Success(RebuildState(s.db, added)) && MemoOk(cache, s.db))
    ensures r.Failure? ==>
      (Fold(st0, before + lp).Failure? && r == Failure(IntegrityError("flush")) && s.db == old(s.committed))
  {
    cache, added := professorsCache, addedRecords;
    assert before + lp[..0] == before;
    for j := 0 to |professorNames|
      invariant s.Valid() && s.committed == old(s.committed)
      invariant Fold(st0, before + lp[..j]) == Success(RebuildState(s.db, added))
      invariant MemoOk(cache, s.db)
    {
      var step;
      step, cache, added := IndexPairAt(s, cache, added, lesson, professorNames[j], lp, j, st0, before);
      if step.Failure? {
        return step, cache, added;
      }
    }
    assert lp[..|professorNames|] == lp;
    r := Success(());
  }

  /** `upsert_lessons_for_professors` on a session: the rebuilt rows, or a rollback and the error. */
  method UpsertLessonsForProfessors(s: Session) returns (r: Result<()>)
    requires s.Valid()
    modifies s
    ensures s.Valid() && s.committed == old(s.committed)
    ensures Rebuild(old(s.db)).Success? ==> r.Success? && s.db == Rebuild(old(s.db)).value
    ensures Rebuild(old(s.db)).Failure? ==> r == Failure(IntegrityError("flush")) && s.db == old(s.committed)
  {
    ghost var db0 := s.db;
    s.db := s.db.(professorLessons := []);
    ghost var st0 := RebuildState(s.db, {});
    var lessons := s.db.lessons;
    var professorsCache: map<string, Id> := map[];
    var addedRecords: set<PlKey> := {};
    for i := 0 to |lessons|
      invariant s.Valid() && s.committed == old(s.committed)
      invariant Fold(st0, Pairs(lessons[..i])) == Success(RebuildState(s.db, addedRecords))
      invariant MemoOk(professorsCache, s.db)
    {
      var lesson := lessons[i];
      var professorsText := Strip(if lesson.professors.Some? then lesson.professors.value else "");
      if professorsText == "" {
        PairsSkip(lessons, i);
        continue;
      }
      var professorNames := ExtractProfessorNames(professorsText);
      if professorNames == [] {
        PairsSkip(lessons, i);
        continue;
      }
      PairsSnoc(lessons, i);
      var step;
      step, professorsCache, addedRecords := IndexLesson(s, professorsCache, addedRecords, lesson, professorNames, LessonPairs(lesson), st0, Pairs(lessons[..i]));
      if step.Failure? {
        FailureSpreads(st0, lessons, i);
        return step;
      }
    }
    RebuildDone(db0, st0, lessons, RebuildState(s.db, addedRecords));
    var flushed := s.Flush();
    if flushed.Failure? {
      s.Rollback();
      return Failure(flushed.error);
    }
    return Success(());
  }

  // ---------------------------------------------------------------------
  // Professors left without lessons
  // ---------------------------------------------------------------------

  predicate HasRows(pls: seq<ProfessorLesson>, id: Id)
  {
    exists k :: 0 <= k < |pls| && pls[k].professorId == id
  }

  lemma DeleteProfessorRowConstraints(db: Db, id: Id)
    requires Constraints(db)
    ensures Constraints(DeleteProfessorRow(db, id))
  {
    FilterPairwise(db.professors, (p: Professor) => p.id != id, ProfessorsDistinct);
    FilterPairwise(db.professorLessons, (pl: ProfessorLesson) => pl.professorId != id, ProfessorLessonsDistinct);
    var r := DeleteProfessorRow(db, id);
    forall k | 0 <= k < |r.professorLessons| ensures r.professorLessons[k].subject.Some? {
      assert r.professorLessons[k] in r.professorLessons;
      assert r.professorLessons[k] in db.professorLessons;
    }
  }

  /** Deleting an idle professor removes that row only. */
  lemma DeleteIdle(db: Db, p: Professor)
    requires Constraints(db) && p in db.professors && !HasRows(db.professorLessons, p.id)
    ensures var r := DeleteProfessorRow(db, p.id);
      Constraints(r) && r == db.(professors := r.professors)
      && forall q :: q in r.professors <==> q in db.professors && q != p
  {
    DeleteProfessorRowConstraints(db, p.id);
    var r := DeleteProfessorRow(db, p.id);
    FilterKeepsAll(db.professorLessons, (pl: ProfessorLesson) => pl.professorId != p.id);
    forall q | q in db.professors && q.id == p.id ensures q == p {
      var a :| 0 <= a < |db.professors| && db.professors[a] == q;
      var b :| 0 <= b < |db.professors| && db.professors[b] == p;
    }
  }

  /**
   * The clean-up after a committed rebuild: every professor with no row is
   * deleted, every professor with a row stays, and the result is committed.
   */
  method DeleteIdleProfessors(s: Session) returns (r: Result<()>)
    requires s.Valid() && Constraints(s.db)
    modifies s
    ensures s.Valid() && r.Success? && s.committed == s.db
    ensures s.db == old(s.db).(professors := s.db.professors)
    ensures forall p :: p in s.db.professors <==> p in old(s.db).professors && HasRows(old(s.db).professorLessons, p.id)
  {
    ghost var db0 := s.db;
    var existingProfs := s.db.professors;
    var deletedProfs := 0;
    for i := 0 to |existingProfs|
      invariant s.Valid() && s.committed == old(s.committed)
      invariant Constraints(s.db) && s.db == db0.(professors := s.db.professors)
      invariant forall p :: p in s.db.professors <==>
        p in existingProfs && (p in existingProfs[..i] ==> HasRows(db0.professorLessons, p.id))
    {
      var prof := existingProfs[i];
      var lessonsForProf := exists k :: 0 <= k < |s.db.professorLessons| && s.db.professorLessons[k].professorId == prof.id;
      assert existingProfs[..i + 1] == existingProfs[..i] + [prof];
      if !lessonsForProf {
        deletedProfs := deletedProfs + 1;
        DeleteIdle(s.db, prof);
        s.db := DeleteProfessorRow(s.db, prof.id);
        forall p | p in existingProfs && p != prof && p in existingProfs[..i + 1] ensures p in existingProfs[..i] {
        }
      }
    }
    assert existingProfs[..|existingProfs|] == existingProfs;
    var committed := s.Commit();
    return Success(());
  }
}
