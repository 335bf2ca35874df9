/**
 * The three synchronisation entry points as functions of the database
 * state: one iteration of each group loop, the loops themselves, the
 * deletion of groups left out of `valid_groups`, and what each entry point
 * leaves committed.
 */
module SyncSteps {
  import opened Wrappers
  import opened Seqs
  import opened Models
  import opened TimetableJson
  import opened Parser
  import opened Reconcile

  /** What the timetable service gives for a group name: a timetable, or the error the client raised. */
  type Fetch = string -> Result<Timetable>

  /** Python truthiness of `limit_groups`: given and not zero. */
  predicate LimitSet(limit: Option<int>)
  {
    limit.Some? && limit.value != 0
  }

  /** How many entries `enumerate` visits before `if limit_groups and idx >= limit_groups: break`. */
  function Visited(n: nat, limit: Option<int>): (k: nat)
    ensures k <= n
    ensures LimitSet(limit) && k > 0 ==> k <= limit.value
    ensures k < n ==> LimitSet(limit) && k >= limit.value
  {
    if !LimitSet(limit) then n
    else if limit.value <= 0 then 0
    else if limit.value < n then limit.value
    else n
  }

  /** `groups_json.get("groups", []) if isinstance(groups_json, dict) else groups_json`; None is JSON null. */
  function GroupsOf(c: Catalogue): (r: Option<seq<CatalogueEntry>>)
    ensures c.CatalogueList? ==> r == Some(c.entries)
    ensures r.None? <==> c == CatalogueObject(NullGroups)
    ensures c == CatalogueObject(NoGroups) ==> r == Some([])
  {
    match c
    case CatalogueList(es) => Some(es)
    case CatalogueObject(NoGroups) => Some([])
    case CatalogueObject(NullGroups) => None
    case CatalogueObject(Groups(es)) => Some(es)
  }

  /** The timetable yields rows: fetched, no "message", and at least one extracted record. */
  predicate Produces(fetch: Fetch, name: string)
  {
    fetch(name).Success? && !HasMessage(fetch(name).value) && Extract(name, fetch(name).value) != []
  }

  // ---------------------------------------------------------------------
  // The loop of `run_full_sync`
  // ---------------------------------------------------------------------

  /** The session's rows, the committed rows, and `valid_groups`. */
  datatype Loop = Loop(db: Db, committed: Db, valid: set<string>)

  /** `session.rollback()`. */
  function RolledBack(st: Loop): Loop
  {
    st.(db := st.committed)
  }

  /**
   * One iteration: get-or-create, fetch, skip a "message" reply or an empty
   * extraction, upsert, add the name to `valid_groups`, commit. Any error
   * rolls back; the name stays valid when only the commit fails.
   */
  function SyncGroup(st: Loop, e: CatalogueEntry, fetch: Fetch): Loop
  {
    if !e.groupName.Truthy() then st
    else
      var name := e.groupName.s;
      var en := Ensure(st.db, e.facultyName.Get(), name);
      if en.group.Failure? || fetch(name).Failure? then RolledBack(st)
      else
        var t := fetch(name).value;
        var records := Extract(name, t);
        if HasMessage(t) || records == [] then st.(db := en.db)
        else
          var gid := en.group.value.id;
          if !Constraints(ClearKind(en.db, gid, records[0].kind)) then RolledBack(st)
          else
            var u := Upserted(en.db, gid, records);
            if Constraints(u) then Loop(u, u, st.valid + {name})
            else Loop(st.committed, st.committed, st.valid + {name})
  }

  function SyncGroups(st: Loop, es: seq<CatalogueEntry>, fetch: Fetch): Loop
    decreases |es|
  {
    if es == [] then st else SyncGroup(SyncGroups(st, es[..|es| - 1], fetch), es[|es| - 1], fetch)
  }

  /** One more entry of the list is one more step of the fold. */
  lemma SyncGroupsSnoc(st: Loop, es: seq<CatalogueEntry>, i: nat, fetch: Fetch)
    requires i < |es|
    ensures SyncGroups(st, es[..i + 1], fetch) == SyncGroup(SyncGroups(st, es[..i], fetch), es[i], fetch)
  {
    assert es[..i + 1][..i] == es[..i];
  }

  /** Both the session's rows and the committed rows keep every constraint. */
  ghost predicate Consistent(db: Db, committed: Db)
  {
    Constraints(db) && IdsBelow(db) && Constraints(committed) && IdsBelow(committed)
  }

  /** The first delete of an upsert keeps every constraint. */
  lemma ClearKindConstraints(db: Db, groupId: Id, kind: string)
    requires Constraints(db)
    ensures Constraints(ClearKind(db, groupId, kind))
  {
    FilterPairwise(db.lessons, (l: Lesson) => Survives(groupId, kind, l), LessonsDistinct);
  }

  /**
   * On consistent rows one iteration keeps them consistent, and the name is
   * added to `valid_groups` exactly when its timetable yields rows.
   */
  lemma SyncGroupEffect(st: Loop, e: CatalogueEntry, fetch: Fetch)
    requires Consistent(st.db, st.committed)
    ensures var r := SyncGroup(st, e, fetch);
      Consistent(r.db, r.committed)
      && r.valid == if e.groupName.Truthy() && Produces(fetch, e.groupName.s) then st.valid + {e.groupName.s} else st.valid
  {
    if e.groupName.Truthy() {
      var name := e.groupName.s;
      EnsureKeepsConstraints(st.db, e.facultyName.Get(), name);
      var en := Ensure(st.db, e.facultyName.Get(), name);
      if fetch(name).Success? {
        var records := Extract(name, fetch(name).value);
        if !HasMessage(fetch(name).value) && records != [] {
          ClearKindConstraints(en.db, en.group.value.id, records[0].kind);
          UpsertedEffect(en.db, en.group.value.id, records);
        }
      }
    }
  }

  /** The entries whose names `valid_groups` collects. */
  predicate Counted(e: CatalogueEntry, fetch: Fetch)
  {
    e.groupName.Truthy() && Produces(fetch, e.groupName.s)
  }

  /**
   * On consistent rows the loop keeps them consistent, and `valid_groups`
   * ends up holding exactly the truthy names of the visited entries whose
   * timetable yields rows.
   */
  lemma {:induction false} SyncGroupsEffect(st: Loop, es: seq<CatalogueEntry>, fetch: Fetch)
    requires Consistent(st.db, st.committed)
    ensures var r := SyncGroups(st, es, fetch);
      Consistent(r.db, r.committed)
      && forall name :: name in r.valid <==>
           name in st.valid || exists k :: 0 <= k < |es| && Counted(es[k], fetch) && es[k].groupName.s == name
    decreases |es|
  {
    if es != [] {
      var init, e := es[..|es| - 1], es[|es| - 1];
      SyncGroupsEffect(st, init, fetch);
      SyncGroupEffect(SyncGroups(st, init, fetch), e, fetch);
      CountedSnoc(st.valid, es, fetch, SyncGroups(st, init, fetch).valid, SyncGroups(st, es, fetch).valid);
    }
  }

  /** The names collected over `init` and then one more entry. */
  lemma CountedSnoc(valid0: set<string>, es: seq<CatalogueEntry>, fetch: Fetch, prev: set<string>, valid: set<string>)
    requires es != []
    requires var init := es[..|es| - 1];
      forall name :: name in prev <==>
        name in valid0 || exists k :: 0 <= k < |init| && Counted(init[k], fetch) && init[k].groupName.s == name
    requires var e := es[|es| - 1];
      valid == if e.groupName.Truthy() && Produces(fetch, e.groupName.s) then prev + {e.groupName.s} else prev
    ensures forall name :: name in valid <==>
      name in valid0 || exists k :: 0 <= k < |es| && Counted(es[k], fetch) && es[k].groupName.s == name
  {
    forall name | name in valid
      ensures name in valid0 || exists k :: 0 <= k < |es| && Counted(es[k], fetch) && es[k].groupName.s == name
    {
      CountedSound(valid0, es, fetch, prev, valid, name);
    }
    forall name | name !in valid0 && exists k :: 0 <= k < |es| && Counted(es[k], fetch) && es[k].groupName.s == name
      ensures name in valid
    {
      var k :| 0 <= k < |es| && Counted(es[k], fetch) && es[k].groupName.s == name;
      if k < |es| - 1 {
        assert es[..|es| - 1][k] == es[k];
      }
    }
  }

  lemma CountedSound(valid0: set<string>, es: seq<CatalogueEntry>, fetch: Fetch, prev: set<string>, valid: set<string>, name: string)
    requires es != [] && name in valid
    requires var init := es[..|es| - 1];
      forall name :: name in prev ==>
        name in valid0 || exists k :: 0 <= k < |init| && Counted(init[k], fetch) && init[k].groupName.s == name
    requires var e := es[|es| - 1];
      valid == if e.groupName.Truthy() && Produces(fetch, e.groupName.s) then prev + {e.groupName.s} else prev
    ensures name in valid0 || exists k :: 0 <= k < |es| && Counted(es[k], fetch) && es[k].groupName.s == name
  {
    var init := es[..|es| - 1];
    if name !in prev {
      assert Counted(es[|es| - 1], fetch);
    } else if name !in valid0 {
      var k :| 0 <= k < |init| && Counted(init[k], fetch) && init[k].groupName.s == name;
      assert es[k] == init[k];
    }
  }

  // ---------------------------------------------------------------------
  // Deleting the groups left out of `valid_groups`
  // ---------------------------------------------------------------------

  /** The loop over `existing`: every group whose name is not valid is deleted with its lessons. */
  function DeleteStale(db: Db, existing: seq<Group>, valid: set<string>): Db
    decreases |existing|
  {
    if existing == [] then db
    else
      var d := DeleteStale(db, existing[..|existing| - 1], valid);
      var g := existing[|existing| - 1];
      if g.name in valid then d else DeleteGroupRow(d, g.id)
  }

  /** The ids of the listed groups whose names are not valid. */
  function StaleIds(existing: seq<Group>, valid: set<string>): set<Id>
  {
    set g | g in existing && g.name !in valid :: g.id
  }

  /** Group ids are a key. */
  lemma GroupIdsUnique(db: Db, g: Group, h: Group)
    requires Constraints(db) && g in db.groups && h in db.groups && g.id == h.id
    ensures g == h
  {
    var i :| 0 <= i < |db.groups| && db.groups[i] == g;
    var j :| 0 <= j < |db.groups| && db.groups[j] == h;
  }

  /** Deleting one group row removes that group (by its key) and its lessons. */
  lemma DeleteOneGroup(db: Db, h: Group)
    requires Constraints(db) && IdsBelow(db)
    ensures var d := DeleteGroupRow(db, h.id);
      Constraints(d) && IdsBelow(d)
      && (forall g :: g in d.groups <==> g in db.groups && g.id != h.id)
      && (forall l :: l in d.lessons <==> l in db.lessons && l.groupId != h.id)
      && d.faculties == db.faculties && d.professors == db.professors && d.professorLessons == db.professorLessons
      && d.nextId == db.nextId
  {
    DeleteGroupRowConstraints(db, h.id);
  }

  /**
   * Deleting the stale groups among `existing` (rows of the table) keeps
   * every constraint and removes exactly those groups and exactly their
   * lessons; faculties and professors are untouched.
   */
  lemma {:induction false} DeleteStaleEffect(db: Db, existing: seq<Group>, valid: set<string>)
    requires Constraints(db) && IdsBelow(db)
    requires forall g :: g in existing ==> g in db.groups
    ensures var d := DeleteStale(db, existing, valid);
      Constraints(d) && IdsBelow(d)
      && (forall g :: g in d.groups <==> g in db.groups && (g in existing ==> g.name in valid))
      && (forall l :: l in d.lessons <==> l in db.lessons && l.groupId !in StaleIds(existing, valid))
      && d.faculties == db.faculties && d.professors == db.professors && d.professorLessons == db.professorLessons
      && d.nextId == db.nextId
    decreases |existing|
  {
    if existing != [] {
      var init, h := existing[..|existing| - 1], existing[|existing| - 1];
      assert forall g :: g in existing <==> g in init || g == h;
      DeleteStaleEffect(db, init, valid);
      var d := DeleteStale(db, init, valid);
      if h.name !in valid {
        DeleteOneGroup(d, h);
        var d' := DeleteGroupRow(d, h.id);
        forall g | g in db.groups && g.id == h.id ensures g == h {
          GroupIdsUnique(db, g, h);
        }
        assert StaleIds(existing, valid) == StaleIds(init, valid) + {h.id};
        forall l | l in db.lessons && l.groupId in StaleIds(existing, valid) ensures l !in d'.lessons {
        }
      } else {
        assert StaleIds(existing, valid) == StaleIds(init, valid);
      }
    }
  }

  /**
   * The database side of `run_full_sync` up to the professor phase: from
   * a consistent committed state, `valid_groups` is exactly the truthy names
   * of the visited entries whose timetable yields rows; after the deletion
   * every remaining group has a valid name, the deleted groups' lessons are
   * gone, and every constraint holds, so the commit succeeds.
   */
  lemma FullSyncEffect(db: Db, es: seq<CatalogueEntry>, fetch: Fetch)
    requires Constraints(db) && IdsBelow(db)
    ensures var synced := SyncGroups(Loop(db, db, {}), es, fetch);
      var pruned := DeleteStale(synced.db, synced.db.groups, synced.valid);
      (forall name :: name in synced.valid <==>
         exists k :: 0 <= k < |es| && Counted(es[k], fetch) && es[k].groupName.s == name)
      && Constraints(pruned)
      && (forall g :: g in pruned.groups <==> g in synced.db.groups && g.name in synced.valid)
      && (forall l :: l in pruned.lessons <==> l in synced.db.lessons && l.groupId !in StaleIds(synced.db.groups, synced.valid))
  {
    SyncGroupsEffect(Loop(db, db, {}), es, fetch);
    var synced := SyncGroups(Loop(db, db, {}), es, fetch);
    DeleteStaleEffect(synced.db, synced.db.groups, synced.valid);
  }

  // ---------------------------------------------------------------------
  // The loop of `run_full_sync_for_faculty`
  // ---------------------------------------------------------------------

  /** `faculty_obj`: never assigned, or assigned the faculty of that name or None. */
  datatype Binding = Unbound | Bound(faculty: Option<Faculty>)

  datatype FacultyLoop = FacultyLoop(db: Db, committed: Db, valid: set<string>, facultyObj: Binding)

  /** The entries of that faculty: `g.get("facultyName") == faculty_name`. */
  function FacultyEntries(es: seq<CatalogueEntry>, facultyName: string): (r: seq<CatalogueEntry>)
    ensures IsSubsequence(r, es)
    ensures forall e :: e in r <==> e in es && e.facultyName == Text(facultyName)
  {
    FilterIsSubsequence(es, (e: CatalogueEntry) => e.facultyName == Text(facultyName));
    Filter(es, (e: CatalogueEntry) => e.facultyName == Text(facultyName))
  }

  /**
   * One iteration: as in the full sync, except that every record list is
   * upserted (an empty one too), the name is added after the commit, and
   * `faculty_obj` is looked up again unless a "message" reply skipped the
   * rest of the iteration.
   */
  function SyncFacultyGroup(st: FacultyLoop, e: CatalogueEntry, facultyName: string, fetch: Fetch): FacultyLoop
  {
    if !e.groupName.Truthy() then st
    else
      var name := e.groupName.s;
      var en := Ensure(st.db, Some(facultyName), name);
      var rolledBack := st.(db := st.committed);
      if en.group.Failure? || fetch(name).Failure? then
        rolledBack.(facultyObj := Bound(FindFaculty(st.committed, facultyName)))
      else if HasMessage(fetch(name).value) then st.(db := en.db)
      else FacultyCommit(st, en.db, en.group.value.id, Extract(name, fetch(name).value), name, facultyName)
  }

  /** The end of a faculty iteration: the upsert, then the commit that makes the name valid, or a rollback. */
  function FacultyCommit(st: FacultyLoop, db: Db, gid: Id, records: seq<LessonRecord>, name: string, facultyName: string): FacultyLoop
  {
    var rolledBack := st.(db := st.committed, facultyObj := Bound(FindFaculty(st.committed, facultyName)));
    if records != [] && !Constraints(ClearKind(db, gid, records[0].kind)) then rolledBack
    else
      var u := Upserted(db, gid, records);
      if Constraints(u) then FacultyLoop(u, u, st.valid + {name}, Bound(FindFaculty(u, facultyName)))
      else rolledBack
  }

  lemma FacultyCommitConsistent(st: FacultyLoop, db: Db, gid: Id, records: seq<LessonRecord>, name: string, facultyName: string)
    requires Consistent(st.db, st.committed) && Constraints(db) && IdsBelow(db)
    ensures var r := FacultyCommit(st, db, gid, records, name, facultyName); Consistent(r.db, r.committed)
  {
    UpsertedEffect(db, gid, records);
  }

  function SyncFacultyGroups(st: FacultyLoop, es: seq<CatalogueEntry>, facultyName: string, fetch: Fetch): FacultyLoop
    decreases |es|
  {
    if es == [] then st
    else SyncFacultyGroup(SyncFacultyGroups(st, es[..|es| - 1], facultyName, fetch), es[|es| - 1], facultyName, fetch)
  }

  lemma SyncFacultyGroupsSnoc(st: FacultyLoop, es: seq<CatalogueEntry>, facultyName: string, fetch: Fetch, i: nat)
    requires i < |es|
    ensures SyncFacultyGroups(st, es[..i + 1], facultyName, fetch)
      == SyncFacultyGroup(SyncFacultyGroups(st, es[..i], facultyName, fetch), es[i], facultyName, fetch)
  {
    assert es[..i + 1][..i] == es[..i];
  }

  /** The groups linked to that faculty: `Group.faculty_id == faculty_obj.id`. */
  function InFaculty(gs: seq<Group>, facultyId: Id): (r: seq<Group>)
    ensures forall g :: g in r <==> g in gs && g.facultyId == Some(facultyId)
  {
    Filter(gs, (g: Group) => g.facultyId == Some(facultyId))
  }

  /**
   * After the loop: an unbound `faculty_obj` raises a NameError and None an
   * AttributeError; otherwise the faculty's groups that are not valid are
   * deleted, the session commits and the count of valid names is returned.
   * The first component is what is committed.
   */
  function FacultyFinish(st: FacultyLoop): (Db, Result<nat>)
  {
    match st.facultyObj
    case Unbound => (st.committed, Failure(NameError("faculty_obj")))
    case Bound(None) => (st.committed, Failure(AttributeError("id")))
    case Bound(Some(f)) =>
      var d := DeleteStale(st.db, InFaculty(st.db.groups, f.id), st.valid);
      if Constraints(d) then (d, Success(|st.valid|)) else (st.committed, Failure(IntegrityError("flush")))
  }

  /** `run_full_sync_for_faculty` against a committed state: what it commits and what it returns. */
  function SyncFaculty(db: Db, catalogue: Result<Catalogue>, facultyName: string, limit: Option<int>, fetch: Fetch): (Db, Result<nat>)
  {
    if catalogue.Failure? then (db, Failure(catalogue.error))
    else
      var groups := GroupsOf(catalogue.value);
      if groups.None? || groups.value == [] then (db, Success(0))
      else
        var fg := FacultyEntries(groups.value, facultyName);
        if fg == [] then (db, Success(0))
        else FacultyFinish(SyncFacultyGroups(FacultyLoop(db, db, {}, Unbound), fg[..Visited(|fg|, limit)], facultyName, fetch))
  }

  /** One iteration of the faculty loop keeps consistent rows consistent. */
  lemma SyncFacultyGroupConsistent(st: FacultyLoop, e: CatalogueEntry, facultyName: string, fetch: Fetch)
    requires Consistent(st.db, st.committed)
    ensures var r := SyncFacultyGroup(st, e, facultyName, fetch); Consistent(r.db, r.committed)
  {
    if e.groupName.Truthy() {
      var name := e.groupName.s;
      EnsureKeepsConstraints(st.db, Some(facultyName), name);
      var en := Ensure(st.db, Some(facultyName), name);
      if fetch(name).Success? && !HasMessage(fetch(name).value) {
        FacultyCommitConsistent(st, en.db, en.group.value.id, Extract(name, fetch(name).value), name, facultyName);
      }
    }
  }

  /**
   * One iteration of the faculty loop adds at most its own name to
   * `valid_groups`; on consistent rows a fetched timetable with no
   * "message" whose extraction is empty still makes the name valid.
   */
  lemma SyncFacultyGroupValid(st: FacultyLoop, e: CatalogueEntry, facultyName: string, fetch: Fetch)
    requires Consistent(st.db, st.committed)
    ensures var r := SyncFacultyGroup(st, e, facultyName, fetch);
      st.valid <= r.valid
      && (forall n :: n in r.valid ==> n in st.valid || (e.groupName.Truthy() && n == e.groupName.s))
      && ((e.groupName.Truthy() && fetch(e.groupName.s).Success? && !HasMessage(fetch(e.groupName.s).value)
           && Extract(e.groupName.s, fetch(e.groupName.s).value) == []) ==> e.groupName.s in r.valid)
  {
    if e.groupName.Truthy() {
      var name := e.groupName.s;
      EnsureKeepsConstraints(st.db, Some(facultyName), name);
      var en := Ensure(st.db, Some(facultyName), name);
      if fetch(name).Success? && !HasMessage(fetch(name).value) && Extract(name, fetch(name).value) == [] {
        assert Upserted(en.db, en.group.value.id, []) == en.db;
      }
    }
  }

  /**
   * When `faculty_obj` is bound to a faculty the deletion keeps every
   * constraint, removes exactly that faculty's groups whose names are not
   * valid, and reports the number of valid names.
   */
  lemma FacultyFinishEffect(st: FacultyLoop)
    requires Consistent(st.db, st.committed) && st.facultyObj.Bound? && st.facultyObj.faculty.Some?
    ensures var (d, r) := FacultyFinish(st); var fid := st.facultyObj.faculty.value.id;
      r == Success(|st.valid|) && Constraints(d)
      && (forall g :: g in d.groups <==> g in st.db.groups && (g.facultyId == Some(fid) ==> g.name in st.valid))
  {
    var fid := st.facultyObj.faculty.value.id;
    DeleteStaleEffect(st.db, InFaculty(st.db.groups, fid), st.valid);
  }

  // ---------------------------------------------------------------------
  // `run_full_sync_for_group`
  // ---------------------------------------------------------------------

  /** `next((g for g in groups if g["groupName"] == name), None)`: a missing key raises a KeyError. */
  function FindEntry(es: seq<CatalogueEntry>, name: string): (r: Result<Option<CatalogueEntry>>)
    ensures r.Success? && r.value.Some? ==> r.value.value in es && r.value.value.groupName == Text(name)
    ensures r.Success? && r.value.None? ==> forall e :: e in es ==> e.groupName != Text(name) && e.groupName != Missing
    ensures r.Failure? ==> r.error == KeyError("groupName") && exists e :: e in es && e.groupName == Missing
  {
    if es == [] then Success(None)
    else if es[0].groupName.Missing? then Failure(KeyError("groupName"))
    else if es[0].groupName == Text(name) then Success(Some(es[0]))
    else
      var r := FindEntry(es[1..], name);
      assert forall e :: e in es[1..] ==> e in es;
      r
  }

  /** `group_info["facultyName"]`: a missing key raises a KeyError, null reads as None. */
  function FacultyNameOf(e: CatalogueEntry): Result<Option<string>>
  {
    if e.facultyName.Missing? then Failure(KeyError("facultyName")) else Success(e.facultyName.Get())
  }

  /** `delete_group_if_exists` from a session whose rows are `db` over the committed `committed`, returning 0. */
  function DeleteAndReturnZero(db: Db, committed: Db, name: string): (Db, Result<nat>)
  {
    match FindGroup(db, name)
    case None => (committed, Success(0))
    case Some(g) =>
      var d := DeleteGroupRow(db, g.id);
      if Constraints(d) then (d, Success(0)) else (committed, Failure(IntegrityError("flush")))
  }

  /** `run_full_sync_for_group` against a committed state: what it commits and what it returns. */
  function SyncOneGroup(db: Db, catalogue: Result<Catalogue>, name: string, fetch: Fetch): (Db, Result<nat>)
  {
    if catalogue.Failure? then (db, Failure(catalogue.error))
    else if catalogue.value.CatalogueList? then (db, Failure(AttributeError("get")))
    else
      var groups := GroupsOf(catalogue.value);
      if groups.None? then (db, Failure(TypeError("'NoneType' object is not iterable")))
      else
        var found := FindEntry(groups.value, name);
        if found.Failure? then (db, Failure(found.error))
        else if found.value.None? then DeleteAndReturnZero(db, db, name)
        else
          var facultyName := FacultyNameOf(found.value.value);
          if facultyName.Failure? then (db, Failure(facultyName.error))
          else
            var en := Ensure(db, facultyName.value, name);
            if en.group.Failure? then (db, Failure(en.group.error))
            else GroupSync(en.db, db, name, en.group.value.id, fetch)
  }

  /**
   * The rest of a one-group sync once its group row `gid` exists in the
   * session rows `d` (over the committed rows `db`): fetch, extract, then
   * delete the group or replace its lessons and commit.
   */
  function GroupSync(d: Db, db: Db, name: string, gid: Id, fetch: Fetch): (Db, Result<nat>)
  {
    if fetch(name).Failure? then (db, Failure(fetch(name).error))
    else
      var t := fetch(name).value;
      var records := Extract(name, t);
      if HasMessage(t) || records == [] then DeleteAndReturnZero(d, db, name)
      else if !Constraints(ClearKind(d, gid, records[0].kind)) then (db, Failure(IntegrityError("flush")))
      else
        var u := Upserted(d, gid, records);
        if Constraints(u) then (u, Success(|records|)) else (db, Failure(IntegrityError("flush")))
  }

  /**
   * On a consistent database: a group missing from the catalogue, a
   * "message" reply or an empty extraction leaves no group of that name and
   * returns 0; otherwise a successful call returns the number of records.
   */
  lemma SyncOneGroupEffect(db: Db, groups: GroupList, name: string, fetch: Fetch)
    requires Constraints(db) && IdsBelow(db)
    requires FindEntry(if groups.Groups? then groups.entries else [], name).Success?
    requires groups.Groups? ==> FindEntry(groups.entries, name).value.Some? ==>
      FacultyNameOf(FindEntry(groups.entries, name).value.value).Success?
    requires !groups.NullGroups?
    ensures var (d, r) := SyncOneGroup(db, Success(CatalogueObject(groups)), name, fetch);
      var es := if groups.Groups? then groups.entries else [];
      Constraints(d)
      && (FindEntry(es, name).value.None? || (fetch(name).Success? && !Produces(fetch, name)) ==>
            r == Success(0) && FindGroup(d, name).None?)
      && (r.Success? && r.value != 0 ==> Produces(fetch, name) && r.value == |Extract(name, fetch(name).value)|)
  {
    var es := if groups.Groups? then groups.entries else [];
    if FindEntry(es, name).value.None? {
      if FindGroup(db, name).Some? {
        DeleteGroupEffect(db, name);
      }
    } else {
      var facultyName := FacultyNameOf(FindEntry(es, name).value.value).value;
      EnsureKeepsConstraints(db, facultyName, name);
      var en := Ensure(db, facultyName, name);
      FindGroupPresent(en.db, en.group.value);
      GroupSyncEffect(en.db, db, name, en.group.value.id, fetch);
    }
  }

  /**
   * Once the group row exists: a reply that produces no records deletes
   * the group and returns 0; a non-zero count is the number of records
   * extracted; what is committed is consistent.
   */
  lemma GroupSyncEffect(d: Db, db: Db, name: string, gid: Id, fetch: Fetch)
    requires Constraints(d) && IdsBelow(d) && Constraints(db) && FindGroup(d, name).Some?
    ensures var (after, r) := GroupSync(d, db, name, gid, fetch);
      Constraints(after)
      && (fetch(name).Success? && !Produces(fetch, name) ==> r == Success(0) && FindGroup(after, name).None?)
      && (r.Success? && r.value != 0 ==> Produces(fetch, name) && r.value == |Extract(name, fetch(name).value)|)
  {
    if fetch(name).Success? && !Produces(fetch, name) {
      DeleteGroupEffect(d, name);
    }
  }

  lemma FindGroupPresent(db: Db, g: Group)
    requires g in db.groups
    ensures FindGroup(db, g.name).Some?
  {
  }
}
