/**
 * The synchronisation engine: the three entry points that pull the
 * catalogue and the timetables and reconcile them into the database, the
 * `CACHE_UPDATE_ENABLED` gate around the professor rebuild, and the
 * professor directory the full sync refreshes at the end.
 */
module Sync {
  import opened Wrappers
  import opened Seqs
  import opened Models
  import opened Store
  import opened TimetableJson
  import opened Parser
  import opened Reconcile
  import opened ProfessorIndex
  import opened ProfessorSearch
  import opened SyncSteps

  // ---------------------------------------------------------------------
  // Loop bodies on a session
  // ---------------------------------------------------------------------

  /** One iteration of the loop of `run_full_sync`. */
  method SyncGroupStep(s: Session, e: CatalogueEntry, fetch: Fetch, valid: set<string>) returns (validGroups: set<string>)
    requires s.Valid()
    modifies s
    ensures s.Valid()
    ensures Loop(s.db, s.committed, validGroups) == SyncGroup(Loop(old(s.db), old(s.committed), valid), e, fetch)
  {
    validGroups := valid;
    var groupName := e.groupName.Get();
    var facultyName := e.facultyName.Get();
    if groupName.None? || groupName.value == "" {
      return;
    }
    var name := groupName.value;
    var groupObj := EnsureFacultyAndGroup(s, facultyName, name);
    if groupObj.Failure? {
      s.Rollback();
      return;
    }
    var ttJson := fetch(name);
    if ttJson.Failure? {
      s.Rollback();
      return;
    }
    if HasMessage(ttJson.value) {
      return;
    }
    var records := ExtractLessonsFromTimetableJson(name, ttJson.value);
    if records == [] {
      return;
    }
    var inserted := UpsertLessonsForGroup(s, groupObj.value, records);
    if inserted.Failure? {
      s.Rollback();
      return;
    }
    validGroups := validGroups + {name};
    var committed := s.Commit();
    if committed.Failure? {
      s.Rollback();
    }
  }

  /** The loop of `run_full_sync`, stopping at a truthy `limit_groups`. */
  method SyncAllGroups(s: Session, groups: seq<CatalogueEntry>, limitGroups: Option<int>, fetch: Fetch) returns (validGroups: set<string>)
    requires s.Valid()
    modifies s
    ensures s.Valid()
    ensures Loop(s.db, s.committed, validGroups)
      == SyncGroups(Loop(old(s.db), old(s.committed), {}), groups[..Visited(|groups|, limitGroups)], fetch)
  {
    validGroups := {};
    var idx := 0;
    while idx < |groups|
      invariant 0 <= idx <= Visited(|groups|, limitGroups)
      invariant s.Valid()
      invariant Loop(s.db, s.committed, validGroups) == SyncGroups(Loop(old(s.db), old(s.committed), {}), groups[..idx], fetch)
    {
      if limitGroups.Some? && limitGroups.value != 0 && idx >= limitGroups.value {
        break;
      }
      SyncGroupsSnoc(Loop(old(s.db), old(s.committed), {}), groups, idx, fetch);
      validGroups := SyncGroupStep(s, groups[idx], fetch, validGroups);
      idx := idx + 1;
    }
  }

  /** The deletion loop: every listed group whose name is not valid goes, with its lessons. */
  method DeleteGroupsNotIn(s: Session, existing: seq<Group>, validGroups: set<string>)
    requires s.Valid()
    modifies s
    ensures s.Valid() && s.committed == old(s.committed)
    ensures s.db == DeleteStale(old(s.db), existing, validGroups)
  {
    for i := 0 to |existing|
      invariant s.Valid() && s.committed == old(s.committed)
      invariant s.db == DeleteStale(old(s.db), existing[..i], validGroups)
    {
      var grp := existing[i];
      assert existing[..i + 1][..i] == existing[..i];
      if grp.name !in validGroups {
        s.db := DeleteGroupRow(s.db, grp.id);
      }
    }
    assert existing[..|existing|] == existing;
  }

  /** One iteration of the loop of `run_full_sync_for_faculty`. */
  method SyncFacultyGroupStep(s: Session, e: CatalogueEntry, facultyName: string, fetch: Fetch, valid: set<string>, facultyObj: Binding)
      returns (validGroups: set<string>, binding: Binding)
    requires s.Valid()
    modifies s
    ensures s.Valid()
    ensures FacultyLoop(s.db, s.committed, validGroups, binding)
      == SyncFacultyGroup(FacultyLoop(old(s.db), old(s.committed), valid, facultyObj), e, facultyName, fetch)
  {
    validGroups, binding := valid, facultyObj;
    var groupName := e.groupName.Get();
    if groupName.None? || groupName.value == "" {
      return;
    }
    var name := groupName.value;
    var groupObj := EnsureFacultyAndGroup(s, Some(facultyName), name);
    if groupObj.Success? {
      var ttJson := fetch(name);
      if ttJson.Success? {
        if HasMessage(ttJson.value) {
          return;
        }
        var records := ExtractLessonsFromTimetableJson(name, ttJson.value);
        var inserted := UpsertLessonsForGroup(s, groupObj.value, records);
        if inserted.Success? {
          var committed := s.Commit();
          if committed.Success? {
            validGroups := validGroups + {name};
          } else {
            s.Rollback();
          }
        } else {
          s.Rollback();
        }
      } else {
        s.Rollback();
      }
    } else {
      s.Rollback();
    }
    binding := Bound(FindFaculty(s.db, facultyName));
  }

  /** The loop of `run_full_sync_for_faculty`. */
  method SyncFacultyGroupsLoop(s: Session, groups: seq<CatalogueEntry>, facultyName: string, limitGroups: Option<int>, fetch: Fetch)
      returns (validGroups: set<string>, facultyObj: Binding)
    requires s.Valid()
    modifies s
    ensures s.Valid()
    ensures FacultyLoop(s.db, s.committed, validGroups, facultyObj)
      == SyncFacultyGroups(FacultyLoop(old(s.db), old(s.committed), {}, Unbound), groups[..Visited(|groups|, limitGroups)], facultyName, fetch)
  {
    validGroups, facultyObj := {}, Unbound;
    var idx := 0;
    while idx < |groups|
      invariant 0 <= idx <= Visited(|groups|, limitGroups)
      invariant s.Valid()
      invariant FacultyLoop(s.db, s.committed, validGroups, facultyObj)
        == SyncFacultyGroups(FacultyLoop(old(s.db), old(s.committed), {}, Unbound), groups[..idx], facultyName, fetch)
    {
      if limitGroups.Some? && limitGroups.value != 0 && idx >= limitGroups.value {
        break;
      }
      SyncFacultyGroupsSnoc(FacultyLoop(old(s.db), old(s.committed), {}, Unbound), groups, facultyName, fetch, idx);
      validGroups, facultyObj := SyncFacultyGroupStep(s, groups[idx], facultyName, fetch, validGroups, facultyObj);
      idx := idx + 1;
    }
  }

  /**
   * What the professor phase leaves of the database `before`: a failed
   * rebuild is rolled back and reported as the NameError of the unbound
   * `existing_profs`; a successful one gives the rebuilt tables, keeping
   * exactly the professors that have lesson rows.
   */
  ghost predicate RebuiltFrom(before: Db, r: Result<()>, after: Db)
  {
    && (Rebuild(before).Failure? ==> r == Failure(NameError("existing_profs")) && after == before)
    && (Rebuild(before).Success? ==>
          var rebuilt := Rebuild(before).value;
          r == Success(()) && after == rebuilt.(professors := after.professors)
          && forall p :: p in after.professors <==> p in rebuilt.professors && HasRows(rebuilt.professorLessons, p.id))
  }

  // ---------------------------------------------------------------------
  // The engine
  // ---------------------------------------------------------------------

  class SyncEngine {
    /** The committed database every run starts from and leaves behind. */
    var database: Db
    /** The module global `CACHE_UPDATE_ENABLED`. */
    var cacheUpdateEnabled: bool
    /** Every value the gate has been set to, in order. */
    ghost var gateLog: seq<bool>
    /** The professor directory of the search. */
    const directory: ProfessorDirectory

    ghost predicate Valid()
      reads this, directory
    {
      Constraints(database) && IdsBelow(database) && directory.Valid()
    }

    constructor (start: Db, dir: ProfessorDirectory)
      requires Constraints(start) && IdsBelow(start) && dir.Valid()
      ensures Valid() && database == start && cacheUpdateEnabled && gateLog == [] && directory == dir
    {
      database := start;
      cacheUpdateEnabled := true;
      gateLog := [];
      directory := dir;
    }

    /**
     * The professor phase of `run_full_sync`: the gate is closed, the
     * professor table rebuilt and committed, professors without lessons
     * removed and committed, and the gate opened again whatever happened.
     * A failed rebuild is rolled back and reported as the NameError the
     * unbound `existing_profs` raises afterwards.
     */
    method RebuildProfessorTables(s: Session) returns (r: Result<()>)
      requires s.Valid() && s.db == s.committed
      modifies this, s
      ensures s.Valid() && s.db == s.committed
      ensures gateLog == old(gateLog) + [false, true] && cacheUpdateEnabled
      ensures database == old(database)
      ensures RebuiltFrom(old(s.db), r, s.db)
    {
      cacheUpdateEnabled := false;
      gateLog := gateLog + [false];
      var rebuilt := UpsertLessonsForProfessors(s);
      var ok := rebuilt.Success?;
      if ok {
        var committed := s.Commit();
        ok := committed.Success?;
      }
      if ok {
        var cleaned := DeleteIdleProfessors(s);
        r := Success(());
      } else {
        s.Rollback();
        r := Failure(NameError("existing_profs"));
      }
      cacheUpdateEnabled := true;
      gateLog := gateLog + [true];
    }

    /**
     * `run_full_sync`: `catalogue` is what `fetch_groups` returned or
     * raised, `fetch` what `fetch_timetable_for_group` returns or raises
     * for each name, `now` the clock of the final directory read. Returns
     * the outcome and `valid_groups`.
     */
    method RunFullSync(catalogue: Result<Catalogue>, fetch: Fetch, limitGroups: Option<int>, now: int)
        returns (r: Result<()>, validGroups: set<string>)
      requires Valid()
      modifies this, directory
      ensures Valid()
      ensures catalogue.Failure? ==>
        r == Failure(catalogue.error) && database == old(database) && gateLog == old(gateLog)
        && cacheUpdateEnabled == old(cacheUpdateEnabled)
      ensures catalogue.Success? && (GroupsOf(catalogue.value).None? || GroupsOf(catalogue.value).value == []) ==>
        r == Success(()) && validGroups == {} && database == old(database) && gateLog == old(gateLog)
        && cacheUpdateEnabled == old(cacheUpdateEnabled)
      ensures catalogue.Success? && GroupsOf(catalogue.value).Some? && GroupsOf(catalogue.value).value != [] ==>
        var es := GroupsOf(catalogue.value).value;
        var synced := SyncGroups(Loop(old(database), old(database), {}), es[..Visited(|es|, limitGroups)], fetch);
        var pruned := DeleteStale(synced.db, synced.db.groups, synced.valid);
        validGroups == synced.valid
        && gateLog == old(gateLog) + [false, true] && cacheUpdateEnabled
        && RebuiltFrom(pruned, r, database)
      ensures CacheState(directory.cache, directory.timestamp)
        == Read(CacheState(old(directory.cache), old(directory.timestamp)), cacheUpdateEnabled, now, database.professors)
    {
      validGroups := {};
      if catalogue.Failure? {
        r := Failure(catalogue.error);
      } else {
        var groups := GroupsOf(catalogue.value);
        if groups.None? || groups.value == [] {
          r := Success(());
        } else {
          r, validGroups := SyncGroupsAndRebuild(groups.value, fetch, limitGroups);
        }
      }
      var cached := directory.GetCachedProfessors(cacheUpdateEnabled, now, database.professors);
    }

    /**
     * The work of `run_full_sync` on a non-empty group list: sync the
     * visited groups, delete the stale ones and commit, then rebuild the
     * professor tables.
     */
    method SyncGroupsAndRebuild(es: seq<CatalogueEntry>, fetch: Fetch, limitGroups: Option<int>)
        returns (r: Result<()>, validGroups: set<string>)
      requires Valid()
      modifies this
      ensures Valid()
      ensures var synced := SyncGroups(Loop(old(database), old(database), {}), es[..Visited(|es|, limitGroups)], fetch);
        var pruned := DeleteStale(synced.db, synced.db.groups, synced.valid);
        validGroups == synced.valid
        && gateLog == old(gateLog) + [false, true] && cacheUpdateEnabled
        && RebuiltFrom(pruned, r, database)
    {
      ghost var synced := SyncGroups(Loop(database, database, {}), es[..Visited(|es|, limitGroups)], fetch);
      ghost var pruned := DeleteStale(synced.db, synced.db.groups, synced.valid);
      var s;
      s, validGroups := SyncAndPrune(es, fetch, limitGroups);
      assert s.db == pruned;
      r := RebuildProfessorTables(s);
      assert RebuiltFrom(pruned, r, s.db);
      database := s.committed;
    }

    /** Syncs the visited groups on a new session, then deletes the groups not among them and commits. */
    method SyncAndPrune(es: seq<CatalogueEntry>, fetch: Fetch, limitGroups: Option<int>) returns (s: Session, validGroups: set<string>)
      requires Valid()
      ensures fresh(s) && s.Valid() && s.db == s.committed
      ensures var synced := SyncGroups(Loop(database, database, {}), es[..Visited(|es|, limitGroups)], fetch);
        validGroups == synced.valid && s.db == DeleteStale(synced.db, synced.db.groups, synced.valid)
    {
      s := new Session(database);
      validGroups := SyncAllGroups(s, es, limitGroups, fetch);
      ghost var synced := Loop(s.db, s.committed, validGroups);
      SyncGroupsEffect(Loop(database, database, {}), es[..Visited(|es|, limitGroups)], fetch);
      DeleteStaleEffect(s.db, s.db.groups, validGroups);
      DeleteGroupsNotIn(s, s.db.groups, validGroups);
      var committed := s.Commit();
      assert s.db == s.committed == DeleteStale(synced.db, synced.db.groups, validGroups);
    }

    /** `run_full_sync_for_faculty`: what it commits and what it returns. */
    method RunFullSyncForFaculty(catalogue: Result<Catalogue>, facultyName: string, fetch: Fetch, limitGroups: Option<int>)
        returns (r: Result<nat>)
      requires Valid()
      modifies this
      ensures Valid() && gateLog == old(gateLog) && cacheUpdateEnabled == old(cacheUpdateEnabled)
      ensures (database, r) == SyncFaculty(old(database), catalogue, facultyName, limitGroups, fetch)
    {
      if catalogue.Failure? {
        return Failure(catalogue.error);
      }
      var groups := GroupsOf(catalogue.value);
      if groups.None? || groups.value == [] {
        return Success(0);
      }
      var facultyGroups := FacultyEntries(groups.value, facultyName);
      if facultyGroups == [] {
        return Success(0);
      }
      var s := new Session(database);
      var validGroups, facultyObj := SyncFacultyGroupsLoop(s, facultyGroups, facultyName, limitGroups, fetch);
      match facultyObj
      case Unbound =>
        database := s.committed;
        r := Failure(NameError("faculty_obj"));
      case Bound(None) =>
        database := s.committed;
        r := Failure(AttributeError("id"));
      case Bound(Some(f)) =>
        var existing := InFaculty(s.db.groups, f.id);
        DeleteGroupsNotIn(s, existing, validGroups);
        var committed := s.Commit();
        database := s.committed;
        if committed.Failure? {
          r := Failure(committed.error);
        } else {
          r := Success(|validGroups|);
        }
    }

    /** `run_full_sync_for_group`: what it commits and what it returns. */
    method RunFullSyncForGroup(catalogue: Result<Catalogue>, groupName: string, fetch: Fetch) returns (r: Result<nat>)
      requires Valid()
      modifies this
      ensures Valid() && gateLog == old(gateLog) && cacheUpdateEnabled == old(cacheUpdateEnabled)
      ensures (database, r) == SyncOneGroup(old(database), catalogue, groupName, fetch)
    {
      if catalogue.Failure? {
        return Failure(catalogue.error);
      }
      if catalogue.value.CatalogueList? {
        return Failure(AttributeError("get"));
      }
      var groups := GroupsOf(catalogue.value);
      if groups.None? {
        return Failure(TypeError("'NoneType' object is not iterable"));
      }
      var groupInfo := FindEntry(groups.value, groupName);
      if groupInfo.Failure? {
        return Failure(groupInfo.error);
      }
      var s := new Session(database);
      if groupInfo.value.None? {
        r := DeleteAndReport(s, groupName);
        return;
      }
      var facultyName := FacultyNameOf(groupInfo.value.value);
      if facultyName.Failure? {
        return Failure(facultyName.error);
      }
      var groupObj := EnsureFacultyAndGroup(s, facultyName.value, groupName);
      if groupObj.Failure? {
        return Failure(groupObj.error);
      }
      r := SyncEnsuredGroup(s, groupObj.value, groupName, fetch);
    }

    /** The timetable half of `run_full_sync_for_group`, once the group row exists in the session. */
    method SyncEnsuredGroup(s: Session, groupObj: Group, groupName: string, fetch: Fetch) returns (r: Result<nat>)
      requires Valid() && s.Valid() && s.committed == database
      modifies this, s
      ensures Valid() && gateLog == old(gateLog) && cacheUpdateEnabled == old(cacheUpdateEnabled)
      ensures (database, r) == GroupSync(old(s.db), old(database), groupName, groupObj.id, fetch)
    {
      var ttJson := fetch(groupName);
      if ttJson.Failure? {
        return Failure(ttJson.error);
      }
      if HasMessage(ttJson.value) {
        r := DeleteAndReport(s, groupName);
        return;
      }
      var records := ExtractLessonsFromTimetableJson(groupName, ttJson.value);
      if records == [] {
        r := DeleteAndReport(s, groupName);
        return;
      }
      var inserted := UpsertLessonsForGroup(s, groupObj, records);
      if inserted.Failure? {
        return Failure(inserted.error);
      }
      var committed := s.Commit();
      database := s.committed;
      if committed.Failure? {
        return Failure(committed.error);
      }
      r := inserted;
    }

    /** `await delete_group_if_exists(session, group_name); return 0`, leaving the committed rows behind. */
    method DeleteAndReport(s: Session, groupName: string) returns (r: Result<nat>)
      requires Valid() && s.Valid()
      modifies this, s
      ensures Valid() && gateLog == old(gateLog) && cacheUpdateEnabled == old(cacheUpdateEnabled)
      ensures (database, r) == DeleteAndReturnZero(old(s.db), old(s.committed), groupName)
    {
      var deleted := DeleteGroupIfExists(s, groupName);
      database := s.committed;
      if deleted.Failure? {
        r := Failure(deleted.error);
      } else {
        r := Success(0);
      }
    }
  }
}
