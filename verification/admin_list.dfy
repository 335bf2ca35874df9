/**
 * The in-memory list of administrators: Telegram id to "@username" (or
 * no name), rebuilt from the users table, updated when a role changes,
 * and consulted by the admin filter.
 */
module AdminList {
  import opened Wrappers
  import opened Seqs
  import opened Models

  /** The `role` of an administrator. */
  const AdminRole := 1

  predicate IsAdminUser(u: User)
  {
    u.role == AdminRole
  }

  /** Some user in `users` is an administrator with that id. */
  predicate AdminWithId(users: seq<User>, id: int)
  {
    exists u :: u in users && IsAdminUser(u) && u.id == id
  }

  /** The map the refresh loop fills: each listed user's id with the name Telegram gives for it. */
  function Collect(users: seq<User>, usernameOf: int -> Option<string>): map<int, Option<string>>
    decreases |users|
  {
    if users == [] then map[]
    else
      var u := users[|users| - 1];
      Collect(users[..|users| - 1], usernameOf)[u.id := usernameOf(u.id)]
  }

  /**
   * After a refresh the keys are exactly the ids of the users whose role
   * is administrator, each with the name Telegram gave for that id.
   */
  lemma {:induction false} CollectAdmins(users: seq<User>, usernameOf: int -> Option<string>)
    ensures var m := Collect(Filter(users, IsAdminUser), usernameOf);
      (forall id :: id in m <==> AdminWithId(users, id))
      && forall id :: id in m ==> m[id] == usernameOf(id)
    decreases |users|
  {
    if users != [] {
      var init, last := users[..|users| - 1], users[|users| - 1];
      CollectAdmins(init, usernameOf);
      assert users == init + [last];
      FilterAppend(init, [last], IsAdminUser);
      var before := Filter(init, IsAdminUser);
      if IsAdminUser(last) {
        assert Filter([last], IsAdminUser) == [last];
        var now := before + [last];
        assert now[..|now| - 1] == before;
      } else {
        assert Filter([last], IsAdminUser) == [];
        assert before + [] == before;
      }
      forall id | AdminWithId(users, id)
        ensures AdminWithId(init, id) || (IsAdminUser(last) && last.id == id)
      {
        var u :| u in users && IsAdminUser(u) && u.id == id;
        if u != last {
          assert u in init;
        }
      }
      forall id | AdminWithId(init, id) ensures AdminWithId(users, id) {
        var u :| u in init && IsAdminUser(u) && u.id == id;
        assert u in users;
      }
      if IsAdminUser(last) {
        assert last in users;
        assert AdminWithId(users, last.id);
      }
    }
  }

  /** `is_admin`. */
  predicate IsAdmin(admins: map<int, Option<string>>, userId: int)
  {
    userId in admins
  }

  /** `get_admin_username`: the stored name, or None for an id that is not listed. */
  function AdminUsername(admins: map<int, Option<string>>, userId: int): (r: Option<string>)
    ensures r.Some? ==> IsAdmin(admins, userId) && admins[userId] == r
    ensures IsAdmin(admins, userId) ==> r == admins[userId]
    ensures !IsAdmin(admins, userId) ==> r.None?
  {
    if userId in admins then admins[userId] else None
  }

  /**
   * Adding makes the id an administrator with the new name and leaves the
   * others alone; removing makes it no administrator and leaves the others
   * alone; removing what was just added gives the same list as removing
   * it straight away.
   */
  lemma AddRemove(admins: map<int, Option<string>>, userId: int, username: Option<string>, other: int)
    requires other != userId
    ensures IsAdmin(admins[userId := username], userId) && AdminUsername(admins[userId := username], userId) == username
    ensures !IsAdmin(admins - {userId}, userId)
    ensures IsAdmin(admins[userId := username], other) == IsAdmin(admins, other) == IsAdmin(admins - {userId}, other)
    ensures AdminUsername(admins[userId := username], other) == AdminUsername(admins, other) == AdminUsername(admins - {userId}, other)
    ensures admins[userId := username] - {userId} == admins - {userId}
  {
  }

  /** `create_first_admin`: insert an administrator with that id and commit, or roll back. */
  function CreateFirstAdmin(db: Db, adminId: int): Db
  {
    var added := db.(users := db.users + [User(adminId, None, None, AdminRole)]);
    if Constraints(added) then added else db
  }

  /**
   * The insert keeps the constraints; it is refused (and nothing changes)
   * exactly when a user with that id already exists; otherwise the new
   * administrator shows up in the next refresh.
   */
  lemma CreateFirstAdminEffect(db: Db, adminId: int, usernameOf: int -> Option<string>)
    requires Constraints(db)
    ensures Constraints(CreateFirstAdmin(db, adminId))
    ensures CreateFirstAdmin(db, adminId) == db <==> exists u :: u in db.users && u.id == adminId
    ensures (forall u :: u in db.users ==> u.id != adminId) ==>
      var m := Collect(Filter(CreateFirstAdmin(db, adminId).users, IsAdminUser), usernameOf);
      adminId in m && m[adminId] == usernameOf(adminId)
  {
    var admin := User(adminId, None, None, AdminRole);
    var added := db.(users := db.users + [admin]);
    PairwiseSnoc(db.users, admin, UsersDistinct);
    if exists u :: u in db.users && u.id == adminId {
      var u :| u in db.users && u.id == adminId;
      var i :| 0 <= i < |db.users| && db.users[i] == u;
      assert !UsersDistinct(db.users[i], admin);
      assert !Constraints(added);
    } else {
      forall i | 0 <= i < |db.users| ensures UsersDistinct(db.users[i], admin) {
        assert db.users[i] in db.users;
      }
      assert Constraints(added);
      assert added != db by { assert |added.users| != |db.users|; }
      CollectAdmins(added.users, usernameOf);
      assert admin in added.users;
    }
  }

  /** `LIST_ADMINS`. */
  class Admins {
    var admins: map<int, Option<string>>

    constructor ()
      ensures admins == map[]
    {
      admins := map[];
    }

    /**
     * `refresh_admin_list`. `users` is the users table or the error the
     * query raised; `usernameOf` is the answer `get_username_from_tg`
     * gives for an id. An error leaves the list empty.
     */
    method Refresh(users: Result<seq<User>>, usernameOf: int -> Option<string>)
      modifies this
      ensures users.Failure? ==> admins == map[]
      ensures users.Success? ==> admins == Collect(Filter(users.value, IsAdminUser), usernameOf)
    {
      if users.Failure? {
        admins := map[];
        return;
      }
      var found := Filter(users.value, IsAdminUser);
      admins := map[];
      if |found| == 0 {
        return;
      }
      for i := 0 to |found|
        invariant admins == Collect(found[..i], usernameOf)
      {
        var user := found[i];
        assert found[..i + 1][..i] == found[..i];
        admins := admins[user.id := usernameOf(user.id)];
      }
      assert found[..|found|] == found;
    }

    /** `add_admin_to_list`. */
    method Add(userId: int, usernameOf: int -> Option<string>)
      modifies this
      ensures admins == old(admins)[userId := usernameOf(userId)]
    {
      admins := admins[userId := usernameOf(userId)];
    }

    /** `remove_admin_from_list`: a missing id changes nothing. */
    method Remove(userId: int)
      modifies this
      ensures admins == old(admins) - {userId}
      ensures userId !in old(admins) ==> admins == old(admins)
    {
      if userId in admins {
        admins := admins - {userId};
      }
    }

    /**
     * `check_admins_start`. With administrators listed it does nothing.
     * Otherwise `adminId` is the id typed at the console; the first
     * administrator is inserted and the list refreshed from the table.
     */
    method CheckAdminsStart(db: Db, adminId: int, usernameOf: int -> Option<string>) returns (after: Db)
      modifies this
      ensures old(admins) != map[] ==> after == db && admins == old(admins)
      ensures old(admins) == map[] ==>
        after == CreateFirstAdmin(db, adminId) && admins == Collect(Filter(after.users, IsAdminUser), usernameOf)
    {
      if |admins| != 0 {
        return db;
      }
      after := CreateFirstAdmin(db, adminId);
      Refresh(Success(after.users), usernameOf);
    }
  }
}
