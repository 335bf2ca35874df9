/**
 * A database session over the schema: the rows the session sees (its own
 * flushed changes included) and the last committed state. A commit is
 * refused with an integrity error when the rows break a constraint; a
 * rollback returns to the committed state.
 */
module Store {
  import opened Wrappers
  import opened Models

  class Session {
    /** What queries in this session see: committed rows plus flushed and pending changes. */
    var db: Db
    /** The state a rollback returns to. */
    var committed: Db

    ghost predicate Valid()
      reads this
    {
      Constraints(committed) && IdsBelow(committed) && IdsBelow(db) && committed.nextId <= db.nextId
    }

    constructor (start: Db)
      requires Constraints(start) && IdsBelow(start)
      ensures Valid() && db == start && committed == start
    {
      db := start;
      committed := start;
    }

    /** Sends pending changes to the database: refused exactly when a constraint is broken. */
    method Flush() returns (r: Result<()>)
      ensures r.Success? <==> Constraints(db)
      ensures r.Failure? ==> r.error == IntegrityError("flush")
    {
      if Constraints(db) {
        r := Success(());
      } else {
        r := Failure(IntegrityError("flush"));
      }
    }

    /** Flushes and makes the session's rows the committed state. */
    method Commit() returns (r: Result<()>)
      requires Valid()
      modifies this
      ensures Valid()
      ensures r.Success? <==> Constraints(old(db))
      ensures r.Success? ==> committed == old(db) && db == old(db)
      ensures r.Failure? ==> r.error == IntegrityError("flush") && committed == old(committed) && db == old(db)
    {
      r := Flush();
      if r.Success? {
        committed := db;
      }
    }

    /** Discards everything since the last commit. */
    method Rollback()
      requires Valid()
      modifies this
      ensures Valid()
      ensures db == old(committed) && committed == old(committed)
    {
      db := committed;
    }
  }
}
