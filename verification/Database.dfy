/** The stored tables, changed in place by statements and by COMMIT and ROLLBACK. */
module Databases {
  import opened Schemas
  import opened Cascades
  import opened Engine

  class Database {
    const schema: Schema
    var committed: Db
    var working: Db

    ghost predicate Valid()
      reads this
    {
      Sound(schema, committed) && KeysIntact(schema, committed, true) && Sound(schema, working)
    }

    ghost function Contents(): (st: State)
      reads this
    {
      State(committed, working)
    }

    constructor (schema: Schema)
      ensures Valid() && Contents() == EmptyState && this.schema == schema
    {
      this.schema := schema;
      committed, working := map[], map[];
    }

    method InsertRows(rows: Db) returns (ok: bool)
      requires Valid()
      modifies this`working
      ensures Valid() && Step(schema, old(Contents()), Contents())
      ensures ok <==> CanInsert(schema, old(working), rows)
      ensures working == if ok then old(working) + rows else old(working)
    {
      ok := CanInsert(schema, working, rows);
      if ok {
        ghost var before := working;
        working := working + rows;
        assert Executes(schema, before, Insert(rows), working);
        StatementKeepsSound(schema, before, Insert(rows), working);
      }
    }

    method UpdateRows(changes: Db) returns (ok: bool)
      requires Valid()
      modifies this`working
      ensures Valid() && Step(schema, old(Contents()), Contents())
      ensures ok <==> CanUpdate(schema, old(working), changes)
      ensures working == if ok then old(working) + changes else old(working)
    {
      ok := CanUpdate(schema, working, changes);
      if ok {
        ghost var before := working;
        working := working + changes;
        assert Executes(schema, before, Update(changes), working);
        StatementKeepsSound(schema, before, Update(changes), working);
      }
    }

    /** A delete removes exactly the rows reachable along CASCADE references, or nothing. Of the
        outcomes a step may have, the class takes one: a RESTRICT key between two rows that both go
        does not abort. */
    method DeleteRows(roots: set<Ref>) returns (ok: bool)
      requires Valid()
      modifies this`working
      ensures Valid() && Step(schema, old(Contents()), Contents())
      ensures ok <==> CanDelete(schema, old(working), roots)
      ensures working == if ok then old(working) - Closure(schema, old(working), roots) else old(working)
    {
      if !(roots <= working.Keys) {
        return false;
      }
      var doomed, raised := Doom(schema, working, roots);
      if raised || Restricted(schema, working, doomed) {
        return false;
      }
      ghost var before := working;
      working := working - doomed;
      assert Executes(schema, before, Delete(roots), working);
      StatementKeepsSound(schema, before, Delete(roots), working);
      return true;
    }

    /** Deferred keys are checked here; a violation rolls the transaction back. */
    method Commit() returns (ok: bool)
      requires Valid()
      modifies this`working, this`committed
      ensures Valid() && Step(schema, old(Contents()), Contents())
      ensures ok <==> KeysIntact(schema, old(working), true)
      ensures Contents() == if ok then State(old(working), old(working)) else State(old(committed), old(committed))
    {
      ok := KeysIntact(schema, working, true);
      if ok { committed := working; } else { working := committed; }
    }

    method Rollback()
      requires Valid()
      modifies this`working
      ensures Valid() && Step(schema, old(Contents()), Contents())
      ensures Contents() == State(committed, committed)
    {
      working := committed;
    }
  }
}
