/** When statements succeed, said in terms of rows, columns and trigger forms alone. */
module Statements {
  import opened Sql
  import opened Schemas
  import opened Cascades
  import opened Engine

  // ---------- what a sound database is ----------

  lemma ChecksExactly(s: Schema, db: Db)
    ensures RowsChecked(s, db) <==>
              forall c, r | c in s.checks && r in db && r.table == c.table :: Eval(c.cond, db[r], NoSession) != False
  {
    if RowsChecked(s, db) {
      forall c, r | c in s.checks && r in db && r.table == c.table ensures Eval(c.cond, db[r], NoSession) != False {
        assert RowChecked(s, r.table, db[r]);
      }
    }
  }

  /** Two rows of a unique key's table that its filter admits differ in a column of the key, or one of
      these columns is NULL. */
  lemma UniquesExactly(s: Schema, db: Db)
    ensures UniquesHold(s, db) <==>
              forall u, r, q | u in s.uniques && r in db && q in db && r != q && r.table == u.table == q.table &&
                               Eval(u.filter, db[r], NoSession) == True && Eval(u.filter, db[q], NoSession) == True ::
                exists c | c in u.cols :: Get(db[r], c) == Null || Get(db[r], c) != Get(db[q], c)
  {
    if UniquesHold(s, db) {
      forall u, r, q | u in s.uniques && r in db && q in db && r != q && r.table == u.table == q.table &&
                       Eval(u.filter, db[r], NoSession) == True && Eval(u.filter, db[q], NoSession) == True
        ensures exists c | c in u.cols :: Get(db[r], c) == Null || Get(db[r], c) != Get(db[q], c)
      {
        assert UniqueHolds(u, db) && !Clash(u, db[r], db[q]);
      }
    }
  }

  lemma NoParent(k: ForeignKey, db: Db, c: Ref)
    requires c in db && !KeyHolds(k, db, db[c])
    ensures forall m | m in k.cols :: Get(db[c], m.from) != Null
    ensures forall p | p in db && p.table == k.parent ::
              exists m | m in k.cols :: Get(db[p], m.to) != Get(db[c], m.from)
  {
    forall p | p in db && p.table == k.parent
      ensures exists m | m in k.cols :: Get(db[p], m.to) != Get(db[c], m.from)
    {
      assert !Refers(k, db[c], db[p]);
    }
  }

  /** A row none of whose key columns is NULL finds a parent row with those values. */
  lemma KeysExactly(s: Schema, db: Db, deferred: bool)
    ensures KeysIntact(s, db, deferred) <==>
              forall k, c | k in s.keys && k.deferred == deferred && c in db && c.table == k.child &&
                            (forall m | m in k.cols :: Get(db[c], m.from) != Null) ::
                exists p | p in db ::
                  p.table == k.parent && forall m | m in k.cols :: Get(db[p], m.to) == Get(db[c], m.from)
  {
    if KeysIntact(s, db, deferred) {
      forall k, c | k in s.keys && k.deferred == deferred && c in db && c.table == k.child &&
                    (forall m | m in k.cols :: Get(db[c], m.from) != Null)
        ensures exists p | p in db ::
                  p.table == k.parent && forall m | m in k.cols :: Get(db[p], m.to) == Get(db[c], m.from)
      {
        assert KeyIntact(k, db) && KeyHolds(k, db, db[c]);
        var p :| p in db && p.table == k.parent && Refers(k, db[c], db[p]);
      }
    } else {
      var k :| k in s.keys && k.deferred == deferred && !KeyIntact(k, db);
      var c :| c in db && c.table == k.child && !KeyHolds(k, db, db[c]);
      NoParent(k, db, c);
    }
  }

  // ---------- when triggers let an UPDATE pass ----------

  /** `guard` accepts that `before` becomes `after`. */
  predicate Passes(guard: Trigger, before: Row, after: Row) {
    && guard != Immutable && guard != NoUpdate
    && (guard.FrozenSnapshot? ==> forall c | c in guard.cols :: Get(before, c) == Get(after, c))
    && (guard.HistoryGuard? ==> forall c | c in guard.cols :: Get(before, c) == Get(after, c))
    && (guard == PlanGuard ==> Get(before, Status) == Null || Get(before, Status) == Text("PENDING_APPROVAL"))
  }

  lemma PassesExactly(guard: Trigger, before: Row, after: Row)
    ensures LetsUpdate(guard, before, after) <==> Passes(guard, before, after)
  {
  }

  lemma TriggersExactly(s: Schema, db: Db, changes: Db)
    requires changes.Keys <= db.Keys
    ensures TriggersAccept(s, db, changes) <==>
              forall r, g | r in changes && g in s.triggers && g.table == r.table ::
                Passes(g.trigger, db[r], changes[r])
  {
    forall r, g | r in changes && g in s.triggers && g.table == r.table
      ensures LetsUpdate(g.trigger, db[r], changes[r]) <==> Passes(g.trigger, db[r], changes[r])
    {
      PassesExactly(g.trigger, db[r], changes[r]);
    }
    if TriggersAccept(s, db, changes) {
      forall r, g | r in changes && g in s.triggers && g.table == r.table
        ensures Passes(g.trigger, db[r], changes[r])
      {
        assert UpdateAccepted(s, r.table, db[r], changes[r]);
      }
    }
  }

  // ---------- when statements succeed ----------

  /** An INSERT into a sound database succeeds if and only if the rows are new and the result is sound. */
  lemma InsertExactly(s: Schema, db: Db, rows: Db)
    requires Sound(s, db)
    ensures CanInsert(s, db, rows) <==> rows.Keys !! db.Keys && Sound(s, db + rows)
  {
    var after := db + rows;
    if CanInsert(s, db, rows) {
      StatementKeepsSound(s, db, Insert(rows), after);
    }
    if rows.Keys !! db.Keys && Sound(s, after) {
      forall r | r in rows ensures RowChecked(s, r.table, rows[r]) {
        assert after[r] == rows[r] && RowChecked(s, r.table, after[r]);
      }
      TouchedHold(s, rows, after);
    }
  }

  lemma TouchedHold(s: Schema, touched: Db, after: Db)
    requires KeysIntact(s, after, false) && touched.Keys <= after.Keys
    requires forall r | r in touched :: after[r] == touched[r]
    ensures ReferencesHold(s, after, touched)
  {
    forall k, r | k in s.keys && r in touched && !k.deferred && k.child == r.table
      ensures KeyHolds(k, after, touched[r])
    {
      assert KeyIntact(k, after) && after[r] == touched[r];
    }
  }

  /** An UPDATE that leaves every immediate key intact meets NO ACTION. */
  lemma IntactIsNoAction(s: Schema, db: Db, updated: set<Ref>, after: Db)
    requires updated <= db.Keys && KeysIntact(s, after, false)
    ensures NoActionHolds(s, db, updated, after)
  {
    forall k, p, c | k in s.keys && p in updated && c in after && !k.deferred && k.child == c.table &&
                     Refers(k, after[c], db[p])
      ensures HasParent(k, after, after[c])
    {
      assert KeyIntact(k, after) && KeyHolds(k, after, after[c]);
    }
  }

  /** An UPDATE of a sound database succeeds if and only if every trigger lets it and the result is
      sound. */
  lemma UpdateExactly(s: Schema, db: Db, changes: Db)
    requires Sound(s, db) && changes.Keys <= db.Keys
    ensures CanUpdate(s, db, changes) <==>
              && (forall r, g | r in changes && g in s.triggers && g.table == r.table ::
                    Passes(g.trigger, db[r], changes[r]))
              && Sound(s, db + changes)
  {
    var after := db + changes;
    TriggersExactly(s, db, changes);
    if CanUpdate(s, db, changes) {
      StatementKeepsSound(s, db, Update(changes), after);
    }
    if TriggersAccept(s, db, changes) && Sound(s, after) {
      forall r | r in changes ensures RowChecked(s, r.table, changes[r]) {
        assert after[r] == changes[r] && RowChecked(s, r.table, after[r]);
      }
      TouchedHold(s, changes, after);
      IntactIsNoAction(s, db, changes.Keys, after);
    }
  }

  /** `c` hangs on `p` exactly if a CASCADE key of its table has values in `c`, none NULL, that are
      those of `p`. */
  lemma EdgeExactly(s: Schema, db: Db, p: Ref, c: Ref)
    requires p in db && c in db
    ensures CascadeEdge(s, db, p, c) <==>
              exists k | k in s.keys ::
                && k.onDelete == Cascade && k.child == c.table && k.parent == p.table
                && forall m | m in k.cols :: Get(db[c], m.from) != Null && Get(db[c], m.from) == Get(db[p], m.to)
  {
    if CascadeEdge(s, db, p, c) {
      var k :| && k in s.keys && k.onDelete == Cascade && k.parent == p.table && k.child == c.table
               && Refers(k, db[c], db[p]);
    }
    if k :| k in s.keys && k.onDelete == Cascade && k.child == c.table && k.parent == p.table &&
            forall m | m in k.cols :: Get(db[c], m.from) != Null && Get(db[c], m.from) == Get(db[p], m.to) {
      assert Refers(k, db[c], db[p]);
    }
  }

  /** No row of `rows` is in a table that some trigger keeps from losing rows. */
  predicate Unguarded(s: Schema, rows: set<Ref>) {
    forall r, g | r in rows && g in s.triggers && g.table == r.table ::
      g.trigger == NoUpdate || g.trigger.FrozenSnapshot?
  }

  /** No row outside `rows` cites one of them through a RESTRICT key. */
  predicate Uncited(s: Schema, db: Db, rows: set<Ref>)
    requires rows <= db.Keys
  {
    forall k, c, p | k in s.keys && k.onDelete == Restrict && c in db && c !in rows && p in rows &&
                     c.table == k.child && p.table == k.parent ::
      exists m | m in k.cols :: Get(db[c], m.from) == Null || Get(db[c], m.from) != Get(db[p], m.to)
  }

  lemma GuardedExactly(s: Schema, rows: set<Ref>)
    ensures Unguarded(s, rows) <==> forall r | r in rows :: !DeleteGuarded(s, r.table)
  {
    forall r, g | r in rows && g in s.triggers && g.table == r.table
      ensures g.trigger == NoUpdate || g.trigger.FrozenSnapshot? <==> !RaisesOnDelete(g.trigger)
    {
    }
  }

  lemma CitedExactly(s: Schema, db: Db, rows: set<Ref>)
    requires rows <= db.Keys
    ensures Uncited(s, db, rows) <==> !Restricted(s, db, rows)
  {
    if Restricted(s, db, rows) {
      var k, c, p :| k in s.keys && c in db && p in rows && k.onDelete == Restrict && c !in rows && Holds(k, db, c, p);
      assert forall m | m in k.cols :: Get(db[c], m.from) != Null && Get(db[c], m.from) == Get(db[p], m.to);
    } else {
      forall k, c, p | k in s.keys && k.onDelete == Restrict && c in db && c !in rows && p in rows &&
                       c.table == k.child && p.table == k.parent
        ensures exists m | m in k.cols :: Get(db[c], m.from) == Null || Get(db[c], m.from) != Get(db[p], m.to)
      {
        assert !Holds(k, db, c, p);
      }
    }
  }

  /** A DELETE succeeds if and only if the rows are there, its cascade reaches no table with an
      append-only, history or plan trigger, and no row that stays cites one that goes by RESTRICT. A
      table whose triggers are for UPDATE alone does not hinder it. */
  lemma DeleteExactly(s: Schema, db: Db, roots: set<Ref>)
    ensures CanDelete(s, db, roots) <==>
              roots <= db.Keys && Unguarded(s, Closure(s, db, roots)) && Uncited(s, db, Closure(s, db, roots))
  {
    GuardedExactly(s, Closure(s, db, roots));
    CitedExactly(s, db, Closure(s, db, roots));
  }

  // ---------- statements that commit ----------

  function Committed(trace: seq<State>, db: Db, after: Db): seq<State> {
    trace + [State(db, after), State(after, after)]
  }

  lemma StatementCommits(s: Schema, trace: seq<State>, db: Db, stmt: Statement, after: Db)
    requires Run(s, trace) && trace[|trace|-1] == State(db, db)
    requires Executes(s, db, stmt, after) && KeysIntact(s, after, true)
    ensures Run(s, Committed(trace, db, after))
  {
    var longer, n := Committed(trace, db, after), |trace|;
    forall i: nat | 0 < i < |longer| ensures StepAt(s, longer, i) {
      if i < n {
        assert StepAt(s, trace, i);
      } else {
        assert longer[n-1] == State(db, db) && longer[n] == State(db, after) && longer[n+1] == State(after, after);
      }
    }
  }

  /** From every committed state: rows whose cascade is unguarded and uncited can be deleted, and the
      deletion of exactly that cascade committed. */
  lemma RowsCanGo(s: Schema, trace: seq<State>, db: Db, roots: set<Ref>)
    requires Run(s, trace) && trace[|trace|-1] == State(db, db) && roots <= db.Keys
    requires Unguarded(s, Closure(s, db, roots)) && Uncited(s, db, Closure(s, db, roots))
    ensures Run(s, Committed(trace, db, db - Closure(s, db, roots)))
    ensures forall r | r in roots :: r !in db - Closure(s, db, roots)
  {
    var after := db - Closure(s, db, roots);
    RunIsSound(s, trace, |trace| - 1);
    DeleteExactly(s, db, roots);
    RootsReached(s, db, roots);
    forall k | k in s.keys && k.deferred == true ensures KeyIntact(k, after) {
      assert KeyIntact(k, db);
      DeleteKeepsKeys(s, db, roots, k);
    }
    StatementCommits(s, trace, db, Delete(roots), after);
  }

  /** From every committed state: an UPDATE that triggers let and after which every constraint holds
      can be made and committed. */
  lemma ChangesCommit(s: Schema, trace: seq<State>, db: Db, changes: Db)
    requires Run(s, trace) && trace[|trace|-1] == State(db, db) && changes.Keys <= db.Keys
    requires forall r, g | r in changes && g in s.triggers && g.table == r.table :: Passes(g.trigger, db[r], changes[r])
    requires Sound(s, db + changes) && KeysIntact(s, db + changes, true)
    ensures Run(s, Committed(trace, db, db + changes))
  {
    RunIsSound(s, trace, |trace| - 1);
    UpdateExactly(s, db, changes);
    StatementCommits(s, trace, db, Update(changes), db + changes);
  }

  // ---------- columns that nothing looks at ----------

  /** NOT NULL apart, no constraint of the schema mentions column `c` of `t`. */
  predicate FreeColumn(s: Schema, t: Table, c: Column) {
    && (forall x | x in s.checks && x.table == t :: x.cond == NotNull(c) || !MentionsColumn(x.cond, c))
    && (forall u | u in s.uniques && u.table == t :: c !in u.cols && !MentionsColumn(u.filter, c))
    && (forall k, m | k in s.keys && k.child == t && m in k.cols :: m.from != c)
    && (forall k, m | k in s.keys && k.parent == t && m in k.cols :: m.to != c)
  }

  function WithColumn(db: Db, r: Ref, c: Column, v: Cell): Db
    requires r in db
  {
    db[r := db[r][c := v]]
  }

  lemma FreeColumnChecks(s: Schema, db: Db, r: Ref, c: Column, v: Cell)
    requires r in db && FreeColumn(s, r.table, c) && v != Null && RowsChecked(s, db)
    ensures RowsChecked(s, WithColumn(db, r, c, v))
  {
    var row := db[r][c := v];
    forall x | x in s.checks && x.table == r.table ensures PassesCheck(x.cond, row) {
      assert RowChecked(s, r.table, db[r]);
      if x.cond == NotNull(c) {
        assert Eval(IsNull(Col(c)), row, NoSession) == False;
      } else {
        Unmentioned(x.cond, db[r], c, v, NoSession);
      }
    }
  }

  lemma FreeColumnUniques(s: Schema, db: Db, r: Ref, c: Column, v: Cell)
    requires r in db && FreeColumn(s, r.table, c) && UniquesHold(s, db)
    ensures UniquesHold(s, WithColumn(db, r, c, v))
  {
    var after := WithColumn(db, r, c, v);
    forall u, x, y | u in s.uniques && x in after && y in after && x != y && x.table == u.table && y.table == u.table
      ensures !Clash(u, after[x], after[y])
    {
      assert UniqueHolds(u, db) && !Clash(u, db[x], db[y]);
      if r.table == u.table {
        Unmentioned(u.filter, db[r], c, v, NoSession);
      }
    }
  }

  lemma FreeColumnKeys(s: Schema, db: Db, r: Ref, c: Column, v: Cell, k: ForeignKey)
    requires r in db && FreeColumn(s, r.table, c) && k in s.keys && KeyIntact(k, db)
    ensures KeyIntact(k, WithColumn(db, r, c, v))
  {
    var after := WithColumn(db, r, c, v);
    forall x | x in after && x.table == k.child ensures KeyHolds(k, after, after[x]) {
      assert KeyHolds(k, db, db[x]);
      if Complete(k, after[x]) {
        assert Complete(k, db[x]);
        var p :| p in db && p.table == k.parent && Refers(k, db[x], db[p]);
        assert Refers(k, after[x], after[p]);
      }
    }
  }

  /** Setting such a column to a value that is not NULL keeps every constraint. */
  lemma FreeColumnKeepsSound(s: Schema, db: Db, r: Ref, c: Column, v: Cell)
    requires r in db && FreeColumn(s, r.table, c) && v != Null && Sound(s, db) && KeysIntact(s, db, true)
    ensures Sound(s, WithColumn(db, r, c, v)) && KeysIntact(s, WithColumn(db, r, c, v), true)
  {
    FreeColumnChecks(s, db, r, c, v);
    FreeColumnUniques(s, db, r, c, v);
    forall k | k in s.keys ensures KeyIntact(k, WithColumn(db, r, c, v)) {
      assert KeyIntact(k, db);
      FreeColumnKeys(s, db, r, c, v, k);
    }
  }
}
