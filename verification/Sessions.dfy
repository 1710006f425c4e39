/** What a session's statement does to the stored rows under the isolation policy. */
module Sessions {
  import opened Sql
  import opened Schemas
  import opened Cascades
  import opened Engine
  import opened Tenancy

  /** A row of workspace `w` in one of the tables. */
  predicate Owned(tenant: set<Table>, db: Db, r: Ref, w: nat) {
    r in db && r.table in tenant && Get(db[r], WorkspaceId) == Uuid(w)
  }

  /** A session of workspace `w` reads exactly the rows of `w`, as they are stored. */
  lemma SeesExactly(tenant: set<Table>, db: Db, session: Session, w: nat, r: Ref)
    requires session.workspace == Given(w)
    ensures r in View(tenant, db, session) <==> Owned(tenant, db, r, w)
    ensures r in View(tenant, db, session) ==> View(tenant, db, session)[r] == db[r]
  {
    if r in db {
      AdmittedIff(db[r], session);
    }
  }

  /** INSERT: it takes effect if and only if every row is of the session's workspace and the statement
      succeeds; then exactly the given rows are added. */
  lemma SessionInserts(s: Schema, tenant: set<Table>, db: Db, session: Session, w: nat, program: Program, rows: Db,
                       after: Db)
    requires session.workspace == Given(w) && program(View(tenant, db, session)) == Insert(rows)
    ensures SessionExecutes(s, tenant, db, session, program, after) <==>
              && (forall r | r in rows :: r.table in tenant && Get(rows[r], WorkspaceId) == Uuid(w))
              && CanInsert(s, db, rows)
              && after.Keys == db.Keys + rows.Keys
              && (forall r | r in rows :: after[r] == rows[r])
              && (forall r | r in db && r !in rows :: after[r] == db[r])
  {
    forall r | r in rows ensures Admits(Isolation, rows[r], session) <==> Get(rows[r], WorkspaceId) == Uuid(w) {
      AdmittedIff(rows[r], session);
    }
    if after.Keys == db.Keys + rows.Keys && (forall r | r in rows :: after[r] == rows[r])
       && (forall r | r in db && r !in rows :: after[r] == db[r]) {
      assert after == db + rows;
    }
  }

  /** The changes to rows of `w`. */
  function Mine(tenant: set<Table>, db: Db, changes: Db, w: nat): Db {
    map r | r in changes && Owned(tenant, db, r, w) :: changes[r]
  }

  lemma IssuedUpdate(tenant: set<Table>, db: Db, session: Session, w: nat, program: Program, changes: Db)
    requires session.workspace == Given(w) && program(View(tenant, db, session)) == Update(changes)
    ensures Issued(tenant, db, session, program) == Update(Mine(tenant, db, changes, w))
  {
    forall r | r in changes ensures r in View(tenant, db, session) <==> Owned(tenant, db, r, w) {
      SeesExactly(tenant, db, session, w, r);
    }
  }

  /** `after` is `db` with the changed rows of `w`. */
  ghost predicate Rewritten(tenant: set<Table>, db: Db, changes: Db, w: nat, after: Db) {
    && after.Keys == db.Keys
    && forall r | r in db :: after[r] == if r in changes && Owned(tenant, db, r, w) then changes[r] else db[r]
  }

  lemma RewrittenExactly(tenant: set<Table>, db: Db, changes: Db, w: nat, after: Db)
    ensures Rewritten(tenant, db, changes, w, after) <==> after == db + Mine(tenant, db, changes, w)
  {
    var mine := Mine(tenant, db, changes, w);
    assert (db + mine).Keys == db.Keys;
  }

  /** UPDATE: it takes effect if and only if the session's rows among the targets stay in its workspace
      and updating them succeeds; then exactly those rows get their new values. */
  lemma SessionUpdates(s: Schema, tenant: set<Table>, db: Db, session: Session, w: nat, program: Program, changes: Db,
                       after: Db)
    requires session.workspace == Given(w) && program(View(tenant, db, session)) == Update(changes)
    ensures SessionExecutes(s, tenant, db, session, program, after) <==>
              && (forall r | r in changes && Owned(tenant, db, r, w) :: Get(changes[r], WorkspaceId) == Uuid(w))
              && CanUpdate(s, db, Mine(tenant, db, changes, w))
              && Rewritten(tenant, db, changes, w, after)
  {
    var mine := Mine(tenant, db, changes, w);
    IssuedUpdate(tenant, db, session, w, program, changes);
    forall r | r in mine ensures Admits(Isolation, mine[r], session) <==> Get(mine[r], WorkspaceId) == Uuid(w) {
      AdmittedIff(mine[r], session);
    }
    RewrittenExactly(tenant, db, changes, w, after);
  }

  /** The targets of a DELETE that are rows of `w`. */
  function MineOf(tenant: set<Table>, db: Db, roots: set<Ref>, w: nat): set<Ref> {
    set r | r in roots && Owned(tenant, db, r, w)
  }

  lemma IssuedRoots(tenant: set<Table>, db: Db, session: Session, w: nat, program: Program, roots: set<Ref>)
    requires session.workspace == Given(w) && program(View(tenant, db, session)) == Delete(roots)
    ensures Issued(tenant, db, session, program) == Delete(MineOf(tenant, db, roots, w))
  {
    var view := View(tenant, db, session);
    forall r | r in roots ensures r in view.Keys <==> Owned(tenant, db, r, w) {
      SeesExactly(tenant, db, session, w, r);
    }
    assert roots * view.Keys == MineOf(tenant, db, roots, w);
  }

  /** `after` is `db` without the rows that CASCADE paths from `roots` lead to. */
  ghost predicate Removed(s: Schema, db: Db, roots: set<Ref>, after: Db) {
    && (forall r :: r in after <==> r in db && !Reaches(s, db, roots, r))
    && (forall r | r in after && r in db :: after[r] == db[r])
  }

  lemma RemovedExactly(s: Schema, db: Db, roots: set<Ref>, after: Db)
    ensures Removed(s, db, roots, after) <==> after == db - Closure(s, db, roots)
  {
    var rest := db - Closure(s, db, roots);
    forall r ensures r in rest <==> r in db && !Reaches(s, db, roots, r) {
    }
    if Removed(s, db, roots, after) {
      assert after.Keys == rest.Keys;
    }
  }

  /** DELETE: it takes effect if and only if deleting the session's rows among the targets succeeds; then
      exactly these and what hangs on them by CASCADE are gone, and all other rows stay as they were. */
  lemma SessionDeletes(s: Schema, tenant: set<Table>, db: Db, session: Session, w: nat, program: Program,
                       roots: set<Ref>, after: Db)
    requires session.workspace == Given(w) && program(View(tenant, db, session)) == Delete(roots)
    ensures SessionExecutes(s, tenant, db, session, program, after) <==>
              CanDelete(s, db, MineOf(tenant, db, roots, w)) && Removed(s, db, MineOf(tenant, db, roots, w), after)
  {
    IssuedRoots(tenant, db, session, w, program, roots);
    RemovedExactly(s, db, MineOf(tenant, db, roots, w), after);
  }

  /** With qualified keys the cascade takes rows of `w` only. */
  lemma CascadeTakesOwned(s: Schema, tenant: set<Table>, db: Db, roots: set<Ref>, w: nat, r: Ref)
    requires Qualified(s, tenant) && r in Closure(s, db, MineOf(tenant, db, roots, w))
    ensures Owned(tenant, db, r, w)
  {
    var session, mine := SessionOf(w), MineOf(tenant, db, roots, w);
    forall x | x in mine ensures x in View(tenant, db, session) {
      SeesExactly(tenant, db, session, w, x);
    }
    ClosureIsVisible(s, tenant, db, session, mine);
    SeesExactly(tenant, db, session, w, r);
  }

  /** A visible target of a DELETE is gone, and with qualified keys every row of others stays. */
  lemma DeletedRows(s: Schema, tenant: set<Table>, db: Db, session: Session, w: nat, program: Program,
                    roots: set<Ref>, after: Db, r: Ref)
    requires session.workspace == Given(w) && program(View(tenant, db, session)) == Delete(roots)
    requires SessionExecutes(s, tenant, db, session, program, after) && r in db
    ensures r in roots && Owned(tenant, db, r, w) ==> r !in after
    ensures Qualified(s, tenant) && !Owned(tenant, db, r, w) ==> r in after && after[r] == db[r]
  {
    var mine := MineOf(tenant, db, roots, w);
    IssuedRoots(tenant, db, session, w, program, roots);
    assert after == db - Closure(s, db, mine);
    if Owned(tenant, db, r, w) {
      RootsReached(s, db, mine);
    } else if Qualified(s, tenant) && r in Closure(s, db, mine) {
      CascadeTakesOwned(s, tenant, db, roots, w, r);
    }
  }

  /** Without a workspace nothing can be inserted, and an UPDATE or DELETE changes nothing. */
  lemma UnsetChangesNothing(s: Schema, tenant: set<Table>, db: Db, session: Session, program: Program, after: Db)
    requires !session.workspace.Given? && SessionExecutes(s, tenant, db, session, program, after)
    ensures after == db
  {
    var view := View(tenant, db, session);
    UnsetSeesNothing(tenant, db, session);
    match program(view)
    case Insert(rows) =>
      forall r | r in rows ensures false {
        AdmittedIff(rows[r], session);
      }
      assert after == db + rows;
    case Update(changes) =>
      assert Issued(tenant, db, session, program) == Update(map[]);
    case Delete(roots) =>
      assert roots * view.Keys == {};
      ClosureIsLeast(s, db, {}, {});
      assert after == db - {};
  }
}
