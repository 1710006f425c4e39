/** Exactly when cascades respect workspaces, and what an unqualified CASCADE key lets through. */
module IsolationLimits {
  import opened Sql
  import opened Schemas
  import opened Cascades
  import opened Engine
  import opened BlogOps
  import opened Tenancy

  // ---------- keys ----------

  /** As in SQL, the key lists a referencing column once. */
  predicate ColumnsOnce(k: ForeignKey) {
    forall m, n | m in k.cols && n in k.cols && m.from == n.from :: m == n
  }

  const WorkspacePair := Pair(WorkspaceId, WorkspaceId)

  /** `child` refers to `parent`, a row of workspace 1, and is of workspace 2 unless the key pairs the
      workspaces. */
  predicate Sample(k: ForeignKey, parent: Row, child: Row) {
    && Refers(k, child, parent) && Get(parent, WorkspaceId) == Uuid(1)
    && (WorkspacePair !in k.cols ==> Get(child, WorkspaceId) == Uuid(2))
  }

  function Value(c: Column): Cell { if c == WorkspaceId then Uuid(1) else Uuid(2) }

  lemma SampleParent(k: ForeignKey) returns (parent: Row)
    ensures Get(parent, WorkspaceId) == Uuid(1) && forall m | m in k.cols :: Get(parent, m.to) == Value(m.to)
  {
    parent := map m | m in k.cols :: m.to := Value(m.to);
    parent := parent[WorkspaceId := Uuid(1)];
  }

  lemma SampleChild(k: ForeignKey) returns (child: Row)
    requires ColumnsOnce(k)
    ensures forall m | m in k.cols :: Get(child, m.from) == Value(m.to)
    ensures WorkspacePair in k.cols || Get(child, WorkspaceId) == Uuid(2)
  {
    child := map m | m in k.cols :: m.from := Value(m.to);
    if m :| m in k.cols && m.from == WorkspaceId {
      assert m.to == WorkspaceId ==> m == WorkspacePair;
    } else {
      child := child[WorkspaceId := Uuid(2)];
    }
  }

  lemma SampleRows(k: ForeignKey) returns (parent: Row, child: Row)
    requires ColumnsOnce(k)
    ensures Sample(k, parent, child)
  {
    parent := SampleParent(k);
    child := SampleChild(k);
  }

  /** A key keeps referring rows in the workspace of the row they cite if and only if it pairs their
      workspace_id columns. */
  lemma SameWorkspaceExactly(k: ForeignKey)
    requires ColumnsOnce(k)
    ensures (forall child, parent | Refers(k, child, parent) ::
               Get(child, WorkspaceId) == Get(parent, WorkspaceId)) <==> WorkspacePair in k.cols
  {
    if WorkspacePair !in k.cols {
      var parent, child := SampleRows(k);
    } else {
      forall child, parent | Refers(k, child, parent) ensures Get(child, WorkspaceId) == Get(parent, WorkspaceId) {
        assert WorkspacePair.from == WorkspaceId && WorkspacePair.to == WorkspaceId;
      }
    }
  }

  // ---------- cascades ----------

  /** No delete of rows a session sees reaches a row it does not see. */
  ghost predicate CascadesStay(s: Schema, tenant: set<Table>, db: Db, session: Session) {
    forall roots | roots <= View(tenant, db, session).Keys ::
      Closure(s, db, roots) <= View(tenant, db, session).Keys
  }

  lemma EdgeInClosure(s: Schema, db: Db, p: Ref, c: Ref)
    requires p in db && c in db && CascadeEdge(s, db, p, c)
    ensures c in Closure(s, db, {p})
  {
    RootsReached(s, db, {p});
    ClosureIsClosed(s, db, {p});
  }

  /** In one database: cascades stay in the view if and only if no CASCADE reference leaves it. */
  lemma CascadesStayInDatabase(s: Schema, tenant: set<Table>, db: Db, session: Session)
    ensures CascadesStay(s, tenant, db, session) <==> Closed(s, db, View(tenant, db, session).Keys)
  {
    var view := View(tenant, db, session).Keys;
    if CascadesStay(s, tenant, db, session) {
      forall p, c | p in view && p in db && c in db && CascadeEdge(s, db, p, c) ensures c in view {
        EdgeInClosure(s, db, p, c);
        assert Closure(s, db, {p}) <= view;
      }
    } else {
      var roots :| roots <= view && !(Closure(s, db, roots) <= view);
      if Closed(s, db, view) {
        ClosureIsLeast(s, db, roots, view);
      }
    }
  }

  /** `db` holds just `p` and `c`, which refers to it by `k`. */
  ghost predicate Planted(k: ForeignKey, db: Db, p: Ref, c: Ref) {
    p != c && p.table == k.parent && c.table == k.child && db.Keys == {p, c} && Sample(k, db[p], db[c])
  }

  lemma SampleLeaves(s: Schema, tenant: set<Table>, k: ForeignKey, db: Db, p: Ref, c: Ref)
    requires k in s.keys && k.onDelete == Cascade && k.parent in tenant && Planted(k, db, p, c)
    requires k.child !in tenant || WorkspacePair !in k.cols
    ensures !CascadesStay(s, tenant, db, SessionOf(1))
  {
    assert CascadeEdge(s, db, p, c);
    AdmittedIff(db[p], SessionOf(1));
    AdmittedIff(db[c], SessionOf(1));
    CascadesStayInDatabase(s, tenant, db, SessionOf(1));
  }

  lemma Plant(k: ForeignKey) returns (db: Db, p: Ref, c: Ref)
    requires ColumnsOnce(k)
    ensures Planted(k, db, p, c)
  {
    var parent, child := SampleRows(k);
    p, c := Ref(k.parent, 0), Ref(k.child, 1);
    db := map[p := parent, c := child];
  }

  /** In all databases: cascades stay in every session's view if and only if each CASCADE key out of a
      tenant table ends in a tenant table and pairs workspace_id. */
  lemma CascadesStayExactly(s: Schema, tenant: set<Table>)
    requires forall k | k in s.keys :: ColumnsOnce(k)
    ensures (forall db, session :: CascadesStay(s, tenant, db, session)) <==> Qualified(s, tenant)
  {
    if Qualified(s, tenant) {
      forall db, session ensures CascadesStay(s, tenant, db, session) {
        forall roots | roots <= View(tenant, db, session).Keys
          ensures Closure(s, db, roots) <= View(tenant, db, session).Keys
        {
          ClosureIsVisible(s, tenant, db, session, roots);
        }
      }
    } else {
      var k :| k in s.keys && k.onDelete == Cascade && k.parent in tenant &&
               !(k.child in tenant && Pair(WorkspaceId, WorkspaceId) in k.cols);
      var db, p, c := Plant(k);
      SampleLeaves(s, tenant, k, db, p, c);
    }
  }

  // ---------- what an unqualified key lets through ----------

  function DeleteOf(p: Ref): Program { _ => Delete({p}) }

  function InsertOf(r: Ref, row: Row): Program { _ => Insert(map[r := row]) }

  lemma IssuedDelete(tenant: set<Table>, db: Db, w: nat, p: Ref)
    requires p in RowsOf(tenant, db, w)
    ensures Issued(tenant, db, SessionOf(w), DeleteOf(p)) == Delete({p})
  {
    assert {p} * RowsOf(tenant, db, w).Keys == {p};
  }

  /** In any schema and database: where a row of workspace `v` hangs by CASCADE on a row of workspace
      `w`, a session of `w` that deletes its own row removes the other workspace's row. */
  lemma DeleteReaches(s: Schema, tenant: set<Table>, db: Db, w: nat, v: nat, p: Ref, c: Ref, after: Db)
    requires p in RowsOf(tenant, db, w) && c in RowsOf(tenant, db, v) && CascadeEdge(s, db, p, c)
    requires SessionExecutes(s, tenant, db, SessionOf(w), DeleteOf(p), after)
    ensures c !in RowsOf(tenant, after, v)
  {
    IssuedDelete(tenant, db, w, p);
    EdgeInClosure(s, db, p, c);
  }

  /** An unqualified CASCADE key between two tenant tables. */
  predicate Unqualified(k: ForeignKey, tenant: set<Table>) {
    && k.onDelete == Cascade && !k.deferred && WorkspacePair !in k.cols
    && k.parent in tenant && k.child in tenant && k.parent != k.child
  }

  function OnlyKey(k: ForeignKey): Schema { Schema({k}, {}, {}, {}) }

  lemma ParentInserts(k: ForeignKey, tenant: set<Table>, db: Db, p: Ref, c: Ref)
    requires Unqualified(k, tenant) && Planted(k, db, p, c)
    ensures SessionExecutes(OnlyKey(k), tenant, map[], SessionOf(1), InsertOf(p, db[p]), map[p := db[p]])
  {
    var rows: Db := map[p := db[p]];
    AdmittedIff(db[p], SessionOf(1));
    assert map[] + rows == rows;
    assert CanInsert(OnlyKey(k), map[], rows);
  }

  lemma ChildInserts(k: ForeignKey, tenant: set<Table>, db: Db, p: Ref, c: Ref)
    requires Unqualified(k, tenant) && Planted(k, db, p, c)
    ensures SessionExecutes(OnlyKey(k), tenant, map[p := db[p]], SessionOf(2), InsertOf(c, db[c]), db)
  {
    var rows: Db := map[c := db[c]];
    AdmittedIff(db[c], SessionOf(2));
    assert map[p := db[p]] + rows == db;
    assert p in db && HasParent(k, db, db[c]);
    assert CanInsert(OnlyKey(k), map[p := db[p]], rows);
  }

  lemma PlantedEdge(k: ForeignKey, db: Db, p: Ref, c: Ref)
    requires k.onDelete == Cascade && Planted(k, db, p, c)
    ensures CascadeEdge(OnlyKey(k), db, p, c)
  {
  }

  lemma EdgeDooms(s: Schema, db: Db, p: Ref, c: Ref)
    requires db.Keys == {p, c} && CascadeEdge(s, db, p, c)
    ensures Closure(s, db, {p}) == {p, c}
  {
    RootsReached(s, db, {p});
    EdgeInClosure(s, db, p, c);
  }

  lemma NothingForbids(s: Schema, db: Db, doomed: set<Ref>)
    requires s.triggers == {} && doomed == db.Keys
    ensures Deletable(s, db, doomed)
  {
  }

  lemma PlantedDelete(s: Schema, db: Db, p: Ref, c: Ref)
    requires s.triggers == {} && db.Keys == {p, c} && CascadeEdge(s, db, p, c)
    ensures Executes(s, db, Delete({p}), db - {p, c})
  {
    EdgeDooms(s, db, p, c);
    NothingForbids(s, db, {p, c});
    DeletesDoomed(s, db, {p}, {p, c});
  }

  lemma ParentDeletes(k: ForeignKey, tenant: set<Table>, db: Db, p: Ref, c: Ref)
    requires Unqualified(k, tenant) && Planted(k, db, p, c)
    ensures SessionExecutes(OnlyKey(k), tenant, db, SessionOf(1), DeleteOf(p), map[])
  {
    AdmittedIff(db[p], SessionOf(1));
    IssuedDelete(tenant, db, 1, p);
    PlantedEdge(k, db, p, c);
    PlantedDelete(OnlyKey(k), db, p, c);
    assert db - {p, c} == map[];
  }

  /** Workspace 1 stores `p`, workspace 2 stores `c`, which names it, and workspace 1 deletes `p`. */
  function LeakTurns(db: Db, p: Ref, c: Ref): seq<Turn>
    requires p in db && c in db
  {
    [Turn(SessionOf(1), InsertOf(p, db[p]), true), Turn(SessionOf(2), InsertOf(c, db[c]), true), Commit,
     Turn(SessionOf(1), DeleteOf(p), true), Commit]
  }

  lemma OneMoreTurn(s: Schema, tenant: set<Table>, a: State, turns: seq<Turn>, mid: State, b: State)
    requires turns != [] && TurnRuns(s, tenant, a, turns[0], mid) && Runs(s, tenant, mid, turns[1..], b)
    ensures Runs(s, tenant, a, turns, b)
  {
  }

  lemma LeakRuns(k: ForeignKey, tenant: set<Table>, db: Db, p: Ref, c: Ref)
    requires Unqualified(k, tenant) && Planted(k, db, p, c)
    ensures Runs(OnlyKey(k), tenant, EmptyState, LeakTurns(db, p, c), EmptyState)
  {
    var s, turns := OnlyKey(k), LeakTurns(db, p, c);
    ParentInserts(k, tenant, db, p, c);
    ChildInserts(k, tenant, db, p, c);
    ParentDeletes(k, tenant, db, p, c);
    var one: Db := map[p := db[p]];
    var s1, s2, s3, s4 := State(map[], one), State(map[], db), State(db, db), State(db, map[]);
    OneMoreTurn(s, tenant, s4, turns[4..], EmptyState, EmptyState);
    OneMoreTurn(s, tenant, s3, turns[3..], s4, EmptyState);
    OneMoreTurn(s, tenant, s2, turns[2..], s3, EmptyState);
    OneMoreTurn(s, tenant, s1, turns[1..], s2, EmptyState);
    OneMoreTurn(s, tenant, EmptyState, turns, s1, EmptyState);
  }

  lemma LeakLog(db: Db, p: Ref, c: Ref)
    requires p in db && c in db
    ensures Own(NoLog, LeakTurns(db, p, c), 2) == Log([InsertOf(c, db[c])], [])
  {
    var t, x := LeakTurns(db, p, c), InsertOf(c, db[c]);
    var open, kept := Log([], [x]), Log([x], []);
    assert Note(NoLog, t[1], 2) == open && Note(open, Commit, 2) == kept && Note(kept, Commit, 2) == kept;
    OwnStep(NoLog, t, 2);
    OwnStep(NoLog, t[1..], 2);
    OwnStep(open, t[2..], 2);
    OwnStep(kept, t[3..], 2);
    OwnStep(kept, t[4..], 2);
  }

  lemma OwnStep(log: Log, turns: seq<Turn>, w: nat)
    requires turns != []
    ensures Own(log, turns, w) == Own(Note(log, turns[0], w), turns[1..], w)
  {
  }

  /** Every unqualified CASCADE key between tenant tables breaks isolation: there is a history in which
      workspace 2 stores and commits a row, does nothing more, and is left without it. */
  lemma UnqualifiedKeyLeaks(k: ForeignKey, tenant: set<Table>) returns (turns: seq<Turn>, c: Ref, row: Row)
    requires Unqualified(k, tenant) && ColumnsOnce(k)
    ensures Runs(OnlyKey(k), tenant, EmptyState, turns, EmptyState)
    ensures Own(NoLog, turns, 2) == Log([InsertOf(c, row)], [])
    ensures !Replayed(OnlyKey(k), tenant, EmptyState, 2, map[], Own(NoLog, turns, 2))
  {
    var db, p, q := Plant(k);
    c, row, turns := q, db[q], LeakTurns(db, p, q);
    LeakRuns(k, tenant, db, p, c);
    LeakLog(db, p, c);
    assert Replay(OnlyKey(k), map[], [InsertOf(c, row)]) == Replay(OnlyKey(k), map[c := row], []);
    assert c !in RowsOf(tenant, map[], 2);
  }

  lemma OneColumnOnce(child: Table, c: Column, parent: Table)
    ensures ColumnsOnce(ById(child, c, parent)) && WorkspacePair !in ById(child, c, parent).cols
  {
  }

  /** For instance the keys of agency_clients and of scim_resource_links: both ends are under the
      isolation policy. */
  lemma AgencyAndScimLeak(k: ForeignKey, tenant: set<Table>) returns (turns: seq<Turn>, c: Ref, row: Row)
    requires (k == AgencyOfClient || k == ConfigurationOfLink) && k.parent in tenant && k.child in tenant
    ensures Runs(OnlyKey(k), tenant, EmptyState, turns, EmptyState)
    ensures Own(NoLog, turns, 2) == Log([InsertOf(c, row)], [])
    ensures !Replayed(OnlyKey(k), tenant, EmptyState, 2, map[], Own(NoLog, turns, 2))
  {
    OneColumnOnce(T("agency_clients"), Named("agency_id"), T("agencies"));
    OneColumnOnce(T("scim_resource_links"), Named("configuration_id"), T("scim_configurations"));
    assert "agencies" != "agency_clients" && "scim_configurations"[5] != "scim_resource_links"[5];
    turns, c, row := UnqualifiedKeyLeaks(k, tenant);
  }
}
