/** Row-level security by workspace: what one tenant can see and change. */
module Tenancy {
  import opened Sql
  import opened Schemas
  import opened Cascades
  import opened Engine
  import opened BlogOps

  /** `workspace_id = app.current_workspace_id()`, as USING and as WITH CHECK. */
  const Isolation := Equal(Col(WorkspaceId), CurrentWorkspace)

  /** What a session sees of the tables under the isolation policy. */
  function View(tenant: set<Table>, db: Db, session: Session): (v: Db)
    ensures v.Keys <= db.Keys
  {
    map r | r in db && r.table in tenant && Admits(Isolation, db[r], session) :: db[r]
  }

  /** USING: an UPDATE or DELETE only reaches rows the session sees. */
  function Visible(stmt: Statement, view: Db): Statement {
    match stmt
    case Insert(rows) => stmt
    case Update(changes) => Update(map r | r in changes && r in view :: changes[r])
    case Delete(roots) => Delete(roots * view.Keys)
  }

  /** WITH CHECK: new row versions belong to the session's workspace. */
  predicate Checked(tenant: set<Table>, stmt: Statement, session: Session) {
    match stmt
    case Insert(rows) => forall r | r in rows :: r.table in tenant && Admits(Isolation, rows[r], session)
    case Update(changes) => forall r | r in changes :: Admits(Isolation, changes[r], session)
    case Delete(_) => true
  }

  /** A client program computes its next statement from what it can read. */
  type Program = Db -> Statement

  function Issued(tenant: set<Table>, db: Db, session: Session, program: Program): Statement {
    var view := View(tenant, db, session);
    Visible(program(view), view)
  }

  ghost predicate SessionExecutes(s: Schema, tenant: set<Table>, db: Db, session: Session, program: Program, after: Db)
  {
    var stmt := Issued(tenant, db, session, program);
    Checked(tenant, stmt, session) && Executes(s, db, stmt, after)
  }

  /** CASCADE keys out of tenant tables stay in tenant tables and carry workspace_id. */
  predicate Qualified(s: Schema, tenant: set<Table>) {
    forall k | k in s.keys && k.onDelete == Cascade && k.parent in tenant ::
      k.child in tenant && Pair(WorkspaceId, WorkspaceId) in k.cols
  }

  /** The CASCADE keys of `s` are those of the migrations. */
  ghost predicate MigrationCascades(s: Schema) {
    && (forall k | k in s.keys && k.onDelete == Cascade :: TenantCascade(k) || GlobalCascade(k))
    && (forall k | GlobalCascade(k) :: k in s.keys)
  }

  /** For tables that include what the workspace-qualified CASCADE keys reach, the migrations meet the
      premise if and only if none of the tables is the parent of an unqualified one. So `agencies`,
      `federated_provider_connections` and `scim_configurations`, although under the isolation policy,
      are outside the isolation results. */
  lemma MigrationsQualify(s: Schema, tenant: set<Table>)
    requires MigrationCascades(s) && forall k | TenantCascade(k) :: k.child in tenant
    ensures Qualified(s, tenant) <==> forall t | t in tenant :: !GlobalParent(t)
  {
    if t :| t in tenant && GlobalParent(t) {
      var k := GlobalParentHasKey(t);
      GlobalCascadeIsPlain(k);
    } else {
      forall k | k in s.keys && k.onDelete == Cascade && k.parent in tenant
        ensures k.child in tenant && Pair(WorkspaceId, WorkspaceId) in k.cols
      {
        if GlobalCascade(k) {
          GlobalCascadeIsPlain(k);
        } else {
          TenantCascadeCarriesWorkspace(k);
        }
      }
    }
  }

  lemma AdmittedIff(row: Row, session: Session)
    ensures Admits(Isolation, row, session) <==>
              CurrentId(session.workspace) != Null && Get(row, WorkspaceId) == CurrentId(session.workspace)
  {
  }

  /** An unset or blank workspace sees nothing. */
  lemma UnsetSeesNothing(tenant: set<Table>, db: Db, session: Session)
    requires !session.workspace.Given?
    ensures View(tenant, db, session) == map[]
  {
  }

  // ---------- cascades stay inside the view ----------

  lemma EdgeStaysVisible(s: Schema, tenant: set<Table>, db: Db, session: Session, p: Ref, c: Ref)
    requires Qualified(s, tenant) && p in View(tenant, db, session) && c in db && CascadeEdge(s, db, p, c)
    ensures c in View(tenant, db, session)
  {
  }

  /** The cascade a session sets off is the one it can see. */
  lemma ClosureIsVisible(s: Schema, tenant: set<Table>, db: Db, session: Session, roots: set<Ref>)
    requires Qualified(s, tenant) && roots <= View(tenant, db, session).Keys
    ensures Closure(s, db, roots) == Closure(s, View(tenant, db, session), roots)
    ensures Closure(s, db, roots) <= View(tenant, db, session).Keys
  {
    var view := View(tenant, db, session);
    forall p, c | p in view.Keys && p in db && c in db && CascadeEdge(s, db, p, c) ensures c in view.Keys {
      EdgeStaysVisible(s, tenant, db, session, p, c);
    }
    ClosureOfPart(s, db, view, roots);
  }

  // ---------- one statement ----------

  /** The effect of a statement on a tenant's own rows, computed from those rows alone. */
  ghost function Effect(s: Schema, view: Db, stmt: Statement): Db {
    match stmt
    case Insert(rows) => view + rows
    case Update(changes) => view + changes
    case Delete(roots) => view - Closure(s, view, roots)
  }

  ghost predicate SameOutside(tenant: set<Table>, db: Db, after: Db, session: Session) {
    db - View(tenant, db, session).Keys == after - View(tenant, after, session).Keys
  }

  lemma WriteIsLocal(tenant: set<Table>, db: Db, rows: Db, session: Session)
    requires forall r | r in rows :: r.table in tenant && Admits(Isolation, rows[r], session)
    requires forall r | r in rows && r in db :: r in View(tenant, db, session)
    ensures View(tenant, db + rows, session) == View(tenant, db, session) + rows
    ensures SameOutside(tenant, db, db + rows, session)
  {
    var view, after := View(tenant, db, session), db + rows;
    var now := View(tenant, after, session);
    assert now.Keys == view.Keys + rows.Keys;
    assert forall r | r in now :: now[r] == (view + rows)[r];
    assert (db - view.Keys).Keys == (after - now.Keys).Keys;
  }

  lemma DeleteIsLocal(tenant: set<Table>, db: Db, doomed: set<Ref>, session: Session)
    requires doomed <= View(tenant, db, session).Keys
    ensures View(tenant, db - doomed, session) == View(tenant, db, session) - doomed
    ensures SameOutside(tenant, db, db - doomed, session)
  {
  }

  /** A tenant's step does to the rows it sees what those rows alone determine, and changes no
      other row, cascades included. */
  lemma StepIsLocal(s: Schema, tenant: set<Table>, db: Db, session: Session, program: Program, after: Db)
    requires Qualified(s, tenant) && SessionExecutes(s, tenant, db, session, program, after)
    ensures View(tenant, after, session) == Effect(s, View(tenant, db, session), Issued(tenant, db, session, program))
    ensures SameOutside(tenant, db, after, session)
  {
    match Issued(tenant, db, session, program)
    case Insert(rows) => WriteIsLocal(tenant, db, rows, session);
    case Update(changes) => WriteIsLocal(tenant, db, changes, session);
    case Delete(roots) =>
      ClosureIsVisible(s, tenant, db, session, roots);
      DeleteIsLocal(tenant, db, Closure(s, db, roots), session);
  }

  /** What lies outside one workspace's view includes the whole of another's. */
  lemma OthersUntouched(tenant: set<Table>, db: Db, after: Db, mine: Session, other: Session)
    requires SameOutside(tenant, db, after, mine) && mine.workspace != other.workspace && other.workspace.Given?
    ensures View(tenant, after, other) == View(tenant, db, other)
  {
    var a, b := db - View(tenant, db, mine).Keys, after - View(tenant, after, mine).Keys;
    assert a == b;
    forall x, r | x in {db, after} && r in View(tenant, x, other) ensures r in x && r !in View(tenant, x, mine) {
      AdmittedIff(x[r], mine);
      AdmittedIff(x[r], other);
    }
    assert forall r | r in View(tenant, db, other) :: r in a && a[r] == db[r];
    assert forall r | r in View(tenant, after, other) :: r in b && b[r] == after[r];
    assert View(tenant, after, other).Keys == View(tenant, db, other).Keys;
  }

  // ---------- deletes succeed or fail by the tenant's rows alone ----------

  /** Every key into tenant tables, CASCADE or RESTRICT, comes from tenant tables with workspace_id. */
  predicate AllQualified(s: Schema, tenant: set<Table>) {
    forall k | k in s.keys && k.parent in tenant :: k.child in tenant && Pair(WorkspaceId, WorkspaceId) in k.cols
  }

  lemma HolderIsVisible(s: Schema, tenant: set<Table>, db: Db, session: Session, k: ForeignKey, c: Ref, p: Ref)
    requires AllQualified(s, tenant) && k in s.keys && c in db && p in View(tenant, db, session) && Holds(k, db, c, p)
    ensures c in View(tenant, db, session)
  {
    var m := Pair(WorkspaceId, WorkspaceId);
    assert m in k.cols;
    assert Get(db[c], m.from) == Get(db[p], m.to);
    AdmittedIff(db[p], session);
    AdmittedIff(db[c], session);
  }

  /** Whether a delete succeeds, its cascade, RESTRICT keys and triggers included, depends on the
      tenant's own rows alone. */
  lemma DeleteSuccessIsLocal(s: Schema, tenant: set<Table>, db: Db, session: Session, roots: set<Ref>)
    requires AllQualified(s, tenant) && roots <= View(tenant, db, session).Keys
    ensures CanDelete(s, db, roots) <==> CanDelete(s, View(tenant, db, session), roots)
  {
    var view := View(tenant, db, session);
    ClosureIsVisible(s, tenant, db, session, roots);
    var doomed := Closure(s, db, roots);
    if k, c, p :|
      k in s.keys && c in db && p in doomed && k.onDelete == Restrict && c !in doomed && Holds(k, db, c, p)
    {
      HolderIsVisible(s, tenant, db, session, k, c, p);
      assert Holds(k, view, c, p);
    }
    if k, c, p :|
      k in s.keys && c in view && p in doomed && k.onDelete == Restrict && c !in doomed && Holds(k, view, c, p)
    {
      assert Holds(k, db, c, p);
    }
  }

  // ---------- whole histories, all tenants interleaved ----------

  /** One statement by one session, which may have aborted, or the end of the open transaction. */
  datatype Turn = Turn(session: Session, program: Program, done: bool) | Commit | Rollback

  ghost predicate TurnRuns(s: Schema, tenant: set<Table>, a: State, turn: Turn, b: State) {
    match turn
    case Turn(session, program, done) =>
      && b.committed == a.committed
      && if done then SessionExecutes(s, tenant, a.working, session, program, b.working) else b.working == a.working
    case Commit => KeysIntact(s, a.working, true) && b == State(a.working, a.working)
    case Rollback => b == State(a.committed, a.committed)
  }

  /** Turns are steps of the machine. */
  lemma TurnIsStep(s: Schema, tenant: set<Table>, a: State, turn: Turn, b: State)
    requires TurnRuns(s, tenant, a, turn, b)
    ensures Step(s, a, b)
  {
    if turn.Turn? && turn.done {
      assert Executes(s, a.working, Issued(tenant, a.working, turn.session, turn.program), b.working);
    }
  }

  /** `turns` leads from `a` to `b`. */
  ghost predicate Runs(s: Schema, tenant: set<Table>, a: State, turns: seq<Turn>, b: State)
    decreases |turns|
  {
    if turns == [] then b == a
    else exists mid :: TurnRuns(s, tenant, a, turns[0], mid) && Runs(s, tenant, mid, turns[1..], b)
  }

  /** A workspace's programs that took effect: those committed, and those of the open transaction. */
  datatype Log = Log(kept: seq<Program>, open: seq<Program>)

  const NoLog := Log([], [])

  function Note(log: Log, turn: Turn, w: nat): Log {
    match turn
    case Turn(session, program, done) =>
      if done && session.workspace == Given(w) then Log(log.kept, log.open + [program]) else log
    case Commit => Log(log.kept + log.open, [])
    case Rollback => Log(log.kept, [])
  }

  /** What `w` did in `turns`, after `log`: rolled-back statements are dropped. */
  ghost function Own(log: Log, turns: seq<Turn>, w: nat): Log
    decreases |turns|
  {
    if turns == [] then log else Own(Note(log, turns[0], w), turns[1..], w)
  }

  /** Programs replayed on a workspace's rows alone. */
  ghost function Replay(s: Schema, view: Db, programs: seq<Program>): Db
    decreases |programs|
  {
    if programs == [] then view
    else Replay(s, Effect(s, view, Visible(programs[0](view), view)), programs[1..])
  }

  lemma {:induction false} ReplayOneMore(s: Schema, view: Db, programs: seq<Program>, p: Program)
    ensures var before := Replay(s, view, programs);
            Replay(s, view, programs + [p]) == Effect(s, before, Visible(p(before), before))
    decreases |programs|
  {
    if programs == [] {
      assert Replay(s, view, [p]) == Replay(s, Effect(s, view, Visible(p(view), view)), []);
    } else {
      assert (programs + [p])[1..] == programs[1..] + [p];
      ReplayOneMore(s, Effect(s, view, Visible(programs[0](view), view)), programs[1..], p);
    }
  }

  function SessionOf(w: nat): Session { Session(Given(w), Unset) }

  function RowsOf(tenant: set<Table>, db: Db, w: nat): Db { View(tenant, db, SessionOf(w)) }

  lemma ViewByWorkspace(tenant: set<Table>, db: Db, session: Session, w: nat)
    requires session.workspace == Given(w)
    ensures View(tenant, db, session) == RowsOf(tenant, db, w)
  {
  }

  lemma OwnStatement(s: Schema, tenant: set<Table>, db: Db, session: Session, program: Program, after: Db, w: nat)
    requires Qualified(s, tenant) && SessionExecutes(s, tenant, db, session, program, after)
    ensures var view := RowsOf(tenant, db, w);
            RowsOf(tenant, after, w) ==
              if session.workspace == Given(w) then Effect(s, view, Visible(program(view), view)) else view
  {
    StepIsLocal(s, tenant, db, session, program, after);
    if session.workspace == Given(w) {
      ViewByWorkspace(tenant, db, session, w);
      ViewByWorkspace(tenant, after, session, w);
    } else {
      OthersUntouched(tenant, db, after, session, SessionOf(w));
    }
  }

  /** In state `st` the rows of `w` are what the logged programs make of `initial`. */
  ghost predicate Replayed(s: Schema, tenant: set<Table>, st: State, w: nat, initial: Db, log: Log) {
    && RowsOf(tenant, st.committed, w) == Replay(s, initial, log.kept)
    && RowsOf(tenant, st.working, w) == Replay(s, initial, log.kept + log.open)
  }

  lemma TurnReplayed(s: Schema, tenant: set<Table>, a: State, turn: Turn, b: State, w: nat, initial: Db, log: Log)
    requires Qualified(s, tenant) && TurnRuns(s, tenant, a, turn, b) && Replayed(s, tenant, a, w, initial, log)
    ensures Replayed(s, tenant, b, w, initial, Note(log, turn, w))
  {
    match turn
    case Turn(session, program, done) =>
      if done {
        OwnStatement(s, tenant, a.working, session, program, b.working, w);
        if session.workspace == Given(w) {
          ReplayOneMore(s, initial, log.kept + log.open, program);
          assert log.kept + (log.open + [program]) == log.kept + log.open + [program];
        }
      }
    case Commit => assert log.kept + log.open + [] == log.kept + log.open;
    case Rollback => assert log.kept + [] == log.kept;
  }

  lemma {:induction false} TurnsReplayed(s: Schema, tenant: set<Table>, a: State, turns: seq<Turn>, b: State, w: nat,
                                         initial: Db, log: Log)
    requires Qualified(s, tenant) && Runs(s, tenant, a, turns, b) && Replayed(s, tenant, a, w, initial, log)
    ensures Replayed(s, tenant, b, w, initial, Own(log, turns, w))
    decreases |turns|
  {
    if turns != [] {
      var mid :| TurnRuns(s, tenant, a, turns[0], mid) && Runs(s, tenant, mid, turns[1..], b);
      TurnReplayed(s, tenant, a, turns[0], mid, w, initial, log);
      TurnsReplayed(s, tenant, mid, turns[1..], b, w, initial, Note(log, turns[0], w));
    }
  }

  /** Isolation: after any interleaving with commits and rollbacks, a workspace's rows are what its own
      statements, less those rolled back, make of its own initial rows. */
  lemma AsIfAlone(s: Schema, tenant: set<Table>, db: Db, turns: seq<Turn>, b: State, w: nat)
    requires Qualified(s, tenant) && Runs(s, tenant, State(db, db), turns, b)
    ensures Replayed(s, tenant, b, w, RowsOf(tenant, db, w), Own(NoLog, turns, w))
  {
    assert Replayed(s, tenant, State(db, db), w, RowsOf(tenant, db, w), NoLog);
    TurnsReplayed(s, tenant, State(db, db), turns, b, w, RowsOf(tenant, db, w), NoLog);
  }

  /** Noninterference: two databases that agree on `w`, and two histories in which the statements of
      `w` that took effect are the same, leave `w` with the same reads, whatever the others did. */
  lemma Noninterference(s: Schema, tenant: set<Table>, x: Db, y: Db, turnsX: seq<Turn>, turnsY: seq<Turn>,
                        a: State, b: State, w: nat)
    requires Qualified(s, tenant)
    requires Runs(s, tenant, State(x, x), turnsX, a) && Runs(s, tenant, State(y, y), turnsY, b)
    requires RowsOf(tenant, x, w) == RowsOf(tenant, y, w) && Own(NoLog, turnsX, w) == Own(NoLog, turnsY, w)
    ensures RowsOf(tenant, a.committed, w) == RowsOf(tenant, b.committed, w)
    ensures RowsOf(tenant, a.working, w) == RowsOf(tenant, b.working, w)
  {
    AsIfAlone(s, tenant, x, turnsX, a, w);
    AsIfAlone(s, tenant, y, turnsY, b, w);
  }
}
