/** Statements, transactions and runs over a schema.

    A statement either has the effect described here or aborts and changes nothing. ON UPDATE is
    NO ACTION, row triggers fire on cascaded deletes, keys are checked regardless of row-level
    security, and whether a RESTRICT met inside a cascade aborts is left open: an abort is always
    a possible outcome of a step. */
module Engine {
  import opened Schemas
  import opened Cascades

  datatype Statement = Insert(rows: Db) | Update(changes: Db) | Delete(roots: set<Ref>)

  /** The keys held by `touched`, which are not deferred, have parents in `db`. */
  predicate ReferencesHold(s: Schema, db: Db, touched: Db) {
    forall k, r | k in s.keys && r in touched :: !k.deferred && k.child == r.table ==> KeyHolds(k, db, touched[r])
  }

  /** NO ACTION: a child that cited an updated row's old key still finds a parent. */
  predicate NoActionHolds(s: Schema, db: Db, updated: set<Ref>, after: Db)
    requires updated <= db.Keys
  {
    forall k, p, c | k in s.keys && p in updated && c in after ::
      !k.deferred && k.parent == p.table && k.child == c.table && Refers(k, after[c], db[p]) ==>
        HasParent(k, after, after[c])
  }

  predicate TriggersAccept(s: Schema, db: Db, changes: Db)
    requires changes.Keys <= db.Keys
  {
    forall r | r in changes :: UpdateAccepted(s, r.table, db[r], changes[r])
  }

  predicate CanInsert(s: Schema, db: Db, rows: Db) {
    && rows.Keys !! db.Keys
    && RowsChecked(s, rows)
    && UniquesHold(s, db + rows)
    && ReferencesHold(s, db + rows, rows)
  }

  predicate CanUpdate(s: Schema, db: Db, changes: Db) {
    && changes.Keys <= db.Keys
    && TriggersAccept(s, db, changes)
    && RowsChecked(s, changes)
    && UniquesHold(s, db + changes)
    && ReferencesHold(s, db + changes, changes)
    && NoActionHolds(s, db, changes.Keys, db + changes)
  }

  ghost predicate CanDelete(s: Schema, db: Db, roots: set<Ref>) {
    roots <= db.Keys && Deletable(s, db, Closure(s, db, roots))
  }

  ghost predicate Executes(s: Schema, db: Db, stmt: Statement, after: Db) {
    match stmt
    case Insert(rows) => CanInsert(s, db, rows) && after == db + rows
    case Update(changes) => CanUpdate(s, db, changes) && after == db + changes
    case Delete(roots) => CanDelete(s, db, roots) && after == db - Closure(s, db, roots)
  }

  /** A delete whose cascade is `doomed` executes if nothing forbids removing those rows. */
  lemma DeletesDoomed(s: Schema, db: Db, roots: set<Ref>, doomed: set<Ref>)
    requires roots <= db.Keys && doomed == Closure(s, db, roots) && Deletable(s, db, doomed)
    ensures Executes(s, db, Delete(roots), db - doomed)
  {
  }

  // ---------- every statement keeps the database sound ----------

  lemma InsertKeepsKeys(s: Schema, db: Db, rows: Db, k: ForeignKey)
    requires CanInsert(s, db, rows) && k in s.keys && !k.deferred && KeyIntact(k, db)
    ensures KeyIntact(k, db + rows)
  {
  }

  lemma UpdateKeepsKeys(s: Schema, db: Db, changes: Db, k: ForeignKey)
    requires CanUpdate(s, db, changes) && k in s.keys && !k.deferred && KeyIntact(k, db)
    ensures KeyIntact(k, db + changes)
  {
  }

  /** A cascading delete leaves no dangling reference, whatever key and whether or not deferred. */
  lemma DeleteKeepsKeys(s: Schema, db: Db, roots: set<Ref>, k: ForeignKey)
    requires CanDelete(s, db, roots) && k in s.keys && KeyIntact(k, db)
    ensures KeyIntact(k, db - Closure(s, db, roots))
  {
    var doomed := Closure(s, db, roots);
    var after := db - doomed;
    forall c | c in after && c.table == k.child ensures KeyHolds(k, after, after[c]) {
      if Complete(k, after[c]) {
        var p :| p in db && p.table == k.parent && Refers(k, db[c], db[p]);
        if p in doomed {
          NothingDangles(s, db, roots, k, c, p);
        }
        assert p in after;
      }
    }
  }

  lemma StatementKeepsSound(s: Schema, db: Db, stmt: Statement, after: Db)
    requires Sound(s, db) && Executes(s, db, stmt, after)
    ensures Sound(s, after)
  {
    forall k | k in s.keys && k.deferred == false ensures KeyIntact(k, after) {
      match stmt
      case Insert(rows) => InsertKeepsKeys(s, db, rows, k);
      case Update(changes) => UpdateKeepsKeys(s, db, changes, k);
      case Delete(roots) => DeleteKeepsKeys(s, db, roots, k);
    }
    if stmt.Delete? {
      forall u | u in s.uniques ensures UniqueHolds(u, after) {
        assert UniqueHolds(u, db);
      }
    }
  }

  // ---------- transactions and runs ----------

  /** The last committed database and the one the open transaction sees. */
  datatype State = State(committed: Db, working: Db)

  ghost predicate Step(s: Schema, a: State, b: State) {
    || (a.committed == b.committed && exists stmt :: Executes(s, a.working, stmt, b.working))
    || (KeysIntact(s, a.working, true) && b == State(a.working, a.working))  // COMMIT
    || b == State(a.committed, a.committed)                                  // ROLLBACK
    || b == a                                                                // statement aborted
  }

  const EmptyState := State(map[], map[])

  ghost predicate StepAt(s: Schema, trace: seq<State>, i: nat)
    requires 0 < i < |trace|
  {
    Step(s, trace[i-1], trace[i])
  }

  /** A run from the empty database, as the sequence of its states. */
  ghost predicate Run(s: Schema, trace: seq<State>) {
    && |trace| > 0
    && trace[0] == EmptyState
    && forall i: nat | 0 < i < |trace| :: StepAt(s, trace, i)
  }

  /** All constraints hold in the committed database, and all but the deferred keys in the working one. */
  ghost predicate SoundState(s: Schema, st: State) {
    Sound(s, st.committed) && KeysIntact(s, st.committed, true) && Sound(s, st.working)
  }

  lemma StepKeepsSound(s: Schema, a: State, b: State)
    requires Step(s, a, b) && SoundState(s, a)
    ensures SoundState(s, b)
  {
    if a.committed == b.committed && exists stmt :: Executes(s, a.working, stmt, b.working) {
      var stmt :| Executes(s, a.working, stmt, b.working);
      StatementKeepsSound(s, a.working, stmt, b.working);
    }
  }

  /** ... in every state of every run. */
  lemma {:induction false} RunIsSound(s: Schema, trace: seq<State>, i: nat)
    requires Run(s, trace) && i < |trace|
    ensures Sound(s, trace[i].committed) && KeysIntact(s, trace[i].committed, true)
    ensures Sound(s, trace[i].working)
  {
    if i > 0 {
      RunIsSound(s, trace, i - 1);
      assert StepAt(s, trace, i);
      StepKeepsSound(s, trace[i-1], trace[i]);
    }
  }

  // ---------- what statements keep, runs keep ----------

  /** A step whose statement, if it is one, meets a condition on the database and the statement. */
  ghost predicate StepWhere(s: Schema, ok: (Db, Statement) -> bool, a: State, b: State) {
    || (a.committed == b.committed && exists stmt :: ok(a.working, stmt) && Executes(s, a.working, stmt, b.working))
    || (KeysIntact(s, a.working, true) && b == State(a.working, a.working))
    || b == State(a.committed, a.committed)
    || b == a
  }

  ghost predicate StepWhereAt(s: Schema, ok: (Db, Statement) -> bool, trace: seq<State>, i: nat)
    requires 0 < i < |trace|
  {
    StepWhere(s, ok, trace[i-1], trace[i])
  }

  ghost predicate RunWhere(s: Schema, ok: (Db, Statement) -> bool, trace: seq<State>) {
    |trace| > 0 && trace[0] == EmptyState && forall i: nat | 0 < i < |trace| :: StepWhereAt(s, ok, trace, i)
  }

  lemma RunWhereIsRun(s: Schema, ok: (Db, Statement) -> bool, trace: seq<State>)
    requires RunWhere(s, ok, trace)
    ensures Run(s, trace)
  {
    forall i: nat | 0 < i < |trace| ensures StepAt(s, trace, i) {
      assert StepWhereAt(s, ok, trace, i);
    }
  }

  /** No statement that meets the condition ends `p`. */
  ghost predicate Kept(s: Schema, ok: (Db, Statement) -> bool, p: Db -> bool) {
    forall db, stmt, after | Sound(s, db) && p(db) && ok(db, stmt) && Executes(s, db, stmt, after) :: p(after)
  }

  lemma KeptByStep(s: Schema, ok: (Db, Statement) -> bool, p: Db -> bool, a: State, b: State)
    requires Kept(s, ok, p) && StepWhere(s, ok, a, b) && Sound(s, a.working)
    requires p(a.committed) ==> p(a.working)
    ensures p(b.committed) ==> p(b.working)
    ensures p(a.committed) ==> p(b.committed)
  {
  }

  /** What holds of the committed database holds for the open transaction too. */
  lemma {:induction false} OpenKeeps(s: Schema, ok: (Db, Statement) -> bool, p: Db -> bool, trace: seq<State>, i: nat)
    requires Kept(s, ok, p) && RunWhere(s, ok, trace) && i < |trace|
    ensures p(trace[i].committed) ==> p(trace[i].working)
  {
    if i > 0 {
      OpenKeeps(s, ok, p, trace, i - 1);
      RunWhereIsRun(s, ok, trace);
      RunIsSound(s, trace, i - 1);
      assert StepWhereAt(s, ok, trace, i);
      KeptByStep(s, ok, p, trace[i-1], trace[i]);
    }
  }

  /** Once committed, a property that no such statement ends holds in every later state of the run. */
  lemma {:induction false} KeptForever(s: Schema, ok: (Db, Statement) -> bool, p: Db -> bool, trace: seq<State>,
                                       i: nat, j: nat)
    requires Kept(s, ok, p) && RunWhere(s, ok, trace) && i <= j < |trace| && p(trace[i].committed)
    ensures p(trace[j].committed) && p(trace[j].working)
    decreases j
  {
    if i < j {
      KeptForever(s, ok, p, trace, i, j - 1);
      RunWhereIsRun(s, ok, trace);
      RunIsSound(s, trace, j - 1);
      assert StepWhereAt(s, ok, trace, j);
      OpenKeeps(s, ok, p, trace, j - 1);
      KeptByStep(s, ok, p, trace[j-1], trace[j]);
    }
    OpenKeeps(s, ok, p, trace, j);
  }

  /** Every statement. */
  predicate Any(db: Db, stmt: Statement) { true }

  lemma RunIsRunWhere(s: Schema, trace: seq<State>)
    requires Run(s, trace)
    ensures RunWhere(s, Any, trace)
  {
    forall i: nat | 0 < i < |trace| ensures StepWhereAt(s, Any, trace, i) {
      assert StepAt(s, trace, i);
      AnyStep(s, trace[i-1], trace[i]);
    }
  }

  lemma AnyStep(s: Schema, a: State, b: State)
    requires Step(s, a, b)
    ensures StepWhere(s, Any, a, b)
  {
  }
}
