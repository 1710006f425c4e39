/** Permanence spreads backwards through the reference graph.

    A fact `(t, a)` says that table `t` has a row with the column values `a`. It is pinned when a
    row that can be neither deleted nor changed in those columns states it, or when a pinned fact
    cites it through a foreign key, or when it adds frozen columns to a pinned fact that
    identifies its row. No step of any run ends a pinned fact. */
module Permanence {
  import opened Sql
  import opened Schemas
  import opened Cascades
  import opened Engine

  type Fact = map<Column, Cell>

  ghost predicate Matches(row: Row, a: Fact) {
    forall c | c in a :: Get(row, c) == a[c]
  }

  ghost predicate Present(db: Db, t: Table, a: Fact) {
    exists r | r in db :: r.table == t && Matches(db[r], a)
  }

  // ---------- what triggers fix ----------

  predicate Freezes(t: Trigger, c: Column) {
    match t
    case Immutable => true
    case NoUpdate => true
    case FrozenSnapshot(cols) => c in cols
    case HistoryGuard(cols) => c in cols
    case PlanGuard => false
  }

  predicate Frozen(s: Schema, t: Table, c: Column) {
    exists g | g in s.triggers :: g.table == t && Freezes(g.trigger, c)
  }

  /** No accepted update changes column `c` of this row any more. */
  predicate Fixed(s: Schema, t: Table, row: Row, c: Column) {
    Frozen(s, t, c) || (TableTrigger(t, PlanGuard) in s.triggers && Decided(row))
  }

  lemma FixedStays(s: Schema, t: Table, before: Row, after: Row, c: Column)
    requires UpdateAccepted(s, t, before, after) && Fixed(s, t, before, c)
    ensures Get(after, c) == Get(before, c) && Fixed(s, t, after, c)
  {
  }

  /** A row of a delete-guarded table survives every statement with its fixed columns. */
  lemma GuardedRowStays(s: Schema, db: Db, stmt: Statement, after: Db, r: Ref)
    requires Executes(s, db, stmt, after) && r in db && DeleteGuarded(s, r.table)
    ensures r in after
    ensures forall c | Fixed(s, r.table, db[r], c) ::
              Get(after[r], c) == Get(db[r], c) && Fixed(s, r.table, after[r], c)
  {
  }

  // ---------- pinned facts ----------

  /** A delete-guarded row states `a` with fixed columns only. */
  ghost predicate Evident(s: Schema, db: Db, t: Table, a: Fact) {
    DeleteGuarded(s, t) &&
    exists r | r in db :: r.table == t && Matches(db[r], a) && forall c | c in a :: Fixed(s, t, db[r], c)
  }

  /** `row` has the key values that `b` cites through `k`. */
  ghost predicate Target(k: ForeignKey, b: Fact, row: Row) {
    forall m | m in k.cols :: m.from in b && Get(row, m.to) == b[m.from]
  }

  /** Every column of the key is known and not NULL in `b`, and `a` is what it says of the parent. */
  ghost predicate Carries(k: ForeignKey, b: Fact, a: Fact) {
    && (forall m | m in k.cols :: m.from in b && b[m.from] != Null)
    && (forall c | c in a :: exists m | m in k.cols :: m.to == c && b[m.from] == a[c])
  }

  /** The child fact `b` holds the whole of key `k` and so cites `a`. A deferred key cites only a
      parent that is already there and whose key columns are frozen. */
  ghost predicate Cites(s: Schema, db: Db, k: ForeignKey, b: Fact, a: Fact) {
    && k in s.keys
    && Carries(k, b, a)
    && (k.deferred ==>
          && (forall m | m in k.cols :: Frozen(s, k.parent, m.to))
          && exists p | p in db :: p.table == k.parent && Target(k, b, db[p]))
  }

  /** `b` identifies a row by a frozen unique key, and `a` adds frozen columns of that row. */
  ghost predicate Widens(s: Schema, db: Db, t: Table, u: Unique, b: Fact, a: Fact) {
    && u in s.uniques && u.table == t && u.filter == Lit(True)
    && (forall c | c in u.cols :: c in b && b[c] != Null && Frozen(s, t, c))
    && exists r :: Wider(s, db, t, b, a, r)
  }

  ghost predicate Pinned(s: Schema, db: Db, t: Table, a: Fact, n: nat)
    decreases n, 1
  {
    Evident(s, db, t, a) || PinnedByKey(s, db, t, a, n) || PinnedByRow(s, db, t, a, n)
  }

  ghost predicate PinnedByKey(s: Schema, db: Db, t: Table, a: Fact, n: nat)
    decreases n, 0
  {
    n > 0 && exists k, b :: Cites(s, db, k, b, a) && k.parent == t && Pinned(s, db, k.child, b, n - 1)
  }

  ghost predicate PinnedByRow(s: Schema, db: Db, t: Table, a: Fact, n: nat)
    decreases n, 0
  {
    n > 0 && exists u, b :: Widens(s, db, t, u, b, a) && Pinned(s, db, t, b, n - 1)
  }

  lemma PinByKey(s: Schema, db: Db, k: ForeignKey, b: Fact, a: Fact, n: nat)
    requires Cites(s, db, k, b, a) && Pinned(s, db, k.child, b, n)
    ensures Pinned(s, db, k.parent, a, n + 1)
  {
  }

  lemma PinByRow(s: Schema, db: Db, t: Table, u: Unique, b: Fact, a: Fact, n: nat)
    requires Widens(s, db, t, u, b, a) && Pinned(s, db, t, b, n)
    ensures Pinned(s, db, t, a, n + 1)
  {
  }

  /** A present fact's citation is present. */
  lemma CitedIsPresent(s: Schema, db: Db, k: ForeignKey, b: Fact, a: Fact)
    requires KeysIntact(s, db, false) && Cites(s, db, k, b, a) && Present(db, k.child, b)
    ensures Present(db, k.parent, a)
  {
  }

  lemma {:induction false} PinnedByKeyIsPresent(s: Schema, db: Db, t: Table, a: Fact, n: nat)
    requires KeysIntact(s, db, false) && PinnedByKey(s, db, t, a, n)
    ensures Present(db, t, a)
    decreases n, 0
  {
    var k, b :| Cites(s, db, k, b, a) && k.parent == t && Pinned(s, db, k.child, b, n - 1);
    PinnedIsPresent(s, db, k.child, b, n - 1);
    CitedIsPresent(s, db, k, b, a);
  }

  lemma PinnedByRowIsPresent(s: Schema, db: Db, t: Table, a: Fact, n: nat)
    requires PinnedByRow(s, db, t, a, n)
    ensures Present(db, t, a)
  {
  }

  lemma EvidentIsPresent(s: Schema, db: Db, t: Table, a: Fact)
    requires Evident(s, db, t, a)
    ensures Present(db, t, a)
  {
  }

  lemma {:induction false} PinnedIsPresent(s: Schema, db: Db, t: Table, a: Fact, n: nat)
    requires KeysIntact(s, db, false) && Pinned(s, db, t, a, n)
    ensures Present(db, t, a)
    decreases n, 1
  {
    if PinnedByKey(s, db, t, a, n) {
      PinnedByKeyIsPresent(s, db, t, a, n);
    } else if PinnedByRow(s, db, t, a, n) {
      PinnedByRowIsPresent(s, db, t, a, n);
    } else {
      EvidentIsPresent(s, db, t, a);
    }
  }

  lemma EvidentStays(s: Schema, db: Db, stmt: Statement, after: Db, t: Table, a: Fact)
    requires Executes(s, db, stmt, after) && Evident(s, db, t, a)
    ensures Evident(s, after, t, a)
  {
    var r :| r in db && r.table == t && Matches(db[r], a) && forall c | c in a :: Fixed(s, t, db[r], c);
    GuardedRowStays(s, db, stmt, after, r);
    assert Matches(after[r], a);
  }

  /** A cited row whose key is frozen is the target after the statement too. */
  lemma FrozenTargetStays(s: Schema, db: Db, stmt: Statement, after: Db, k: ForeignKey, b: Fact, p: Ref)
    requires Executes(s, db, stmt, after) && k in s.keys && (forall m | m in k.cols :: m.from in b && b[m.from] != Null)
    requires p in db && p.table == k.parent && Target(k, b, db[p])
    requires forall m | m in k.cols :: Frozen(s, k.parent, m.to)
    requires Present(after, k.child, b)
    ensures p in after && Target(k, b, after[p])
  {
    match stmt
    case Insert(rows) =>
    case Update(changes) =>
      if p in changes {
        forall m | m in k.cols ensures Get(after[p], m.to) == Get(db[p], m.to) {
          FixedStays(s, p.table, db[p], after[p], m.to);
        }
      }
    case Delete(roots) =>
      if p in Closure(s, db, roots) {
        var c :| c in after && c.table == k.child && Matches(after[c], b);
        NothingDangles(s, db, roots, k, c, p);
        assert Refers(k, db[c], db[p]);
        assert false;
      }
  }

  /** `r` is the row that `b` identifies, and `a` adds frozen columns of it. */
  ghost predicate Wider(s: Schema, db: Db, t: Table, b: Fact, a: Fact, r: Ref) {
    && r in db && r.table == t && Matches(db[r], b) && Matches(db[r], a)
    && forall c | c in a :: c in b || Frozen(s, t, c)
  }

  /** A row identified by a frozen unique key keeps its frozen columns. */
  lemma WidenedStays(s: Schema, db: Db, stmt: Statement, after: Db, t: Table, u: Unique, b: Fact, a: Fact)
    requires UniquesHold(s, db) && Executes(s, db, stmt, after)
    requires Widens(s, db, t, u, b, a) && Present(after, t, b)
    ensures Widens(s, after, t, u, b, a)
  {
    var r :| Wider(s, db, t, b, a, r);
    var q :| q in after && q.table == t && Matches(after[q], b);
    match stmt
    case Insert(rows) =>
      assert Wider(s, after, t, b, a, r);
    case Update(changes) =>
      SameRow(s, db, changes, t, u, b, r, q);
      assert Wider(s, after, t, b, a, r);
    case Delete(roots) =>
      SurvivorIsSame(s, db, t, u, b, r, q);
      assert Wider(s, after, t, b, a, r);
  }

  lemma SurvivorIsSame(s: Schema, db: Db, t: Table, u: Unique, b: Fact, r: Ref, q: Ref)
    requires UniquesHold(s, db) && u in s.uniques && u.table == t && u.filter == Lit(True)
    requires forall c | c in u.cols :: c in b && b[c] != Null
    requires r in db && r.table == t && Matches(db[r], b) && q in db && q.table == t && Matches(db[q], b)
    ensures q == r
  {
  }

  lemma SameRow(s: Schema, db: Db, changes: Db, t: Table, u: Unique, b: Fact, r: Ref, q: Ref)
    requires UniquesHold(s, db) && CanUpdate(s, db, changes)
    requires u in s.uniques && u.table == t && u.filter == Lit(True)
    requires forall c | c in u.cols :: c in b && b[c] != Null && Frozen(s, t, c)
    requires r in db && r.table == t && Matches(db[r], b)
    requires q in db && q.table == t && Matches((db + changes)[q], b)
    ensures q == r
    ensures forall c | Frozen(s, t, c) :: Get((db + changes)[r], c) == Get(db[r], c)
  {
  }

  lemma CitesStays(s: Schema, db: Db, stmt: Statement, after: Db, k: ForeignKey, b: Fact, a: Fact)
    requires Executes(s, db, stmt, after) && Cites(s, db, k, b, a) && Present(after, k.child, b)
    ensures Cites(s, after, k, b, a)
  {
    if k.deferred {
      var p :| p in db && p.table == k.parent && Target(k, b, db[p]);
      FrozenTargetStays(s, db, stmt, after, k, b, p);
    }
  }

  lemma {:induction false} PinnedByKeyStays(s: Schema, db: Db, stmt: Statement, after: Db, t: Table, a: Fact, n: nat)
    requires Sound(s, db) && Sound(s, after) && Executes(s, db, stmt, after) && PinnedByKey(s, db, t, a, n)
    ensures Pinned(s, after, t, a, n)
    decreases n, 0
  {
    var k, b :| Cites(s, db, k, b, a) && k.parent == t && Pinned(s, db, k.child, b, n - 1);
    PinnedStays(s, db, stmt, after, k.child, b, n - 1);
    PinnedIsPresent(s, after, k.child, b, n - 1);
    CitesStays(s, db, stmt, after, k, b, a);
    PinByKey(s, after, k, b, a, n - 1);
  }

  lemma {:induction false} PinnedByRowStays(s: Schema, db: Db, stmt: Statement, after: Db, t: Table, a: Fact, n: nat)
    requires Sound(s, db) && Sound(s, after) && Executes(s, db, stmt, after) && PinnedByRow(s, db, t, a, n)
    ensures Pinned(s, after, t, a, n)
    decreases n, 0
  {
    var u, b :| Widens(s, db, t, u, b, a) && Pinned(s, db, t, b, n - 1);
    PinnedStays(s, db, stmt, after, t, b, n - 1);
    PinnedIsPresent(s, after, t, b, n - 1);
    WidenedStays(s, db, stmt, after, t, u, b, a);
    PinByRow(s, after, t, u, b, a, n - 1);
  }

  /** No statement ends a pinned fact. */
  lemma {:induction false} PinnedStays(s: Schema, db: Db, stmt: Statement, after: Db, t: Table, a: Fact, n: nat)
    requires Sound(s, db) && Sound(s, after) && Executes(s, db, stmt, after) && Pinned(s, db, t, a, n)
    ensures Pinned(s, after, t, a, n)
    decreases n, 1
  {
    if Evident(s, db, t, a) {
      EvidentStays(s, db, stmt, after, t, a);
    } else if PinnedByKey(s, db, t, a, n) {
      PinnedByKeyStays(s, db, stmt, after, t, a, n);
    } else {
      PinnedByRowStays(s, db, stmt, after, t, a, n);
    }
  }

  // ---------- whole runs ----------

  /** Once committed, a pinned fact is pinned in every later state. */
  lemma PinnedAt(s: Schema, trace: seq<State>, i: nat, j: nat, t: Table, a: Fact, n: nat)
    requires Run(s, trace) && i <= j < |trace| && Pinned(s, trace[i].committed, t, a, n)
    ensures Pinned(s, trace[j].committed, t, a, n) && Pinned(s, trace[j].working, t, a, n)
    ensures Sound(s, trace[j].committed) && Sound(s, trace[j].working)
  {
    var p := (db: Db) => Pinned(s, db, t, a, n);
    forall db, stmt, after | Sound(s, db) && p(db) && Any(db, stmt) && Executes(s, db, stmt, after) ensures p(after) {
      StatementKeepsSound(s, db, stmt, after);
      PinnedStays(s, db, stmt, after, t, a, n);
    }
    RunIsRunWhere(s, trace);
    KeptForever(s, Any, p, trace, i, j);
    RunIsSound(s, trace, j);
  }

  /** Permanence: once committed, a pinned fact holds in every later state, committed or open. */
  lemma PinnedForever(s: Schema, trace: seq<State>, i: nat, j: nat, t: Table, a: Fact, n: nat)
    requires Run(s, trace) && i <= j < |trace| && Pinned(s, trace[i].committed, t, a, n)
    ensures Present(trace[j].committed, t, a) && Present(trace[j].working, t, a)
  {
    PinnedAt(s, trace, i, j, t, a, n);
    PinnedIsPresent(s, trace[j].committed, t, a, n);
    PinnedIsPresent(s, trace[j].working, t, a, n);
  }

  /** Row `r` is there and has the fixed columns of `row`, still fixed. */
  ghost predicate Keeps(s: Schema, db: Db, r: Ref, row: Row) {
    r in db && forall c | Fixed(s, r.table, row, c) :: Get(db[r], c) == Get(row, c) && Fixed(s, r.table, db[r], c)
  }

  /** A committed row of a delete-guarded table is in every later state, with every column that was
      fixed then unchanged. */
  lemma GuardedRowForever(s: Schema, trace: seq<State>, i: nat, j: nat, r: Ref)
    requires Run(s, trace) && i <= j < |trace| && r in trace[i].committed && DeleteGuarded(s, r.table)
    ensures Keeps(s, trace[j].committed, r, trace[i].committed[r])
    ensures Keeps(s, trace[j].working, r, trace[i].committed[r])
  {
    var row := trace[i].committed[r];
    var p := (db: Db) => Keeps(s, db, r, row);
    forall db, stmt, after | Sound(s, db) && p(db) && Any(db, stmt) && Executes(s, db, stmt, after) ensures p(after) {
      GuardedRowStays(s, db, stmt, after, r);
    }
    RunIsRunWhere(s, trace);
    KeptForever(s, Any, p, trace, i, j);
  }
}
