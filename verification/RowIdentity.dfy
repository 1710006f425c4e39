/** Permanence is a matter of keys. The physical row behind a pinned key loses it exactly if one
    UPDATE gives the key to another row; where the key's columns are frozen it never does. */
module RowIdentity {
  import opened Sql
  import opened Schemas
  import opened Engine
  import opened Cascades
  import opened Statements
  import opened Permanence
  import opened BlogOps
  import opened Evidence
  import opened Sets

  /** `a` includes a unique key of `t`, so at most one row states it. */
  predicate Identifies(s: Schema, t: Table, u: Unique, a: Fact) {
    u in s.uniques && u.table == t && u.filter == Lit(True) && forall c | c in u.cols :: c in a && a[c] != Null
  }

  ghost predicate Bears(db: Db, r: Ref, t: Table, a: Fact) {
    r in db && r.table == t && Matches(db[r], a)
  }

  /** The statement is an UPDATE that gives the values `a` to a row of `t` other than `r`. */
  ghost predicate HandsOver(stmt: Statement, t: Table, a: Fact, r: Ref) {
    stmt.Update? && exists q | q in stmt.changes :: q != r && q.table == t && Matches(stmt.changes[q], a)
  }

  lemma StillPresent(s: Schema, db: Db, stmt: Statement, after: Db, t: Table, a: Fact, n: nat) returns (q: Ref)
    requires Sound(s, db) && Executes(s, db, stmt, after) && Pinned(s, db, t, a, n)
    ensures Sound(s, after) && Bears(after, q, t, a)
  {
    StatementKeepsSound(s, db, stmt, after);
    PinnedStays(s, db, stmt, after, t, a, n);
    PinnedIsPresent(s, after, t, a, n);
    q :| q in after && q.table == t && Matches(after[q], a);
  }

  /** The row that bears a pinned, identifying fact bears it after a statement if and only if the
      statement does not give it to another row. No delete, no cascade and no UPDATE of this row
      alone can take it. */
  lemma PinnedRowExactly(s: Schema, db: Db, stmt: Statement, after: Db, t: Table, u: Unique, a: Fact, n: nat, r: Ref)
    requires Sound(s, db) && Executes(s, db, stmt, after) && Identifies(s, t, u, a)
    requires Pinned(s, db, t, a, n) && Bears(db, r, t, a)
    ensures Bears(after, r, t, a) <==> !HandsOver(stmt, t, a, r)
  {
    var q := StillPresent(s, db, stmt, after, t, a, n);
    if HandsOver(stmt, t, a, r) {
      var p :| p in stmt.changes && p != r && p.table == t && Matches(stmt.changes[p], a);
      if Bears(after, r, t, a) {
        SurvivorIsSame(s, after, t, u, a, r, p);
      }
    } else if q in db && Matches(db[q], a) {
      SurvivorIsSame(s, db, t, u, a, r, q);
    }
  }

  // ---------- whole runs ----------

  ghost predicate BearsAt(trace: seq<State>, k: nat, r: Ref, t: Table, a: Fact)
    requires k < |trace|
  {
    Bears(trace[k].committed, r, t, a) && Bears(trace[k].working, r, t, a)
  }

  /** Step `k` is an UPDATE that gives `a` to another row. */
  ghost predicate HandoverAt(s: Schema, trace: seq<State>, k: nat, r: Ref, t: Table, a: Fact)
    requires 0 < k < |trace|
  {
    && trace[k-1].committed == trace[k].committed
    && exists stmt :: Executes(s, trace[k-1].working, stmt, trace[k].working) && HandsOver(stmt, t, a, r)
  }

  lemma StepKeepsRow(s: Schema, trace: seq<State>, k: nat, t: Table, u: Unique, a: Fact, n: nat, r: Ref)
    requires 0 < k < |trace| && StepAt(s, trace, k) && Identifies(s, t, u, a) && Sound(s, trace[k-1].working)
    requires Pinned(s, trace[k-1].working, t, a, n) && BearsAt(trace, k - 1, r, t, a)
    ensures BearsAt(trace, k, r, t, a) <==> !HandoverAt(s, trace, k, r, t, a)
  {
    var x, y := trace[k-1], trace[k];
    if x.committed == y.committed {
      forall stmt | Executes(s, x.working, stmt, y.working)
        ensures Bears(y.working, r, t, a) <==> !HandsOver(stmt, t, a, r)
      {
        PinnedRowExactly(s, x.working, stmt, y.working, t, u, a, n, r);
      }
    }
  }

  lemma StepInRun(s: Schema, trace: seq<State>, i: nat, k: nat, t: Table, u: Unique, a: Fact, n: nat, r: Ref)
    requires Run(s, trace) && i < k < |trace| && Identifies(s, t, u, a) && Pinned(s, trace[i].committed, t, a, n)
    requires BearsAt(trace, k - 1, r, t, a)
    ensures BearsAt(trace, k, r, t, a) <==> !HandoverAt(s, trace, k, r, t, a)
  {
    PinnedAt(s, trace, i, k - 1, t, a, n);
    assert StepAt(s, trace, k);
    StepKeepsRow(s, trace, k, t, u, a, n, r);
  }

  lemma {:induction false} KeptUntilHandover(s: Schema, trace: seq<State>, i: nat, j: nat, t: Table, u: Unique, a: Fact,
                                             n: nat, r: Ref)
    requires Run(s, trace) && i <= j < |trace| && Identifies(s, t, u, a)
    requires Pinned(s, trace[i].committed, t, a, n) && BearsAt(trace, i, r, t, a)
    requires forall k: nat | i < k <= j :: !HandoverAt(s, trace, k, r, t, a)
    ensures BearsAt(trace, j, r, t, a)
    decreases j
  {
    if i < j {
      KeptUntilHandover(s, trace, i, j - 1, t, u, a, n, r);
      StepInRun(s, trace, i, j, t, u, a, n, r);
    }
  }

  /** Over any run: the row behind a committed pinned key bears it in every later state, committed
      and open, if and only if no later step gives the key to another row. */
  lemma PinnedRowExactlyInRuns(s: Schema, trace: seq<State>, i: nat, t: Table, u: Unique, a: Fact, n: nat, r: Ref)
    requires Run(s, trace) && i < |trace| && Identifies(s, t, u, a)
    requires Pinned(s, trace[i].committed, t, a, n) && BearsAt(trace, i, r, t, a)
    ensures (forall k: nat | i <= k < |trace| :: BearsAt(trace, k, r, t, a)) <==>
              forall k: nat | i < k < |trace| :: !HandoverAt(s, trace, k, r, t, a)
  {
    if forall k: nat | i < k < |trace| :: !HandoverAt(s, trace, k, r, t, a) {
      forall k: nat | i <= k < |trace| ensures BearsAt(trace, k, r, t, a) {
        KeptUntilHandover(s, trace, i, k, t, u, a, n, r);
      }
    }
    if k: nat :| i < k < |trace| && HandoverAt(s, trace, k, r, t, a) {
      if BearsAt(trace, k - 1, r, t, a) {
        StepInRun(s, trace, i, k, t, u, a, n, r);
      }
    }
  }

  // ---------- conditions on statements ----------

  /** Statements that meet `ok` leave the key with the row. */
  ghost predicate LeavesRow(s: Schema, ok: (Db, Statement) -> bool, t: Table, a: Fact, n: nat, r: Ref) {
    forall db, stmt, after
      | Sound(s, db) && Pinned(s, db, t, a, n) && Bears(db, r, t, a) && ok(db, stmt) && Executes(s, db, stmt, after) ::
        Bears(after, r, t, a)
  }

  lemma RowForever(s: Schema, ok: (Db, Statement) -> bool, trace: seq<State>, i: nat, j: nat, t: Table, a: Fact, n: nat,
                   r: Ref)
    requires RunWhere(s, ok, trace) && i <= j < |trace| && LeavesRow(s, ok, t, a, n, r)
    requires Pinned(s, trace[i].committed, t, a, n) && Bears(trace[i].committed, r, t, a)
    ensures BearsAt(trace, j, r, t, a)
  {
    var p := (db: Db) => Pinned(s, db, t, a, n) && Bears(db, r, t, a);
    forall db, stmt, after | Sound(s, db) && p(db) && ok(db, stmt) && Executes(s, db, stmt, after) ensures p(after) {
      StatementKeepsSound(s, db, stmt, after);
      PinnedStays(s, db, stmt, after, t, a, n);
    }
    KeptForever(s, ok, p, trace, i, j);
  }

  /** In runs whose statements never hand the key over, however many rows they update, the very row
      behind it is permanent. */
  lemma PinnedRowForever(s: Schema, trace: seq<State>, i: nat, j: nat, t: Table, u: Unique, a: Fact, n: nat, r: Ref)
    requires RunWhere(s, (db, stmt) => !HandsOver(stmt, t, a, r), trace) && i <= j < |trace| && Identifies(s, t, u, a)
    requires Pinned(s, trace[i].committed, t, a, n) && Bears(trace[i].committed, r, t, a)
    ensures BearsAt(trace, j, r, t, a)
  {
    var ok := (db, stmt) => !HandsOver(stmt, t, a, r);
    forall db, stmt, after
      | Sound(s, db) && Pinned(s, db, t, a, n) && Bears(db, r, t, a) && ok(db, stmt) && Executes(s, db, stmt, after)
      ensures Bears(after, r, t, a)
    {
      PinnedRowExactly(s, db, stmt, after, t, u, a, n, r);
    }
    RowForever(s, ok, trace, i, j, t, a, n, r);
  }

  predicate OneRow(db: Db, stmt: Statement) { stmt.Update? ==> |stmt.changes| <= 1 }

  lemma OnlyKey(m: Db, r: Ref, q: Ref)
    requires |m| <= 1 && r in m && q in m
    ensures q == r
  {
    SubsetCount({r, q}, m.Keys);
  }

  /** An UPDATE of one row cannot hand the key over: the row that bears it would keep it. */
  lemma OneRowKeepsRow(s: Schema, db: Db, stmt: Statement, after: Db, t: Table, u: Unique, a: Fact, n: nat, r: Ref)
    requires Sound(s, db) && Executes(s, db, stmt, after) && Identifies(s, t, u, a) && OneRow(db, stmt)
    requires Pinned(s, db, t, a, n) && Bears(db, r, t, a)
    ensures Bears(after, r, t, a)
  {
    PinnedRowExactly(s, db, stmt, after, t, u, a, n, r);
    if HandsOver(stmt, t, a, r) {
      var q :| q in stmt.changes && q != r && q.table == t && Matches(stmt.changes[q], a);
      if r in stmt.changes {
        OnlyKey(stmt.changes, r, q);
      }
    }
  }

  /** In particular runs that update one row at a time keep it. */
  lemma OneRowForever(s: Schema, trace: seq<State>, i: nat, j: nat, t: Table, u: Unique, a: Fact, n: nat, r: Ref)
    requires RunWhere(s, OneRow, trace) && i <= j < |trace| && Identifies(s, t, u, a)
    requires Pinned(s, trace[i].committed, t, a, n) && Bears(trace[i].committed, r, t, a)
    ensures BearsAt(trace, j, r, t, a)
  {
    forall db, stmt, after
      | Sound(s, db) && Pinned(s, db, t, a, n) && Bears(db, r, t, a) && OneRow(db, stmt) && Executes(s, db, stmt, after)
      ensures Bears(after, r, t, a)
    {
      OneRowKeepsRow(s, db, stmt, after, t, u, a, n, r);
    }
    RowForever(s, OneRow, trace, i, j, t, a, n, r);
  }

  // ---------- frozen keys ----------

  predicate AllFrozen(s: Schema, t: Table, a: Fact) { forall c | c in a :: Frozen(s, t, c) }

  lemma FrozenKeepsRow(s: Schema, db: Db, stmt: Statement, after: Db, t: Table, u: Unique, a: Fact, n: nat, r: Ref)
    requires Sound(s, db) && Executes(s, db, stmt, after) && Identifies(s, t, u, a) && AllFrozen(s, t, a)
    requires Pinned(s, db, t, a, n) && Bears(db, r, t, a)
    ensures Bears(after, r, t, a)
  {
    PinnedRowExactly(s, db, stmt, after, t, u, a, n, r);
    if stmt.Update? && r in stmt.changes {
      forall c | c in a ensures Get(after[r], c) == a[c] {
        FixedStays(s, t, db[r], after[r], c);
      }
    }
  }

  /** Where the pinned columns are frozen the row itself is permanent, in every run. */
  lemma FrozenRowForever(s: Schema, trace: seq<State>, i: nat, j: nat, t: Table, u: Unique, a: Fact, n: nat, r: Ref)
    requires Run(s, trace) && i <= j < |trace| && Identifies(s, t, u, a) && AllFrozen(s, t, a)
    requires Pinned(s, trace[i].committed, t, a, n) && Bears(trace[i].committed, r, t, a)
    ensures BearsAt(trace, j, r, t, a)
  {
    forall db, stmt, after
      | Sound(s, db) && Pinned(s, db, t, a, n) && Bears(db, r, t, a) && Any(db, stmt) && Executes(s, db, stmt, after)
      ensures Bears(after, r, t, a)
    {
      FrozenKeepsRow(s, db, stmt, after, t, u, a, n, r);
    }
    RunIsRunWhere(s, trace);
    RowForever(s, Any, trace, i, j, t, a, n, r);
  }

  lemma VersionsAreFrozen(s: Schema, a: Fact)
    requires KnowledgeConstraints(s)
    ensures AllFrozen(s, SourceVersions, a)
  {
    var g := TableTrigger(SourceVersions, NoUpdate);
    assert g in s.triggers && forall c :: Freezes(g.trigger, c);
  }

  lemma CitedVersionIsPinned(s: Schema, db: Db, r: Ref, v: Ref)
    requires KnowledgeConstraints(s) && Sound(s, db) && CitesVersion(db, r, v)
    ensures Identifies(s, SourceVersions, SourceVersionKey, db[v]) && AllFrozen(s, SourceVersions, db[v])
    ensures Pinned(s, db, SourceVersions, db[v], 2) && Bears(db, v, SourceVersions, db[v])
  {
    SnapshotPinsColumns(s, db, r, v, db[v]);
    VersionsAreFrozen(s, db[v]);
  }

  /** A source version that a generation snapshot cites stays as a row with all its columns, although
      its own trigger lets it be deleted. */
  lemma CitedVersionRowLives(s: Schema, trace: seq<State>, i: nat, j: nat, r: Ref, v: Ref)
    requires KnowledgeConstraints(s) && Run(s, trace) && i <= j < |trace| && CitesVersion(trace[i].committed, r, v)
    ensures BearsAt(trace, j, v, SourceVersions, trace[i].committed[v])
  {
    RunIsSound(s, trace, i);
    CitedVersionIsPinned(s, trace[i].committed, r, v);
    FrozenRowForever(s, trace, i, j, SourceVersions, SourceVersionKey, trace[i].committed[v], 2, v);
  }

  /** Conversely, from every committed state a source version can be deleted with its cascade, and the
      deletion committed, if no row that stays cites the cascade by RESTRICT and the cascade meets no
      append-only, history or plan trigger: its own UPDATE trigger does not keep it. */
  lemma UncitedVersionCanGo(s: Schema, trace: seq<State>, db: Db, v: Ref)
    requires forall g | g in s.triggers && g.table == SourceVersions :: g.trigger == NoUpdate
    requires Run(s, trace) && trace[|trace|-1] == State(db, db) && v in db && v.table == SourceVersions
    requires Unguarded(s, Closure(s, db, {v}) - {v}) && Uncited(s, db, Closure(s, db, {v}))
    ensures var after := db - Closure(s, db, {v});
            Run(s, Committed(trace, db, after)) && v !in after
  {
    assert Unguarded(s, Closure(s, db, {v})) by {
      forall r, g | r in Closure(s, db, {v}) && g in s.triggers && g.table == r.table
        ensures g.trigger == NoUpdate || g.trigger.FrozenSnapshot?
      {
        assert r == v || r in Closure(s, db, {v}) - {v};
      }
    }
    RowsCanGo(s, trace, db, {v});
  }
}
