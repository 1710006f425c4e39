/** Consent evidence: each row may supersede an earlier one. */
module Consent {
  import opened Sql
  import opened Schemas
  import opened Engine
  import opened BlogOps
  import opened Evidence

  predicate IsConsent(db: Db, r: Ref) { r in db && r.table == ConsentEvidence }

  /** `row` names `target` as its predecessor. */
  predicate NamesRow(row: Row, target: Row) {
    && Get(row, SupersedesId) != Null && Get(row, SupersedesId) == Get(target, Id)
    && Get(row, WorkspaceId) != Null && Get(row, WorkspaceId) == Get(target, WorkspaceId)
  }

  predicate Supersedes(db: Db, r: Ref, p: Ref) {
    IsConsent(db, r) && IsConsent(db, p) && NamesRow(db[r], db[p])
  }

  predicate IsRoot(db: Db, r: Ref) { IsConsent(db, r) && Get(db[r], SupersedesId) == Null }

  ghost predicate IsHead(db: Db, r: Ref) { IsConsent(db, r) && forall q :: !Supersedes(db, q, r) }

  predicate SameMatter(a: Row, b: Row) {
    && Get(a, WorkspaceId) == Get(b, WorkspaceId) && Get(a, SubjectId) == Get(b, SubjectId)
    && Get(a, Purpose) == Get(b, Purpose)
  }

  /** Walking supersedes_id from `r` reaches a root in exactly `n` steps. */
  ghost predicate Depth(db: Db, r: Ref, n: nat)
    decreases n
  {
    if n == 0 then IsRoot(db, r) else exists p :: Supersedes(db, r, p) && Depth(db, p, n - 1)
  }

  /** Superseding is the stored reference. */
  lemma SupersedesExactly(db: Db, r: Ref, p: Ref)
    ensures Supersedes(db, r, p) <==>
              && r in db && p in db && r.table == ConsentEvidence && p.table == ConsentEvidence
              && Refers(ConsentPredecessor, db[r], db[p])
  {
    assert ConsentPredecessor.cols == {Pair(WorkspaceId, WorkspaceId), Pair(SupersedesId, Id)};
  }

  // ---------- what the unique keys give in one database ----------

  lemma OnePredecessor(s: Schema, db: Db, r: Ref, p: Ref, q: Ref)
    requires ConsentConstraints(s) && Sound(s, db) && Supersedes(db, r, p) && Supersedes(db, r, q)
    ensures p == q
  {
  }

  /** No row has two successors. */
  lemma OneSuccessor(s: Schema, db: Db, p: Ref, r: Ref, q: Ref)
    requires ConsentConstraints(s) && Sound(s, db) && Supersedes(db, r, p) && Supersedes(db, q, p)
    ensures r == q
  {
  }

  lemma OneRoot(s: Schema, db: Db, r: Ref, q: Ref)
    requires ConsentConstraints(s) && Sound(s, db) && IsRoot(db, r) && IsRoot(db, q) && SameMatter(db[r], db[q])
    ensures r == q
  {
    NotNullColumn(s, db, r, WorkspaceId);
    NotNullColumn(s, db, r, SubjectId);
    NotNullColumn(s, db, r, Purpose);
    assert UniqueHolds(SingleRoot, db);
    assert Clash(SingleRoot, db[r], db[q]);
  }

  /** The shape the unique keys enforce: one predecessor, one successor, one root per matter. */
  ghost predicate Linear(db: Db) {
    && (forall r, p, q | Supersedes(db, r, p) && Supersedes(db, r, q) :: p == q)
    && (forall p, r, q | Supersedes(db, r, p) && Supersedes(db, q, p) :: r == q)
    && (forall r, q | IsRoot(db, r) && IsRoot(db, q) && SameMatter(db[r], db[q]) :: r == q)
  }

  lemma SoundIsLinear(s: Schema, db: Db)
    requires ConsentConstraints(s) && Sound(s, db)
    ensures Linear(db)
  {
    forall r, p, q | Supersedes(db, r, p) && Supersedes(db, r, q) ensures p == q {
      OnePredecessor(s, db, r, p, q);
    }
    forall p, r, q | Supersedes(db, r, p) && Supersedes(db, q, p) ensures r == q {
      OneSuccessor(s, db, p, r, q);
    }
    forall r, q | IsRoot(db, r) && IsRoot(db, q) && SameMatter(db[r], db[q]) ensures r == q {
      OneRoot(s, db, r, q);
    }
  }

  lemma {:induction false} DepthIsUnique(db: Db, r: Ref, n: nat, m: nat)
    requires Linear(db) && Depth(db, r, n) && Depth(db, r, m)
    ensures n == m
    decreases n
  {
    if n > 0 && m > 0 {
      var p :| Supersedes(db, r, p) && Depth(db, p, n - 1);
      var q :| Supersedes(db, r, q) && Depth(db, q, m - 1);
      DepthIsUnique(db, p, n - 1, m - 1);
    }
  }

  /** `n` steps of supersedes_id lead from `r` to `p`. */
  ghost predicate Walk(db: Db, r: Ref, p: Ref, n: nat)
    decreases n
  {
    if n == 0 then r == p else exists q :: Supersedes(db, r, q) && Walk(db, q, p, n - 1)
  }

  lemma {:induction false} WalkEnd(db: Db, r: Ref, p: Ref, n: nat) returns (last: Ref)
    requires n > 0 && Walk(db, r, p, n)
    ensures Walk(db, r, last, n - 1) && Supersedes(db, last, p)
    decreases n
  {
    var q :| Supersedes(db, r, q) && Walk(db, q, p, n - 1);
    if n == 1 {
      last := r;
    } else {
      last := WalkEnd(db, q, p, n - 1);
    }
  }

  /** Chains never merge: of two walks that meet, the longer passes through the start of the other. */
  lemma {:induction false} ChainsNeverMerge(db: Db, r: Ref, q: Ref, p: Ref, n: nat, m: nat)
    requires Linear(db) && Walk(db, r, p, n) && Walk(db, q, p, m) && n <= m
    ensures Walk(db, q, r, m - n)
    decreases n
  {
    if n > 0 {
      var a := WalkEnd(db, r, p, n);
      var b := WalkEnd(db, q, p, m);
      ChainsNeverMerge(db, r, q, a, n - 1, m - 1);
    }
  }

  // ---------- grounded tables ----------

  /** Every walk ends at a root. */
  ghost predicate Grounded(db: Db) {
    forall r | IsConsent(db, r) :: exists n :: Depth(db, r, n)
  }

  /** The rows have insertion times such that each named predecessor was stored strictly earlier. */
  ghost predicate Timed(db: Db, at: map<Ref, nat>) {
    forall r | IsConsent(db, r) ::
      r in at && (Get(db[r], SupersedesId) != Null ==> exists p :: Supersedes(db, r, p) && p in at && at[p] < at[r])
  }

  lemma {:induction false} TimedHasDepth(db: Db, at: map<Ref, nat>, r: Ref) returns (n: nat)
    requires Timed(db, at) && IsConsent(db, r) && r in at
    ensures Depth(db, r, n)
    decreases at[r]
  {
    if Get(db[r], SupersedesId) == Null {
      n := 0;
    } else {
      var p :| Supersedes(db, r, p) && p in at && at[p] < at[r];
      var m := TimedHasDepth(db, at, p);
      n := m + 1;
    }
  }

  ghost function DepthOf(db: Db, r: Ref): nat
    requires Grounded(db) && IsConsent(db, r)
    ensures Depth(db, r, DepthOf(db, r))
  {
    var n :| Depth(db, r, n); n
  }

  lemma DepthsAreTimes(db: Db, r: Ref) returns (p: Ref)
    requires Linear(db) && Grounded(db) && IsConsent(db, r) && Get(db[r], SupersedesId) != Null
    ensures Supersedes(db, r, p) && DepthOf(db, p) < DepthOf(db, r)
  {
    var n := DepthOf(db, r);
    assert Depth(db, r, n) && n > 0;
    p :| Supersedes(db, r, p) && Depth(db, p, n - 1);
    DepthIsUnique(db, p, DepthOf(db, p), n - 1);
  }

  /** Walks always end if and only if the rows could have been inserted one by one, each after the
      predecessor it names. */
  lemma GroundedExactly(db: Db)
    requires Linear(db)
    ensures Grounded(db) <==> exists at :: Timed(db, at)
  {
    if Grounded(db) {
      var at := map r | r in db && IsConsent(db, r) :: DepthOf(db, r);
      forall r | IsConsent(db, r)
        ensures r in at
        ensures Get(db[r], SupersedesId) != Null ==> exists p :: Supersedes(db, r, p) && p in at && at[p] < at[r]
      {
        if Get(db[r], SupersedesId) != Null {
          var p := DepthsAreTimes(db, r);
        }
      }
      assert Timed(db, at);
    }
    if at :| Timed(db, at) {
      forall r | IsConsent(db, r) ensures exists n :: Depth(db, r, n) {
        var n := TimedHasDepth(db, at, r);
      }
    }
  }

  // ---------- cycles ----------

  /** Every row that names a predecessor has it. */
  ghost predicate Anchored(db: Db) {
    forall r | IsConsent(db, r) && Get(db[r], SupersedesId) != Null :: exists p :: Supersedes(db, r, p)
  }

  /** No row walks to itself. */
  ghost predicate Acyclic(db: Db) {
    forall r, n: nat | n > 0 :: !Walk(db, r, r, n)
  }

  lemma {:induction false} WalkLowers(db: Db, r: Ref, p: Ref, n: nat, d: nat)
    requires Linear(db) && Walk(db, r, p, n) && Depth(db, r, d)
    ensures n <= d && Depth(db, p, d - n)
    decreases n
  {
    if n > 0 {
      var q :| Supersedes(db, r, q) && Walk(db, q, p, n - 1);
      assert d > 0;
      var x :| Supersedes(db, r, x) && Depth(db, x, d - 1);
      WalkLowers(db, q, p, n - 1, d - 1);
    }
  }

  lemma {:induction false} WalkOn(db: Db, r: Ref, p: Ref, q: Ref, n: nat)
    requires Walk(db, r, p, n) && Supersedes(db, p, q)
    ensures Walk(db, r, q, n + 1)
    decreases n
  {
    if n == 0 {
      assert Walk(db, q, q, 0);
    } else {
      var x :| Supersedes(db, r, x) && Walk(db, x, p, n - 1);
      WalkOn(db, x, p, q, n - 1);
    }
  }

  ghost predicate Leads(db: Db, r: Ref, p: Ref) {
    exists n: nat :: n > 0 && Walk(db, r, p, n)
  }

  /** Without cycles a walk meets no row of `seen` again, so it ends. */
  lemma {:induction false} WalkFinds(db: Db, r: Ref, seen: set<Ref>) returns (n: nat)
    requires Anchored(db) && Acyclic(db) && IsConsent(db, r) && seen <= db.Keys
    requires forall x | x in seen :: Leads(db, x, r)
    ensures Depth(db, r, n)
    decreases db.Keys - seen
  {
    if Get(db[r], SupersedesId) == Null {
      n := 0;
    } else {
      var p :| Supersedes(db, r, p);
      assert r !in seen;
      assert Walk(db, r, r, 0);
      forall x | x in seen + {r} ensures Leads(db, x, p) {
        var m: nat :| Walk(db, x, r, m);
        WalkOn(db, x, r, p, m);
      }
      var d := WalkFinds(db, p, seen + {r});
      n := d + 1;
    }
  }

  /** Walks always end if and only if none comes back to its start. */
  lemma AcyclicExactly(db: Db)
    requires Linear(db) && Anchored(db)
    ensures Grounded(db) <==> Acyclic(db)
  {
    if Grounded(db) {
      forall r, n: nat | n > 0 ensures !Walk(db, r, r, n) {
        if Walk(db, r, r, n) {
          assert exists p :: Supersedes(db, r, p);
          WalkLowers(db, r, r, n, DepthOf(db, r));
          DepthIsUnique(db, r, DepthOf(db, r), DepthOf(db, r) - n);
        }
      }
    }
    if Acyclic(db) {
      forall r | IsConsent(db, r) ensures exists n :: Depth(db, r, n) {
        var n := WalkFinds(db, r, {});
      }
    }
  }

  /** The deferred key leaves no predecessor missing in a committed database. */
  lemma CommittedIsAnchored(s: Schema, db: Db)
    requires ConsentConstraints(s) && Sound(s, db) && KeysIntact(s, db, true)
    ensures Anchored(db)
  {
    forall r | IsConsent(db, r) && Get(db[r], SupersedesId) != Null ensures exists p :: Supersedes(db, r, p) {
      NotNullColumn(s, db, r, WorkspaceId);
      assert KeyIntact(ConsentPredecessor, db);
      assert KeyHolds(ConsentPredecessor, db, db[r]);
      var p :| p in db && p.table == ConsentEvidence && Refers(ConsentPredecessor, db[r], db[p]);
      assert Pair(WorkspaceId, WorkspaceId) in ConsentPredecessor.cols;
      assert Pair(SupersedesId, Id) in ConsentPredecessor.cols;
      assert Supersedes(db, r, p);
    }
  }

  /** In every committed state of every run, whatever was inserted and how: walks end if and only if no
      row supersedes itself, directly or through others. */
  lemma AcyclicInRuns(s: Schema, trace: seq<State>, i: nat)
    requires ConsentConstraints(s) && Run(s, trace) && i < |trace|
    ensures Grounded(trace[i].committed) <==> Acyclic(trace[i].committed)
  {
    RunIsSound(s, trace, i);
    SoundIsLinear(s, trace[i].committed);
    CommittedIsAnchored(s, trace[i].committed);
    AcyclicExactly(trace[i].committed);
  }

  // ---------- one root and one head per matter ----------

  /** Every row is about the same workspace, subject and purpose as the row it supersedes. */
  ghost predicate Grouped(db: Db) {
    forall r, p | Supersedes(db, r, p) :: SameMatter(db[r], db[p])
  }

  lemma {:induction false} OnePerDepth(db: Db, r: Ref, q: Ref, n: nat)
    requires Linear(db) && Grouped(db) && Depth(db, r, n) && Depth(db, q, n)
    requires r in db && q in db && SameMatter(db[r], db[q])
    ensures r == q
    decreases n
  {
    if n > 0 {
      var a :| Supersedes(db, r, a) && Depth(db, a, n - 1);
      var b :| Supersedes(db, q, b) && Depth(db, b, n - 1);
      OnePerDepth(db, a, b, n - 1);
    }
  }

  /** The ancestor of `h` at depth `m`, and the row of the chain that supersedes it. */
  lemma {:induction false} AncestorAt(db: Db, h: Ref, n: nat, m: nat) returns (a: Ref, child: Ref)
    requires Grouped(db) && Depth(db, h, n) && m < n && h in db
    ensures Depth(db, a, m) && Supersedes(db, child, a) && SameMatter(db[a], db[h])
    decreases n
  {
    var p :| Supersedes(db, h, p) && Depth(db, p, n - 1);
    if m == n - 1 {
      a, child := p, h;
    } else {
      a, child := AncestorAt(db, p, n - 1, m);
    }
  }

  lemma {:induction false} RootOf(db: Db, r: Ref, n: nat) returns (root: Ref)
    requires Grouped(db) && Depth(db, r, n) && r in db
    ensures IsRoot(db, root) && SameMatter(db[root], db[r])
  {
    if n == 0 {
      root := r;
    } else {
      var child;
      root, child := AncestorAt(db, r, n, 0);
    }
  }

  /** Following successors ends: `rest` holds every row deeper than `r`. */
  lemma {:induction false} HeadAbove(db: Db, r: Ref, n: nat, rest: set<Ref>) returns (h: Ref)
    requires Linear(db) && Grouped(db) && Depth(db, r, n) && IsConsent(db, r)
    requires forall q, m | m > n && Depth(db, q, m) :: q in rest
    ensures IsHead(db, h) && SameMatter(db[h], db[r])
    decreases rest
  {
    if IsHead(db, r) {
      h := r;
    } else {
      var q :| Supersedes(db, q, r);
      assert Depth(db, q, n + 1);
      forall x, m | m > n + 1 && Depth(db, x, m) ensures x in rest - {q} {
        if x == q {
          DepthIsUnique(db, q, n + 1, m);
        }
      }
      h := HeadAbove(db, q, n + 1, rest - {q});
    }
  }

  lemma OneHead(db: Db, h: Ref, g: Ref, n: nat, m: nat)
    requires Linear(db) && Grouped(db) && IsHead(db, h) && IsHead(db, g) && SameMatter(db[h], db[g])
    requires Depth(db, h, n) && Depth(db, g, m) && n <= m
    ensures h == g
  {
    if n < m {
      var a, child := AncestorAt(db, g, m, n);
      OnePerDepth(db, a, h, n);
    } else {
      OnePerDepth(db, h, g, n);
    }
  }

  /** Each (workspace, subject, purpose) with any evidence has exactly one root and one head. */
  lemma OneRootOneHead(db: Db, r: Ref) returns (root: Ref, head: Ref)
    requires Linear(db) && Grouped(db) && Grounded(db) && IsConsent(db, r)
    ensures IsRoot(db, root) && SameMatter(db[root], db[r])
    ensures IsHead(db, head) && SameMatter(db[head], db[r])
    ensures forall q | IsRoot(db, q) && SameMatter(db[q], db[r]) :: q == root
    ensures forall q | IsHead(db, q) && SameMatter(db[q], db[r]) :: q == head
  {
    root := RootOf(db, r, DepthOf(db, r));
    forall q, m | m > DepthOf(db, r) && Depth(db, q, m) ensures q in db.Keys {
      assert exists p :: Supersedes(db, q, p);
    }
    head := HeadAbove(db, r, DepthOf(db, r), db.Keys);
    forall q | IsHead(db, q) && SameMatter(db[q], db[r]) ensures q == head {
      if DepthOf(db, q) <= DepthOf(db, head) {
        OneHead(db, q, head, DepthOf(db, q), DepthOf(db, head));
      } else {
        OneHead(db, head, q, DepthOf(db, head), DepthOf(db, q));
      }
    }
  }

  // ---------- runs whose inserts name stored predecessors ----------

  /** Each inserted row that names a predecessor names one already stored. */
  ghost predicate Stored(db: Db, stmt: Statement) {
    stmt.Insert? ==>
      forall r | r in stmt.rows && r.table == ConsentEvidence && Get(stmt.rows[r], SupersedesId) != Null ::
        exists p :: IsConsent(db, p) && NamesRow(stmt.rows[r], db[p])
  }

  /** ... and on the same matter. */
  ghost predicate OnMatter(db: Db, stmt: Statement) {
    stmt.Insert? ==>
      forall r, p | r in stmt.rows && r.table == ConsentEvidence && IsConsent(db, p) && NamesRow(stmt.rows[r], db[p]) ::
        SameMatter(stmt.rows[r], db[p])
  }

  lemma ConsentRowsStay(s: Schema, db: Db, stmt: Statement, after: Db)
    requires IsImmutable(s, ConsentEvidence) && Executes(s, db, stmt, after)
    ensures forall r | IsConsent(db, r) :: IsConsent(after, r) && after[r] == db[r]
    ensures forall r | IsConsent(after, r) && !IsConsent(db, r) ::
              stmt.Insert? && r in stmt.rows && after[r] == stmt.rows[r]
  {
  }

  lemma {:induction false} DepthStays(db: Db, after: Db, r: Ref, n: nat)
    requires forall r | IsConsent(db, r) :: IsConsent(after, r) && after[r] == db[r]
    requires Depth(db, r, n)
    ensures Depth(after, r, n)
    decreases n
  {
    if n > 0 {
      var p :| Supersedes(db, r, p) && Depth(db, p, n - 1);
      DepthStays(db, after, p, n - 1);
      assert Supersedes(after, r, p);
    }
  }

  lemma GroundedStays(s: Schema, db: Db, stmt: Statement, after: Db)
    requires IsImmutable(s, ConsentEvidence) && Executes(s, db, stmt, after) && Stored(db, stmt) && Grounded(db)
    ensures Grounded(after)
  {
    ConsentRowsStay(s, db, stmt, after);
    forall r | IsConsent(after, r) ensures exists n :: Depth(after, r, n) {
      if IsConsent(db, r) {
        DepthStays(db, after, r, DepthOf(db, r));
      } else if Get(after[r], SupersedesId) == Null {
        assert Depth(after, r, 0);
      } else {
        var p :| IsConsent(db, p) && NamesRow(stmt.rows[r], db[p]);
        DepthStays(db, after, p, DepthOf(db, p));
        assert Supersedes(after, r, p);
        assert Depth(after, r, DepthOf(db, p) + 1);
      }
    }
  }

  /** A row's predecessor was stored before the statement. */
  lemma PredecessorIsOld(s: Schema, db: Db, stmt: Statement, after: Db, r: Ref, p: Ref)
    requires IsImmutable(s, ConsentEvidence) && Executes(s, db, stmt, after) && Stored(db, stmt) && OnMatter(db, stmt)
    requires Grounded(db) && Grouped(db) && Linear(after) && Supersedes(after, r, p)
    ensures SameMatter(after[r], after[p])
  {
    ConsentRowsStay(s, db, stmt, after);
    var q: Ref;
    if IsConsent(db, r) {
      assert Depth(db, r, DepthOf(db, r));
      q :| Supersedes(db, r, q);
    } else {
      q :| IsConsent(db, q) && NamesRow(stmt.rows[r], db[q]);
    }
    assert Supersedes(after, r, q);
    assert p == q;
  }

  lemma GroupedStays(s: Schema, db: Db, stmt: Statement, after: Db)
    requires ConsentConstraints(s) && Sound(s, db) && Executes(s, db, stmt, after)
    requires Stored(db, stmt) && OnMatter(db, stmt) && Grounded(db) && Grouped(db)
    ensures Grouped(after)
  {
    StatementKeepsSound(s, db, stmt, after);
    SoundIsLinear(s, after);
    forall r, p | Supersedes(after, r, p) ensures SameMatter(after[r], after[p]) {
      PredecessorIsOld(s, db, stmt, after, r, p);
    }
  }

  /** If every insert names a stored predecessor, every walk ends at a root, in every state. */
  lemma WalksEnd(s: Schema, trace: seq<State>, i: nat)
    requires ConsentConstraints(s) && RunWhere(s, Stored, trace) && i < |trace|
    ensures Grounded(trace[i].committed) && Grounded(trace[i].working)
  {
    forall db, stmt, after | Sound(s, db) && Grounded(db) && Stored(db, stmt) && Executes(s, db, stmt, after)
      ensures Grounded(after)
    {
      GroundedStays(s, db, stmt, after);
    }
    KeptForever(s, Stored, Grounded, trace, 0, i);
  }

  /** ... and if the predecessor is also on the same matter, each (workspace, subject, purpose) with
      any evidence has exactly one root and one head, in every committed state. */
  lemma ConsentSuccession(s: Schema, trace: seq<State>, i: nat, r: Ref) returns (root: Ref, head: Ref)
    requires ConsentConstraints(s) && RunWhere(s, (db, stmt) => Stored(db, stmt) && OnMatter(db, stmt), trace)
    requires i < |trace| && IsConsent(trace[i].committed, r)
    ensures var db := trace[i].committed;
            && IsRoot(db, root) && SameMatter(db[root], db[r])
            && IsHead(db, head) && SameMatter(db[head], db[r])
            && (forall q | IsRoot(db, q) && SameMatter(db[q], db[r]) :: q == root)
            && (forall q | IsHead(db, q) && SameMatter(db[q], db[r]) :: q == head)
  {
    var ok := (db, stmt) => Stored(db, stmt) && OnMatter(db, stmt);
    var chained := db => Grounded(db) && Grouped(db);
    forall db, stmt, after | Sound(s, db) && chained(db) && ok(db, stmt) && Executes(s, db, stmt, after)
      ensures chained(after)
    {
      GroundedStays(s, db, stmt, after);
      GroupedStays(s, db, stmt, after);
    }
    KeptForever(s, ok, chained, trace, 0, i);
    RunWhereIsRun(s, ok, trace);
    RunIsSound(s, trace, i);
    SoundIsLinear(s, trace[i].committed);
    root, head := OneRootOneHead(trace[i].committed, r);
  }

  /** For one inserted row the premise is exact: the walks still end if and only if the row is a root
      or names a predecessor that was stored before. */
  lemma OneInsertExactly(s: Schema, db: Db, r: Ref, row: Row, after: Db)
    requires ConsentConstraints(s) && Sound(s, db) && Grounded(db) && r.table == ConsentEvidence
    requires Executes(s, db, Insert(map[r := row]), after)
    ensures Grounded(after) <==> Stored(db, Insert(map[r := row]))
  {
    if Stored(db, Insert(map[r := row])) {
      GroundedStays(s, db, Insert(map[r := row]), after);
    } else {
      StatementKeepsSound(s, db, Insert(map[r := row]), after);
      SoundIsLinear(s, after);
      NotItsOwnPredecessor(db, r, row, after);
    }
  }

  lemma NotItsOwnPredecessor(db: Db, r: Ref, row: Row, after: Db)
    requires Linear(after) && r.table == ConsentEvidence && after == db[r := row]
    requires Get(row, SupersedesId) != Null && forall p | IsConsent(db, p) :: !NamesRow(row, db[p])
    ensures !Grounded(after)
  {
    if Grounded(after) {
      assert IsConsent(after, r);
      var p := DepthsAreTimes(after, r);
      assert false;
    }
  }

  // ---------- the premise is needed ----------

  const ConsentSchema :=
    Schema({ConsentPredecessor}, {ConsentKey, SingleSuccessor, SingleRoot},
           { Check(ConsentEvidence, NotNull(WorkspaceId)), Check(ConsentEvidence, NotNull(Id)),
             Check(ConsentEvidence, NotNull(SubjectId)), Check(ConsentEvidence, NotNull(Purpose)) },
           { TableTrigger(ConsentEvidence, Immutable) })

  const Looped: Row :=
    map[WorkspaceId := Uuid(1), Id := Uuid(7), SupersedesId := Uuid(7), SubjectId := Uuid(2),
        Purpose := Text("marketing")]

  const LoopRef := Ref(ConsentEvidence, 0)

  lemma LoopedIsChecked()
    ensures RowChecked(ConsentSchema, ConsentEvidence, Looped)
  {
  }

  lemma LoopedInserts(db: Db)
    requires db == map[LoopRef := Looped]
    ensures Executes(ConsentSchema, map[], Insert(db), db)
  {
    LoopedIsChecked();
    assert map[] + db == db;
    assert UniquesHold(ConsentSchema, db);
  }

  lemma LoopedCommits(db: Db)
    requires db == map[LoopRef := Looped]
    ensures KeysIntact(ConsentSchema, db, true)
  {
  }

  lemma {:induction false} LoopHasNoRoot(db: Db, n: nat)
    requires db == map[LoopRef := Looped]
    ensures !Depth(db, LoopRef, n)
  {
    if n > 0 {
      LoopHasNoRoot(db, n - 1);
      assert forall p | Supersedes(db, LoopRef, p) :: p == LoopRef;
    }
  }

  lemma LoopNotGrounded(db: Db)
    requires db == map[LoopRef := Looped]
    ensures IsConsent(db, LoopRef) && !Grounded(db)
  {
    if Grounded(db) {
      LoopHasNoRoot(db, DepthOf(db, LoopRef));
      assert false;
    }
  }

  lemma LoopMeetsConstraints()
    ensures ConsentConstraints(ConsentSchema)
  {
  }

  lemma LoopRuns(s: Schema, db: Db)
    requires Executes(s, map[], Insert(db), db) && KeysIntact(s, db, true)
    ensures Run(s, [EmptyState, State(map[], db), State(db, db)])
  {
    var trace := [EmptyState, State(map[], db), State(db, db)];
    assert StepAt(s, trace, 1) && StepAt(s, trace, 2);
  }

  /** A row that names itself is accepted and committed, since it is its own parent, and the walk from
      it never ends: the constraints alone do not make consent evidence well founded. */
  lemma LoopIsAccepted() returns (trace: seq<State>)
    ensures ConsentConstraints(ConsentSchema) && Run(ConsentSchema, trace)
    ensures IsConsent(trace[|trace|-1].committed, LoopRef) && !Grounded(trace[|trace|-1].committed)
  {
    var db: Db := map[LoopRef := Looped];
    LoopMeetsConstraints();
    LoopedInserts(db);
    LoopedCommits(db);
    LoopNotGrounded(db);
    LoopRuns(ConsentSchema, db);
    trace := [EmptyState, State(map[], db), State(db, db)];
  }
}
