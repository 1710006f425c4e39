/** What the migrations' evidence tables keep alive. */
module Evidence {
  import opened Sql
  import opened Schemas
  import opened Cascades
  import opened Engine
  import opened Permanence
  import opened BlogOps

  /** `(workspace_id, id)` as a fact. */
  function Identity(w: Cell, id: Cell): Fact { map[WorkspaceId := w, Id := id] }

  /** `db` is what state `j` has committed or what its open transaction sees. */
  predicate Later(trace: seq<State>, i: nat, j: nat, db: Db) {
    i <= j < |trace| && (db == trace[j].committed || db == trace[j].working)
  }

  /** The CHECK that stands for NOT NULL refuses NULL and nothing else. */
  lemma NotNullExactly(row: Row, c: Column)
    ensures PassesCheck(NotNull(c), row) <==> Get(row, c) != Null
  {
    assert Eval(IsNull(Col(c)), row, NoSession) == Of(Get(row, c) == Null);
  }

  lemma NotNullColumn(s: Schema, db: Db, r: Ref, c: Column)
    requires Sound(s, db) && r in db && Required(s, r.table, c)
    ensures Get(db[r], c) != Null
  {
    var check := Check(r.table, NotNull(c));
    assert RowChecked(s, r.table, db[r]);
    assert PassesCheck(check.cond, db[r]);
    NotNullExactly(db[r], c);
  }

  /** A row of an immutable table states any of its columns for good. */
  lemma ImmutableIsPinned(s: Schema, db: Db, r: Ref, a: Fact)
    requires r in db && IsImmutable(s, r.table) && Matches(db[r], a)
    ensures Pinned(s, db, r.table, a, 0)
  {
  }

  /** One citation: a pinned fact over all columns of a key pins the parent's key. */
  lemma CitationPins(s: Schema, db: Db, k: ForeignKey, b: Fact, a: Fact, n: nat)
    requires k in s.keys && !k.deferred && Pinned(s, db, k.child, b, n) && Carries(k, b, a)
    ensures Pinned(s, db, k.parent, a, n + 1)
  {
    PinByKey(s, db, k, b, a, n);
  }

  lemma TenantCarries(k: ForeignKey, c: Column, b: Fact)
    requires k == Tenant(k.child, c, k.parent, k.onDelete)
    requires WorkspaceId in b && c in b && b[WorkspaceId] != Null && b[c] != Null
    ensures Carries(k, b, Identity(b[WorkspaceId], b[c]))
  {
  }

  /** A pinned fact is the fact of some row in every later state. */
  lemma StandsLater(s: Schema, trace: seq<State>, i: nat, j: nat, db: Db, t: Table, a: Fact, n: nat) returns (p: Ref)
    requires Run(s, trace) && Later(trace, i, j, db) && Pinned(s, trace[i].committed, t, a, n)
    ensures p in db && p.table == t && Matches(db[p], a)
  {
    PinnedForever(s, trace, i, j, t, a, n);
    p :| p in db && p.table == t && Matches(db[p], a);
  }

  lemma IdentityCells(p: Row, w: Cell, id: Cell)
    requires Matches(p, Identity(w, id))
    ensures Get(p, WorkspaceId) == w && Get(p, Id) == id
  {
    assert WorkspaceId in Identity(w, id) && Id in Identity(w, id);
  }

  // ---------- bulk jobs: attempt -CASCADE-> row -CASCADE-> job ----------

  function AttemptFact(row: Row): Fact {
    map[WorkspaceId := Get(row, WorkspaceId), JobId := Get(row, JobId), RowId := Get(row, RowId)]
  }

  function AttemptedRow(row: Row): Fact {
    map[WorkspaceId := Get(row, WorkspaceId), JobId := Get(row, JobId), Id := Get(row, RowId)]
  }

  lemma AttemptCarries(row: Row)
    requires Get(row, WorkspaceId) != Null && Get(row, JobId) != Null && Get(row, RowId) != Null
    ensures Carries(AttemptRow, AttemptFact(row), AttemptedRow(row))
  {
  }

  lemma AttemptPinsRow(s: Schema, db: Db, r: Ref)
    requires AttemptConstraints(s) && Sound(s, db) && r in db && r.table == BulkRowAttempts
    ensures Get(db[r], WorkspaceId) != Null && Get(db[r], JobId) != Null
    ensures Pinned(s, db, BulkRows, AttemptedRow(db[r]), 1)
  {
    NotNullColumn(s, db, r, WorkspaceId);
    NotNullColumn(s, db, r, JobId);
    NotNullColumn(s, db, r, RowId);
    ImmutableIsPinned(s, db, r, AttemptFact(db[r]));
    AttemptCarries(db[r]);
    CitationPins(s, db, AttemptRow, AttemptFact(db[r]), AttemptedRow(db[r]), 0);
  }

  lemma AttemptPins(s: Schema, db: Db, r: Ref)
    requires AttemptConstraints(s) && Sound(s, db) && r in db && r.table == BulkRowAttempts
    ensures Pinned(s, db, BulkRows, AttemptedRow(db[r]), 1)
    ensures Pinned(s, db, BulkJobs, Identity(Get(db[r], WorkspaceId), Get(db[r], JobId)), 2)
  {
    AttemptPinsRow(s, db, r);
    TenantCarries(RowJob, JobId, AttemptedRow(db[r]));
    CitationPins(s, db, RowJob, AttemptedRow(db[r]), Identity(Get(db[r], WorkspaceId), Get(db[r], JobId)), 1);
  }

  lemma AttemptedCells(p: Row, row: Row)
    requires Matches(p, AttemptedRow(row))
    ensures Get(p, WorkspaceId) == Get(row, WorkspaceId) && Get(p, JobId) == Get(row, JobId)
    ensures Get(p, Id) == Get(row, RowId)
  {
    var a := AttemptedRow(row);
    assert WorkspaceId in a && JobId in a && Id in a;
  }

  /** A bulk job with any row attempt lives forever, and so does the attempted row, although the
      attempt hangs on the job by two CASCADE keys. */
  lemma BulkJobWithAttemptLives(s: Schema, trace: seq<State>, i: nat, j: nat, r: Ref, db: Db)
    returns (x: Ref, y: Ref)
    requires AttemptConstraints(s) && Run(s, trace) && Later(trace, i, j, db)
    requires r in trace[i].committed && r.table == BulkRowAttempts
    ensures x in db && x.table == BulkRows
    ensures Get(db[x], WorkspaceId) == Get(trace[i].committed[r], WorkspaceId)
    ensures Get(db[x], JobId) == Get(trace[i].committed[r], JobId)
    ensures Get(db[x], Id) == Get(trace[i].committed[r], RowId)
    ensures y in db && y.table == BulkJobs
    ensures Get(db[y], WorkspaceId) == Get(trace[i].committed[r], WorkspaceId)
    ensures Get(db[y], Id) == Get(trace[i].committed[r], JobId)
  {
    var row := trace[i].committed[r];
    RunIsSound(s, trace, i);
    AttemptPins(s, trace[i].committed, r);
    x := StandsLater(s, trace, i, j, db, BulkRows, AttemptedRow(row), 1);
    AttemptedCells(db[x], row);
    y := StandsLater(s, trace, i, j, db, BulkJobs, Identity(Get(row, WorkspaceId), Get(row, JobId)), 2);
    IdentityCells(db[y], Get(row, WorkspaceId), Get(row, JobId));
  }

  // ---------- contents: marker -CASCADE-> content ----------

  lemma MarkerPins(s: Schema, db: Db, r: Ref)
    requires MarkerConstraints(s) && Sound(s, db) && r in db && r.table == ContentLibraryMarkers
    ensures Pinned(s, db, Contents, Identity(Get(db[r], WorkspaceId), Get(db[r], ContentId)), 1)
  {
    NotNullColumn(s, db, r, WorkspaceId);
    NotNullColumn(s, db, r, ContentId);
    var b: Fact := map[WorkspaceId := Get(db[r], WorkspaceId), ContentId := Get(db[r], ContentId)];
    ImmutableIsPinned(s, db, r, b);
    TenantCarries(MarkerContent, ContentId, b);
    CitationPins(s, db, MarkerContent, b, Identity(Get(db[r], WorkspaceId), Get(db[r], ContentId)), 0);
  }

  /** A content with any library marker lives forever. */
  lemma MarkedContentLives(s: Schema, trace: seq<State>, i: nat, j: nat, r: Ref, db: Db)
    returns (x: Ref)
    requires MarkerConstraints(s) && Run(s, trace) && Later(trace, i, j, db)
    requires r in trace[i].committed && r.table == ContentLibraryMarkers
    ensures x in db && x.table == Contents
    ensures Get(db[x], WorkspaceId) == Get(trace[i].committed[r], WorkspaceId)
    ensures Get(db[x], Id) == Get(trace[i].committed[r], ContentId)
  {
    var row := trace[i].committed[r];
    RunIsSound(s, trace, i);
    MarkerPins(s, trace[i].committed, r);
    x := StandsLater(s, trace, i, j, db, Contents, Identity(Get(row, WorkspaceId), Get(row, ContentId)), 1);
    IdentityCells(db[x], Get(row, WorkspaceId), Get(row, ContentId));
  }

  // ---------- generation jobs: model run -RESTRICT-> step -CASCADE-> job ----------

  function ModelRunFact(row: Row): Fact {
    map[WorkspaceId := Get(row, WorkspaceId), JobId := Get(row, JobId), StepId := Get(row, StepId)]
  }

  function StepOfRun(row: Row): Fact {
    map[WorkspaceId := Get(row, WorkspaceId), JobId := Get(row, JobId), Id := Get(row, StepId)]
  }

  lemma ModelRunCarries(row: Row)
    requires Get(row, WorkspaceId) != Null && Get(row, JobId) != Null && Get(row, StepId) != Null
    ensures Carries(ModelRunStep, ModelRunFact(row), StepOfRun(row))
  {
  }

  lemma ModelRunPinsStep(s: Schema, db: Db, r: Ref)
    requires ModelRunConstraints(s) && Sound(s, db) && r in db && r.table == ModelRuns
    ensures Get(db[r], WorkspaceId) != Null && Get(db[r], JobId) != Null
    ensures Pinned(s, db, GenerationJobSteps, StepOfRun(db[r]), 1)
  {
    NotNullColumn(s, db, r, WorkspaceId);
    NotNullColumn(s, db, r, JobId);
    NotNullColumn(s, db, r, StepId);
    ImmutableIsPinned(s, db, r, ModelRunFact(db[r]));
    ModelRunCarries(db[r]);
    CitationPins(s, db, ModelRunStep, ModelRunFact(db[r]), StepOfRun(db[r]), 0);
  }

  lemma ModelRunPins(s: Schema, db: Db, r: Ref)
    requires ModelRunConstraints(s) && Sound(s, db) && r in db && r.table == ModelRuns
    ensures Pinned(s, db, GenerationJobSteps, StepOfRun(db[r]), 1)
    ensures Pinned(s, db, GenerationJobs, Identity(Get(db[r], WorkspaceId), Get(db[r], JobId)), 2)
  {
    ModelRunPinsStep(s, db, r);
    TenantCarries(StepJob, JobId, StepOfRun(db[r]));
    CitationPins(s, db, StepJob, StepOfRun(db[r]), Identity(Get(db[r], WorkspaceId), Get(db[r], JobId)), 1);
  }

  lemma StepCells(p: Row, row: Row)
    requires Matches(p, StepOfRun(row))
    ensures Get(p, WorkspaceId) == Get(row, WorkspaceId) && Get(p, JobId) == Get(row, JobId)
    ensures Get(p, Id) == Get(row, StepId)
  {
    var a := StepOfRun(row);
    assert WorkspaceId in a && JobId in a && Id in a;
  }

  /** A generation job with any model run lives forever, and so does the step that ran. */
  lemma GenerationJobWithModelRunLives(s: Schema, trace: seq<State>, i: nat, j: nat, r: Ref, db: Db)
    returns (x: Ref, y: Ref)
    requires ModelRunConstraints(s) && Run(s, trace) && Later(trace, i, j, db)
    requires r in trace[i].committed && r.table == ModelRuns
    ensures x in db && x.table == GenerationJobSteps
    ensures Get(db[x], WorkspaceId) == Get(trace[i].committed[r], WorkspaceId)
    ensures Get(db[x], JobId) == Get(trace[i].committed[r], JobId)
    ensures Get(db[x], Id) == Get(trace[i].committed[r], StepId)
    ensures y in db && y.table == GenerationJobs
    ensures Get(db[y], WorkspaceId) == Get(trace[i].committed[r], WorkspaceId)
    ensures Get(db[y], Id) == Get(trace[i].committed[r], JobId)
  {
    var row := trace[i].committed[r];
    RunIsSound(s, trace, i);
    ModelRunPins(s, trace[i].committed, r);
    x := StandsLater(s, trace, i, j, db, GenerationJobSteps, StepOfRun(row), 1);
    StepCells(db[x], row);
    y := StandsLater(s, trace, i, j, db, GenerationJobs, Identity(Get(row, WorkspaceId), Get(row, JobId)), 2);
    IdentityCells(db[y], Get(row, WorkspaceId), Get(row, JobId));
  }

  // ---------- knowledge: snapshot -RESTRICT-> source version -CASCADE-> source ----------

  function SourceOfVersion(row: Row): Fact {
    map[WorkspaceId := Get(row, WorkspaceId), Id := Get(row, Id), SourceId := Get(row, SourceId)]
  }

  lemma SnapshotPinsVersion(s: Schema, db: Db, r: Ref)
    requires KnowledgeConstraints(s) && Sound(s, db) && r in db && r.table == GenerationSnapshotSources
    ensures Get(db[r], WorkspaceId) != Null && Get(db[r], SourceVersionId) != Null
    ensures Pinned(s, db, SourceVersions, Identity(Get(db[r], WorkspaceId), Get(db[r], SourceVersionId)), 1)
  {
    NotNullColumn(s, db, r, WorkspaceId);
    NotNullColumn(s, db, r, SourceVersionId);
    var b: Fact := map[WorkspaceId := Get(db[r], WorkspaceId), SourceVersionId := Get(db[r], SourceVersionId)];
    ImmutableIsPinned(s, db, r, b);
    TenantCarries(SnapshotSourceVersion, SourceVersionId, b);
    CitationPins(s, db, SnapshotSourceVersion, b, Identity(Get(db[r], WorkspaceId), Get(db[r], SourceVersionId)), 0);
  }

  lemma CitedVersionWidens(s: Schema, db: Db, v: Ref, a: Fact)
    requires KnowledgeConstraints(s) && v in db && v.table == SourceVersions && Matches(db[v], a)
    requires Get(db[v], WorkspaceId) != Null && Get(db[v], Id) != Null
    ensures Widens(s, db, SourceVersions, SourceVersionKey, Identity(Get(db[v], WorkspaceId), Get(db[v], Id)), a)
  {
    var g := TableTrigger(SourceVersions, NoUpdate);
    assert forall c :: Freezes(g.trigger, c);
    assert Wider(s, db, SourceVersions, Identity(Get(db[v], WorkspaceId), Get(db[v], Id)), a, v);
  }

  /** Snapshot `r` cites source version `v`. */
  predicate CitesVersion(db: Db, r: Ref, v: Ref) {
    && r in db && r.table == GenerationSnapshotSources && v in db && v.table == SourceVersions
    && Get(db[v], WorkspaceId) == Get(db[r], WorkspaceId) && Get(db[v], Id) == Get(db[r], SourceVersionId)
  }

  lemma SnapshotPinsColumns(s: Schema, db: Db, r: Ref, v: Ref, a: Fact)
    requires KnowledgeConstraints(s) && Sound(s, db) && CitesVersion(db, r, v) && Matches(db[v], a)
    ensures Get(db[v], WorkspaceId) != Null && Get(db[v], Id) != Null
    ensures Pinned(s, db, SourceVersions, a, 2)
  {
    SnapshotPinsVersion(s, db, r);
    CitedVersionWidens(s, db, v, a);
    PinByRow(s, db, SourceVersions, SourceVersionKey, Identity(Get(db[v], WorkspaceId), Get(db[v], Id)), a, 1);
  }

  lemma SnapshotPinsSource(s: Schema, db: Db, r: Ref, v: Ref)
    requires KnowledgeConstraints(s) && Sound(s, db) && CitesVersion(db, r, v)
    ensures Pinned(s, db, SourceVersions, SourceOfVersion(db[v]), 2)
    ensures Pinned(s, db, KnowledgeSources, Identity(Get(db[v], WorkspaceId), Get(db[v], SourceId)), 3)
  {
    var b := SourceOfVersion(db[v]);
    SnapshotPinsColumns(s, db, r, v, b);
    NotNullColumn(s, db, v, SourceId);
    TenantCarries(SourceVersionSource, SourceId, b);
    CitationPins(s, db, SourceVersionSource, b, Identity(Get(db[v], WorkspaceId), Get(db[v], SourceId)), 2);
  }

  lemma VersionCells(p: Row, row: Row)
    requires Matches(p, SourceOfVersion(row))
    ensures Get(p, WorkspaceId) == Get(row, WorkspaceId) && Get(p, Id) == Get(row, Id)
    ensures Get(p, SourceId) == Get(row, SourceId)
  {
    var a := SourceOfVersion(row);
    assert WorkspaceId in a && Id in a && SourceId in a;
  }

  /** Source versions only reject UPDATE and hang on their source by CASCADE, yet once a generation
      snapshot cites a version, the version keeps its source and that source lives forever. */
  lemma CitedKnowledgeLives(s: Schema, trace: seq<State>, i: nat, j: nat, r: Ref, v: Ref, db: Db)
    returns (x: Ref, y: Ref)
    requires KnowledgeConstraints(s) && Run(s, trace) && Later(trace, i, j, db)
    requires CitesVersion(trace[i].committed, r, v)
    ensures x in db && x.table == SourceVersions
    ensures Get(db[x], WorkspaceId) == Get(trace[i].committed[v], WorkspaceId)
    ensures Get(db[x], Id) == Get(trace[i].committed[v], Id)
    ensures Get(db[x], SourceId) == Get(trace[i].committed[v], SourceId)
    ensures y in db && y.table == KnowledgeSources
    ensures Get(db[y], WorkspaceId) == Get(trace[i].committed[v], WorkspaceId)
    ensures Get(db[y], Id) == Get(trace[i].committed[v], SourceId)
  {
    var row := trace[i].committed[v];
    RunIsSound(s, trace, i);
    SnapshotPinsSource(s, trace[i].committed, r, v);
    x := StandsLater(s, trace, i, j, db, SourceVersions, SourceOfVersion(row), 2);
    VersionCells(db[x], row);
    y := StandsLater(s, trace, i, j, db, KnowledgeSources, Identity(Get(row, WorkspaceId), Get(row, SourceId)), 3);
    IdentityCells(db[y], Get(row, WorkspaceId), Get(row, SourceId));
  }

  // ---------- planning comments: a self-referencing CASCADE ----------

  /** Replies go with the comment they answer, all the way down and round any cycle of parents. */
  lemma RepliesGoWithComment(s: Schema, db: Db, roots: set<Ref>, after: Db, path: seq<Ref>)
    requires CommentParent in s.keys && Executes(s, db, Delete(roots), after)
    requires |path| > 0 && path[0] in roots
    requires forall i | 0 <= i < |path| :: path[i] in db && path[i].table == PlanningComments
    requires forall i | 0 < i < |path| :: Refers(CommentParent, db[path[i]], db[path[i-1]])
    ensures forall i | 0 <= i < |path| :: path[i] !in after
  {
    RootsReached(s, db, roots);
    ClosureIsClosed(s, db, roots);
    forall i | 0 < i < |path| ensures CascadeEdge(s, db, path[i-1], path[i]) {
      assert Refers(CommentParent, db[path[i]], db[path[i-1]]);
    }
    assert IsPath(s, db, path);
    forall i | 0 <= i < |path| ensures path[i] in Closure(s, db, roots) {
      PathStays(s, db, Closure(s, db, roots), path, i);
    }
  }
}
