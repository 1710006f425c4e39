/** Approvals are pinned to one content, version and hash. */
module Approval {
  import opened Sql
  import opened Schemas
  import opened Engine
  import opened Permanence
  import opened BlogOps
  import opened Evidence

  /** The cited row, as the citing row states it: column `c` holds the cited id. */
  function Cited(row: Row, c: Column): (a: Fact)
    ensures Id in a && a[Id] == Get(row, c)
  {
    map[WorkspaceId := Get(row, WorkspaceId), Id := Get(row, c), ContentId := Get(row, ContentId),
        ContentVersionId := Get(row, ContentVersionId), ContentHash := Get(row, ContentHash)]
  }

  function CitedVersion(row: Row): Fact {
    map[WorkspaceId := Get(row, WorkspaceId), Id := Get(row, ContentVersionId),
        ContentId := Get(row, ContentId), ContentHash := Get(row, ContentHash)]
  }

  /** Every row of `t` with the id in `a` is the one row that `a` describes, and there is one. */
  ghost predicate Names(db: Db, t: Table, a: Fact)
    requires Id in a
  {
    Present(db, t, a) && forall q | q in db && q.table == t && Get(db[q], Id) == a[Id] :: Matches(db[q], a)
  }

  lemma PrimaryKeyNames(s: Schema, db: Db, t: Table, a: Fact)
    requires UniquesHold(s, db) && Plain(t, {Id}) in s.uniques
    requires Id in a && a[Id] != Null && Present(db, t, a)
    ensures Names(db, t, a)
  {
  }

  // ---------- match simple and the CHECKs of bulk_rows ----------

  predicate HasContent(row: Row) {
    Get(row, ContentId) != Null && Get(row, ContentVersionId) != Null && Get(row, ContentHash) != Null
  }

  /** The hole: a key with a NULL column is satisfied by every database, the empty one included, and
      it binds exactly when no column is NULL. */
  lemma MatchSimpleHole(k: ForeignKey, row: Row)
    ensures (forall db: Db :: KeyHolds(k, db, row)) <==> !Complete(k, row)
  {
    var empty: Db := map[];
    assert KeyHolds(k, empty, row) <==> !Complete(k, row);
  }

  lemma BulkRowChecked(s: Schema, db: Db, r: Ref)
    requires BulkRowConstraints(s) && Sound(s, db) && r in db && r.table == BulkRows
    ensures Get(db[r], WorkspaceId) != Null
    ensures PassesCheck(IdentityComplete, db[r])
    ensures PassesCheck(NeedsContent(ApprovalRequestId), db[r])
    ensures PassesCheck(NeedsContent(QualityAssessmentId), db[r])
  {
    NotNullColumn(s, db, r, WorkspaceId);
    assert RowChecked(s, BulkRows, db[r]);
    var a, b, c := Check(BulkRows, IdentityComplete), Check(BulkRows, NeedsContent(ApprovalRequestId)),
                   Check(BulkRows, NeedsContent(QualityAssessmentId));
    assert PassesCheck(a.cond, db[r]) && PassesCheck(b.cond, db[r]) && PassesCheck(c.cond, db[r]);
  }

  /** The first CHECK passes exactly if content, version and hash are all given or all NULL. */
  lemma IdentityCheckExactly(row: Row)
    ensures PassesCheck(IdentityComplete, row) <==>
              || (Get(row, ContentId) != Null && Get(row, ContentVersionId) != Null && Get(row, ContentHash) != Null)
              || (Get(row, ContentId) == Null && Get(row, ContentVersionId) == Null && Get(row, ContentHash) == Null)
  {
    var l, r := Same(IsNull(Col(ContentId)), IsNull(Col(ContentVersionId))),
                Same(IsNull(Col(ContentVersionId)), IsNull(Col(ContentHash)));
    assert Eval(IsNull(Col(ContentId)), row, NoSession) == Of(Get(row, ContentId) == Null);
    assert Eval(IsNull(Col(ContentVersionId)), row, NoSession) == Of(Get(row, ContentVersionId) == Null);
    assert Eval(IsNull(Col(ContentHash)), row, NoSession) == Of(Get(row, ContentHash) == Null);
    assert Eval(IdentityComplete, row, NoSession) == And3(Eval(l, row, NoSession), Eval(r, row, NoSession));
  }

  /** The others pass exactly if the approval or assessment is NULL or a content version is given. */
  lemma ContentCheckExactly(row: Row, c: Column)
    ensures PassesCheck(NeedsContent(c), row) <==> Get(row, c) == Null || Get(row, ContentVersionId) != Null
  {
    assert Eval(IsNull(Col(c)), row, NoSession) == Of(Get(row, c) == Null);
    assert Eval(IsNull(Col(ContentVersionId)), row, NoSession) == Of(Get(row, ContentVersionId) == Null);
    assert Eval(NotNull(ContentVersionId), row, NoSession) == Not3(Of(Get(row, ContentVersionId) == Null));
  }

  lemma IdentityIsWhole(row: Row)
    requires PassesCheck(IdentityComplete, row)
    ensures Get(row, ContentVersionId) != Null <==> HasContent(row)
  {
    IdentityCheckExactly(row);
  }

  lemma ContentNeeded(row: Row, c: Column)
    requires PassesCheck(NeedsContent(c), row) && Get(row, c) != Null
    ensures Get(row, ContentVersionId) != Null
  {
    ContentCheckExactly(row, c);
  }

  /** The CHECKs close the hole: on rows that pass them the exact key binds exactly when it names
      something. */
  lemma ChecksCloseHole(row: Row, c: Column, parent: Table)
    requires Get(row, WorkspaceId) != Null
    requires PassesCheck(IdentityComplete, row) && PassesCheck(NeedsContent(c), row)
    ensures Complete(Exact(BulkRows, c, parent), row) <==> Get(row, c) != Null
  {
    var k := Exact(BulkRows, c, parent);
    assert Pair(c, Id) in k.cols;
    if Get(row, c) != Null {
      ContentNeeded(row, c);
      IdentityIsWhole(row);
    }
  }

  // ---------- a binding exact key names one row ----------

  lemma ExactNames(s: Schema, db: Db, r: Ref, c: Column, parent: Table)
    requires Sound(s, db) && r in db && Exact(r.table, c, parent) in s.keys && Plain(parent, {Id}) in s.uniques
    requires Complete(Exact(r.table, c, parent), db[r])
    ensures Names(db, parent, Cited(db[r], c))
  {
    var k := Exact(r.table, c, parent);
    assert KeyIntact(k, db);
    assert KeyHolds(k, db, db[r]);
    var p :| p in db && p.table == parent && Refers(k, db[r], db[p]);
    ExactMatches(db[r], db[p], r.table, c, parent);
    PrimaryKeyNames(s, db, parent, Cited(db[r], c));
  }

  lemma ExactMatches(row: Row, target: Row, child: Table, c: Column, parent: Table)
    requires Refers(Exact(child, c, parent), row, target)
    ensures Matches(target, Cited(row, c)) && Get(row, c) != Null
  {
  }

  lemma VersionNames(s: Schema, db: Db, r: Ref)
    requires Sound(s, db) && r in db && ExactVersion(r.table) in s.keys && Plain(ContentVersions, {Id}) in s.uniques
    requires Get(db[r], WorkspaceId) != Null && HasContent(db[r])
    ensures Names(db, ContentVersions, CitedVersion(db[r]))
  {
    var k := ExactVersion(r.table);
    assert KeyIntact(k, db);
    assert KeyHolds(k, db, db[r]);
    var p :| p in db && p.table == ContentVersions && Refers(k, db[r], db[p]);
    VersionMatches(db[r], db[p], r.table);
    PrimaryKeyNames(s, db, ContentVersions, CitedVersion(db[r]));
  }

  lemma VersionMatches(row: Row, target: Row, child: Table)
    requires Refers(ExactVersion(child), row, target)
    ensures Matches(target, CitedVersion(row))
  {
  }

  /** A bulk row with an approval or an assessment has a complete content identity, and its approval,
      its assessment and the stored content version agree on workspace, content, version and hash. */
  ghost predicate BulkRowAgrees(db: Db, row: Row) {
    && (Get(row, ApprovalRequestId) != Null || Get(row, QualityAssessmentId) != Null ==>
          HasContent(row) && Names(db, ContentVersions, CitedVersion(row)))
    && (Get(row, ApprovalRequestId) != Null ==> Names(db, ApprovalRequests, Cited(row, ApprovalRequestId)))
    && (Get(row, QualityAssessmentId) != Null ==> Names(db, QualityAssessments, Cited(row, QualityAssessmentId)))
  }

  lemma BulkRowAgreement(s: Schema, db: Db, r: Ref)
    requires BulkRowConstraints(s) && CitedConstraints(s) && Sound(s, db) && r in db && r.table == BulkRows
    ensures BulkRowAgrees(db, db[r])
  {
    var row := db[r];
    BulkRowChecked(s, db, r);
    IdentityIsWhole(row);
    if Get(row, ApprovalRequestId) != Null {
      ContentNeeded(row, ApprovalRequestId);
      ChecksCloseHole(row, ApprovalRequestId, ApprovalRequests);
      ExactNames(s, db, r, ApprovalRequestId, ApprovalRequests);
    }
    if Get(row, QualityAssessmentId) != Null {
      ContentNeeded(row, QualityAssessmentId);
      ChecksCloseHole(row, QualityAssessmentId, QualityAssessments);
      ExactNames(s, db, r, QualityAssessmentId, QualityAssessments);
    }
    if HasContent(row) {
      VersionNames(s, db, r);
    }
  }

  /** A row of `t` has the given id and, in the columns of a content identity, the values of `row`. */
  ghost predicate SharesIdentity(db: Db, t: Table, id: Cell, row: Row) {
    && (exists p :: p in db && p.table == t && Get(db[p], Id) == id)
    && forall p | p in db && p.table == t && Get(db[p], Id) == id ::
         && Get(db[p], WorkspaceId) == Get(row, WorkspaceId) && Get(db[p], ContentId) == Get(row, ContentId)
         && Get(db[p], ContentVersionId) == Get(row, ContentVersionId)
         && Get(db[p], ContentHash) == Get(row, ContentHash)
  }

  lemma NamedSharesIdentity(db: Db, t: Table, row: Row, c: Column)
    requires Names(db, t, Cited(row, c))
    ensures SharesIdentity(db, t, Get(row, c), row)
  {
    var a := Cited(row, c);
    var p :| p in db && p.table == t && Matches(db[p], a);
    forall q | q in db && q.table == t && Get(db[q], Id) == Get(row, c)
      ensures && Get(db[q], WorkspaceId) == Get(row, WorkspaceId) && Get(db[q], ContentId) == Get(row, ContentId)
              && Get(db[q], ContentVersionId) == Get(row, ContentVersionId)
              && Get(db[q], ContentHash) == Get(row, ContentHash)
    {
      CitedCells(row, db[q], c);
    }
    CitedCells(row, db[p], c);
  }

  lemma NamedVersion(db: Db, row: Row) returns (v: Ref)
    requires Names(db, ContentVersions, CitedVersion(row))
    ensures v in db && v.table == ContentVersions && Get(db[v], Id) == Get(row, ContentVersionId)
    ensures Get(db[v], WorkspaceId) == Get(row, WorkspaceId) && Get(db[v], ContentId) == Get(row, ContentId)
    ensures Get(db[v], ContentHash) == Get(row, ContentHash)
  {
    var a := CitedVersion(row);
    assert WorkspaceId in a && Id in a && ContentId in a && ContentHash in a;
    v :| v in db && v.table == ContentVersions && Matches(db[v], a);
  }

  lemma LaterIsSound(s: Schema, trace: seq<State>, i: nat, j: nat, db: Db)
    requires Run(s, trace) && Later(trace, i, j, db)
    ensures Sound(s, db)
  {
    RunIsSound(s, trace, j);
  }

  /** In every state of every run, column by column: a bulk row with an approval or an assessment has
      content, version and hash; the stored version `v` has its workspace, content and hash; and so have
      the approval and the assessment, with its version. */
  lemma BulkRowsAgreeInRuns(s: Schema, trace: seq<State>, i: nat, db: Db, r: Ref) returns (v: Ref)
    requires BulkRowConstraints(s) && CitedConstraints(s) && Run(s, trace) && Later(trace, i, i, db)
    requires r in db && r.table == BulkRows
    requires Get(db[r], ApprovalRequestId) != Null || Get(db[r], QualityAssessmentId) != Null
    ensures Get(db[r], ContentId) != Null && Get(db[r], ContentVersionId) != Null && Get(db[r], ContentHash) != Null
    ensures v in db && v.table == ContentVersions && Get(db[v], Id) == Get(db[r], ContentVersionId)
    ensures Get(db[v], WorkspaceId) == Get(db[r], WorkspaceId) && Get(db[v], ContentId) == Get(db[r], ContentId)
    ensures Get(db[v], ContentHash) == Get(db[r], ContentHash)
    ensures Get(db[r], ApprovalRequestId) != Null ==>
              SharesIdentity(db, ApprovalRequests, Get(db[r], ApprovalRequestId), db[r])
    ensures Get(db[r], QualityAssessmentId) != Null ==>
              SharesIdentity(db, QualityAssessments, Get(db[r], QualityAssessmentId), db[r])
  {
    LaterIsSound(s, trace, i, i, db);
    BulkRowAgreement(s, db, r);
    v := NamedVersion(db, db[r]);
    if Get(db[r], ApprovalRequestId) != Null {
      NamedSharesIdentity(db, ApprovalRequests, db[r], ApprovalRequestId);
    }
    if Get(db[r], QualityAssessmentId) != Null {
      NamedSharesIdentity(db, QualityAssessments, db[r], QualityAssessmentId);
    }
  }

  // ---------- approval_request_id determines content, version and hash ----------

  predicate CitesApproval(db: Db, r: Ref) {
    && r in db && (PublishingTable(r.table) || r.table == BulkRows)
    && Get(db[r], ApprovalRequestId) != Null
  }

  predicate SameContent(x: Row, y: Row) {
    && Get(x, WorkspaceId) == Get(y, WorkspaceId) && Get(x, ContentId) == Get(y, ContentId)
    && Get(x, ContentVersionId) == Get(y, ContentVersionId) && Get(x, ContentHash) == Get(y, ContentHash)
  }

  lemma ApprovalNamed(s: Schema, db: Db, r: Ref)
    requires PublishConstraints(s) && BulkRowConstraints(s) && CitedConstraints(s)
    requires Sound(s, db) && CitesApproval(db, r)
    ensures Names(db, ApprovalRequests, Cited(db[r], ApprovalRequestId))
  {
    if r.table == BulkRows {
      BulkRowAgreement(s, db, r);
    } else {
      PublishingComplete(s, db, r);
      ExactNames(s, db, r, ApprovalRequestId, ApprovalRequests);
    }
  }

  lemma PublishingComplete(s: Schema, db: Db, r: Ref)
    requires PublishConstraints(s) && Sound(s, db) && r in db && PublishingTable(r.table)
    ensures ExactApproval(r.table) in s.keys && Complete(ExactApproval(r.table), db[r])
    ensures HasContent(db[r]) && Get(db[r], WorkspaceId) != Null && Get(db[r], ApprovalRequestId) != Null
  {
    assert r.table in {PublishJobs, PublishedPosts, NaverPackages};
    NotNullColumn(s, db, r, WorkspaceId);
    NotNullColumn(s, db, r, ApprovalRequestId);
    NotNullColumn(s, db, r, ContentId);
    NotNullColumn(s, db, r, ContentVersionId);
    NotNullColumn(s, db, r, ContentHash);
  }

  lemma SoundApprovalDetermines(s: Schema, db: Db, r: Ref, q: Ref)
    requires PublishConstraints(s) && BulkRowConstraints(s) && CitedConstraints(s) && Sound(s, db)
    requires CitesApproval(db, r) && CitesApproval(db, q)
    requires Get(db[r], ApprovalRequestId) == Get(db[q], ApprovalRequestId)
    ensures SameContent(db[r], db[q])
  {
    ApprovalNamed(s, db, r);
    ApprovalNamed(s, db, q);
    SameCitation(db, db[r], db[q]);
  }

  /** Across publish jobs, published posts, Naver packages and bulk rows, whatever order they were
      inserted or repointed in, equal approval ids mean equal workspace, content, version and hash. */
  lemma ApprovalDetermines(s: Schema, trace: seq<State>, i: nat, db: Db, r: Ref, q: Ref)
    requires PublishConstraints(s) && BulkRowConstraints(s) && CitedConstraints(s)
    requires Run(s, trace) && i < |trace| && (db == trace[i].committed || db == trace[i].working)
    requires CitesApproval(db, r) && CitesApproval(db, q)
    requires Get(db[r], ApprovalRequestId) == Get(db[q], ApprovalRequestId)
    ensures SameContent(db[r], db[q])
  {
    RunIsSound(s, trace, i);
    SoundApprovalDetermines(s, db, r, q);
  }

  lemma CitedCells(row: Row, target: Row, c: Column)
    requires Matches(target, Cited(row, c))
    ensures Get(target, Id) == Get(row, c) && SameContent(target, row)
  {
  }

  lemma SameCitation(db: Db, x: Row, y: Row)
    requires Get(x, ApprovalRequestId) == Get(y, ApprovalRequestId)
    requires Names(db, ApprovalRequests, Cited(x, ApprovalRequestId))
    requires Names(db, ApprovalRequests, Cited(y, ApprovalRequestId))
    ensures SameContent(x, y)
  {
    var p :| p in db && p.table == ApprovalRequests && Matches(db[p], Cited(x, ApprovalRequestId));
    CitedCells(x, db[p], ApprovalRequestId);
    CitedCells(y, db[p], ApprovalRequestId);
  }

  // ---------- pinning by a Naver package ----------

  function PackageFact(row: Row): Fact {
    map[WorkspaceId := Get(row, WorkspaceId), ApprovalRequestId := Get(row, ApprovalRequestId),
        ContentId := Get(row, ContentId), ContentVersionId := Get(row, ContentVersionId),
        ContentHash := Get(row, ContentHash)]
  }

  function VersionKey(row: Row): Fact {
    map[WorkspaceId := Get(row, WorkspaceId), Id := Get(row, ContentVersionId), ContentHash := Get(row, ContentHash)]
  }

  lemma PackageCarries(row: Row)
    requires Complete(ExactApproval(NaverPackages), row)
    ensures Carries(ExactApproval(NaverPackages), PackageFact(row), Cited(row, ApprovalRequestId))
  {
    var k := ExactApproval(NaverPackages);
    assert Pair(WorkspaceId, WorkspaceId) in k.cols && Pair(ApprovalRequestId, Id) in k.cols;
    assert Pair(ContentId, ContentId) in k.cols && Pair(ContentVersionId, ContentVersionId) in k.cols;
    assert Pair(ContentHash, ContentHash) in k.cols;
  }

  lemma PackageCarriesVersion(row: Row)
    requires Complete(VersionAndHash(NaverPackages), row)
    ensures Carries(VersionAndHash(NaverPackages), PackageFact(row), VersionKey(row))
  {
    var k := VersionAndHash(NaverPackages);
    assert Pair(WorkspaceId, WorkspaceId) in k.cols && Pair(ContentVersionId, Id) in k.cols;
    assert Pair(ContentHash, ContentHash) in k.cols;
  }

  lemma PackagePins(s: Schema, db: Db, r: Ref)
    requires PublishConstraints(s) && PackageConstraints(s) && Sound(s, db) && r in db && r.table == NaverPackages
    ensures Get(db[r], ApprovalRequestId) != Null && Get(db[r], ContentVersionId) != Null
    ensures Pinned(s, db, ApprovalRequests, Cited(db[r], ApprovalRequestId), 1)
    ensures Pinned(s, db, ContentVersions, VersionKey(db[r]), 1)
  {
    PublishingComplete(s, db, r);
    ImmutableIsPinned(s, db, r, PackageFact(db[r]));
    PackageCarries(db[r]);
    CitationPins(s, db, ExactApproval(NaverPackages), PackageFact(db[r]), Cited(db[r], ApprovalRequestId), 0);
    PackageCarriesVersion(db[r]);
    CitationPins(s, db, VersionAndHash(NaverPackages), PackageFact(db[r]), VersionKey(db[r]), 0);
  }

  ghost predicate NamedIn(st: State, t: Table, a: Fact)
    requires Id in a
  {
    Names(st.committed, t, a) && Names(st.working, t, a)
  }

  lemma NamedForever(s: Schema, trace: seq<State>, i: nat, j: nat, t: Table, a: Fact, n: nat)
    requires Plain(t, {Id}) in s.uniques && Id in a && a[Id] != Null
    requires Run(s, trace) && i <= j < |trace| && Pinned(s, trace[i].committed, t, a, n)
    ensures NamedIn(trace[j], t, a)
  {
    PinnedForever(s, trace, i, j, t, a, n);
    RunIsSound(s, trace, j);
    PrimaryKeyNames(s, trace[j].committed, t, a);
    PrimaryKeyNames(s, trace[j].working, t, a);
  }

  lemma PackagePinsVersion(s: Schema, trace: seq<State>, i: nat, j: nat, r: Ref)
    requires PublishConstraints(s) && PackageConstraints(s) && CitedConstraints(s)
    requires Run(s, trace) && i <= j < |trace| && r in trace[i].committed && r.table == NaverPackages
    ensures NamedIn(trace[j], ContentVersions, VersionKey(trace[i].committed[r]))
  {
    RunIsSound(s, trace, i);
    PackagePins(s, trace[i].committed, r);
    NamedForever(s, trace, i, j, ContentVersions, VersionKey(trace[i].committed[r]), 1);
  }

  lemma PackagePinsRequest(s: Schema, trace: seq<State>, i: nat, j: nat, r: Ref)
    requires PublishConstraints(s) && PackageConstraints(s) && CitedConstraints(s)
    requires Run(s, trace) && i <= j < |trace| && r in trace[i].committed && r.table == NaverPackages
    ensures NamedIn(trace[j], ApprovalRequests, Cited(trace[i].committed[r], ApprovalRequestId))
  {
    RunIsSound(s, trace, i);
    PackagePins(s, trace[i].committed, r);
    NamedForever(s, trace, i, j, ApprovalRequests, Cited(trace[i].committed[r], ApprovalRequestId), 1);
  }

  lemma KeyedVersion(db: Db, row: Row) returns (v: Ref)
    requires Names(db, ContentVersions, VersionKey(row))
    ensures v in db && v.table == ContentVersions && Get(db[v], Id) == Get(row, ContentVersionId)
    ensures Get(db[v], WorkspaceId) == Get(row, WorkspaceId) && Get(db[v], ContentHash) == Get(row, ContentHash)
  {
    var a := VersionKey(row);
    assert WorkspaceId in a && Id in a && ContentHash in a;
    v :| v in db && v.table == ContentVersions && Matches(db[v], a);
  }

  /** Once a committed Naver package cites an approval request, in every continuation the request is
      there with the cited content, version and hash, and so is the cited content version. */
  lemma PackagePinsApproval(s: Schema, trace: seq<State>, i: nat, j: nat, r: Ref, db: Db) returns (v: Ref)
    requires PublishConstraints(s) && PackageConstraints(s) && CitedConstraints(s) && Run(s, trace)
    requires Later(trace, i, j, db) && r in trace[i].committed && r.table == NaverPackages
    ensures SharesIdentity(db, ApprovalRequests, Get(trace[i].committed[r], ApprovalRequestId), trace[i].committed[r])
    ensures v in db && v.table == ContentVersions
    ensures Get(db[v], Id) == Get(trace[i].committed[r], ContentVersionId)
    ensures Get(db[v], WorkspaceId) == Get(trace[i].committed[r], WorkspaceId)
    ensures Get(db[v], ContentHash) == Get(trace[i].committed[r], ContentHash)
  {
    var row := trace[i].committed[r];
    PackagePinsRequest(s, trace, i, j, r);
    PackagePinsVersion(s, trace, i, j, r);
    NamedSharesIdentity(db, ApprovalRequests, row, ApprovalRequestId);
    v := KeyedVersion(db, row);
  }

  /** A committed content version never changes in any column. */
  lemma ContentVersionIsFinal(s: Schema, trace: seq<State>, i: nat, j: nat, v: Ref)
    requires PackageConstraints(s) && Run(s, trace) && i <= j < |trace|
    requires v in trace[i].committed && v.table == ContentVersions
    ensures v in trace[j].committed
    ensures forall c :: Get(trace[j].committed[v], c) == Get(trace[i].committed[v], c)
  {
    var g := TableTrigger(ContentVersions, Immutable);
    assert RaisesOnDelete(g.trigger) && forall c :: Freezes(g.trigger, c);
    GuardedRowForever(s, trace, i, j, v);
  }
}
