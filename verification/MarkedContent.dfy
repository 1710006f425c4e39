/** A run in which the row of a marked content goes, under all constraints of its two tables. */
module MarkedContent {
  import opened Sql
  import opened Schemas
  import opened Cascades
  import opened Engine
  import opened BlogOps
  import opened Evidence
  import opened KeyExchange

  function NotNulls(t: Table, cols: set<Column>): set<Check> { set c | c in cols :: Check(t, NotNull(c)) }

  /** The NOT NULL columns of contents and of its markers, and three columns that constraints name:
      lock_version, actor_id and marker. */
  datatype Layout = Layout(content: set<Column>, marker: set<Column>, lock: Column, actor: Column, mark: Column)

  /** The CHECKs of the two tables. */
  function Checks(l: Layout): set<Check> {
    NotNulls(Contents, l.content) + {Check(Contents, Above(Col(l.lock), 0))} + NotNulls(ContentLibraryMarkers, l.marker)
  }

  /** Every constraint of contents and content_library_markers. */
  function ContentTables(l: Layout): Schema {
    Schema({MarkerContent, ContentBrand, ContentBrief, ContentCurrent},
           { Plain(Contents, {Id}), Plain(Contents, {WorkspaceId, Id}),
             Plain(ContentLibraryMarkers, {Id}), Plain(ContentLibraryMarkers, {WorkspaceId, Id}),
             Plain(ContentLibraryMarkers, {WorkspaceId, ContentId, l.actor, l.mark}) },
           Checks(l),
           { TableTrigger(ContentLibraryMarkers, Immutable) })
  }

  predicate Optional(l: Layout) {
    BrandId !in l.content && BriefId !in l.content && CurrentVersionId !in l.content
  }

  /** `s` is that schema, and its content rows need no brand, brief or current version. */
  predicate IsContentTables(s: Schema, l: Layout) {
    && s == ContentTables(l)
    && {WorkspaceId, Id, l.lock} <= l.content && l.lock != Id && l.lock != WorkspaceId
    && {WorkspaceId, Id, ContentId} <= l.marker
    && Optional(l)
  }

  const Marked := Ref(Contents, 0)
  const Other := Ref(Contents, 1)
  const TheMarker := Ref(ContentLibraryMarkers, 0)

  /** A row in which `Number(1)` stands for any value that is not NULL. */
  function Filled(cols: set<Column>, id: nat): Row {
    (map c | c in cols :: Number(1))[WorkspaceId := Uuid(1)][Id := Uuid(id)]
  }

  /** Contents 10 and 20, and a marker on content 10. */
  ghost predicate Stage(db: Db, l: Layout) {
    && db.Keys == {Marked, Other, TheMarker}
    && db[Marked] == Filled(l.content, 10) && db[Other] == Filled(l.content, 20)
    && db[TheMarker] == Filled(l.marker, 40)[ContentId := Uuid(10)]
  }

  lemma FilledCells(cols: set<Column>, id: nat)
    ensures forall c | c in cols :: Get(Filled(cols, id), c) != Null
    ensures forall c | c in cols && c != Id && c != WorkspaceId :: Get(Filled(cols, id), c) == Number(1)
    ensures Get(Filled(cols, id), Id) == Uuid(id) && Get(Filled(cols, id), WorkspaceId) == Uuid(1)
    ensures forall c | c !in cols && c != Id && c != WorkspaceId :: Get(Filled(cols, id), c) == Null
  {
  }

  // ---------- CHECKs ----------

  lemma NotNullPasses(t: Table, cols: set<Column>, row: Row, c: Check)
    requires c in NotNulls(t, cols) && forall col | col in cols :: Get(row, col) != Null
    ensures PassesCheck(c.cond, row)
  {
    var col :| col in cols && c == Check(t, NotNull(col));
    assert Eval(IsNull(Col(col)), row, NoSession) == False;
  }

  lemma LockPasses(row: Row, lock: Column)
    requires Get(row, lock) == Number(1)
    ensures PassesCheck(Above(Col(lock), 0), row)
  {
    AboveExactly(row, lock, 0);
  }

  lemma ContentRowPasses(s: Schema, l: Layout, row: Row)
    requires s.checks == Checks(l) && Get(row, l.lock) == Number(1) && forall c | c in l.content :: Get(row, c) != Null
    ensures RowChecked(s, Contents, row)
  {
    forall c | c in s.checks && c.table == Contents ensures PassesCheck(c.cond, row) {
      if c in NotNulls(Contents, l.content) {
        NotNullPasses(Contents, l.content, row, c);
      } else {
        LockPasses(row, l.lock);
      }
    }
  }

  lemma MarkerRowPasses(s: Schema, l: Layout, row: Row)
    requires s.checks == Checks(l) && forall c | c in l.marker :: Get(row, c) != Null
    ensures RowChecked(s, ContentLibraryMarkers, row)
  {
    forall c | c in s.checks && c.table == ContentLibraryMarkers ensures PassesCheck(c.cond, row) {
      NotNullPasses(ContentLibraryMarkers, l.marker, row, c);
    }
  }

  lemma FilledContentPasses(s: Schema, l: Layout, id: nat)
    requires IsContentTables(s, l)
    ensures RowChecked(s, Contents, Filled(l.content, id))
  {
    FilledCells(l.content, id);
    ContentRowPasses(s, l, Filled(l.content, id));
  }

  lemma FilledMarkerPasses(s: Schema, l: Layout)
    requires IsContentTables(s, l)
    ensures RowChecked(s, ContentLibraryMarkers, Filled(l.marker, 40)[ContentId := Uuid(10)])
  {
    FilledCells(l.marker, 40);
    MarkerRowPasses(s, l, Filled(l.marker, 40)[ContentId := Uuid(10)]);
  }

  lemma ThreeRowsPass(s: Schema, db: Db)
    requires db.Keys == {Marked, Other, TheMarker}
    requires RowChecked(s, Contents, db[Marked]) && RowChecked(s, Contents, db[Other])
    requires RowChecked(s, ContentLibraryMarkers, db[TheMarker])
    ensures RowsChecked(s, db)
  {
  }

  lemma StagePasses(s: Schema, db: Db, l: Layout)
    requires IsContentTables(s, l) && Stage(db, l)
    ensures RowsChecked(s, db)
  {
    FilledContentPasses(s, l, 10);
    FilledContentPasses(s, l, 20);
    FilledMarkerPasses(s, l);
    ThreeRowsPass(s, db);
  }

  // ---------- unique and foreign keys ----------

  /** The cells that keys look at. */
  ghost predicate Staged(db: Db) {
    && db.Keys == {Marked, Other, TheMarker}
    && Get(db[Marked], WorkspaceId) == Uuid(1) && Get(db[Marked], Id) == Uuid(10)
    && Get(db[Other], WorkspaceId) == Uuid(1) && Get(db[Other], Id) == Uuid(20)
    && Get(db[TheMarker], WorkspaceId) == Uuid(1) && Get(db[TheMarker], ContentId) == Uuid(10)
    && forall r, c | r in {Marked, Other} && c in {BrandId, BriefId, CurrentVersionId} :: Get(db[r], c) == Null
  }

  lemma StageIsStaged(db: Db, l: Layout)
    requires Stage(db, l) && Optional(l)
    ensures Staged(db)
  {
    FilledCells(l.content, 10);
    FilledCells(l.content, 20);
    FilledCells(l.marker, 40);
  }

  lemma StageIsUnique(s: Schema, db: Db)
    requires Staged(db) && forall u | u in s.uniques && u.table == Contents :: Id in u.cols
    ensures UniquesHold(s, db)
  {
  }

  predicate ContentKeys(s: Schema) { s.keys == {MarkerContent, ContentBrand, ContentBrief, ContentCurrent} }

  lemma StageMarks(db: Db)
    requires Staged(db)
    ensures Refers(MarkerContent, db[TheMarker], db[Marked]) && !Refers(MarkerContent, db[TheMarker], db[Other])
  {
    assert Pair(ContentId, Id) in MarkerContent.cols;
  }

  lemma ContentLinksNothing(db: Db, k: ForeignKey, r: Ref)
    requires Staged(db) && k in {ContentBrand, ContentBrief, ContentCurrent} && r in {Marked, Other}
    ensures !Complete(k, db[r])
  {
    assert Pair(BrandId, Id) in ContentBrand.cols && Pair(BriefId, Id) in ContentBrief.cols;
    assert Pair(CurrentVersionId, Id) in ContentCurrent.cols;
  }

  lemma StageKeys(s: Schema, db: Db, k: ForeignKey)
    requires ContentKeys(s) && Staged(db) && k in s.keys
    ensures KeyIntact(k, db)
  {
    forall r | r in db && r.table == k.child ensures KeyHolds(k, db, db[r]) {
      if k == MarkerContent {
        StageMarks(db);
        assert HasParent(k, db, db[r]);
      } else {
        ContentLinksNothing(db, k, r);
      }
    }
  }

  lemma StageFree(s: Schema, db: Db)
    requires ContentKeys(s) && Staged(db)
    ensures Free(s, db, Marked, Other, Uuid(50))
  {
    forall k, r | k in s.keys && r in db ensures !Holds(k, db, r, Other) {
      StageMarks(db);
    }
    assert Unreferenced(s, db, Other);
  }

  // ---------- the run ----------

  function Start(db: Db): seq<State> { [EmptyState, State(map[], db), State(db, db)] }

  lemma FirstRun(s: Schema, db: Db)
    requires RowsChecked(s, db) && UniquesHold(s, db) && forall k | k in s.keys :: KeyIntact(k, db)
    ensures Run(s, Start(db))
  {
    var trace := Start(db);
    assert map[] + db == db;
    assert ReferencesHold(s, db, db) by {
      forall k, r | k in s.keys && r in db && k.child == r.table ensures KeyHolds(k, db, db[r]) {
        assert KeyIntact(k, db);
      }
    }
    assert Executes(s, map[], Insert(db), db);
    assert StepAt(s, trace, 1) && StepAt(s, trace, 2);
  }

  lemma TablesHaveKeys(l: Layout)
    ensures ContentKeys(ContentTables(l))
    ensures forall u | u in ContentTables(l).uniques && u.table == Contents :: Id in u.cols
  {
  }

  lemma StagedRuns(s: Schema, db: Db)
    requires RowsChecked(s, db) && ContentKeys(s) && Staged(db)
    requires forall u | u in s.uniques && u.table == Contents :: Id in u.cols
    ensures Run(s, Start(db)) && Free(s, db, Marked, Other, Uuid(50))
    ensures Refers(MarkerContent, db[TheMarker], db[Marked])
  {
    StageIsUnique(s, db);
    forall k | k in s.keys ensures KeyIntact(k, db) {
      StageKeys(s, db, k);
    }
    FirstRun(s, db);
    StageFree(s, db);
    StageMarks(db);
  }

  lemma StageRuns(s: Schema, db: Db, l: Layout)
    requires IsContentTables(s, l) && Stage(db, l)
    ensures Run(s, Start(db)) && Free(s, db, Marked, Other, Uuid(50))
    ensures Refers(MarkerContent, db[TheMarker], db[Marked])
  {
    StageIsStaged(db, l);
    StagePasses(s, db, l);
    TablesHaveKeys(l);
    StagedRuns(s, db);
  }

  lemma MeetsMarkerConstraints(s: Schema, l: Layout)
    requires IsContentTables(s, l)
    ensures MarkerConstraints(s)
  {
    assert Check(ContentLibraryMarkers, NotNull(WorkspaceId)) in NotNulls(ContentLibraryMarkers, l.marker);
    assert Check(ContentLibraryMarkers, NotNull(ContentId)) in NotNulls(ContentLibraryMarkers, l.marker);
  }

  lemma ChecksLeaveId(l: Layout, c: Check)
    requires c in Checks(l) && c.table == Contents && l.lock != Id
    ensures c.cond == NotNull(Id) || !MentionsColumn(c.cond, Id)
  {
    if c in NotNulls(Contents, l.content) {
      var col :| col in l.content && c == Check(Contents, NotNull(col));
      assert MentionsColumn(NotNull(col), Id) <==> MentionsColumn(IsNull(Col(col)), Id);
    }
  }

  lemma OnlyMarkersCite(s: Schema, k: ForeignKey)
    requires ContentKeys(s) && k in s.keys && k.parent == Contents
    ensures CitesId(k)
  {
    var m := Pair(ContentId, Id);
    assert m in MarkerContent.cols;
  }

  lemma IdentityIsPlain(s: Schema, l: Layout)
    requires ContentKeys(s) && s.checks == Checks(l) && l.lock != Id && Plain(Contents, {Id}) in s.uniques
    ensures PlainIdentity(s, Contents)
  {
    forall c | c in s.checks && c.table == Contents ensures c.cond == NotNull(Id) || !MentionsColumn(c.cond, Id) {
      ChecksLeaveId(l, c);
    }
    forall k | k in s.keys && k.parent == Contents ensures CitesId(k) {
      OnlyMarkersCite(s, k);
    }
  }

  lemma ContentUniques(l: Layout)
    ensures forall u | u in ContentTables(l).uniques && u.table == Contents ::
              u == Plain(Contents, {Id}) || u == Plain(Contents, {WorkspaceId, Id})
    ensures Plain(Contents, {Id}) in ContentTables(l).uniques
  {
  }

  lemma ContentChildKeys(l: Layout)
    ensures forall k | k in ContentTables(l).keys && k.child == Contents :: ContentLink(k)
    ensures ContentKeys(ContentTables(l))
  {
  }

  lemma ContentTriggers(l: Layout)
    ensures forall g | g in ContentTables(l).triggers :: g.table != Contents
  {
  }

  lemma MeetsContentsConstraints(l: Layout)
    requires l.lock != Id
    ensures ContentsConstraints(ContentTables(l))
  {
    ContentUniques(l);
    ContentChildKeys(l);
    ContentTriggers(l);
    IdentityIsPlain(ContentTables(l), l);
  }

  /** The columns of 4fd7a4ed3cfb, lines 176-197 and 233-238. */
  const SourceLayout :=
    Layout({WorkspaceId, Id, Named("content_type"), Named("channel"), Named("language"), Named("title"), Named("state"),
            Named("tags"), Named("metadata_json"), Named("retention_hold"), Named("created_by"), Named("updated_by"),
            Named("lock_version"), Named("created_at"), Named("updated_at")},
           {WorkspaceId, Id, ContentId, Named("actor_id"), Named("marker"), Named("created_at")},
           Named("lock_version"), Named("actor_id"), Named("marker"))

  lemma SourceLayoutFits()
    ensures IsContentTables(ContentTables(SourceLayout), SourceLayout)
  {
  }

  /** Under all constraints of contents and its markers there is a run that commits a marked content
      and then commits the deletion of its row, though the key is pinned. */
  lemma MarkedRowCanGo(s: Schema, l: Layout)
    returns (db: Db, z: Db, trace: seq<State>)
    requires IsContentTables(s, l)
    ensures MarkerConstraints(s) && ContentsConstraints(s) && Stage(db, l)
    ensures Goes(s, Start(db), db, Marked, Other, Identity(Uuid(1), Uuid(10)), 1, z, trace)
  {
    var marker := Filled(l.marker, 40)[ContentId := Uuid(10)];
    db := map[Marked := Filled(l.content, 10), Other := Filled(l.content, 20), TheMarker := marker];
    StageIsStaged(db, l);
    StageRuns(s, db, l);
    MeetsMarkerConstraints(s, l);
    MeetsContentsConstraints(l);
    z, trace := MarkedContentCanGo(s, Start(db), db, TheMarker, Marked, Other, Uuid(50));
  }
}
