/** How a pinned key that is not frozen moves to another row, in any reachable database. */
module KeyExchange {
  import opened Sql
  import opened Schemas
  import opened Cascades
  import opened Engine
  import opened Statements
  import opened Permanence
  import opened BlogOps
  import opened Evidence
  import opened RowIdentity

  function WithId(row: Row, v: Cell): Row { row[Id := v] }

  /** On `t` no trigger guards deletes or freezes `id`, and nothing but references and the primary
      key looks at it. */
  ghost predicate LooseIds(s: Schema, t: Table) {
    && Plain(t, {Id}) in s.uniques
    && (forall g | g in s.triggers && g.table == t :: g.trigger.FrozenSnapshot? && Id !in g.trigger.cols)
    && (forall c, row, v | c in s.checks && c.table == t && v != Null && PassesCheck(c.cond, row) ::
          PassesCheck(c.cond, WithId(row, v)))
    && (forall u | u in s.uniques && u.table == t && Id !in u.cols :: u.filter == Lit(True))
    && (forall k | k in s.keys && k.parent == t ::
          (exists m | m in k.cols :: m.to == Id) && forall m | m in k.cols :: m.to == Id || m.to == WorkspaceId)
    && (forall k, m | k in s.keys && k.child == t && m in k.cols :: m.from != Id)
  }

  lemma PlainChecksPass(s: Schema, t: Table, c: Check, row: Row, v: Cell)
    requires PlainIdentity(s, t) && c in s.checks && c.table == t && v != Null && PassesCheck(c.cond, row)
    ensures PassesCheck(c.cond, WithId(row, v))
  {
    if c.cond == NotNull(Id) {
      assert Eval(IsNull(Col(Id)), WithId(row, v), NoSession) == False;
    } else {
      Unmentioned(c.cond, row, Id, v, NoSession);
    }
  }

  lemma PlainIdsAreLoose(s: Schema, t: Table)
    requires PlainIdentity(s, t)
    requires forall g | g in s.triggers && g.table == t :: g.trigger.FrozenSnapshot? && Id !in g.trigger.cols
    requires forall u | u in s.uniques && u.table == t && Id !in u.cols :: u.filter == Lit(True)
    requires forall k, m | k in s.keys && k.child == t && m in k.cols :: m.from != Id
    ensures LooseIds(s, t)
  {
    forall c, row, v | c in s.checks && c.table == t && v != Null && PassesCheck(c.cond, row)
      ensures PassesCheck(c.cond, WithId(row, v))
    {
      PlainChecksPass(s, t, c, row, v);
    }
    forall k | k in s.keys && k.parent == t
      ensures (exists m | m in k.cols :: m.to == Id) && forall m | m in k.cols :: m.to == Id || m.to == WorkspaceId
    {
      assert CitesId(k);
    }
  }

  lemma ContentLinkSkipsId(k: ForeignKey)
    requires ContentLink(k)
    ensures forall m | m in k.cols :: m.from != Id
  {
  }

  /** The constraints the migrations put on contents leave its ids loose. */
  lemma ContentIdsAreLoose(s: Schema)
    requires ContentsConstraints(s)
    ensures LooseIds(s, Contents)
  {
    forall k | k in s.keys && k.child == Contents ensures forall m | m in k.cols :: m.from != Id {
      ContentLinkSkipsId(k);
    }
    PlainIdsAreLoose(s, Contents);
  }

  lemma BulkJobFieldsLackId()
    ensures Id !in BulkJobFields
  {
  }

  lemma FrozenSkipsId(s: Schema, t: Table, cols: seq<Column>)
    requires Id !in cols && forall g | g in s.triggers && g.table == t :: g.trigger == FrozenSnapshot(cols)
    ensures forall g | g in s.triggers && g.table == t :: g.trigger.FrozenSnapshot? && Id !in g.trigger.cols
  {
  }

  lemma BulkJobTriggersSkipId(s: Schema)
    requires BulkJobConstraints(s)
    ensures forall g | g in s.triggers && g.table == BulkJobs :: g.trigger.FrozenSnapshot? && Id !in g.trigger.cols
  {
    BulkJobFieldsLackId();
    FrozenSkipsId(s, BulkJobs, BulkJobFields);
  }

  lemma BulkJobLinkSkipsId(k: ForeignKey)
    requires BulkJobLink(k)
    ensures forall m | m in k.cols :: m.from != Id
  {
  }

  lemma BulkJobKeysSkipId(s: Schema)
    requires BulkJobConstraints(s)
    ensures forall u | u in s.uniques && u.table == BulkJobs && Id !in u.cols :: u.filter == Lit(True)
    ensures forall k, m | k in s.keys && k.child == BulkJobs && m in k.cols :: m.from != Id
  {
    forall k | k in s.keys && k.child == BulkJobs ensures forall m | m in k.cols :: m.from != Id {
      BulkJobLinkSkipsId(k);
    }
  }

  /** So do those on bulk_jobs: its frozen columns do not include `id`. */
  lemma BulkJobIdsAreLoose(s: Schema)
    requires BulkJobConstraints(s)
    ensures LooseIds(s, BulkJobs)
  {
    BulkJobTriggersSkipId(s);
    BulkJobKeysSkipId(s);
    PlainIdsAreLoose(s, BulkJobs);
  }

  /** `f` and `g` are rows of one table and workspace, nothing refers to `g`, and `spare` is unused. */
  ghost predicate Free(s: Schema, db: Db, f: Ref, g: Ref, spare: Cell) {
    && f in db && g in db && f != g && f.table == g.table
    && Get(db[f], WorkspaceId) == Get(db[g], WorkspaceId) && Get(db[f], Id) != Null
    && spare != Null && (forall r | r in db && r.table == f.table :: Get(db[r], Id) != spare)
    && Unreferenced(s, db, g)
  }

  ghost predicate Exchangeable(s: Schema, db: Db, f: Ref, g: Ref, spare: Cell) {
    Free(s, db, f, g, spare) && LooseIds(s, f.table)
  }

  /** The UPDATE that renames `f` to `spare` and gives its id to `g`. */
  function Exchange(db: Db, f: Ref, g: Ref, spare: Cell): Db
    requires f in db && g in db
  {
    map[f := WithId(db[f], spare), g := WithId(db[g], Get(db[f], Id))]
  }

  function Exchanged(db: Db, f: Ref, g: Ref, spare: Cell): Db
    requires f in db && g in db
  {
    db + Exchange(db, f, g, spare)
  }

  /** Only the ids of `f` and `g` differ after the exchange. */
  lemma OthersSame(db: Db, f: Ref, g: Ref, spare: Cell, r: Ref, c: Column)
    requires f in db && g in db && f != g && r in db
    ensures c != Id || (r != f && r != g) ==> Get(Exchanged(db, f, g, spare)[r], c) == Get(db[r], c)
    ensures Get(Exchanged(db, f, g, spare)[f], Id) == spare
    ensures Get(Exchanged(db, f, g, spare)[g], Id) == Get(db[f], Id)
  {
  }

  /** No row's own references change. */
  lemma SameReferences(s: Schema, db: Db, f: Ref, g: Ref, spare: Cell, k: ForeignKey, c: Ref, target: Row)
    requires Exchangeable(s, db, f, g, spare) && k in s.keys && c in db && k.child == c.table
    ensures Refers(k, Exchanged(db, f, g, spare)[c], target) <==> Refers(k, db[c], target)
    ensures Complete(k, Exchanged(db, f, g, spare)[c]) <==> Complete(k, db[c])
  {
    forall m | m in k.cols ensures Get(Exchanged(db, f, g, spare)[c], m.from) == Get(db[c], m.from) {
      OthersSame(db, f, g, spare, c, m.from);
    }
  }

  /** Whoever had a parent has one after the exchange: `g` instead of `f`. */
  lemma ParentsRemain(s: Schema, db: Db, f: Ref, g: Ref, spare: Cell, k: ForeignKey, c: Ref)
    requires Exchangeable(s, db, f, g, spare) && k in s.keys && c in db && k.child == c.table && HasParent(k, db, db[c])
    ensures HasParent(k, Exchanged(db, f, g, spare), Exchanged(db, f, g, spare)[c])
  {
    var after := Exchanged(db, f, g, spare);
    var p :| p in db && p.table == k.parent && Refers(k, db[c], db[p]);
    assert Holds(k, db, c, p);
    var q := if p == f then g else p;
    forall m | m in k.cols ensures Get(after[q], m.to) == Get(db[p], m.to) {
      OthersSame(db, f, g, spare, q, m.to);
    }
    SameReferences(s, db, f, g, spare, k, c, after[q]);
    assert Refers(k, db[c], after[q]);
  }

  lemma KeysRemain(s: Schema, db: Db, f: Ref, g: Ref, spare: Cell, k: ForeignKey)
    requires Exchangeable(s, db, f, g, spare) && k in s.keys && KeyIntact(k, db)
    ensures KeyIntact(k, Exchanged(db, f, g, spare))
  {
    var after := Exchanged(db, f, g, spare);
    forall c | c in after && c.table == k.child ensures KeyHolds(k, after, after[c]) {
      SameReferences(s, db, f, g, spare, k, c, db[c]);
      assert KeyHolds(k, db, db[c]);
      if Complete(k, db[c]) {
        ParentsRemain(s, db, f, g, spare, k, c);
      }
    }
  }

  lemma NoNewClash(s: Schema, db: Db, f: Ref, g: Ref, spare: Cell, u: Unique, r: Ref, q: Ref)
    requires Exchangeable(s, db, f, g, spare) && u in s.uniques && r in db && q in db
    requires r.table == u.table && q.table == u.table && (u.table != f.table || Id !in u.cols)
    requires !Clash(u, db[r], db[q])
    ensures !Clash(u, Exchanged(db, f, g, spare)[r], Exchanged(db, f, g, spare)[q])
  {
    var after := Exchanged(db, f, g, spare);
    forall c | c in u.cols ensures Get(after[r], c) == Get(db[r], c) && Get(after[q], c) == Get(db[q], c)
    {
      OthersSame(db, f, g, spare, r, c);
      OthersSame(db, f, g, spare, q, c);
    }
  }

  lemma UniqueRemains(s: Schema, db: Db, f: Ref, g: Ref, spare: Cell, u: Unique)
    requires Exchangeable(s, db, f, g, spare) && UniquesHold(s, db) && u in s.uniques
    ensures UniqueHolds(u, Exchanged(db, f, g, spare))
  {
    var after := Exchanged(db, f, g, spare);
    forall r, q | r in after && q in after && r != q && r.table == u.table && q.table == u.table
      ensures !Clash(u, after[r], after[q])
    {
      if u.table == f.table && Id in u.cols {
        IdsDiffer(s, db, f, g, spare, r, q);
      } else {
        assert UniqueHolds(u, db);
        NoNewClash(s, db, f, g, spare, u, r, q);
      }
    }
  }

  lemma IdsDiffer(s: Schema, db: Db, f: Ref, g: Ref, spare: Cell, r: Ref, q: Ref)
    requires Exchangeable(s, db, f, g, spare) && UniquesHold(s, db)
    requires r in db && q in db && r != q && r.table == f.table && q.table == f.table
    ensures var after := Exchanged(db, f, g, spare);
            Get(after[r], Id) == Null || Get(after[r], Id) != Get(after[q], Id)
  {
    var u := Plain(f.table, {Id});
    assert UniqueHolds(u, db);
    var x, y := if r == g then f else r, if q == g then f else q;
    OthersSame(db, f, g, spare, r, Id);
    OthersSame(db, f, g, spare, q, Id);
    assert x != y ==> !Clash(u, db[x], db[y]);
  }

  /** Row by row: after `f` is renamed and before `g` gets its id, every unique key holds. */
  lemma RenamedIsUnique(s: Schema, db: Db, f: Ref, g: Ref, spare: Cell)
    requires Exchangeable(s, db, f, g, spare) && UniquesHold(s, db)
    ensures UniquesHold(s, db[f := WithId(db[f], spare)])
  {
    var mid := db[f := WithId(db[f], spare)];
    forall u, r, q | u in s.uniques && r in mid && q in mid && r != q && r.table == u.table && q.table == u.table
      ensures !Clash(u, mid[r], mid[q])
    {
      assert UniqueHolds(u, db) && !Clash(u, db[r], db[q]);
      if u.table == f.table && Id in u.cols {
        assert r == f || q == f ==> Get(mid[r], Id) != Get(mid[q], Id);
      }
    }
  }

  // ---------- the UPDATE and the DELETE execute ----------

  lemma ExchangedRowsPass(s: Schema, db: Db, f: Ref, g: Ref, spare: Cell)
    requires Exchangeable(s, db, f, g, spare) && RowsChecked(s, db)
    ensures TriggersAccept(s, db, Exchange(db, f, g, spare)) && RowsChecked(s, Exchange(db, f, g, spare))
  {
    forall r, v | r in {f, g} && v != Null
      ensures RowChecked(s, r.table, WithId(db[r], v)) && UpdateAccepted(s, r.table, db[r], WithId(db[r], v))
    {
      assert RowChecked(s, r.table, db[r]);
    }
  }

  lemma ExchangeExecutes(s: Schema, db: Db, f: Ref, g: Ref, spare: Cell)
    requires Exchangeable(s, db, f, g, spare) && Sound(s, db)
    ensures Executes(s, db, Update(Exchange(db, f, g, spare)), Exchanged(db, f, g, spare))
    ensures UniquesHold(s, db[f := WithId(db[f], spare)])
  {
    RenamedIsUnique(s, db, f, g, spare);
    var changes, after := Exchange(db, f, g, spare), Exchanged(db, f, g, spare);
    ExchangedRowsPass(s, db, f, g, spare);
    forall u | u in s.uniques ensures UniqueHolds(u, after) {
      UniqueRemains(s, db, f, g, spare, u);
    }
    forall k | k in s.keys && k.deferred == false ensures KeyIntact(k, after) {
      KeysRemain(s, db, f, g, spare, k);
    }
    TouchedHold(s, changes, after);
    IntactIsNoAction(s, db, changes.Keys, after);
  }

  /** Nothing refers to the unused id. */
  lemma NothingRefers(s: Schema, db: Db, f: Ref, g: Ref, spare: Cell, k: ForeignKey, c: Ref)
    requires Exchangeable(s, db, f, g, spare) && k in s.keys && KeyIntact(k, db) && c in db
    ensures !Holds(k, Exchanged(db, f, g, spare), c, f)
  {
    var after := Exchanged(db, f, g, spare);
    if Holds(k, after, c, f) {
      SameReferences(s, db, f, g, spare, k, c, after[f]);
      assert KeyHolds(k, db, db[c]);
      var p :| p in db && p.table == k.parent && Refers(k, db[c], db[p]);
      var m :| m in k.cols && m.to == Id;
      OthersSame(db, f, g, spare, f, Id);
      assert false;
    }
  }

  ghost predicate Unreferenced(s: Schema, db: Db, r: Ref)
    requires r in db
  {
    forall k, c | k in s.keys && c in db :: !Holds(k, db, c, r)
  }

  lemma UnreferencedAlone(s: Schema, db: Db, r: Ref)
    requires r in db && Unreferenced(s, db, r)
    ensures Closure(s, db, {r}) == {r} && !Restricted(s, db, {r})
  {
    forall c | c in db ensures !CascadeEdge(s, db, r, c) {
      assert forall k | k in s.keys :: !Holds(k, db, c, r);
    }
    LoneRow(s, db, r);
  }

  lemma OneDeletable(s: Schema, db: Db, r: Ref)
    requires r in db && !DeleteGuarded(s, r.table) && !Restricted(s, db, {r})
    ensures Deletable(s, db, {r})
  {
  }

  /** A row that nothing refers to and no trigger guards is deleted alone. */
  lemma LoneDelete(s: Schema, db: Db, r: Ref)
    requires r in db && !DeleteGuarded(s, r.table) && Unreferenced(s, db, r)
    ensures Executes(s, db, Delete({r}), db - {r}) && Closure(s, db, {r}) == {r}
  {
    UnreferencedAlone(s, db, r);
    OneDeletable(s, db, r);
    DeletesDoomed(s, db, {r}, {r});
  }

  ghost predicate AllIntact(s: Schema, db: Db) { forall k | k in s.keys :: KeyIntact(k, db) }

  lemma ExchangeThenDelete(s: Schema, db: Db, f: Ref, g: Ref, spare: Cell)
    requires Exchangeable(s, db, f, g, spare) && Sound(s, db) && AllIntact(s, db)
    ensures var after := Exchanged(db, f, g, spare);
            Executes(s, after, Delete({f}), after - {f}) && KeysIntact(s, after - {f}, true)
  {
    var after := Exchanged(db, f, g, spare);
    forall k, c | k in s.keys && c in after ensures !Holds(k, after, c, f) {
      NothingRefers(s, db, f, g, spare, k, c);
    }
    LoneDelete(s, after, f);
    forall k | k in s.keys && k.deferred ensures KeyIntact(k, after - {f}) {
      KeysRemain(s, db, f, g, spare, k);
      DeleteKeepsKeys(s, after, {f}, k);
    }
  }

  // ---------- in every run ----------

  /** UPDATE, DELETE, COMMIT. */
  function Continued(trace: seq<State>, x: Db, y: Db, z: Db): seq<State> {
    trace + [State(x, y), State(x, z), State(z, z)]
  }

  lemma RunContinues(s: Schema, trace: seq<State>, x: Db, y: Db, z: Db, moved: Statement, deleted: Statement)
    requires Run(s, trace) && trace[|trace|-1] == State(x, x)
    requires Executes(s, x, moved, y) && Executes(s, y, deleted, z) && KeysIntact(s, z, true)
    ensures Run(s, Continued(trace, x, y, z))
  {
    var longer, n := Continued(trace, x, y, z), |trace|;
    forall i: nat | 0 < i < |longer| ensures StepAt(s, longer, i) {
      if i < n {
        assert StepAt(s, trace, i);
      } else {
        assert longer[n-1] == State(x, x) && longer[n] == State(x, y) && longer[n+1] == State(x, z);
      }
    }
  }

  lemma CommittedIsIntact(s: Schema, trace: seq<State>, db: Db)
    requires Run(s, trace) && trace[|trace|-1] == State(db, db)
    ensures Sound(s, db) && AllIntact(s, db)
  {
    RunIsSound(s, trace, |trace| - 1);
  }

  lemma KeyIsOnOther(s: Schema, db: Db, f: Ref, g: Ref, spare: Cell)
    requires Exchangeable(s, db, f, g, spare)
    ensures var z := Exchanged(db, f, g, spare) - {f};
            f !in z && Bears(z, g, f.table, Identity(Get(db[f], WorkspaceId), Get(db[f], Id)))
  {
    OthersSame(db, f, g, spare, g, WorkspaceId);
  }

  lemma ExchangeRuns(s: Schema, trace: seq<State>, db: Db, f: Ref, g: Ref, spare: Cell)
    requires Run(s, trace) && trace[|trace|-1] == State(db, db) && Exchangeable(s, db, f, g, spare)
    ensures var y := Exchanged(db, f, g, spare);
            Run(s, Continued(trace, db, y, y - {f}))
  {
    var y := Exchanged(db, f, g, spare);
    CommittedIsIntact(s, trace, db);
    ExchangeExecutes(s, db, f, g, spare);
    ExchangeThenDelete(s, db, f, g, spare);
    RunContinues(s, trace, db, y, y - {f}, Update(Exchange(db, f, g, spare)), Delete({f}));
  }

  /** Every run that has just committed can go on to lose the row `f`: one UPDATE renames it and gives
      its key to `g`, one DELETE removes it, and the COMMIT succeeds. The key itself lives on. This
      needs only another row of the workspace that nothing refers to, and holds for pinned keys. */
  lemma KeyCanMove(s: Schema, trace: seq<State>, db: Db, f: Ref, g: Ref, spare: Cell)
    returns (z: Db, longer: seq<State>)
    requires Run(s, trace) && trace[|trace|-1] == State(db, db) && Exchangeable(s, db, f, g, spare)
    ensures trace <= longer && Run(s, longer) && longer[|longer|-1] == State(z, z)
    ensures f !in z && Bears(z, g, f.table, Identity(Get(db[f], WorkspaceId), Get(db[f], Id)))
  {
    var y := Exchanged(db, f, g, spare);
    z := y - {f};
    longer := Continued(trace, db, y, z);
    ExchangeRuns(s, trace, db, f, g, spare);
    KeyIsOnOther(s, db, f, g, spare);
  }

  // ---------- marked contents and attempted bulk jobs ----------

  /** `key` is pinned and on row `f` in the committed `db`, and the run goes on to a committed `z` in
      which `f` is gone and `g` bears the key. */
  ghost predicate Goes(s: Schema, trace: seq<State>, db: Db, f: Ref, g: Ref, key: Fact, n: nat, z: Db,
                       longer: seq<State>)
  {
    && Pinned(s, db, f.table, key, n) && Bears(db, f, f.table, key)
    && trace <= longer && Run(s, longer) && longer[|longer|-1] == State(z, z)
    && f !in z && Bears(z, g, f.table, key)
  }

  lemma PinnedRowCanGo(s: Schema, trace: seq<State>, db: Db, f: Ref, g: Ref, spare: Cell, n: nat)
    returns (z: Db, longer: seq<State>)
    requires Run(s, trace) && trace[|trace|-1] == State(db, db) && Exchangeable(s, db, f, g, spare)
    requires Pinned(s, db, f.table, Identity(Get(db[f], WorkspaceId), Get(db[f], Id)), n)
    ensures Goes(s, trace, db, f, g, Identity(Get(db[f], WorkspaceId), Get(db[f], Id)), n, z, longer)
  {
    z, longer := KeyCanMove(s, trace, db, f, g, spare);
  }

  /** From every committed state: the row of a content that a marker names can be deleted, though its
      key is pinned, if the workspace has another content that nothing refers to. */
  lemma MarkedContentCanGo(s: Schema, trace: seq<State>, db: Db, m: Ref, f: Ref, g: Ref, spare: Cell)
    returns (z: Db, longer: seq<State>)
    requires MarkerConstraints(s) && ContentsConstraints(s) && Run(s, trace) && trace[|trace|-1] == State(db, db)
    requires Free(s, db, f, g, spare) && f.table == Contents && m in db && m.table == ContentLibraryMarkers
    requires Refers(MarkerContent, db[m], db[f])
    ensures Goes(s, trace, db, f, g, Identity(Get(db[f], WorkspaceId), Get(db[f], Id)), 1, z, longer)
  {
    CommittedIsIntact(s, trace, db);
    ContentIdsAreLoose(s);
    MarkerPins(s, db, m);
    assert Pair(WorkspaceId, WorkspaceId) in MarkerContent.cols && Pair(ContentId, Id) in MarkerContent.cols;
    z, longer := PinnedRowCanGo(s, trace, db, f, g, spare, 1);
  }

  /** So can the row of a bulk job with a row attempt. */
  lemma AttemptedJobCanGo(s: Schema, trace: seq<State>, db: Db, r: Ref, f: Ref, g: Ref, spare: Cell)
    returns (z: Db, longer: seq<State>)
    requires AttemptConstraints(s) && BulkJobConstraints(s) && Run(s, trace) && trace[|trace|-1] == State(db, db)
    requires Free(s, db, f, g, spare) && f.table == BulkJobs && r in db && r.table == BulkRowAttempts
    requires Get(db[r], WorkspaceId) == Get(db[f], WorkspaceId) && Get(db[r], JobId) == Get(db[f], Id)
    ensures Goes(s, trace, db, f, g, Identity(Get(db[f], WorkspaceId), Get(db[f], Id)), 2, z, longer)
  {
    CommittedIsIntact(s, trace, db);
    BulkJobIdsAreLoose(s);
    AttemptPins(s, db, r);
    z, longer := PinnedRowCanGo(s, trace, db, f, g, spare, 2);
  }
}
