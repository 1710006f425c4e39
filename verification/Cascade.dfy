/** The rows an ON DELETE CASCADE takes with it, on any stored graph. */
module Cascades {
  import opened Schemas

  predicate CascadeEdge(s: Schema, db: Db, p: Ref, c: Ref)
    requires p in db && c in db
  {
    exists k | k in s.keys ::
      k.onDelete == Cascade && k.parent == p.table && k.child == c.table && Refers(k, db[c], db[p])
  }

  ghost predicate IsPath(s: Schema, db: Db, path: seq<Ref>) {
    && |path| > 0
    && (forall i | 0 <= i < |path| :: path[i] in db)
    && (forall i | 0 < i < |path| :: CascadeEdge(s, db, path[i-1], path[i]))
  }

  ghost predicate Reaches(s: Schema, db: Db, roots: set<Ref>, r: Ref) {
    exists path :: IsPath(s, db, path) && path[0] in roots && path[|path|-1] == r
  }

  /** The rows reachable from `roots` along CASCADE references. */
  ghost function Closure(s: Schema, db: Db, roots: set<Ref>): set<Ref> {
    set r | r in db && Reaches(s, db, roots, r)
  }

  ghost predicate Closed(s: Schema, db: Db, rows: set<Ref>) {
    forall p, c | p in rows && p in db && c in db && CascadeEdge(s, db, p, c) :: c in rows
  }

  lemma RootsReached(s: Schema, db: Db, roots: set<Ref>)
    requires roots <= db.Keys
    ensures roots <= Closure(s, db, roots)
  {
    forall r | r in roots ensures Reaches(s, db, roots, r) {
      assert IsPath(s, db, [r]);
    }
  }

  lemma ReachesStep(s: Schema, db: Db, roots: set<Ref>, p: Ref, c: Ref)
    requires Reaches(s, db, roots, p) && p in db && c in db && CascadeEdge(s, db, p, c)
    ensures Reaches(s, db, roots, c)
  {
    var path :| IsPath(s, db, path) && path[0] in roots && path[|path|-1] == p;
    var longer := path + [c];
    assert IsPath(s, db, longer);
    assert longer[0] in roots && longer[|longer|-1] == c;
  }

  lemma ClosureIsClosed(s: Schema, db: Db, roots: set<Ref>)
    ensures Closed(s, db, Closure(s, db, roots))
  {
    forall p, c | p in Closure(s, db, roots) && p in db && c in db && CascadeEdge(s, db, p, c)
      ensures c in Closure(s, db, roots)
    {
      ReachesStep(s, db, roots, p, c);
    }
  }

  /** A path that starts in a closed set stays in it. */
  lemma {:induction false} PathStays(s: Schema, db: Db, rows: set<Ref>, path: seq<Ref>, n: nat)
    requires Closed(s, db, rows) && IsPath(s, db, path) && path[0] in rows && n < |path|
    ensures path[n] in rows
  {
    if n > 0 {
      PathStays(s, db, rows, path, n - 1);
      assert CascadeEdge(s, db, path[n-1], path[n]);
    }
  }

  /** The closure is the least closed set that contains the roots. */
  lemma ClosureIsLeast(s: Schema, db: Db, roots: set<Ref>, rows: set<Ref>)
    requires roots <= rows && Closed(s, db, rows)
    ensures Closure(s, db, roots) <= rows
  {
    forall r | r in Closure(s, db, roots) ensures r in rows {
      var path :| IsPath(s, db, path) && path[0] in roots && path[|path|-1] == r;
      PathStays(s, db, rows, path, |path| - 1);
    }
  }

  /** A row without CASCADE children goes alone. */
  lemma LoneRow(s: Schema, db: Db, p: Ref)
    requires p in db && forall c | c in db :: !CascadeEdge(s, db, p, c)
    ensures Closure(s, db, {p}) == {p}
  {
    RootsReached(s, db, {p});
    ClosureIsLeast(s, db, {p}, {p});
  }

  // ---------- cascades within a part of the database ----------

  predicate PartOf(part: Db, db: Db) {
    part.Keys <= db.Keys && forall r | r in part :: part[r] == db[r]
  }

  lemma PartInWhole(s: Schema, db: Db, part: Db, roots: set<Ref>)
    requires PartOf(part, db) && roots <= part.Keys
    ensures Closure(s, part, roots) <= Closure(s, db, roots)
  {
  }

  lemma WholeInPart(s: Schema, db: Db, part: Db, roots: set<Ref>)
    requires PartOf(part, db) && Closed(s, db, part.Keys) && roots <= part.Keys
    ensures Closure(s, db, roots) <= Closure(s, part, roots)
  {
    var local := Closure(s, part, roots);
    RootsReached(s, part, roots);
    ClosureIsClosed(s, part, roots);
    forall p, c | p in local && p in db && c in db && CascadeEdge(s, db, p, c) ensures c in local {
      assert CascadeEdge(s, part, p, c);
    }
    ClosureIsLeast(s, db, roots, local);
  }

  /** Inside a part that CASCADE references do not leave, the cascade is the part's own. */
  lemma ClosureOfPart(s: Schema, db: Db, part: Db, roots: set<Ref>)
    requires PartOf(part, db) && Closed(s, db, part.Keys) && roots <= part.Keys
    ensures Closure(s, db, roots) == Closure(s, part, roots)
    ensures Closure(s, db, roots) <= part.Keys
  {
    PartInWhole(s, db, part, roots);
    WholeInPart(s, db, part, roots);
  }

  // ---------- permitted deletes ----------

  /** `c` holds key `k` to `p`. */
  predicate Holds(k: ForeignKey, db: Db, c: Ref, p: Ref)
    requires c in db && p in db
  {
    k.child == c.table && k.parent == p.table && Refers(k, db[c], db[p])
  }

  /** A RESTRICT reference from a row that stays to a row that goes. */
  predicate Restricted(s: Schema, db: Db, doomed: set<Ref>)
    requires doomed <= db.Keys
  {
    exists k, c, p | k in s.keys && c in db && p in doomed ::
      k.onDelete == Restrict && c !in doomed && Holds(k, db, c, p)
  }

  /** Deleting `doomed` raises no trigger and violates no RESTRICT. */
  predicate Deletable(s: Schema, db: Db, doomed: set<Ref>)
    requires doomed <= db.Keys
  {
    (forall r | r in doomed :: !DeleteGuarded(s, r.table)) && !Restricted(s, db, doomed)
  }

  /** No row that survives a permitted delete refers to a removed row, by any key. */
  lemma NothingDangles(s: Schema, db: Db, roots: set<Ref>, k: ForeignKey, c: Ref, p: Ref)
    requires Deletable(s, db, Closure(s, db, roots))
    requires k in s.keys && c in db && c !in Closure(s, db, roots) && p in Closure(s, db, roots)
    ensures !Holds(k, db, c, p)
  {
    if Holds(k, db, c, p) {
      if k.onDelete == Cascade {
        ClosureIsClosed(s, db, roots);
        assert CascadeEdge(s, db, p, c);
      }
      assert false;
    }
  }

  // ---------- the cascade as a worklist ----------

  predicate Raises(s: Schema, rows: set<Ref>) {
    exists r | r in rows :: DeleteGuarded(s, r.table)
  }

  /** Every row of `done` is followed: its CASCADE children are in `doomed`. */
  ghost predicate Followed(s: Schema, db: Db, done: set<Ref>, doomed: set<Ref>) {
    forall p, c | p in done && p in db && c in db && CascadeEdge(s, db, p, c) :: c in doomed
  }

  function Children(s: Schema, db: Db, p: Ref): set<Ref>
    requires p in db
  {
    set c | c in db && CascadeEdge(s, db, p, c)
  }

  lemma FollowOne(s: Schema, db: Db, done: set<Ref>, doomed: set<Ref>, p: Ref)
    requires p in db && Followed(s, db, done, doomed)
    ensures Followed(s, db, done + {p}, doomed + Children(s, db, p))
  {
  }

  /** The worklist runs over rows, so it ends on every stored graph, cycles included.
      A guarded row met on the way raises at once. */
  method Doom(s: Schema, db: Db, roots: set<Ref>) returns (doomed: set<Ref>, raised: bool)
    requires roots <= db.Keys
    ensures doomed <= db.Keys
    ensures raised <==> Raises(s, Closure(s, db, roots))
    ensures !raised ==> doomed == Closure(s, db, roots)
  {
    doomed, raised := roots, false;
    var done: set<Ref> := {};
    RootsReached(s, db, roots);
    ClosureIsClosed(s, db, roots);
    ghost var closure := Closure(s, db, roots);
    while done != doomed
      invariant roots <= doomed && done <= doomed <= closure
      invariant closure <= db.Keys && Closed(s, db, closure)
      invariant !Raises(s, done)
      invariant Followed(s, db, done, doomed)
      decreases db.Keys - done
    {
      assert doomed - done != {};
      var p :| p in doomed - done;
      if DeleteGuarded(s, p.table) {
        raised := true;
        return;
      }
      FollowOne(s, db, done, doomed, p);
      doomed, done := doomed + Children(s, db, p), done + {p};
    }
    ClosureIsLeast(s, db, roots, doomed);
  }
}
