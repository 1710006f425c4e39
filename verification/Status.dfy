/** `app.public_operations_status()`: the public status page. */
module Status {

  datatype Option<+T> = None | Some(value: T)

  /** `key` stands for component_key by its place in the database's text order. */
  datatype Component = Component(id: nat, key: int, name: string, public: bool, enabled: bool)

  datatype Observation = Observation(id: nat, component: nat, status: string, checkedAt: int, validUntil: int)

  datatype StatusRow =
    StatusRow(key: int, name: string, status: string, checkedAt: Option<int>, validUntil: Option<int>)

  // ---------- specification ----------

  predicate Listed(c: Component) { c.public && c.enabled }

  predicate Current(o: Observation, c: Component, now: int) {
    o.component == c.id && o.validUntil > now
  }

  /** `ORDER BY checked_at DESC, id DESC`. */
  predicate Later(a: Observation, b: Observation) {
    a.checkedAt > b.checkedAt || (a.checkedAt == b.checkedAt && a.id > b.id)
  }

  ghost predicate IsLatest(obs: set<Observation>, c: Component, now: int, o: Observation) {
    o in obs && Current(o, c, now) && forall p | p in obs && Current(p, c, now) && p != o :: Later(o, p)
  }

  ghost predicate NoneCurrent(obs: set<Observation>, c: Component, now: int) {
    forall o | o in obs :: !Current(o, c, now)
  }

  function RowOf(c: Component, o: Option<Observation>): StatusRow {
    match o
    case None => StatusRow(c.key, c.name, "UNKNOWN", None, None)
    case Some(x) => StatusRow(c.key, c.name, x.status, Some(x.checkedAt), Some(x.validUntil))
  }

  /** The row of component `c`: its latest current observation, or UNKNOWN. */
  ghost function Expected(obs: set<Observation>, c: Component, now: int): StatusRow {
    if exists o :: IsLatest(obs, c, now, o) then
      var o :| IsLatest(obs, c, now, o); RowOf(c, Some(o))
    else RowOf(c, None)
  }

  ghost function Rows(components: set<Component>, obs: set<Observation>, now: int): set<StatusRow> {
    set c | c in components && Listed(c) :: Expected(obs, c, now)
  }

  predicate StrictlyOrdered(out: seq<StatusRow>) {
    forall i, j | 0 <= i < j < |out| :: out[i].key < out[j].key
  }

  /** One row per public enabled component, strictly ordered by key. */
  ghost predicate Reports(components: set<Component>, obs: set<Observation>, now: int, out: seq<StatusRow>) {
    StrictlyOrdered(out) && All(out) == Rows(components, obs, now)
  }

  /** UNIQUE (component_key) and the primary key of observations. */
  predicate Stored(components: seq<Component>, obs: seq<Observation>) {
    && (forall i, j | 0 <= i < j < |components| :: components[i].key != components[j].key)
    && (forall i, j | 0 <= i < j < |obs| :: obs[i].id != obs[j].id)
  }

  ghost function All<T>(xs: seq<T>): set<T> { set x | x in xs }

  // ---------- the scan ----------

  method Latest(obs: seq<Observation>, c: Component, now: int) returns (best: Option<Observation>)
    requires forall i, j | 0 <= i < j < |obs| :: obs[i].id != obs[j].id
    ensures best.None? ==> NoneCurrent(All(obs), c, now)
    ensures best.Some? ==> IsLatest(All(obs), c, now, best.value)
  {
    best := None;
    for n := 0 to |obs|
      invariant best.None? ==> forall i | 0 <= i < n :: !Current(obs[i], c, now)
      invariant best.Some? ==> best.value in obs[..n] && Current(best.value, c, now)
      invariant best.Some? ==>
                  forall i | 0 <= i < n && Current(obs[i], c, now) && obs[i] != best.value :: Later(best.value, obs[i])
    {
      if Current(obs[n], c, now) && (best.None? || Later(obs[n], best.value)) {
        best := Some(obs[n]);
      }
    }
  }

  function InsertByKey(out: seq<StatusRow>, row: StatusRow): (r: seq<StatusRow>)
    ensures |r| == |out| + 1
    ensures forall x :: x in r <==> x == row || x in out
  {
    if out == [] || row.key < out[0].key then [row] + out
    else
      var rest := InsertByKey(out[1..], row);
      assert out == [out[0]] + out[1..];
      [out[0]] + rest
  }

  lemma {:induction false} InsertOrders(out: seq<StatusRow>, row: StatusRow)
    requires StrictlyOrdered(out) && forall x | x in out :: x.key != row.key
    ensures StrictlyOrdered(InsertByKey(out, row))
  {
    if out != [] && row.key >= out[0].key {
      InsertOrders(out[1..], row);
      var rest := InsertByKey(out[1..], row);
      forall x | x in rest ensures out[0].key < x.key {
        if x != row {
          var i :| 0 <= i < |out[1..]| && out[1..][i] == x;
          assert out[0].key < out[i+1].key;
        }
      }
    }
  }

  lemma OneMoreComponent(components: set<Component>, obs: set<Observation>, now: int, c: Component)
    ensures Rows(components + {c}, obs, now)
         == Rows(components, obs, now) + (if Listed(c) then {Expected(obs, c, now)} else {})
  {
  }

  lemma NewKey(components: set<Component>, obs: set<Observation>, now: int, key: int)
    requires forall d | d in components :: d.key != key
    ensures forall row | row in Rows(components, obs, now) :: row.key != key
  {
  }

  // ---------- the page, column by column ----------

  /** `o` is an unexpired observation of the component, and every other one was checked before it, or at
      the same time under a smaller id. */
  ghost predicate Decides(o: Observation, component: nat, obs: seq<Observation>, now: int) {
    && o in obs && o.component == component && o.validUntil > now
    && forall p | p in obs && p.component == component && p.validUntil > now && p != o ::
         p.checkedAt < o.checkedAt || (p.checkedAt == o.checkedAt && p.id < o.id)
  }

  /** The row shows the component's key and name, with the status and times of the observation that
      decides, or UNKNOWN and no times if all are expired. */
  ghost predicate Shows(row: StatusRow, c: Component, obs: seq<Observation>, now: int) {
    && row.key == c.key && row.name == c.name
    && (|| (exists o :: && Decides(o, c.id, obs, now) && row.status == o.status
                        && row.checkedAt == Some(o.checkedAt) && row.validUntil == Some(o.validUntil))
        || (&& (forall o | o in obs && o.component == c.id :: o.validUntil <= now)
            && row.status == "UNKNOWN" && row.checkedAt == None && row.validUntil == None))
  }

  lemma ExpectedShows(obs: seq<Observation>, c: Component, now: int)
    requires DistinctIds(All(obs))
    ensures Shows(Expected(All(obs), c, now), c, obs, now)
  {
    var best := SomeLatest(All(obs), c, now);
    LatestIsExpected(All(obs), c, now, best);
    if best.Some? {
      assert Decides(best.value, c.id, obs, now);
    } else {
      forall o | o in obs && o.component == c.id ensures o.validUntil <= now {
        assert o in All(obs) && !Current(o, c, now);
      }
    }
  }

  lemma ReportShows(components: seq<Component>, obs: seq<Observation>, now: int, out: seq<StatusRow>)
    requires Reports(All(components), All(obs), now, out) && DistinctIds(All(obs))
    ensures forall c | c in components && c.public && c.enabled :: exists row :: row in out && Shows(row, c, obs, now)
    ensures forall row | row in out :: exists c :: c in components && c.public && c.enabled && Shows(row, c, obs, now)
  {
    forall c | c in components && c.public && c.enabled ensures exists row :: row in out && Shows(row, c, obs, now) {
      var row := Expected(All(obs), c, now);
      assert c in All(components) && row in Rows(All(components), All(obs), now);
      assert row in All(out);
      ExpectedShows(obs, c, now);
    }
    forall row | row in out
      ensures exists c :: c in components && c.public && c.enabled && Shows(row, c, obs, now)
    {
      assert row in All(out);
      var c :| c in All(components) && Listed(c) && row == Expected(All(obs), c, now);
      ExpectedShows(obs, c, now);
    }
  }

  /** The query computed by scanning the tables in storage order refines its specification: one row per
      public enabled component and no other, in strictly ascending order of key. */
  method PublicStatus(components: seq<Component>, obs: seq<Observation>, now: int) returns (out: seq<StatusRow>)
    requires Stored(components, obs)
    ensures Reports(All(components), All(obs), now, out)
    ensures forall i, j | 0 <= i < j < |out| :: out[i].key < out[j].key
    ensures forall c | c in components && c.public && c.enabled :: exists row :: row in out && Shows(row, c, obs, now)
    ensures forall row | row in out :: exists c :: c in components && c.public && c.enabled && Shows(row, c, obs, now)
  {
    out := [];
    for n := 0 to |components|
      invariant Reports(All(components[..n]), All(obs), now, out)
    {
      var c := components[n];
      assert All(components[..n+1]) == All(components[..n]) + {c};
      OneMoreComponent(All(components[..n]), All(obs), now, c);
      if Listed(c) {
        var best := Latest(obs, c, now);
        var row := RowOf(c, best);
        LatestIsExpected(All(obs), c, now, best);
        NewKey(All(components[..n]), All(obs), now, c.key);
        assert forall x | x in out :: x in All(out);
        InsertOrders(out, row);
        out := InsertByKey(out, row);
      }
    }
    assert components[..|components|] == components;
    ReportShows(components, obs, now, out);
  }

  lemma LatestIsExpected(obs: set<Observation>, c: Component, now: int, best: Option<Observation>)
    requires best.None? ==> NoneCurrent(obs, c, now)
    requires best.Some? ==> IsLatest(obs, c, now, best.value)
    ensures Expected(obs, c, now) == RowOf(c, best)
  {
  }

  // ---------- the specification determines the answer ----------

  lemma {:induction false} OrderedListsEqual(a: seq<StatusRow>, b: seq<StatusRow>)
    requires StrictlyOrdered(a) && StrictlyOrdered(b)
    requires forall x :: x in a <==> x in b
    ensures a == b
  {
    assert a != [] ==> a[0] in a;
    assert b != [] ==> b[0] in b;
    if a != [] && b != [] {
      assert a[0] == b[0];
      forall x ensures x in a[1..] <==> x in b[1..] {
        TailMembers(a, x);
        TailMembers(b, x);
      }
      OrderedListsEqual(a[1..], b[1..]);
      assert a == [a[0]] + a[1..] && b == [b[0]] + b[1..];
    }
  }

  lemma TailMembers(a: seq<StatusRow>, x: StatusRow)
    requires StrictlyOrdered(a) && a != []
    ensures x in a[1..] <==> x in a && x != a[0]
  {
  }

  /** Two answers that meet the specification are the same: the result does not depend on the order
      the tables are stored in. */
  lemma ReportIsUnique(components: set<Component>, obs: set<Observation>, now: int, a: seq<StatusRow>,
                       b: seq<StatusRow>)
    requires Reports(components, obs, now, a) && Reports(components, obs, now, b)
    ensures a == b
  {
    assert forall x :: (x in a <==> x in All(a)) && (x in b <==> x in All(b));
    OrderedListsEqual(a, b);
  }

  // ---------- status over time ----------

  /** Stored observations have distinct ids. */
  ghost predicate DistinctIds(obs: set<Observation>) {
    forall o, p | o in obs && p in obs && o != p :: o.id != p.id
  }

  /** Among current observations one is latest. */
  lemma {:induction false} SomeLatest(obs: set<Observation>, c: Component, now: int) returns (best: Option<Observation>)
    requires DistinctIds(obs)
    ensures best.None? ==> NoneCurrent(obs, c, now)
    ensures best.Some? ==> IsLatest(obs, c, now, best.value)
    decreases obs
  {
    if obs == {} {
      best := None;
    } else {
      var o :| o in obs;
      best := SomeLatest(obs - {o}, c, now);
      if Current(o, c, now) && (best.None? || Later(o, best.value)) {
        best := Some(o);
      }
    }
  }

  /** With the observations unchanged, as the clock advances a component's checked_at never
      increases, and once no observation is valid it reports UNKNOWN for good. */
  lemma StatusAges(obs: set<Observation>, c: Component, t: int, u: int)
    requires t <= u && DistinctIds(obs)
    ensures var early, late := Expected(obs, c, t), Expected(obs, c, u);
            && (late.checkedAt.Some? ==> early.checkedAt.Some? && early.checkedAt.value >= late.checkedAt.value)
            && (NoneCurrent(obs, c, t) ==> late == RowOf(c, None))
  {
    var early := SomeLatest(obs, c, t);
    var late := SomeLatest(obs, c, u);
    LatestIsExpected(obs, c, t, early);
    LatestIsExpected(obs, c, u, late);
    if late.Some? {
      assert Current(late.value, c, t);
    }
  }

  /** A component without a valid observation reports something again only through an observation
      inserted since. */
  lemma UnknownUntilObserved(obs: set<Observation>, more: set<Observation>, c: Component, t: int, u: int)
    requires t <= u && obs <= more && DistinctIds(more) && NoneCurrent(obs, c, t)
    ensures Expected(more, c, u).checkedAt.Some? <==> exists o :: o in more - obs && Current(o, c, u)
  {
    var best := SomeLatest(more, c, u);
    LatestIsExpected(more, c, u, best);
    if best.Some? {
      assert best.value in more - obs by {
        assert Current(best.value, c, t);
      }
    }
  }
}
