/** The permission and MFA rewrites, element by element. */
module Rewrites {
  import opened Merges

  /** The permissions that 0003 introduces. */
  predicate PlanningKey(k: string) {
    || k == "keyword:read" || k == "keyword:write" || k == "keyword:export"
    || k == "planning:read" || k == "planning:write" || k == "planning:approve" || k == "planning:export"
  }

  lemma PlanningKeysExactly(k: string)
    ensures k in PLANNING_KEYS <==> PlanningKey(k)
  {
  }

  predicate IsPlanningKey(v: Json) { v.JString? && PlanningKey(v.s) }

  /** `out` holds the elements of `items` at the positions `at`, in order: all that are no planning key. */
  ghost predicate Picks(items: seq<Json>, out: seq<Json>, at: seq<nat>) {
    && |at| == |out|
    && (forall i, j | 0 <= i < j < |at| :: at[i] < at[j])
    && (forall i | 0 <= i < |at| :: at[i] < |items| && out[i] == items[at[i]])
    && (forall n | 0 <= n < |items| :: n in at <==> !IsPlanningKey(items[n]))
  }

  function Shifted(at: seq<nat>): (r: seq<nat>)
    ensures |r| == |at| && forall i | 0 <= i < |r| :: r[i] == at[i] + 1
  {
    seq(|at|, i requires 0 <= i < |at| => at[i] + 1)
  }

  lemma ShiftedMember(at: seq<nat>, n: nat)
    ensures n in Shifted(at) <==> n > 0 && n - 1 in at
  {
    if n > 0 && n - 1 in at {
      var i :| 0 <= i < |at| && at[i] == n - 1;
      assert Shifted(at)[i] == n;
    }
  }

  lemma ShiftedPositions(items: seq<Json>, rest: seq<Json>, at: seq<nat>, n: nat)
    requires items != [] && Picks(items[1..], rest, at) && 0 < n < |items|
    ensures n in Shifted(at) <==> !IsPlanningKey(items[n])
  {
    ShiftedMember(at, n);
    assert items[n] == items[1..][n-1];
  }

  lemma PicksLater(items: seq<Json>, rest: seq<Json>, at: seq<nat>)
    requires items != [] && Picks(items[1..], rest, at) && IsPlanningKey(items[0])
    ensures Picks(items, rest, Shifted(at))
  {
    ShiftedMember(at, 0);
    forall n | 0 < n < |items| ensures n in Shifted(at) <==> !IsPlanningKey(items[n]) {
      ShiftedPositions(items, rest, at, n);
    }
  }

  lemma FirstMember(at: seq<nat>, n: nat)
    ensures n in [0] + at <==> n == 0 || n in at
  {
  }

  lemma FirstAscends(at: seq<nat>)
    requires forall i, j | 0 <= i < j < |at| :: at[i] < at[j]
    ensures var now := [0] + Shifted(at);
            forall i, j | 0 <= i < j < |now| :: now[i] < now[j]
  {
  }

  lemma FirstValues(items: seq<Json>, rest: seq<Json>, at: seq<nat>)
    requires items != [] && Picks(items[1..], rest, at)
    ensures var out, now := [items[0]] + rest, [0] + Shifted(at);
            |now| == |out| && forall i | 0 <= i < |now| :: now[i] < |items| && out[i] == items[now[i]]
  {
    var out, now := [items[0]] + rest, [0] + Shifted(at);
    forall i | 0 <= i < |now| ensures now[i] < |items| && out[i] == items[now[i]] {
      if i > 0 {
        assert now[i] == at[i-1] + 1 && out[i] == rest[i-1] == items[1..][at[i-1]];
      }
    }
  }

  lemma FirstPositions(items: seq<Json>, rest: seq<Json>, at: seq<nat>, n: nat)
    requires items != [] && Picks(items[1..], rest, at) && !IsPlanningKey(items[0]) && n < |items|
    ensures n in [0] + Shifted(at) <==> !IsPlanningKey(items[n])
  {
    FirstMember(Shifted(at), n);
    if n > 0 {
      ShiftedPositions(items, rest, at, n);
    }
  }

  lemma PicksFirst(items: seq<Json>, rest: seq<Json>, at: seq<nat>, out: seq<Json>, now: seq<nat>)
    requires items != [] && Picks(items[1..], rest, at) && !IsPlanningKey(items[0])
    requires out == [items[0]] + rest && now == [0] + Shifted(at)
    ensures Picks(items, out, now)
  {
    FirstAscends(at);
    FirstValues(items, rest, at);
    forall n | 0 <= n < |items| ensures n in now <==> !IsPlanningKey(items[n]) {
      FirstPositions(items, rest, at, n);
    }
  }

  lemma {:induction false} WithoutPicks(items: seq<Json>) returns (at: seq<nat>)
    ensures Picks(items, Without(items, PLANNING_KEYS), at)
  {
    if items == [] {
      at := [];
    } else {
      var rest := WithoutPicks(items[1..]);
      if items[0].JString? {
        PlanningKeysExactly(items[0].s);
      }
      if IsPlanningKey(items[0]) {
        PicksLater(items, Without(items[1..], PLANNING_KEYS), rest);
        at := Shifted(rest);
      } else {
        at := [0] + Shifted(rest);
        PicksFirst(items, Without(items[1..], PLANNING_KEYS), rest, Without(items, PLANNING_KEYS), at);
      }
    }
  }

  /** What the downgrade leaves of one value: an array without its planning keys, the rest in order and
      with repetitions, or an object without such fields. */
  ghost predicate Stripped(v: Json, out: Json) {
    match v
    case JArray(items) => out.JArray? && exists at :: Picks(items, out.items, at)
    case JObject(fields) =>
      && out.JObject?
      && (forall f :: f in out.fields <==> f in fields && !PlanningKey(f))
      && (forall f | f in out.fields && f in fields :: out.fields[f] == fields[f])
    case _ => false
  }

  lemma DowngradeStrips(v: Json)
    ensures Downgrade(v, PLANNING_KEYS).Removed? <==> v.JArray? || v.JObject?
    ensures Downgrade(v, PLANNING_KEYS).Removed? ==> Stripped(v, Downgrade(v, PLANNING_KEYS).v)
  {
    match v
    case JArray(items) =>
      var at := WithoutPicks(items);
    case JObject(fields) =>
      forall f ensures f in PLANNING_KEYS <==> PlanningKey(f) {
        PlanningKeysExactly(f);
      }
    case _ =>
  }

  /** The downgrade aborts exactly if some role holds a scalar. Otherwise every role, system or custom,
      keeps its flag and key and loses the seven planning permissions and nothing else. */
  lemma DowngradeExactly(roles: Roles)
    ensures var out := DowngradeRoles(roles);
            && (out.Aborted? <==>
                  exists i | i in roles :: !roles[i].permissions.JArray? && !roles[i].permissions.JObject?)
            && (out.Done? ==> out.roles.Keys == roles.Keys)
            && (out.Done? ==> forall i | i in roles ::
                  && out.roles[i].system == roles[i].system && out.roles[i].key == roles[i].key
                  && Stripped(roles[i].permissions, out.roles[i].permissions))
  {
    forall i | i in roles
      ensures var v := roles[i].permissions;
              && (Downgrade(v, PLANNING_KEYS).Removed? <==> v.JArray? || v.JObject?)
              && (Downgrade(v, PLANNING_KEYS).Removed? ==> Stripped(v, Downgrade(v, PLANNING_KEYS).v))
    {
      DowngradeStrips(roles[i].permissions);
    }
  }

  // ---------- what the upgrade gives ----------

  /** A built-in role that may plan, and the permission `p` it receives. */
  predicate Receives(key: string, p: string) {
    || ((key == "owner" || key == "admin" || key == "strategist") && PlanningKey(p))
    || (key == "approver" && (p == "keyword:read" || p == "planning:read" || p == "planning:approve"))
    || ((key == "writer" || key == "reviewer" || key == "publisher" || key == "analyst" || key == "viewer") &&
        (p == "keyword:read" || p == "planning:read"))
  }

  lemma AdditionsExactly(key: string, p: string)
    ensures p in Additions(key) <==> Receives(key, p)
  {
    PlanningKeysExactly(p);
  }

  predicate BuiltIn(key: string) {
    || key == "owner" || key == "admin" || key == "strategist" || key == "approver" || key == "writer"
    || key == "reviewer" || key == "publisher" || key == "analyst" || key == "viewer"
  }

  lemma ExtendedExactly(role: Role)
    ensures Extended(role) <==> role.system && BuiltIn(role.key)
  {
  }

  /** `v` is the list of the strings `xs`, then one null if `tail`. */
  predicate ListOf(v: Json, xs: seq<string>, tail: bool) {
    && v.JArray? && |v.items| == |xs| + (if tail then 1 else 0)
    && (forall i | 0 <= i < |xs| :: v.items[i] == JString(xs[i]))
    && (tail ==> v.items[|xs|] == JNull)
  }

  /** `x` is the text of an element that is not null. */
  ghost predicate TextIn(show: Json -> string, items: seq<Json>, x: string) {
    exists v :: v in items && v != JNull && x == if v.JString? then v.s else show(v)
  }

  lemma MergeExactly(le: (string, string) -> bool, show: Json -> string, items: seq<Json>, additions: seq<string>)
    returns (xs: seq<string>)
    requires TotalOrder(le)
    ensures ListOf(Merge(le, show, items, additions), xs, JNull in items)
    ensures forall i, j | 0 <= i < j < |xs| :: le(xs[i], xs[j]) && xs[i] != xs[j]
    ensures forall x :: x in xs <==> x in additions || TextIn(show, items, x)
  {
    xs := SortDistinct(le, Texts(show, items) + additions);
    SortSorts(le, Texts(show, items) + additions);
    forall x ensures x in Texts(show, items) <==> TextIn(show, items, x) {
      assert x in Texts(show, items) <==> exists v :: v in items && v != JNull && TextOf(show, v) == x;
    }
  }

  /** `after` is the upgraded `before`: a built-in system role holds its strings and those it receives,
      ascending and once each, with one null at the end if there was one; any other is unchanged. */
  ghost predicate Upgraded(le: (string, string) -> bool, show: Json -> string, before: Role, after: Role) {
    var items := if before.permissions.JArray? then before.permissions.items else [before.permissions];
    if before.system && BuiltIn(before.key) then
      && after.system && after.key == before.key
      && exists xs ::
           && ListOf(after.permissions, xs, JNull in items)
           && (forall i, j | 0 <= i < j < |xs| :: le(xs[i], xs[j]) && xs[i] != xs[j])
           && (forall x :: x in xs <==> Receives(before.key, x) || TextIn(show, items, x))
    else after == before
  }

  lemma UpgradeRoleExactly(le: (string, string) -> bool, show: Json -> string, role: Role)
    requires TotalOrder(le)
    ensures Upgraded(le, show, role, UpgradeRole(le, show, role))
  {
    ExtendedExactly(role);
    if Extended(role) {
      var xs := MergeExactly(le, show, AsElements(role.permissions), Additions(role.key));
      forall x ensures x in Additions(role.key) <==> Receives(role.key, x) {
        AdditionsExactly(role.key, x);
      }
    }
  }

  lemma UpgradeExactly(le: (string, string) -> bool, show: Json -> string, roles: Roles)
    requires TotalOrder(le)
    ensures var out := UpgradeRoles(le, show, roles);
            out.Keys == roles.Keys && forall i | i in roles :: Upgraded(le, show, roles[i], out[i])
  {
    forall i | i in roles ensures Upgraded(le, show, roles[i], UpgradeRole(le, show, roles[i])) {
      UpgradeRoleExactly(le, show, roles[i]);
    }
  }

  /** The MFA rewrite leaves a list with both privileged roles alone; any other value becomes the
      ascending list, once each, of "owner", "admin" and the texts an array held. */
  lemma MfaRewriteExactly(le: (string, string) -> bool, show: Json -> string, v: Json)
    requires TotalOrder(le)
    ensures v.JArray? && JString("owner") in v.items && JString("admin") in v.items ==> RewriteMfa(le, show, v) == v
    ensures !(v.JArray? && JString("owner") in v.items && JString("admin") in v.items) ==>
              var items := if v.JArray? then v.items else [];
              exists xs ::
                && ListOf(RewriteMfa(le, show, v), xs, JNull in items)
                && (forall i, j | 0 <= i < j < |xs| :: le(xs[i], xs[j]) && xs[i] != xs[j])
                && (forall x :: x in xs <==> x == "owner" || x == "admin" || TextIn(show, items, x))
  {
    assert PRIVILEGED[0] == "owner" && PRIVILEGED[1] == "admin";
    assert forall x :: x in PRIVILEGED <==> x == "owner" || x == "admin";
    var xs := MergeExactly(le, show, ArrayOrEmpty(v), PRIVILEGED);
  }
}
