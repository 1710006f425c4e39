/** The data migrations that merge string lists kept as JSON: required MFA roles and role permissions. */
module Merges {

  datatype Json =
    | JNull | JBool(b: bool) | JNumber(n: int) | JString(s: string)
    | JArray(items: seq<Json>) | JObject(fields: map<string, Json>)

  /** The database's text order, whatever the collation. */
  ghost predicate TotalOrder(le: (string, string) -> bool) {
    && (forall x, y :: le(x, y) || le(y, x))
    && (forall x, y :: le(x, y) && le(y, x) ==> x == y)
    && (forall x, y, z :: le(x, y) && le(y, z) ==> le(x, z))
  }

  // ---------- SELECT DISTINCT ... ORDER BY ----------

  ghost predicate Sorted(le: (string, string) -> bool, xs: seq<string>) {
    forall i, j | 0 <= i < j < |xs| :: le(xs[i], xs[j]) && xs[i] != xs[j]
  }

  function InsertOnce(le: (string, string) -> bool, xs: seq<string>, x: string): (r: seq<string>)
    ensures forall y :: y in r <==> y == x || y in xs
  {
    if xs == [] then [x]
    else if xs[0] == x then xs
    else if le(x, xs[0]) then [x] + xs
    else
      var rest := InsertOnce(le, xs[1..], x);
      assert xs == [xs[0]] + xs[1..];
      [xs[0]] + rest
  }

  lemma {:induction false} InsertSorts(le: (string, string) -> bool, xs: seq<string>, x: string)
    requires TotalOrder(le) && Sorted(le, xs)
    ensures Sorted(le, InsertOnce(le, xs, x))
  {
    if xs != [] && xs[0] != x && !le(x, xs[0]) {
      InsertSorts(le, xs[1..], x);
      var rest := InsertOnce(le, xs[1..], x);
      forall y | y in rest ensures le(xs[0], y) && xs[0] != y {
        if y != x {
          var i :| 0 <= i < |xs[1..]| && xs[1..][i] == y;
          assert y == xs[i+1];
        }
      }
    }
  }

  function SortDistinct(le: (string, string) -> bool, xs: seq<string>): (r: seq<string>)
    ensures forall y :: y in r <==> y in xs
  {
    if xs == [] then []
    else
      assert xs == [xs[0]] + xs[1..];
      InsertOnce(le, SortDistinct(le, xs[1..]), xs[0])
  }

  lemma {:induction false} SortSorts(le: (string, string) -> bool, xs: seq<string>)
    requires TotalOrder(le)
    ensures Sorted(le, SortDistinct(le, xs))
  {
    if xs != [] {
      SortSorts(le, xs[1..]);
      InsertSorts(le, SortDistinct(le, xs[1..]), xs[0]);
    }
  }

  lemma SortedTail(le: (string, string) -> bool, a: seq<string>, x: string)
    requires Sorted(le, a) && a != []
    ensures x in a[1..] <==> x in a && x != a[0]
  {
  }

  lemma SortedHead(le: (string, string) -> bool, a: seq<string>, x: string)
    requires Sorted(le, a) && x in a && x != a[0]
    ensures le(a[0], x)
  {
  }

  /** A sorted list is determined by its members. */
  lemma {:induction false} SortedIsUnique(le: (string, string) -> bool, a: seq<string>, b: seq<string>)
    requires TotalOrder(le) && Sorted(le, a) && Sorted(le, b) && forall x :: x in a <==> x in b
    ensures a == b
  {
    assert a != [] ==> a[0] in a;
    assert b != [] ==> b[0] in b;
    if a != [] && b != [] {
      if a[0] != b[0] {
        SortedHead(le, a, b[0]);
        SortedHead(le, b, a[0]);
        assert false;
      }
      forall x ensures x in a[1..] <==> x in b[1..] {
        SortedTail(le, a, x);
        SortedTail(le, b, x);
      }
      SortedIsUnique(le, a[1..], b[1..]);
      assert a == [a[0]] + a[1..] && b == [b[0]] + b[1..];
    }
  }

  // ---------- jsonb_array_elements_text and jsonb_agg ----------

  /** The texts of the elements that are not JSON null; `show` renders what is not a string. */
  function Texts(show: Json -> string, items: seq<Json>): (r: seq<string>)
    ensures forall y :: y in r <==> exists v :: v in items && v != JNull && TextOf(show, v) == y
  {
    if items == [] then []
    else
      assert items == [items[0]] + items[1..];
      (if items[0] == JNull then [] else [TextOf(show, items[0])]) + Texts(show, items[1..])
  }

  function TextOf(show: Json -> string, v: Json): string {
    if v.JString? then v.s else show(v)
  }

  function Strings(xs: seq<string>): (r: seq<Json>)
    ensures |r| == |xs| && forall i | 0 <= i < |r| :: r[i] == JString(xs[i])
  {
    seq(|xs|, i requires 0 <= i < |xs| => JString(xs[i]))
  }

  function NullTail(present: bool): seq<Json> { if present then [JNull] else [] }

  /** `SELECT jsonb_agg(value ORDER BY value) FROM (SELECT DISTINCT jsonb_array_elements_text(items || additions))`:
      a NULL text sorts last and is aggregated as JSON null. Every use adds at least one string, so
      the aggregate never runs over no rows. */
  function Merge(le: (string, string) -> bool, show: Json -> string, items: seq<Json>, additions: seq<string>): Json {
    JArray(Strings(SortDistinct(le, Texts(show, items) + additions)) + NullTail(JNull in items))
  }

  lemma StringsMember(xs: seq<string>, tail: bool, x: string)
    ensures JString(x) in Strings(xs) + NullTail(tail) <==> x in xs
  {
  }

  /** A merged list holds a string exactly if it was added or is the text of an earlier element. */
  lemma MergedMeaning(le: (string, string) -> bool, show: Json -> string, items: seq<Json>, additions: seq<string>,
                      x: string)
    ensures JString(x) in Merge(le, show, items, additions).items <==>
              x in additions || exists v :: v in items && v != JNull && TextOf(show, v) == x
  {
    StringsMember(SortDistinct(le, Texts(show, items) + additions), JNull in items, x);
  }

  // ---------- required MFA roles ----------

  const PRIVILEGED := ["owner", "admin"]

  /** `v @> '["owner", "admin"]'`: an array is contained only in an array that has its elements. */
  predicate HasPrivileged(v: Json) {
    v.JArray? && forall k | k in PRIVILEGED :: JString(k) in v.items
  }

  /** The CHECK added after the rewrite. */
  predicate MfaCheck(v: Json) { v.JArray? && HasPrivileged(v) }

  function ArrayOrEmpty(v: Json): seq<Json> { if v.JArray? then v.items else [] }

  /** The UPDATE of workspace_authentication_policies, on one row's value. */
  function RewriteMfa(le: (string, string) -> bool, show: Json -> string, v: Json): Json {
    if HasPrivileged(v) then v else Merge(le, show, ArrayOrEmpty(v), PRIVILEGED)
  }

  /** For every JSON value the rewrite satisfies the new CHECK, loses no string entry of an array,
      adds nothing but the privileged roles and texts of earlier entries, and changes nothing when run again. */
  lemma MfaRewrite(le: (string, string) -> bool, show: Json -> string, v: Json)
    ensures var r := RewriteMfa(le, show, v);
            && MfaCheck(r)
            && (forall x | JString(x) in ArrayOrEmpty(v) :: JString(x) in r.items)
            && (forall x | JString(x) in r.items ::
                  x in PRIVILEGED || exists e :: e in ArrayOrEmpty(v) && TextOf(show, e) == x)
            && RewriteMfa(le, show, r) == r
  {
    if !HasPrivileged(v) {
      var items := ArrayOrEmpty(v);
      forall x ensures JString(x) in Merge(le, show, items, PRIVILEGED).items <==>
                         x in PRIVILEGED || exists e :: e in items && e != JNull && TextOf(show, e) == x
      {
        MergedMeaning(le, show, items, PRIVILEGED, x);
      }
      forall x | JString(x) in items ensures JString(x) in Merge(le, show, items, PRIVILEGED).items {
        assert TextOf(show, JString(x)) == x;
      }
    } else {
      forall x | JString(x) in v.items ensures exists e :: e in v.items && TextOf(show, e) == x {
        assert TextOf(show, JString(x)) == x;
      }
    }
  }

  // ---------- role permissions: upgrade and downgrade ----------

  const PLANNING_KEYS :=
    ["keyword:read", "keyword:write", "keyword:export",
     "planning:read", "planning:write", "planning:approve", "planning:export"]

  /** `permissions || additions` treats anything but an array as one element. */
  function AsElements(v: Json): seq<Json> { if v.JArray? then v.items else [v] }

  function Upgrade(le: (string, string) -> bool, show: Json -> string, v: Json, additions: seq<string>): Json {
    Merge(le, show, AsElements(v), additions)
  }

  function Without(items: seq<Json>, keys: seq<string>): (r: seq<Json>)
    ensures forall v :: v in r <==> v in items && !(v.JString? && v.s in keys)
  {
    if items == [] then []
    else
      assert items == [items[0]] + items[1..];
      (if items[0].JString? && items[0].s in keys then [] else [items[0]]) + Without(items[1..], keys)
  }

  datatype Removal = Removed(v: Json) | CannotDeleteFromScalar

  /** `permissions - 'k1' - 'k2' ...`. */
  function Downgrade(v: Json, keys: seq<string>): Removal {
    match v
    case JArray(items) => Removed(JArray(Without(items, keys)))
    case JObject(fields) => Removed(JObject(fields - (set k | k in keys)))
    case _ => CannotDeleteFromScalar
  }

  function Filter(xs: seq<string>, keys: seq<string>): (r: seq<string>)
    ensures forall y :: y in r <==> y in xs && y !in keys
  {
    if xs == [] then []
    else
      assert xs == [xs[0]] + xs[1..];
      (if xs[0] in keys then [] else [xs[0]]) + Filter(xs[1..], keys)
  }

  lemma {:induction false} FilterSorted(le: (string, string) -> bool, xs: seq<string>, keys: seq<string>)
    requires Sorted(le, xs)
    ensures Sorted(le, Filter(xs, keys))
  {
    if xs != [] {
      FilterSorted(le, xs[1..], keys);
      var rest := Filter(xs[1..], keys);
      forall y | y in rest ensures le(xs[0], y) && xs[0] != y {
        var i :| 0 <= i < |xs[1..]| && xs[1..][i] == y;
        assert y == xs[i+1];
      }
    }
  }

  lemma WithoutCons(v: Json, items: seq<Json>, keys: seq<string>)
    ensures Without([v] + items, keys) == (if v.JString? && v.s in keys then [] else [v]) + Without(items, keys)
  {
  }

  lemma StringsCons(x: string, xs: seq<string>)
    ensures Strings([x] + xs) == [JString(x)] + Strings(xs)
  {
  }

  lemma {:induction false} WithoutStrings(xs: seq<string>, keys: seq<string>, tail: bool)
    ensures Without(Strings(xs) + NullTail(tail), keys) == Strings(Filter(xs, keys)) + NullTail(tail)
  {
    if xs == [] {
      assert Strings(xs) + NullTail(tail) == NullTail(tail);
      if tail {
        WithoutCons(JNull, [], keys);
        assert [JNull] + [] == NullTail(tail);
      }
    } else {
      var rest := Strings(xs[1..]) + NullTail(tail);
      WithoutStrings(xs[1..], keys, tail);
      assert xs == [xs[0]] + xs[1..];
      StringsCons(xs[0], xs[1..]);
      assert Strings(xs) + NullTail(tail) == [JString(xs[0])] + rest;
      WithoutCons(JString(xs[0]), rest, keys);
      if xs[0] !in keys {
        StringsCons(xs[0], Filter(xs[1..], keys));
      }
    }
  }

  /** A sorted list of distinct strings, none of them a planning key, perhaps with one null at the end. */
  ghost predicate Canonical(le: (string, string) -> bool, v: Json, keys: seq<string>) {
    exists xs, tail :: v == JArray(Strings(xs) + NullTail(tail)) && Sorted(le, xs) && forall k | k in keys :: k !in xs
  }

  lemma {:induction false} TextsOfStrings(show: Json -> string, xs: seq<string>, tail: bool)
    ensures Texts(show, Strings(xs) + NullTail(tail)) == xs
  {
    var items := Strings(xs) + NullTail(tail);
    if xs == [] {
      assert items == NullTail(tail);
      if tail {
        assert items == [JNull] && items[1..] == [];
      }
    } else {
      assert items[0] == JString(xs[0]) && items[1..] == Strings(xs[1..]) + NullTail(tail);
      TextsOfStrings(show, xs[1..], tail);
    }
  }

  lemma DowngradeOfUpgrade(le: (string, string) -> bool, show: Json -> string, v: Json, additions: seq<string>,
                           keys: seq<string>)
    ensures var xs := Filter(SortDistinct(le, Texts(show, AsElements(v)) + additions), keys);
            Downgrade(Upgrade(le, show, v, additions), keys)
              == Removed(JArray(Strings(xs) + NullTail(JNull in AsElements(v))))
  {
    WithoutStrings(SortDistinct(le, Texts(show, AsElements(v)) + additions), keys, JNull in AsElements(v));
  }

  lemma CanonicalComesBack(le: (string, string) -> bool, show: Json -> string, xs: seq<string>, tail: bool,
                           additions: seq<string>, keys: seq<string>)
    requires TotalOrder(le) && Sorted(le, xs)
    requires (forall k | k in keys :: k !in xs) && (forall k | k in additions :: k in keys)
    ensures var v := JArray(Strings(xs) + NullTail(tail));
            Downgrade(Upgrade(le, show, v, additions), keys) == Removed(v)
  {
    var v := JArray(Strings(xs) + NullTail(tail));
    DowngradeOfUpgrade(le, show, v, additions, keys);
    TextsOfStrings(show, xs, tail);
    var sorted := SortDistinct(le, xs + additions);
    SortSorts(le, xs + additions);
    FilterSorted(le, sorted, keys);
    SortedIsUnique(le, Filter(sorted, keys), xs);
    assert JNull in v.items <==> tail;
  }

  /** The downgrade undoes the upgrade exactly on canonical lists. A role that already held one of the
      keys, or an unsorted or repeated list, does not come back. */
  lemma RoundTripExactly(le: (string, string) -> bool, show: Json -> string, v: Json, additions: seq<string>,
                         keys: seq<string>)
    requires TotalOrder(le) && forall k | k in additions :: k in keys
    ensures Downgrade(Upgrade(le, show, v, additions), keys) == Removed(v) <==> Canonical(le, v, keys)
  {
    DowngradeOfUpgrade(le, show, v, additions, keys);
    var sorted := SortDistinct(le, Texts(show, AsElements(v)) + additions);
    if Downgrade(Upgrade(le, show, v, additions), keys) == Removed(v) {
      SortSorts(le, Texts(show, AsElements(v)) + additions);
      FilterSorted(le, sorted, keys);
      assert Canonical(le, v, keys);
    }
    if Canonical(le, v, keys) {
      var xs, tail :| v == JArray(Strings(xs) + NullTail(tail)) && Sorted(le, xs) && forall k | k in keys :: k !in xs;
      CanonicalComesBack(le, show, xs, tail, additions, keys);
    }
  }

  /** Merging the same strings again changes nothing. */
  lemma MergeTwice(le: (string, string) -> bool, show: Json -> string, items: seq<Json>, additions: seq<string>)
    requires TotalOrder(le)
    ensures var once := Merge(le, show, items, additions);
            Merge(le, show, once.items, additions) == once
  {
    var xs := SortDistinct(le, Texts(show, items) + additions);
    var once := Merge(le, show, items, additions);
    TextsOfStrings(show, xs, JNull in items);
    SortSorts(le, Texts(show, items) + additions);
    SortSorts(le, xs + additions);
    SortedIsUnique(le, SortDistinct(le, xs + additions), xs);
    assert JNull in once.items <==> JNull in items;
  }

  // ---------- the whole roles table ----------

  datatype Role = Role(system: bool, key: string, permissions: Json)

  type Roles = map<nat, Role>

  /** The keys the upgrade adds to a built-in role; none for any other role key. */
  function Additions(key: string): seq<string> {
    if key in ["owner", "admin", "strategist"] then PLANNING_KEYS
    else if key in ["writer", "reviewer", "publisher", "analyst", "viewer"] then ["keyword:read", "planning:read"]
    else if key == "approver" then ["keyword:read", "planning:read", "planning:approve"]
    else []
  }

  /** `is_system IS TRUE AND key = additions.role_key`. */
  predicate Extended(role: Role) { role.system && Additions(role.key) != [] }

  function UpgradeRole(le: (string, string) -> bool, show: Json -> string, role: Role): Role {
    if Extended(role) then role.(permissions := Upgrade(le, show, role.permissions, Additions(role.key))) else role
  }

  function UpgradeRoles(le: (string, string) -> bool, show: Json -> string, roles: Roles): Roles {
    map i | i in roles :: UpgradeRole(le, show, roles[i])
  }

  datatype Outcome = Done(roles: Roles) | Aborted

  /** The downgrade has no WHERE clause: it rewrites custom roles too, and one scalar aborts it. */
  function DowngradeRoles(roles: Roles): Outcome {
    if exists i | i in roles :: Downgrade(roles[i].permissions, PLANNING_KEYS).CannotDeleteFromScalar? then Aborted
    else Done(map i | i in roles :: roles[i].(permissions := Downgrade(roles[i].permissions, PLANNING_KEYS).v))
  }

  /** A list or an object in which none of the keys occurs. */
  predicate Lacks(v: Json, keys: seq<string>) {
    match v
    case JArray(items) => forall k | k in keys :: JString(k) !in items
    case JObject(fields) => forall k | k in keys :: k !in fields
    case _ => false
  }

  lemma {:induction false} NothingToRemove(items: seq<Json>, keys: seq<string>)
    requires forall k | k in keys :: JString(k) !in items
    ensures Without(items, keys) == items
  {
    if items != [] {
      assert items == [items[0]] + items[1..];
      NothingToRemove(items[1..], keys);
    }
  }

  lemma DowngradeKeepsExactly(v: Json, keys: seq<string>)
    ensures Downgrade(v, keys) == Removed(v) <==> Lacks(v, keys)
  {
    match v
    case JArray(items) =>
      if Lacks(v, keys) {
        NothingToRemove(items, keys);
      } else {
        var k :| k in keys && JString(k) in items;
        assert JString(k) !in Without(items, keys);
      }
    case JObject(fields) =>
      var named := set k | k in keys;
      if !Lacks(v, keys) {
        var k :| k in keys && k in fields;
        assert k !in fields - named;
      } else {
        assert fields - named == fields;
      }
    case _ =>
  }

  /** What makes a role come back from upgrade and downgrade. */
  ghost predicate Restorable(le: (string, string) -> bool, role: Role) {
    if Extended(role) then Canonical(le, role.permissions, PLANNING_KEYS) else Lacks(role.permissions, PLANNING_KEYS)
  }

  lemma RoleRoundTrip(le: (string, string) -> bool, show: Json -> string, role: Role)
    requires TotalOrder(le)
    ensures Downgrade(UpgradeRole(le, show, role).permissions, PLANNING_KEYS) == Removed(role.permissions) <==>
              Restorable(le, role)
  {
    if Extended(role) {
      AdditionsArePlanning(role.key);
      RoundTripExactly(le, show, role.permissions, Additions(role.key), PLANNING_KEYS);
    } else {
      DowngradeKeepsExactly(role.permissions, PLANNING_KEYS);
    }
  }

  lemma AdditionsArePlanning(key: string)
    ensures forall k | k in Additions(key) :: k in PLANNING_KEYS
  {
  }

  /** Upgrade and downgrade restore the roles table if and only if every role is restorable: system
      roles sorted, distinct and free of the keys, custom roles free of them and not scalar. */
  lemma RolesRoundTripExactly(le: (string, string) -> bool, show: Json -> string, roles: Roles)
    requires TotalOrder(le)
    ensures DowngradeRoles(UpgradeRoles(le, show, roles)) == Done(roles) <==>
              forall i | i in roles :: Restorable(le, roles[i])
  {
    var up := UpgradeRoles(le, show, roles);
    forall i | i in roles
      ensures Downgrade(up[i].permissions, PLANNING_KEYS) == Removed(roles[i].permissions) <==> Restorable(le, roles[i])
    {
      RoleRoundTrip(le, show, roles[i]);
    }
    var down := DowngradeRoles(up);
    if down == Done(roles) {
      forall i | i in roles ensures Restorable(le, roles[i]) {
        assert down.roles[i].permissions == roles[i].permissions;
      }
    }
    if forall i | i in roles :: Restorable(le, roles[i]) {
      assert down.Done?;
      forall i | i in roles ensures down.roles[i] == roles[i] {
        assert up[i].system == roles[i].system && up[i].key == roles[i].key;
      }
      assert down.roles == roles;
    }
  }

  /** Running the upgrade again changes nothing. */
  lemma UpgradeRolesTwice(le: (string, string) -> bool, show: Json -> string, roles: Roles)
    requires TotalOrder(le)
    ensures var once := UpgradeRoles(le, show, roles);
            UpgradeRoles(le, show, once) == once
  {
    var once := UpgradeRoles(le, show, roles);
    forall i | i in roles ensures UpgradeRole(le, show, once[i]) == once[i] {
      MergeTwice(le, show, AsElements(roles[i].permissions), Additions(roles[i].key));
    }
  }

  predicate Scalar(v: Json) { !v.JArray? && !v.JObject? }

  /** Upgrade and downgrade abort exactly if a role that the upgrade does not extend holds a scalar.
      Otherwise no role, system or custom, keeps any planning key, held before the upgrade or not. */
  lemma HeldPermissionsAreLost(le: (string, string) -> bool, show: Json -> string, roles: Roles)
    ensures var out := DowngradeRoles(UpgradeRoles(le, show, roles));
            && (out.Aborted? <==> exists i | i in roles :: !Extended(roles[i]) && Scalar(roles[i].permissions))
            && (out.Done? ==> out.roles.Keys == roles.Keys)
            && (out.Done? ==> forall i | i in roles :: Lacks(out.roles[i].permissions, PLANNING_KEYS))
  {
    var up := UpgradeRoles(le, show, roles);
    forall i | i in roles
      ensures Downgrade(up[i].permissions, PLANNING_KEYS).CannotDeleteFromScalar? <==>
                !Extended(roles[i]) && Scalar(roles[i].permissions)
    {
    }
    forall i | i in roles && Downgrade(up[i].permissions, PLANNING_KEYS).Removed?
      ensures Lacks(Downgrade(up[i].permissions, PLANNING_KEYS).v, PLANNING_KEYS)
    {
    }
  }
}
