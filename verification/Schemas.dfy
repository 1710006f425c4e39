/** A database schema as data: foreign keys, unique keys, CHECKs and row triggers. */
module Schemas {
  import opened Sql

  /** A physical row: its table and a handle that an UPDATE does not change.
      The `id` column is an ordinary column and may be updated unless something forbids it. */
  datatype Ref = Ref(table: Table, handle: nat)

  type Db = map<Ref, Row>

  datatype Action = Cascade | Restrict

  /** One column of a foreign key: the referencing and the referenced column. */
  datatype Pair = Pair(from: Column, to: Column)

  datatype ForeignKey =
    ForeignKey(child: Table, parent: Table, cols: set<Pair>, onDelete: Action, deferred: bool)

  datatype Unique = Unique(table: Table, cols: set<Column>, filter: Expr)

  datatype Check = Check(table: Table, cond: Expr)

  datatype Trigger =
    | Immutable                        // BEFORE UPDATE OR DELETE, always raises
    | NoUpdate                         // BEFORE UPDATE, always raises
    | FrozenSnapshot(cols: seq<Column>)  // BEFORE UPDATE WHEN (OLD.c IS DISTINCT FROM NEW.c OR ...)
    | HistoryGuard(cols: seq<Column>)    // app.reject_stage9_history_mutation(cols...)
    | PlanGuard                        // app.guard_monthly_plan_proposal_mutation()

  datatype TableTrigger = TableTrigger(table: Table, trigger: Trigger)

  datatype Schema =
    Schema(keys: set<ForeignKey>, uniques: set<Unique>, checks: set<Check>, triggers: set<TableTrigger>)

  // ---------- triggers ----------

  const PENDING := Text("PENDING_APPROVAL")

  /** `OLD.status <> 'PENDING_APPROVAL'` is true. */
  predicate Decided(row: Row) {
    Not3(Eq3(Get(row, Status), PENDING)) == True
  }

  /** The rows agree on every listed column, NULLs comparing equal. */
  predicate Agree(cols: seq<Column>, before: Row, after: Row) {
    forall c | c in cols :: Get(before, c) == Get(after, c)
  }

  predicate RaisesOnDelete(t: Trigger) {
    t.Immutable? || t.HistoryGuard? || t.PlanGuard?
  }

  predicate LetsUpdate(t: Trigger, before: Row, after: Row) {
    match t
    case Immutable => false
    case NoUpdate => false
    case FrozenSnapshot(cols) => Agree(cols, before, after)
    case HistoryGuard(cols) => Agree(cols, before, after)
    case PlanGuard => !Decided(before)
  }

  predicate DeleteGuarded(s: Schema, t: Table) {
    exists g | g in s.triggers :: g.table == t && RaisesOnDelete(g.trigger)
  }

  predicate UpdateAccepted(s: Schema, t: Table, before: Row, after: Row) {
    forall g | g in s.triggers && g.table == t :: LetsUpdate(g.trigger, before, after)
  }

  // ---------- keys ----------

  /** Match simple (section 11.8 of ISO/IEC 9075-2): the key binds only when no column is NULL. */
  predicate Complete(k: ForeignKey, row: Row) {
    forall m | m in k.cols :: Get(row, m.from) != Null
  }

  predicate Refers(k: ForeignKey, child: Row, parent: Row) {
    forall m | m in k.cols :: Get(child, m.from) != Null && Get(child, m.from) == Get(parent, m.to)
  }

  predicate HasParent(k: ForeignKey, db: Db, row: Row) {
    exists p | p in db :: p.table == k.parent && Refers(k, row, db[p])
  }

  predicate KeyHolds(k: ForeignKey, db: Db, row: Row) {
    Complete(k, row) ==> HasParent(k, db, row)
  }

  predicate Clash(u: Unique, a: Row, b: Row) {
    && Admits(u.filter, a, NoSession)
    && Admits(u.filter, b, NoSession)
    && forall c | c in u.cols :: Get(a, c) != Null && Get(a, c) == Get(b, c)
  }

  /** UNIQUE: NULLs are distinct from each other. */
  predicate UniqueHolds(u: Unique, db: Db) {
    forall r, q | r in db && q in db && r != q && r.table == u.table && q.table == u.table ::
      !Clash(u, db[r], db[q])
  }

  predicate RowChecked(s: Schema, t: Table, row: Row) {
    forall c | c in s.checks && c.table == t :: PassesCheck(c.cond, row)
  }

  predicate RowsChecked(s: Schema, db: Db) {
    forall r | r in db :: RowChecked(s, r.table, db[r])
  }

  predicate UniquesHold(s: Schema, db: Db) {
    forall u | u in s.uniques :: UniqueHolds(u, db)
  }

  /** Every row of the key's child table that names a parent has one. */
  predicate KeyIntact(k: ForeignKey, db: Db) {
    forall c | c in db && c.table == k.child :: KeyHolds(k, db, db[c])
  }

  predicate KeysIntact(s: Schema, db: Db, deferred: bool) {
    forall k | k in s.keys && k.deferred == deferred :: KeyIntact(k, db)
  }

  /** What holds after every statement: CHECKs, unique keys and the keys that are not deferred. */
  predicate Sound(s: Schema, db: Db) {
    RowsChecked(s, db) && UniquesHold(s, db) && KeysIntact(s, db, false)
  }
}
