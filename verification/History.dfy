/** The history guard: a trigger function that loops over column names, and the generated
    `OLD.c IS DISTINCT FROM NEW.c OR ...` chain that does the same for snapshot columns. */
module History {
  import opened Sql
  import opened Schemas
  import opened Engine
  import opened Permanence
  import opened BlogOps

  datatype Operation = OnUpdate | OnDelete

  /** `to_jsonb(row) -> c`: absent (SQL NULL) when `c` is no column of the table, otherwise the
      conversion of its value, where a NULL value converts to the JSON null. */
  datatype Field<J> = Absent | Json(j: J)

  function FieldOf<J>(toJson: Cell -> J, columns: set<Column>, row: Row, c: Column): Field<J> {
    if c in columns then Json(toJson(Get(row, c))) else Absent
  }

  ghost predicate Injective<J(!new)>(f: Cell -> J) {
    forall x, y :: f(x) == f(y) ==> x == y
  }

  /** What the loop accepts on UPDATE. */
  predicate FieldsAgree<J(==)>(toJson: Cell -> J, columns: set<Column>, args: seq<Column>, before: Row, after: Row) {
    forall c | c in args :: FieldOf(toJson, columns, before, c) == FieldOf(toJson, columns, after, c)
  }

  /** `app.reject_stage9_history_mutation(args...)`: `ok` unless it raises. */
  method GuardHistory<J(==)>(op: Operation, toJson: Cell -> J, columns: set<Column>, args: seq<Column>,
                             before: Row, after: Row) returns (ok: bool)
    ensures ok <==> op == OnUpdate && FieldsAgree(toJson, columns, args, before, after)
  {
    if op == OnDelete {
      return false;
    }
    for n := 0 to |args|
      invariant FieldsAgree(toJson, columns, args[..n], before, after)
    {
      if FieldOf(toJson, columns, before, args[n]) != FieldOf(toJson, columns, after, args[n]) {
        return false;
      }
      assert args[..n+1] == args[..n] + [args[n]];
    }
    assert args[..|args|] == args;
    return true;
  }

  /** The generated WHEN condition: true makes the trigger raise. */
  predicate AnyDistinct(cols: seq<Column>, before: Row, after: Row) {
    cols != [] && (Get(before, cols[0]) != Get(after, cols[0]) || AnyDistinct(cols[1..], before, after))
  }

  lemma {:induction false} ChainMeansAgree(cols: seq<Column>, before: Row, after: Row)
    ensures !AnyDistinct(cols, before, after) <==> Agree(cols, before, after)
  {
    if cols != [] {
      ChainMeansAgree(cols[1..], before, after);
      assert cols == [cols[0]] + cols[1..];
    }
  }

  /** Whatever the conversion, the loop accepts at least what the chain accepts, and names that are
      no columns freeze nothing. */
  lemma ChainImpliesLoop<J>(toJson: Cell -> J, columns: set<Column>, args: seq<Column>, before: Row, after: Row)
    requires forall c | c in args && c in columns :: Get(before, c) == Get(after, c)
    ensures FieldsAgree(toJson, columns, args, before, after)
  {
  }

  /** The loop and the chain accept exactly the same updates, NULLs included, if and only if the
      conversion to JSON is injective; `args` are real columns, at least one. */
  lemma LoopIsChain<J(!new)>(toJson: Cell -> J, columns: set<Column>, args: seq<Column>)
    requires args != [] && forall c | c in args :: c in columns
    ensures (forall before: Row, after: Row ::
               FieldsAgree(toJson, columns, args, before, after) <==> !AnyDistinct(args, before, after))
            <==> Injective(toJson)
  {
    if Injective(toJson) {
      forall before: Row, after: Row
        ensures FieldsAgree(toJson, columns, args, before, after) <==> !AnyDistinct(args, before, after)
      {
        ChainMeansAgree(args, before, after);
      }
    } else {
      var x, y :| toJson(x) == toJson(y) && x != y;
      var before: Row := map c | c in columns :: x;
      var after: Row := map c | c in columns :: y;
      ChainMeansAgree(args, before, after);
      assert args[0] in args;
      assert FieldsAgree(toJson, columns, args, before, after) && AnyDistinct(args, before, after);
    }
  }

  /** With an injective conversion both forms are the engine's trigger on those columns. */
  lemma GuardIsTrigger<J(!new)>(toJson: Cell -> J, columns: set<Column>, args: seq<Column>, before: Row, after: Row)
    requires Injective(toJson) && forall c | c in args :: c in columns
    ensures FieldsAgree(toJson, columns, args, before, after) <==> LetsUpdate(HistoryGuard(args), before, after)
    ensures !AnyDistinct(args, before, after) <==> LetsUpdate(FrozenSnapshot(args), before, after)
  {
  }

  /** Every committed row of a guarded table is in every later state, with every frozen column,
      `id` among them when it is listed, equal to its value then. */
  lemma HistoryForever(s: Schema, trace: seq<State>, i: nat, j: nat, r: Ref, cols: seq<Column>)
    requires Run(s, trace) && i <= j < |trace| && r in trace[i].committed
    requires TableTrigger(r.table, HistoryGuard(cols)) in s.triggers
    ensures r in trace[j].committed && Agree(cols, trace[i].committed[r], trace[j].committed[r])
    ensures r in trace[j].working && Agree(cols, trace[i].committed[r], trace[j].working[r])
  {
    var g := TableTrigger(r.table, HistoryGuard(cols));
    assert RaisesOnDelete(g.trigger) && forall c | c in cols :: Freezes(g.trigger, c);
    GuardedRowForever(s, trace, i, j, r);
  }

  /** A legal hold, once committed, can be neither removed nor given another id, workspace, matter,
      title, reason, scope, evidence, activation or expiry. */
  lemma LegalHoldForever(s: Schema, trace: seq<State>, i: nat, j: nat, r: Ref)
    requires Run(s, trace) && i <= j < |trace| && r in trace[i].committed && r.table == LegalHolds
    requires TableTrigger(LegalHolds, HistoryGuard(LegalHoldFields)) in s.triggers
    ensures r in trace[j].committed && r in trace[j].working
    ensures forall c | c in LegalHoldFields :: Get(trace[j].committed[r], c) == Get(trace[i].committed[r], c)
    ensures forall c | c in LegalHoldFields :: Get(trace[j].working[r], c) == Get(trace[i].committed[r], c)
  {
    HistoryForever(s, trace, i, j, r, LegalHoldFields);
  }
}
