/** Counting approvals: one row per decider, and recorded approvals only accumulate. */
module Quorum {
  import opened Sets
  import opened Sql
  import opened Schemas
  import opened Engine
  import opened Permanence
  import opened BlogOps
  import opened Evidence

  /** The rows of `t` that state `a`. */
  ghost function Votes(db: Db, t: Table, a: Fact): set<Ref> {
    set r | r in db && r.table == t && Matches(db[r], a)
  }

  /** The distinct values of column `d` in some rows. */
  function Deciders(db: Db, votes: set<Ref>, d: Column): set<Cell>
    requires votes <= db.Keys
  {
    set r | r in votes :: Get(db[r], d)
  }

  lemma OneMoreDecider(db: Db, votes: set<Ref>, r: Ref, d: Column)
    requires votes <= db.Keys && r in votes
    ensures Deciders(db, votes, d) == Deciders(db, votes - {r}, d) + {Get(db[r], d)}
  {
  }

  ghost predicate OneEach(db: Db, votes: set<Ref>, d: Column)
    requires votes <= db.Keys
  {
    forall r, q | r in votes && q in votes && r != q :: Get(db[r], d) != Get(db[q], d)
  }

  lemma {:induction false} DistinctDeciders(db: Db, votes: set<Ref>, d: Column)
    requires votes <= db.Keys && OneEach(db, votes, d)
    ensures |Deciders(db, votes, d)| == |votes|
    decreases votes
  {
    if votes == {} {
      assert Deciders(db, votes, d) == {};
    } else {
      var r :| r in votes;
      DistinctDeciders(db, votes - {r}, d);
      OneMoreDecider(db, votes, r, d);
      assert Get(db[r], d) !in Deciders(db, votes - {r}, d);
    }
  }

  /** `t` is append-only and unique on `group` plus the decider column `d`, which is NOT NULL. */
  predicate OncePerDecider(s: Schema, t: Table, group: set<Column>, d: Column) {
    IsImmutable(s, t) && Plain(t, group + {d}) in s.uniques && Required(s, t, d)
  }

  /** Whatever else `a` asks of the rows, once it fixes the group the rows count the deciders. */
  lemma RowsCountDeciders(s: Schema, db: Db, t: Table, group: set<Column>, d: Column, a: Fact)
    requires Sound(s, db) && OncePerDecider(s, t, group, d)
    requires forall c | c in group :: c in a && a[c] != Null
    ensures |Votes(db, t, a)| == |Deciders(db, Votes(db, t, a), d)|
  {
    var votes := Votes(db, t, a);
    var u := Plain(t, group + {d});
    assert UniqueHolds(u, db);
    forall r, q | r in votes && q in votes && r != q ensures Get(db[r], d) != Get(db[q], d) {
      NotNullColumn(s, db, r, d);
      assert !Clash(u, db[r], db[q]);
    }
    DistinctDeciders(db, votes, d);
  }

  /** Over any run the recorded rows only grow, each unchanged, and in every state their number is
      the number of distinct deciders. */
  lemma QuorumOnlyGrows(s: Schema, trace: seq<State>, i: nat, j: nat, t: Table, group: set<Column>, d: Column, a: Fact)
    requires Run(s, trace) && i <= j < |trace| && OncePerDecider(s, t, group, d)
    requires forall c | c in group :: c in a && a[c] != Null
    ensures Votes(trace[i].committed, t, a) <= Votes(trace[j].committed, t, a)
    ensures |Votes(trace[i].committed, t, a)| <= |Votes(trace[j].committed, t, a)|
    ensures |Votes(trace[j].committed, t, a)| == |Deciders(trace[j].committed, Votes(trace[j].committed, t, a), d)|
    ensures forall r | r in trace[i].committed && r.table == t ::
              r in trace[j].committed && forall c :: Get(trace[j].committed[r], c) == Get(trace[i].committed[r], c)
  {
    RunIsSound(s, trace, j);
    RowsCountDeciders(s, trace[j].committed, t, group, d, a);
    forall r | r in trace[i].committed && r.table == t
      ensures r in trace[j].committed && forall c :: Get(trace[j].committed[r], c) == Get(trace[i].committed[r], c)
    {
      var g := TableTrigger(t, Immutable);
      assert RaisesOnDelete(g.trigger) && forall c :: Freezes(g.trigger, c);
      GuardedRowForever(s, trace, i, j, r);
    }
    SubsetCount(Votes(trace[i].committed, t, a), Votes(trace[j].committed, t, a));
  }

  /** Decisions of one stage of one approval request. */
  lemma StageQuorum(s: Schema, trace: seq<State>, i: nat, j: nat, w: Cell, request: Cell, stage: Cell)
    requires Run(s, trace) && i <= j < |trace| && w != Null && request != Null && stage != Null
    requires OncePerDecider(s, ApprovalDecisions, {WorkspaceId, ApprovalRequestId, StageKey}, DecidedBy)
    ensures var a: Fact := map[WorkspaceId := w, ApprovalRequestId := request, StageKey := stage];
            var before := Votes(trace[i].committed, ApprovalDecisions, a);
            var now := Votes(trace[j].committed, ApprovalDecisions, a);
            && before <= now && |now| == |Deciders(trace[j].committed, now, DecidedBy)|
            && forall r :: r in now <==>
                 && r in trace[j].committed && r.table == ApprovalDecisions
                 && Get(trace[j].committed[r], WorkspaceId) == w
                 && Get(trace[j].committed[r], ApprovalRequestId) == request
                 && Get(trace[j].committed[r], StageKey) == stage
  {
    var a: Fact := map[WorkspaceId := w, ApprovalRequestId := request, StageKey := stage];
    QuorumOnlyGrows(s, trace, i, j, ApprovalDecisions, {WorkspaceId, ApprovalRequestId, StageKey}, DecidedBy, a);
  }

  /** Approvals of one administrative command. */
  lemma CommandQuorum(s: Schema, trace: seq<State>, i: nat, j: nat, command: Cell)
    requires Run(s, trace) && i <= j < |trace| && command != Null
    requires OncePerDecider(s, AdminCommandApprovals, {CommandId}, ApproverId)
    ensures var a: Fact := map[CommandId := command];
            var before := Votes(trace[i].committed, AdminCommandApprovals, a);
            var now := Votes(trace[j].committed, AdminCommandApprovals, a);
            && before <= now && |now| == |Deciders(trace[j].committed, now, ApproverId)|
            && forall r :: r in now <==>
                 && r in trace[j].committed && r.table == AdminCommandApprovals
                 && Get(trace[j].committed[r], CommandId) == command
  {
    var a: Fact := map[CommandId := command];
    QuorumOnlyGrows(s, trace, i, j, AdminCommandApprovals, {CommandId}, ApproverId, a);
  }
}
