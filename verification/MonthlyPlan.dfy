/** The life of a monthly plan proposal. */
module MonthlyPlan {
  import opened Sql
  import opened Schemas
  import opened Engine
  import opened Statements
  import opened Permanence
  import opened BlogOps
  import opened Evidence

  lemma PlansAreGuarded(s: Schema)
    requires PlanConstraints(s)
    ensures DeleteGuarded(s, MonthlyPlanProposals)
  {
  }

  /** A decided proposal is frozen as a whole, from the commit on. */
  lemma DecidedIsFinal(s: Schema, trace: seq<State>, i: nat, j: nat, r: Ref)
    requires PlanConstraints(s) && Run(s, trace) && i <= j < |trace|
    requires r in trace[i].committed && r.table == MonthlyPlanProposals && Decided(trace[i].committed[r])
    ensures r in trace[j].committed && Decided(trace[j].committed[r])
    ensures forall c :: Get(trace[j].committed[r], c) == Get(trace[i].committed[r], c)
  {
    PlansAreGuarded(s);
    GuardedRowForever(s, trace, i, j, r);
    assert forall c :: Fixed(s, r.table, trace[i].committed[r], c);
  }

  /** Not decided means pending: the status column is NOT NULL. */
  lemma PendingOrDecided(s: Schema, db: Db, r: Ref)
    requires PlanConstraints(s) && Sound(s, db) && r in db && r.table == MonthlyPlanProposals
    ensures Get(db[r], Status) == PENDING <==> !Decided(db[r])
  {
    NotNullColumn(s, db, r, Status);
  }

  ghost predicate PendingAt(trace: seq<State>, r: Ref, k: nat)
    requires k < |trace|
  {
    r in trace[k].committed && Get(trace[k].committed[r], Status) == PENDING
  }

  ghost predicate FinalAt(trace: seq<State>, r: Ref, final: Row, k: nat)
    requires k < |trace|
  {
    && r in trace[k].committed
    && Get(final, Status) != PENDING
    && forall c :: Get(trace[k].committed[r], c) == Get(final, c)
  }

  /** Along any run a committed proposal is pending for a prefix and then one frozen row for ever:
      `m` is where the prefix ends (at the end of the run if it was never decided). */
  lemma {:induction false} Lifecycle(s: Schema, trace: seq<State>, i: nat, r: Ref) returns (m: nat, final: Row)
    requires PlanConstraints(s) && Run(s, trace) && i < |trace|
    requires r in trace[i].committed && r.table == MonthlyPlanProposals
    ensures i <= m <= |trace|
    ensures forall k: nat | i <= k < m :: PendingAt(trace, r, k)
    ensures forall k: nat | m <= k < |trace| :: FinalAt(trace, r, final, k)
    decreases |trace| - i
  {
    RunIsSound(s, trace, i);
    PendingOrDecided(s, trace[i].committed, r);
    if Decided(trace[i].committed[r]) {
      m, final := i, trace[i].committed[r];
      forall k: nat | m <= k < |trace| ensures FinalAt(trace, r, final, k) {
        DecidedIsFinal(s, trace, i, k, r);
      }
    } else if i + 1 == |trace| {
      m, final := i + 1, trace[i].committed[r];
    } else {
      PlansAreGuarded(s);
      GuardedRowForever(s, trace, i, i + 1, r);
      m, final := Lifecycle(s, trace, i + 1, r);
    }
  }

  // ---------- a pending proposal can be changed and decided ----------

  /** The guard is the only trigger of the table. */
  predicate OnlyPlanGuard(s: Schema) {
    && TableTrigger(MonthlyPlanProposals, PlanGuard) in s.triggers
    && forall g | g in s.triggers && g.table == MonthlyPlanProposals :: g.trigger == PlanGuard
  }

  /** The triggers let an UPDATE of proposals pass if and only if all of them were pending (or had no
      status at all). */
  lemma PlanGuardExactly(s: Schema, db: Db, changes: Db)
    requires OnlyPlanGuard(s) && changes.Keys <= db.Keys && forall r | r in changes :: r.table == MonthlyPlanProposals
    ensures TriggersAccept(s, db, changes) <==>
              forall r | r in changes :: Get(db[r], Status) == Text("PENDING_APPROVAL") || Get(db[r], Status) == Null
  {
    TriggersExactly(s, db, changes);
    var g := TableTrigger(MonthlyPlanProposals, PlanGuard);
    forall r | r in changes
      ensures Passes(g.trigger, db[r], changes[r]) <==>
                Get(db[r], Status) == Text("PENDING_APPROVAL") || Get(db[r], Status) == Null
    {
    }
  }

  /** From every committed state a pending proposal can become any row after which the constraints
      hold, and the change can be committed. */
  lemma ProposalCanChange(s: Schema, trace: seq<State>, db: Db, r: Ref, row: Row)
    requires OnlyPlanGuard(s) && Run(s, trace) && trace[|trace|-1] == State(db, db)
    requires r in db && r.table == MonthlyPlanProposals && Get(db[r], Status) == Text("PENDING_APPROVAL")
    requires Sound(s, db[r := row]) && KeysIntact(s, db[r := row], true)
    ensures Run(s, Committed(trace, db, db[r := row]))
  {
    var changes: Db := map[r := row];
    assert db + changes == db[r := row];
    ChangesCommit(s, trace, db, changes);
  }

  /** So the pending prefix can end at any point: no constraint but NOT NULL mentions the status, hence
      every status can be given and committed, and any but the pending one is final. */
  lemma DecisionIsPossible(s: Schema, trace: seq<State>, db: Db, r: Ref, status: string)
    requires OnlyPlanGuard(s) && FreeColumn(s, MonthlyPlanProposals, Status)
    requires Run(s, trace) && trace[|trace|-1] == State(db, db)
    requires r in db && r.table == MonthlyPlanProposals && Get(db[r], Status) == Text("PENDING_APPROVAL")
    ensures var after := db[r := db[r][Status := Text(status)]];
            Run(s, Committed(trace, db, after)) && (Decided(after[r]) <==> status != "PENDING_APPROVAL")
  {
    RunIsSound(s, trace, |trace| - 1);
    FreeColumnKeepsSound(s, db, r, Status, Text(status));
    ProposalCanChange(s, trace, db, r, db[r][Status := Text(status)]);
  }

  lemma DecidedPins(s: Schema, db: Db, r: Ref)
    requires PlanConstraints(s) && Sound(s, db) && r in db && r.table == MonthlyPlanProposals && Decided(db[r])
    requires Get(db[r], CampaignId) != Null
    ensures Pinned(s, db, Campaigns, Identity(Get(db[r], WorkspaceId), Get(db[r], CampaignId)), 1)
  {
    PlansAreGuarded(s);
    NotNullColumn(s, db, r, WorkspaceId);
    var b: Fact := map[WorkspaceId := Get(db[r], WorkspaceId), CampaignId := Get(db[r], CampaignId)];
    assert Evident(s, db, MonthlyPlanProposals, b) by {
      assert Matches(db[r], b);
    }
    assert Pinned(s, db, MonthlyPlanProposals, b, 0);
    TenantCarries(PlanCampaign, CampaignId, b);
    CitationPins(s, db, PlanCampaign, b, Identity(Get(db[r], WorkspaceId), Get(db[r], CampaignId)), 0);
  }

  /** A campaign that a decided proposal names can never be deleted afterwards. */
  lemma DecidedPlanKeepsCampaign(s: Schema, trace: seq<State>, i: nat, j: nat, r: Ref, db: Db) returns (x: Ref)
    requires PlanConstraints(s) && Run(s, trace) && Later(trace, i, j, db)
    requires r in trace[i].committed && r.table == MonthlyPlanProposals && Decided(trace[i].committed[r])
    requires Get(trace[i].committed[r], CampaignId) != Null
    ensures x in db && x.table == Campaigns
    ensures Get(db[x], WorkspaceId) == Get(trace[i].committed[r], WorkspaceId)
    ensures Get(db[x], Id) == Get(trace[i].committed[r], CampaignId)
  {
    var row := trace[i].committed[r];
    RunIsSound(s, trace, i);
    DecidedPins(s, trace[i].committed, r);
    x := StandsLater(s, trace, i, j, db, Campaigns, Identity(Get(row, WorkspaceId), Get(row, CampaignId)), 1);
    IdentityCells(db[x], Get(row, WorkspaceId), Get(row, CampaignId));
  }
}
