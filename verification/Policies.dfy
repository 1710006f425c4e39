/** Policies that consult another table, and resolvers that run before the workspace is known. */
module Policies {
  import opened Sql
  import opened Schemas
  import opened Engine
  import opened BlogOps
  import opened Evidence
  import opened Tenancy
  import opened Permanence

  // ---------- roles and workspaces consult memberships ----------

  /** `memberships_self_or_workspace_read`. */
  const MembershipRead :=
    Or(Equal(Col(WorkspaceId), CurrentWorkspace), Equal(Col(UserId), CurrentUser))

  function Readable(memberships: set<Row>, session: Session): set<Row> {
    set m | m in memberships && Admits(MembershipRead, m, session)
  }

  /** `SELECT 1 FROM memberships WHERE workspace_id = w AND user_id = app.current_user_id()`. */
  predicate Matching(m: Row, w: Cell, session: Session) {
    And3(Eq3(Get(m, WorkspaceId), w), Eq3(Get(m, UserId), CurrentId(session.user))) == True
  }

  predicate MemberOf(memberships: set<Row>, w: Cell, session: Session) {
    exists m | m in memberships :: Matching(m, w, session)
  }

  /** `w = app.current_workspace_id() OR EXISTS (...)`, the read policy of roles (`w` is the row's
      workspace_id) and of workspaces (`w` is its id). */
  function MemberRead(memberships: set<Row>, w: Cell, session: Session): Truth {
    Or3(Eq3(w, CurrentId(session.workspace)), Of(MemberOf(memberships, w, session)))
  }

  /** Permissive policies are OR-ed: `roles_member_read` and, being FOR ALL, `roles_workspace_write`. */
  function VisibleRoles(roles: set<Row>, memberships: set<Row>, session: Session): set<Row> {
    set r | r in roles &&
      Or3(MemberRead(memberships, Get(r, WorkspaceId), session), Eval(Isolation, r, session)) == True
  }

  function VisibleWorkspaces(workspaces: set<Row>, memberships: set<Row>, session: Session): set<Row> {
    set r | r in workspaces && MemberRead(memberships, Get(r, Id), session) == True
  }

  /** A session reads the memberships of its workspace and those of its user, and no others. */
  lemma ReadableExactly(memberships: set<Row>, session: Session, m: Row)
    ensures m in Readable(memberships, session) <==>
              && m in memberships
              && (|| (session.workspace.Given? && Get(m, WorkspaceId) == Uuid(session.workspace.id))
                  || (session.user.Given? && Get(m, UserId) == Uuid(session.user.id)))
  {
    var w, u := Equal(Col(WorkspaceId), CurrentWorkspace), Equal(Col(UserId), CurrentUser);
    assert Eval(MembershipRead, m, session) == Or3(Eval(w, m, session), Eval(u, m, session));
  }

  /** A membership that the subquery looks for passes the policy on memberships. */
  lemma MatchIsReadable(m: Row, w: Cell, session: Session)
    requires Matching(m, w, session)
    ensures Admits(MembershipRead, m, session)
  {
  }

  lemma FilterIsExact(memberships: set<Row>, w: Cell, session: Session)
    ensures MemberOf(Readable(memberships, session), w, session) <==> MemberOf(memberships, w, session)
  {
    forall m | m in memberships && Matching(m, w, session) ensures m in Readable(memberships, session) {
      MatchIsReadable(m, w, session);
    }
  }

  /** The policy on memberships hides nothing from the policies that consult it, for every session:
      without a user or without a workspace too. */
  lemma NestedPoliciesAreExact(roles: set<Row>, workspaces: set<Row>, memberships: set<Row>, session: Session)
    ensures VisibleRoles(roles, Readable(memberships, session), session) == VisibleRoles(roles, memberships, session)
    ensures VisibleWorkspaces(workspaces, Readable(memberships, session), session)
         == VisibleWorkspaces(workspaces, memberships, session)
  {
    forall r | r in roles ensures MemberRead(Readable(memberships, session), Get(r, WorkspaceId), session)
                               == MemberRead(memberships, Get(r, WorkspaceId), session)
    {
      FilterIsExact(memberships, Get(r, WorkspaceId), session);
    }
    forall r | r in workspaces ensures MemberRead(Readable(memberships, session), Get(r, Id), session)
                                    == MemberRead(memberships, Get(r, Id), session)
    {
      FilterIsExact(memberships, Get(r, Id), session);
    }
  }

  /** The read policy without three-valued logic: the session's own workspace, and those its user is
      a member of. NULL is never readable. */
  predicate MayRead(memberships: set<Row>, w: Cell, session: Session) {
    w != Null &&
    (w == CurrentId(session.workspace) ||
     (session.user.Given? &&
      exists m | m in memberships :: Get(m, WorkspaceId) == w && Get(m, UserId) == CurrentId(session.user)))
  }

  lemma MemberReadMeaning(memberships: set<Row>, w: Cell, session: Session)
    ensures MemberRead(memberships, w, session) == True <==> MayRead(memberships, w, session)
  {
  }

  /** What a session reads of roles and workspaces through the nested policies. */
  lemma NestedReadMeaning(roles: set<Row>, workspaces: set<Row>, memberships: set<Row>, session: Session)
    ensures VisibleRoles(roles, Readable(memberships, session), session)
         == set r | r in roles && MayRead(memberships, Get(r, WorkspaceId), session)
    ensures VisibleWorkspaces(workspaces, Readable(memberships, session), session)
         == set r | r in workspaces && MayRead(memberships, Get(r, Id), session)
  {
    NestedPoliciesAreExact(roles, workspaces, memberships, session);
    forall r | r in roles
      ensures r in VisibleRoles(roles, memberships, session) <==> MayRead(memberships, Get(r, WorkspaceId), session)
    {
      MemberReadMeaning(memberships, Get(r, WorkspaceId), session);
    }
    forall r | r in workspaces
      ensures r in VisibleWorkspaces(workspaces, memberships, session) <==> MayRead(memberships, Get(r, Id), session)
    {
      MemberReadMeaning(memberships, Get(r, Id), session);
    }
  }

  // ---------- resolve the workspace, then look up under row-level security ----------

  /** Rows of `t` whose columns equal the arguments. */
  ghost function Lookup(db: Db, t: Table, args: Fact): set<Ref> {
    set r | r in db && r.table == t && forall c | c in args :: Eq3(Get(db[r], c), args[c]) == True
  }

  /** A SECURITY DEFINER resolver, STRICT and with `LIMIT 1` but no ORDER BY: any matching row may
      give the answer; NULL if there is none. */
  ghost predicate Resolves(db: Db, t: Table, args: Fact, answer: Cell) {
    var found := Lookup(db, t, args);
    if found == {} then answer == Null else exists r | r in found :: answer == Get(db[r], WorkspaceId)
  }

  /** The session after its workspace is set to the answer. */
  function Entered(answer: Cell): Session {
    Session(if answer.Uuid? then Given(answer.id) else Unset, Unset)
  }

  ghost function LookupAs(db: Db, t: Table, args: Fact, session: Session): set<Ref> {
    set r | r in Lookup(db, t, args) && Admits(Isolation, db[r], session)
  }

  /** The arguments include a unique key of `t`, and workspace_id is a NOT NULL uuid. */
  predicate Resolvable(s: Schema, db: Db, t: Table, u: Unique, args: Fact) {
    && u in s.uniques && u.table == t && u.filter == Lit(True) && u.cols <= args.Keys
    && Required(s, t, WorkspaceId)
    && forall r | r in db && r.table == t :: Get(db[r], WorkspaceId) != Null ==> Get(db[r], WorkspaceId).Uuid?
  }

  lemma AtMostOneMatch(s: Schema, db: Db, t: Table, u: Unique, args: Fact, r: Ref, q: Ref)
    requires Sound(s, db) && Resolvable(s, db, t, u, args)
    requires r in Lookup(db, t, args) && q in Lookup(db, t, args)
    ensures r == q
  {
  }

  /** Looking up under the resolved workspace returns exactly what an unrestricted lookup returns,
      and the answer does not depend on which row LIMIT 1 picks. */
  lemma ResolveThenLookup(s: Schema, db: Db, t: Table, u: Unique, args: Fact, answer: Cell)
    requires Sound(s, db) && Resolvable(s, db, t, u, args) && Resolves(db, t, args, answer)
    ensures LookupAs(db, t, args, Entered(answer)) == Lookup(db, t, args)
    ensures forall other :: Resolves(db, t, args, other) ==> other == answer
  {
    var found := Lookup(db, t, args);
    forall r | r in found ensures answer == Get(db[r], WorkspaceId) && Admits(Isolation, db[r], Entered(answer)) {
      var q :| q in found && answer == Get(db[q], WorkspaceId);
      AtMostOneMatch(s, db, t, u, args, r, q);
      NotNullColumn(s, db, r, WorkspaceId);
      AdmittedIff(db[r], Entered(answer));
    }
  }

  /** What the resolver and the lookup return: if a row has the given values, none of them NULL, the
      answer is its workspace and the lookup returns that row alone; if none has, NULL and nothing. */
  lemma ResolvedRow(s: Schema, db: Db, t: Table, u: Unique, args: Fact, answer: Cell, r: Ref)
    requires Sound(s, db) && Resolvable(s, db, t, u, args) && Resolves(db, t, args, answer)
    ensures r in db && r.table == t && (forall c | c in args :: args[c] != Null && Get(db[r], c) == args[c]) ==>
              answer == Get(db[r], WorkspaceId) && answer != Null && LookupAs(db, t, args, Entered(answer)) == {r}
    ensures (forall q | q in db && q.table == t ::
               exists c | c in args :: args[c] == Null || Get(db[q], c) != args[c]) ==>
              answer == Null && LookupAs(db, t, args, Entered(answer)) == {}
  {
    ResolveThenLookup(s, db, t, u, args, answer);
    var found := Lookup(db, t, args);
    forall q | q in db && q.table == t
      ensures q in found <==> forall c | c in args :: args[c] != Null && Get(db[q], c) == args[c]
    {
    }
    if r in found {
      forall q | q in found ensures q == r {
        AtMostOneMatch(s, db, t, u, args, r, q);
      }
      assert found == {r};
      NotNullColumn(s, db, r, WorkspaceId);
    }
  }

  /** The three resolvers, in every state of every run: by API key prefix, by invitation token
      prefix and client workspace, and by grant id, user and client workspace. */
  lemma ResolversInRuns(s: Schema, trace: seq<State>, i: nat, t: Table, args: Fact, answer: Cell)
    requires Run(s, trace) && i < |trace|
    requires
      || (t == DeveloperApiKeys && Prefix in args && Resolvable(s, trace[i].committed, t, Plain(t, {Prefix}), args))
      || (t == PortalInvitations && TokenPrefix in args && ClientWorkspaceId in args
          && Resolvable(s, trace[i].committed, t, Plain(t, {TokenPrefix}), args))
      || (t == PortalAccessGrants && Id in args && UserId in args && ClientWorkspaceId in args
          && Resolvable(s, trace[i].committed, t, Plain(t, {Id}), args))
    requires Resolves(trace[i].committed, t, args, answer)
    ensures LookupAs(trace[i].committed, t, args, Entered(answer)) == Lookup(trace[i].committed, t, args)
    ensures forall other :: Resolves(trace[i].committed, t, args, other) ==> other == answer
  {
    RunIsSound(s, trace, i);
    var key := if t == DeveloperApiKeys then {Prefix} else if t == PortalInvitations then {TokenPrefix} else {Id};
    var u := Plain(t, key);
    ResolveThenLookup(s, trace[i].committed, t, u, args, answer);
  }
}
