/** SQL values, three-valued logic and the row expressions used by CHECK constraints,
    partial indexes and row-level-security policies. */
module Sql {

  /** Tables the model names; every other table is `OtherTable`. */
  datatype Table =
    | Contents | ContentVersions | ContentLibraryMarkers
    | GenerationJobs | GenerationJobSteps | ModelRuns | GenerationSnapshotSources
    | KnowledgeSources | SourceVersions
    | QualityAssessments | ApprovalRequests | ApprovalDecisions
    | BulkJobs | BulkRows | BulkRowAttempts
    | PublishJobs | PublishedPosts | NaverPackages
    | PlanningComments | Campaigns | MonthlyPlanProposals
    | AdminCommandApprovals
    | DeveloperApiKeys | PortalInvitations | PortalAccessGrants
    | ConsentEvidence | LegalHolds | Brands | ContentBriefs
    | OtherTable(name: string)

  /** Columns that some modelled key mentions; every other column is `Named`. */
  datatype Column =
    | WorkspaceId | Id | ContentId | ContentVersionId | ContentHash
    | ApprovalRequestId | QualityAssessmentId | JobId | RowId | StepId
    | SourceId | SourceVersionId | ParentCommentId | CampaignId | Status
    | CommandId | ApproverId | StageKey | DecidedBy
    | Prefix | TokenPrefix | ClientWorkspaceId | UserId
    | SupersedesId | SubjectId | Purpose | BrandId | BriefId | CurrentVersionId
    | Named(name: string)

  datatype Cell = Null | Uuid(id: nat) | Text(chars: string) | Number(n: int) | Flag(b: bool)

  type Row = map<Column, Cell>

  /** A column a row does not list holds NULL. */
  function Get(row: Row, c: Column): Cell {
    if c in row then row[c] else Null
  }

  datatype Truth = True | False | Unknown

  function Of(b: bool): Truth { if b then True else False }

  function Not3(a: Truth): Truth {
    match a case True => False case False => True case Unknown => Unknown
  }

  function And3(a: Truth, b: Truth): Truth {
    if a == False || b == False then False else if a == True && b == True then True else Unknown
  }

  function Or3(a: Truth, b: Truth): Truth {
    if a == True || b == True then True else if a == False && b == False then False else Unknown
  }

  /** `=` is unknown as soon as one side is NULL. */
  function Eq3(a: Cell, b: Cell): Truth {
    if a == Null || b == Null then Unknown else Of(a == b)
  }

  /** The value of a session setting such as `app.current_workspace_id`. */
  datatype Setting = Unset | Blank | Given(id: nat)

  /** `NULLIF(current_setting(name, true), '')::uuid`. */
  function CurrentId(s: Setting): Cell {
    match s case Unset => Null case Blank => Null case Given(id) => Uuid(id)
  }

  datatype Session = Session(workspace: Setting, user: Setting)

  const NoSession := Session(Unset, Unset)

  datatype Term = Col(c: Column) | Const(v: Cell) | CurrentWorkspace | CurrentUser

  function Value(t: Term, row: Row, session: Session): Cell {
    match t
    case Col(c) => Get(row, c)
    case Const(v) => v
    case CurrentWorkspace => CurrentId(session.workspace)
    case CurrentUser => CurrentId(session.user)
  }

  datatype Expr =
    | Lit(t: Truth)
    | IsNull(e: Term)
    | Equal(l: Term, r: Term)
    | Above(e: Term, bound: int)
    | Same(p: Expr, q: Expr)
    | Not(p: Expr)
    | And(p: Expr, q: Expr)
    | Or(p: Expr, q: Expr)

  function Eval(e: Expr, row: Row, session: Session): Truth {
    match e
    case Lit(t) => t
    case IsNull(t) => Of(Value(t, row, session) == Null)
    case Equal(l, r) => Eq3(Value(l, row, session), Value(r, row, session))
    case Above(t, bound) =>
      var v := Value(t, row, session);
      if v == Null then Unknown else Of(v.Number? && v.n > bound)
    case Same(p, q) =>
      var a, b := Eval(p, row, session), Eval(q, row, session);
      if a == Unknown || b == Unknown then Unknown else Of(a == b)
    case Not(p) => Not3(Eval(p, row, session))
    case And(p, q) => And3(Eval(p, row, session), Eval(q, row, session))
    case Or(p, q) => Or3(Eval(p, row, session), Eval(q, row, session))
  }

  predicate MentionsColumn(e: Expr, c: Column) {
    match e
    case Lit(_) => false
    case IsNull(t) => t == Col(c)
    case Equal(l, r) => l == Col(c) || r == Col(c)
    case Above(t, _) => t == Col(c)
    case Same(p, q) => MentionsColumn(p, c) || MentionsColumn(q, c)
    case Not(p) => MentionsColumn(p, c)
    case And(p, q) => MentionsColumn(p, c) || MentionsColumn(q, c)
    case Or(p, q) => MentionsColumn(p, c) || MentionsColumn(q, c)
  }

  /** A column an expression does not mention does not matter to it. */
  lemma {:induction false} Unmentioned(e: Expr, row: Row, c: Column, v: Cell, session: Session)
    requires !MentionsColumn(e, c)
    ensures Eval(e, row[c := v], session) == Eval(e, row, session)
  {
    match e
    case Lit(_) =>
    case IsNull(_) =>
    case Equal(_, _) =>
    case Above(_, _) =>
    case Not(p) => Unmentioned(p, row, c, v, session);
    case Same(p, q) => Unmentioned(p, row, c, v, session); Unmentioned(q, row, c, v, session);
    case And(p, q) => Unmentioned(p, row, c, v, session); Unmentioned(q, row, c, v, session);
    case Or(p, q) => Unmentioned(p, row, c, v, session); Unmentioned(q, row, c, v, session);
  }

  /** A CHECK rejects only what is false: NULL passes. */
  predicate PassesCheck(e: Expr, row: Row) {
    Eval(e, row, NoSession) != False
  }

  /** The CHECK `c > bound` passes NULL and the larger numbers. */
  lemma AboveExactly(row: Row, c: Column, bound: int)
    ensures PassesCheck(Above(Col(c), bound), row) <==>
              Get(row, c) == Null || (Get(row, c).Number? && Get(row, c).n > bound)
  {
  }

  /** A policy or an index predicate admits only what is true: NULL is refused. */
  predicate Admits(e: Expr, row: Row, session: Session) {
    Eval(e, row, session) == True
  }

  function NotNull(c: Column): Expr { Not(IsNull(Col(c))) }
}
