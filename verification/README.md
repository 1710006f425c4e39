# BlogOps database invariants

The migrations of BlogOps hold executable logic: row triggers, composite foreign keys with CASCADE
and RESTRICT, CHECKs, row-level-security policies, SQL functions and data rewrites. Together they
define a state machine whose steps are INSERT, UPDATE, DELETE, COMMIT and ROLLBACK. This project
models that machine as a small relational engine, generic over a schema, and proves what every run
of it keeps.

A result never fixes the whole schema. It asks that the schema has at least a named group of
constraints from `BlogOps.dfy`; whatever else the migrations install only narrows the runs the
result speaks of.

## Layout

| file | holds |
|---|---|
| `Sets.dfy`, `Sql.dfy`, `Schemas.dfy` | counting; cells, three-valued logic, rows, keys, CHECKs and triggers as data |
| `Cascade.dfy`, `Engine.dfy`, `Database.dfy`, `Statements.dfy` | the rows a delete takes, statements, transactions, runs; the stored tables as a class; exactly when each statement succeeds |
| `BlogOps.dfy` | the keys, CHECKs and triggers of the migrations |
| `Permanence.dfy`, `Evidence.dfy`, `RowIdentity.dfy`, `KeyExchange.dfy`, `MarkedContent.dfy`, `MonthlyPlan.dfy`, `History.dfy` | what can never be removed or changed |
| `Approval.dfy`, `Quorum.dfy`, `Consent.dfy` | approvals pinned to a version and hash, counting deciders, consent chains |
| `Tenancy.dfy`, `Sessions.dfy`, `IsolationLimits.dfy`, `Policies.dfy` | noninterference between workspaces and where it ends, what a session's statements do, nested policies, resolvers |
| `Status.dfy`, `Merge.dfy`, `Rewrites.dfy` | the public status query, the permission and MFA rewrites |

## Engine assumptions

- ON UPDATE is NO ACTION, since the migrations give none: a child still needs some parent with its key.
- Row triggers fire on cascaded deletes; one that raises aborts the whole statement.
- Foreign keys are match simple (section 11.8 of ISO/IEC 9075-2) and their checks ignore row-level security.
- UNIQUE treats NULLs as distinct and is judged on the statement's final rows. A check row by row can
  only refuse more, and refusals are always possible outcomes; where a result says that an UPDATE of two
  rows executes, it also says that the unique keys hold between the two.
- A CHECK refuses only FALSE; a policy or an index predicate admits only TRUE.
- A RESTRICT key refuses a delete at once, deferred or not. Whether a RESTRICT met in the middle of a
  cascade aborts is left open: every step may abort and change nothing.
- Deferred keys are checked at COMMIT; a violation rolls the transaction back.
- Migrations run as a role that bypasses row-level security.

## Main results

**What succeeds.** On a sound database an INSERT succeeds if and only if its rows are new and the result
is sound, an UPDATE if and only if every trigger lets it and the result is sound, and a DELETE if and
only if its cascade meets no append-only, history or plan trigger and no row that stays cites it by
RESTRICT (`Statements.InsertExactly`, `Statements.UpdateExactly`, `Statements.DeleteExactly`). Such
statements can be committed from every committed state (`Statements.RowsCanGo`,
`Statements.ChangesCommit`), so the permanence results below have converses: an uncited source version can
be deleted, and a pending proposal can be decided.

**Permanence spreads backwards.** A fact is pinned when a row that no trigger lets anyone delete or
change states it, or when a pinned fact cites it through a foreign key. `Permanence.PinnedForever`: no
step of any run ends a pinned fact. So a bulk job with any attempt, a content with any marker, a
generation job with any model run, a knowledge source some snapshot used and a campaign some decided
plan names live forever, although four of these hang together by CASCADE.

**Permanence is of keys, not of physical rows.** Over any run the row behind a pinned key keeps it if
and only if no later UPDATE gives the key to another row (`RowIdentity.PinnedRowExactlyInRuns`); no
delete, no cascade and no change of that row alone can take it. Where the key is frozen, as for source
versions, the row itself is permanent (`RowIdentity.FrozenRowForever`). The `id` of a content or of a
bulk job is not frozen: from every committed state, one UPDATE of two rows hands a pinned key over and
frees the first row for deletion (`KeyExchange.KeyCanMove`, `KeyExchange.MarkedContentCanGo`,
`KeyExchange.AttemptedJobCanGo`; `MarkedContent.MarkedRowCanGo` is a run).

**Approvals.** The CHECKs of bulk_rows close the match-simple hole, an approval id determines
workspace, content, version and hash across four tables, and a Naver package pins the approval it
cites in every continuation.

**Isolation.** After any interleaving of all tenants' statements with commits and rollbacks, a
workspace's rows are what its own statements, less those rolled back, make of its own initial rows
(`Tenancy.AsIfAlone`). The premise is that CASCADE keys out of the tenant tables carry workspace_id, and
it is exact: cascades stay in every session's view if and only if it holds
(`IsolationLimits.CascadesStayExactly`). The migrations meet it for the tables under the isolation policy
except `agencies`, `federated_provider_connections` and `scim_configurations`, which single-column
CASCADE keys refer to (`Tenancy.MigrationsQualify`). There isolation fails: another workspace can store an
agency_clients row that names this workspace's agency, and loses it when the agency is deleted
(`IsolationLimits.AgencyAndScimLeak`, a history). Where RESTRICT keys carry workspace_id too, whether a
delete succeeds is decided by the tenant's rows alone (`Tenancy.DeleteSuccessIsLocal`).

**Consent.** The constraints alone do not make consent evidence well founded: a row that supersedes
itself is its own parent and is accepted and committed (`Consent.LoopIsAccepted`). In every committed
state of every run walks end if and only if no row supersedes itself, directly or through others
(`Consent.AcyclicInRuns`); `Consent.OneInsertExactly` says the same of one inserted row before it is
inserted. `Consent.ConsentSuccession` gives one root and one head under the premise that inserts name a
stored predecessor on the same matter.

**Role permissions.** The downgrade is not the inverse of the upgrade: it has no WHERE clause, removes
keys a role held before, keeps the new sort order and aborts on a scalar of a custom role.
`Merges.RolesRoundTripExactly` states when the table does come back, if and only if.

## Model

| member | source | states |
|---|---|---|
| Cascades.ClosureIsClosed | migrations/versions/0003_keywords_planning.py:207 | the rows reachable by CASCADE references are closed under them, self-references included |
| Cascades.ClosureIsLeast | migrations/versions/b386e9e57103_media_bulk.py:870 | they are the least such set that contains the deleted rows: a cascade takes nothing more |
| Cascades.Doom | migrations/versions/b386e9e57103_media_bulk.py:941 | the worklist ends on every stored graph, cycles included; it raises exactly if a delete-guarded row is reachable and otherwise returns exactly the reachable rows |
| Cascades.NothingDangles | migrations/versions/b386e9e57103_media_bulk.py:866-871 | no row that survives a permitted delete refers to a removed row, whatever the key |
| Evidence.RepliesGoWithComment | migrations/versions/0003_keywords_planning.py:207 | deleting a comment removes its whole thread of replies, round cycles too |
| Engine.UpdateKeepsKeys | migrations/versions/4fd7a4ed3cfb_research_generation.py:564-567 | an accepted UPDATE, of parents or children, leaves every immediate key intact |
| Engine.DeleteKeepsKeys | migrations/versions/4fd7a4ed3cfb_research_generation.py:831-835 | a cascading delete keeps every key intact, deferred ones too |
| Engine.StatementKeepsSound | migrations/versions/b386e9e57103_media_bulk.py:856-877 | every statement preserves CHECKs, unique keys and immediate foreign keys |
| Engine.RunIsSound | migrations/versions/657df178a4f3_security_operations_ga.py:502-521 | in every state of every run committed data meets all constraints and open data all but the deferred keys |
| Engine.KeptForever | migrations/versions/4fd7a4ed3cfb_research_generation.py:913-920 | a committed property that no statement ends holds in all later states, through commits, rollbacks and aborts |
| Databases.Database.InsertRows | migrations/versions/b386e9e57103_media_bulk.py:856-877 | succeeds exactly if the rows meet CHECKs, unique and foreign keys; otherwise nothing changes; is a step of the machine |
| Databases.Database.UpdateRows | migrations/versions/b386e9e57103_media_bulk.py:994-1014 | succeeds exactly if triggers, CHECKs and keys accept; otherwise nothing changes; is a step of the machine |
| Databases.Database.DeleteRows | migrations/versions/b386e9e57103_media_bulk.py:870 | removes exactly the rows reachable by CASCADE, or aborts and changes nothing; succeeds exactly if no guarded row is reachable and no RESTRICT reference remains |
| Databases.Database.Commit | migrations/versions/657df178a4f3_security_operations_ga.py:512-521 | publishes the transaction exactly if the deferred keys hold, and rolls it back otherwise |
| Statements.ChecksExactly | migrations/versions/b386e9e57103_media_bulk.py:856-865 | the CHECKs of a database hold exactly if none of its rows evaluates one of its table to FALSE |
| Statements.UniquesExactly | migrations/versions/657df178a4f3_security_operations_ga.py:503-511 | the unique keys hold exactly if any two rows a key's filter admits differ, or hold NULL, in a column of it |
| Statements.KeysExactly | migrations/versions/b386e9e57103_media_bulk.py:866-871 | the foreign keys hold exactly if each row with no NULL among its key columns has a parent row with those values |
| Statements.EdgeExactly | migrations/versions/b386e9e57103_media_bulk.py:870 | a row hangs on another by CASCADE exactly if a CASCADE key has values in it, none NULL, that are those of the other |
| Statements.TriggersExactly | migrations/versions/b386e9e57103_media_bulk.py:994-1014 | triggers let an UPDATE pass exactly if no changed row is in an immutable table, no frozen column changes and every changed proposal was pending |
| Statements.InsertExactly | migrations/versions/b386e9e57103_media_bulk.py:856-877 | an INSERT into a sound database succeeds exactly if its rows are new and the result is sound |
| Statements.UpdateExactly | migrations/versions/b386e9e57103_media_bulk.py:994-1014 | an UPDATE of a sound database succeeds exactly if the triggers, by their forms, let it pass and the result is sound |
| Statements.DeleteExactly | migrations/versions/0002_tenancy_auth_knowledge.py:962-969 | a DELETE succeeds exactly if its rows exist, its cascade meets no append-only, history or plan trigger, and no surviving row cites the cascade by RESTRICT; UPDATE triggers do not hinder it |
| Statements.RowsCanGo | migrations/versions/0003_keywords_planning.py:934-950 | from every committed state such a deletion can be made and committed |
| Statements.ChangesCommit | migrations/versions/0003_keywords_planning.py:968-971 | from every committed state an UPDATE that triggers let pass and after which all constraints hold can be made and committed |
| Permanence.GuardedRowStays | migrations/versions/4fd7a4ed3cfb_research_generation.py:890-920 | a row of a delete-guarded table survives every statement with its fixed columns |
| Permanence.CitesStays | migrations/versions/657df178a4f3_security_operations_ga.py:512-521 | a citation holds after every statement that leaves the citing fact, for a deferred key through a frozen parent key |
| Permanence.WidenedStays | migrations/versions/0002_tenancy_auth_knowledge.py:305-307 | a row identified by a frozen unique key keeps its frozen columns as long as the key is present |
| Permanence.PinnedStays | migrations/versions/b386e9e57103_media_bulk.py:994-1014 | no statement ends a pinned fact, through any chain of citations |
| Permanence.PinnedForever | migrations/versions/b386e9e57103_media_bulk.py:994-1014 | once committed, a pinned fact is present in every later committed and open state of the run |
| Permanence.GuardedRowForever | migrations/versions/0001_foundation.py:98-114 | a committed row of a delete-guarded table is in every later state with its fixed columns unchanged |
| Evidence.BulkJobWithAttemptLives | migrations/versions/b386e9e57103_media_bulk.py:939-941 | a bulk job with any row attempt, and the attempted row, live forever although both keys are CASCADE |
| Evidence.MarkedContentLives | migrations/versions/4fd7a4ed3cfb_research_generation.py:236-241 | a content with any library marker lives forever |
| Evidence.GenerationJobWithModelRunLives | migrations/versions/4fd7a4ed3cfb_research_generation.py:675 | a generation job with any model run, and the step that ran, live forever |
| Evidence.CitedKnowledgeLives | migrations/versions/4fd7a4ed3cfb_research_generation.py:404-406 | a source version that a generation snapshot cites keeps its source and both live forever, although versions themselves only reject UPDATE |
| RowIdentity.PinnedRowExactly | migrations/versions/4fd7a4ed3cfb_research_generation.py:239 | the physical row behind a pinned key bears it after a statement if and only if the statement does not give the key to another row |
| RowIdentity.PinnedRowExactlyInRuns | migrations/versions/4fd7a4ed3cfb_research_generation.py:236-241 | over any run the row bears its pinned key in all later states if and only if no later step gives the key to another row |
| RowIdentity.OneRowKeepsRow | migrations/versions/4fd7a4ed3cfb_research_generation.py:239 | no statement that updates at most one row takes a pinned key from its row |
| RowIdentity.PinnedRowForever | migrations/versions/b386e9e57103_media_bulk.py:870-874 | in runs whose statements never hand the key over, however many rows they update, the very row behind it is permanent |
| RowIdentity.OneRowForever | migrations/versions/b386e9e57103_media_bulk.py:870-874 | the same for runs that update one row at a time |
| RowIdentity.FrozenRowForever | migrations/versions/0002_tenancy_auth_knowledge.py:950-969 | where the pinned columns are frozen the row itself is permanent in every run |
| RowIdentity.CitedVersionRowLives | migrations/versions/4fd7a4ed3cfb_research_generation.py:404-406 | the row of a source version that a snapshot cites stays with all its columns, although its trigger lets it be deleted |
| RowIdentity.UncitedVersionCanGo | migrations/versions/0002_tenancy_auth_knowledge.py:962-969 | conversely, from every committed state a source version can be deleted with its cascade and the deletion committed, if nothing that stays cites the cascade by RESTRICT and it meets no delete guard |
| KeyExchange.KeyCanMove | migrations/versions/4fd7a4ed3cfb_research_generation.py:175-203 | from every committed state of every run, a row whose id no trigger freezes can lose its key to an unreferenced row of its workspace and be deleted, and the key lives on |
| KeyExchange.ExchangeExecutes | migrations/versions/4fd7a4ed3cfb_research_generation.py:175-203 | the two-row UPDATE that does it meets all CHECKs, triggers, unique and foreign keys of any sound database, and the unique keys also between the first row and the second |
| KeyExchange.ContentIdsAreLoose | migrations/versions/4fd7a4ed3cfb_research_generation.py:175-203 | the constraints on contents have the shape that lets a key move |
| KeyExchange.BulkJobIdsAreLoose | migrations/versions/b386e9e57103_media_bulk.py:598-619 | so have those on bulk_jobs, whose frozen columns do not include id |
| KeyExchange.MarkedContentCanGo | migrations/versions/4fd7a4ed3cfb_research_generation.py:236-241 | from every committed state the row of a marked content can be deleted for good, though its key is pinned, if its workspace has another content nothing refers to |
| KeyExchange.AttemptedJobCanGo | migrations/versions/b386e9e57103_media_bulk.py:939-941 | the same for the row of a bulk job with a row attempt |
| MarkedContent.MarkedRowCanGo | migrations/versions/4fd7a4ed3cfb_research_generation.py:175-241 | under all constraints of contents and its markers there is a run that commits a marked content and then the deletion of its row |
| MonthlyPlan.DecidedIsFinal | migrations/versions/0003_keywords_planning.py:958-982 | a committed decided proposal keeps every column forever |
| MonthlyPlan.Lifecycle | migrations/versions/0003_keywords_planning.py:958-982 | along any run a proposal is PENDING_APPROVAL for a prefix and then one frozen row forever |
| MonthlyPlan.PlanGuardExactly | migrations/versions/0003_keywords_planning.py:968-971 | the guard lets an UPDATE pass exactly if every changed proposal was pending or had no status |
| MonthlyPlan.ProposalCanChange | migrations/versions/0003_keywords_planning.py:968-971 | from every committed state a pending proposal can become any row after which the constraints hold, and the change be committed |
| MonthlyPlan.DecisionIsPossible | migrations/versions/0003_keywords_planning.py:382-415 | so the pending prefix can end at any point: every status can be given and committed, and any but the pending one is decided |
| MonthlyPlan.DecidedPlanKeepsCampaign | migrations/versions/0003_keywords_planning.py:413 | a campaign a decided proposal names can never be deleted |
| Approval.MatchSimpleHole | migrations/versions/b386e9e57103_media_bulk.py:866 | a composite key is satisfied by every database if and only if one of its columns is NULL |
| Approval.IdentityCheckExactly | migrations/versions/b386e9e57103_media_bulk.py:856 | the identity CHECK passes exactly if content, version and hash are all given or all NULL |
| Approval.ContentCheckExactly | migrations/versions/b386e9e57103_media_bulk.py:858-862 | the approval and assessment CHECKs pass exactly if the column is NULL or a content version is given |
| Approval.ChecksCloseHole | migrations/versions/b386e9e57103_media_bulk.py:856-862 | on rows that pass the CHECKs an exact key binds if and only if it names an approval or assessment |
| Approval.BulkRowsAgreeInRuns | migrations/versions/b386e9e57103_media_bulk.py:856-871 | in every reachable state a bulk row with an approval or assessment has complete content identity and all three cited rows agree on workspace, content, version and hash |
| Approval.ApprovalDetermines | migrations/versions/abc59044a6c9_publishing_analytics_repurpose.py:1030 | across publish jobs, published posts, Naver packages and bulk rows, equal approval ids mean equal workspace, content, version and hash in every reachable state |
| Approval.PublishingComplete | migrations/versions/abc59044a6c9_publishing_analytics_repurpose.py:948-973 | the exact-approval key of a publishing row always binds |
| Approval.PackagePins | migrations/versions/abc59044a6c9_publishing_analytics_repurpose.py:973-975 | a Naver package pins the approval request's content, version and hash, and the content version |
| Approval.PackagePinsApproval | migrations/versions/abc59044a6c9_publishing_analytics_repurpose.py:973-975 | in every continuation the cited request exists with the cited content, version and hash, and so does the cited version |
| Approval.ContentVersionIsFinal | migrations/versions/4fd7a4ed3cfb_research_generation.py:890-920 | a committed content version stays with every column unchanged |
| History.GuardHistory | migrations/versions/657df178a4f3_security_operations_ga.py:1246-1274 | the trigger loop accepts exactly updates that leave every listed JSON field equal, and no delete |
| History.ChainMeansAgree | migrations/versions/b386e9e57103_media_bulk.py:1003-1014 | the generated OR chain is false exactly if the rows agree on every column, NULLs comparing equal |
| History.LoopIsChain | migrations/versions/657df178a4f3_security_operations_ga.py:1262-1270 | the loop and the OR chain accept the same updates for all rows if and only if the conversion to JSON is injective |
| History.GuardIsTrigger | migrations/versions/657df178a4f3_security_operations_ga.py:1275-1286 | with an injective conversion both forms are the engine's triggers, for any list of real columns |
| History.ChainImpliesLoop | migrations/versions/657df178a4f3_security_operations_ga.py:1262-1270 | for any conversion the loop accepts what agrees on the real columns: a name that is no column freezes nothing |
| History.HistoryForever | migrations/versions/657df178a4f3_security_operations_ga.py:118-260 | every committed row of a guarded table is in every later state with each frozen column unchanged |
| History.LegalHoldForever | migrations/versions/657df178a4f3_security_operations_ga.py:119-132 | a legal hold can never be removed or altered in any of its twelve frozen fields |
| Quorum.RowsCountDeciders | migrations/versions/f56325b3586e_quality_approval.py:469 | the number of decision rows equals the number of distinct deciders, for any further filter |
| Quorum.QuorumOnlyGrows | migrations/versions/f56325b3586e_quality_approval.py:520-527 | recorded rows only accumulate over any run, for any filter that fixes the group |
| Quorum.StageQuorum | migrations/versions/f56325b3586e_quality_approval.py:451-470 | for every stage of every request decisions only grow and count their deciders |
| Quorum.CommandQuorum | migrations/versions/552b43678b02_billing_developer_b2b_admin.py:617-628 | for every administrative command approvals only grow and count their approvers |
| Tenancy.AdmittedIff | migrations/versions/0001_foundation.py:22-32 | the isolation policy admits a row if and only if a workspace is set and is the row's |
| Tenancy.UnsetSeesNothing | migrations/versions/0001_foundation.py:116-125 | an unset or blank workspace sees no row |
| Sessions.SeesExactly | migrations/versions/0001_foundation.py:22-32 | a session reads exactly the tenant rows of its workspace, as stored |
| Sessions.SessionInserts | migrations/versions/0001_foundation.py:121-124 | a session's INSERT takes effect exactly if all its rows are of its workspace and it succeeds; exactly those rows are added as given |
| Sessions.SessionUpdates | migrations/versions/0003_keywords_planning.py:928-930 | its UPDATE takes effect exactly if its own targets stay in its workspace and updating them succeeds; exactly they get their new values |
| Sessions.SessionDeletes | migrations/versions/0003_keywords_planning.py:928-930 | its DELETE takes effect exactly if deleting its own targets succeeds; exactly they and what hangs on them are gone |
| Sessions.DeletedRows | migrations/versions/0003_keywords_planning.py:928-930 | a visible target is gone, and with qualified keys every row of others stays |
| Sessions.UnsetChangesNothing | migrations/versions/0001_foundation.py:116-125 | without a workspace no statement changes anything |
| Tenancy.ClosureIsVisible | migrations/versions/0003_keywords_planning.py:923-932 | a session's cascade is the one it can see, and stays in its view |
| Tenancy.MigrationsQualify | migrations/versions/0002_tenancy_auth_knowledge.py:536 | for tables that include what the workspace-qualified CASCADE keys reach, the migrations meet the isolation premise if and only if none of them is the parent of a single-column CASCADE key: not agencies, federated_provider_connections or scim_configurations |
| IsolationLimits.SameWorkspaceExactly | migrations/versions/0002_tenancy_auth_knowledge.py:536-538 | a key keeps referring rows in the workspace of the row they cite if and only if it pairs their workspace_id columns |
| IsolationLimits.CascadesStayInDatabase | migrations/versions/0002_tenancy_auth_knowledge.py:837-846 | in one database cascades stay in a session's view if and only if no CASCADE reference leaves it |
| IsolationLimits.CascadesStayExactly | migrations/versions/0002_tenancy_auth_knowledge.py:837-846 | in all databases cascades stay in every session's view if and only if the CASCADE keys out of tenant tables qualify |
| IsolationLimits.DeleteReaches | migrations/versions/0002_tenancy_auth_knowledge.py:536 | in any schema and database, deleting one's own row removes another workspace's row that hangs on it by CASCADE |
| IsolationLimits.UnqualifiedKeyLeaks | migrations/versions/0002_tenancy_auth_knowledge.py:536 | for every unqualified CASCADE key between tenant tables there is a history that leaves a workspace without a row it committed and never deleted |
| IsolationLimits.AgencyAndScimLeak | migrations/versions/0002_tenancy_auth_knowledge.py:684 | for instance the keys of agency_clients and scim_resource_links |
| Tenancy.StepIsLocal | migrations/versions/4fd7a4ed3cfb_research_generation.py:879-888 | a tenant's step does to its rows what those rows alone determine and changes no other row, cascades included |
| Tenancy.OthersUntouched | migrations/versions/0003_keywords_planning.py:923-932 | another workspace's view is unchanged by a local step |
| Tenancy.DeleteSuccessIsLocal | migrations/versions/4fd7a4ed3cfb_research_generation.py:879-888 | if all keys into tenant tables carry workspace_id, a delete succeeds if and only if it would on the tenant's rows alone, cascade, RESTRICT and triggers included |
| Tenancy.TurnIsStep | migrations/versions/0002_tenancy_auth_knowledge.py:837-846 | what sessions do under the policy are steps of the machine |
| Tenancy.AsIfAlone | migrations/versions/0002_tenancy_auth_knowledge.py:837-846 | after any interleaving with commits and rollbacks a workspace's committed and open rows are its own statements, less those rolled back, replayed on its own initial rows |
| Tenancy.Noninterference | migrations/versions/0001_foundation.py:116-125 | databases that agree on a workspace still agree on it after histories with the same effective statements of that workspace, whatever other tenants did |
| Policies.FilterIsExact | migrations/versions/0002_tenancy_auth_knowledge.py:848-859 | the policy on memberships hides no row that a nested subquery looks for |
| Policies.ReadableExactly | migrations/versions/0002_tenancy_auth_knowledge.py:848-859 | a session reads exactly the memberships of its workspace and of its user |
| Policies.NestedPoliciesAreExact | migrations/versions/0002_tenancy_auth_knowledge.py:883-925 | roles and workspaces visible through filtered memberships are those visible through all memberships, for every session |
| Policies.NestedReadMeaning | migrations/versions/0002_tenancy_auth_knowledge.py:883-925 | a session reads exactly the roles and workspaces of its own workspace and of those its user is a member of; NULL is never readable |
| Policies.ResolveThenLookup | migrations/versions/552b43678b02_billing_developer_b2b_admin.py:1364-1429 | a lookup under the resolved workspace returns exactly what an unrestricted one does, and LIMIT 1 has one possible answer |
| Policies.ResolvedRow | migrations/versions/552b43678b02_billing_developer_b2b_admin.py:1364-1429 | if a row has the given values the answer is its workspace and the lookup returns it alone; if none has, NULL and nothing |
| Policies.ResolversInRuns | migrations/versions/552b43678b02_billing_developer_b2b_admin.py:1364-1429 | the same for the three resolvers in every reachable state |
| Consent.SoundIsLinear | migrations/versions/657df178a4f3_security_operations_ga.py:502-511 | no row has two predecessors or two successors, and no matter has two roots |
| Consent.SupersedesExactly | migrations/versions/657df178a4f3_security_operations_ga.py:512-521 | superseding is holding the stored foreign key to the other row |
| Consent.ChainsNeverMerge | migrations/versions/657df178a4f3_security_operations_ga.py:505 | of two walks that meet, the longer passes through the start of the other |
| Consent.GroundedExactly | migrations/versions/657df178a4f3_security_operations_ga.py:512-521 | all walks end at a root if and only if the rows have insertion times that respect their predecessors |
| Consent.AcyclicInRuns | migrations/versions/657df178a4f3_security_operations_ga.py:487-521 | in every committed state of every run all walks end if and only if no row walks back to itself |
| Consent.OneInsertExactly | migrations/versions/657df178a4f3_security_operations_ga.py:512-521 | after inserting one row all walks still end if and only if it is a root or its predecessor was stored before |
| Consent.WalksEnd | migrations/versions/657df178a4f3_security_operations_ga.py:487-521 | if inserts name stored predecessors every walk ends at a root in every state of the run |
| Consent.OneRootOneHead | migrations/versions/657df178a4f3_security_operations_ga.py:505-511 | in a grounded table grouped by matter each matter with evidence has exactly one root and one head |
| Consent.ConsentSuccession | migrations/versions/657df178a4f3_security_operations_ga.py:487-521 | the same in every committed state of every run whose inserts name a stored predecessor on the same matter |
| Consent.LoopIsAccepted | migrations/versions/657df178a4f3_security_operations_ga.py:512-521 | a run that commits a row superseding itself, whose walk never ends |
| Status.Latest | migrations/versions/657df178a4f3_security_operations_ga.py:1311-1322 | the scan returns the latest unexpired observation of a component, or none exactly if there is none |
| Status.PublicStatus | migrations/versions/657df178a4f3_security_operations_ga.py:1288-1328 | column by column: in strictly ascending key order, every public enabled component and nothing else has a row with its key and name and the status and times of its latest unexpired observation, or UNKNOWN and no times |
| Status.ReportIsUnique | migrations/versions/657df178a4f3_security_operations_ga.py:1325 | the specification has one answer, so storage order does not matter |
| Status.StatusAges | migrations/versions/657df178a4f3_security_operations_ga.py:1311-1322 | as the clock advances over unchanged observations checked_at never increases, and UNKNOWN stays UNKNOWN |
| Status.UnknownUntilObserved | migrations/versions/657df178a4f3_security_operations_ga.py:1311-1322 | a component without valid observation reports again if and only if a current one was inserted since |
| Merges.SortDistinct | migrations/versions/0003_keywords_planning.py:1000-1005 | the distinct ordered aggregate has exactly the members of its input |
| Merges.SortSorts | migrations/versions/0003_keywords_planning.py:1000-1005 | it is strictly ascending in any total text order |
| Merges.MergedMeaning | migrations/versions/657df178a4f3_security_operations_ga.py:1152-1167 | a merged list holds a string exactly if it was added or is the text of an earlier element |
| Merges.MfaRewrite | migrations/versions/657df178a4f3_security_operations_ga.py:1149-1179 | for every JSON value the rewrite satisfies the new CHECK, loses no string entry, adds only privileged roles and earlier texts, and is idempotent |
| Rewrites.MfaRewriteExactly | migrations/versions/657df178a4f3_security_operations_ga.py:1149-1173 | a list with both privileged roles is left alone; any other value becomes the ascending list, once each, of both and of the texts an array held |
| Merges.RoundTripExactly | migrations/versions/0003_keywords_planning.py:1048-1060 | for one value the downgrade undoes the upgrade if and only if it is a sorted list of distinct strings, none of them a planning key |
| Merges.RolesRoundTripExactly | migrations/versions/0003_keywords_planning.py:984-1010 | upgrade and downgrade restore the roles table if and only if every extended system role is such a list and every other role lacks the keys and is no scalar |
| Merges.UpgradeRolesTwice | migrations/versions/0003_keywords_planning.py:984-1010 | running the permission upgrade again changes nothing |
| Merges.HeldPermissionsAreLost | migrations/versions/0003_keywords_planning.py:1048-1060 | for every roles table upgrade and downgrade abort exactly if a role not extended holds a scalar, and otherwise no role keeps any planning key, held before or not |
| Rewrites.DowngradeExactly | migrations/versions/0003_keywords_planning.py:1048-1060 | every role keeps its flag and key; an array becomes exactly its elements that are no planning key, in order and with repetitions; an object keeps exactly its other fields; a scalar aborts the downgrade |
| Rewrites.AdditionsExactly | migrations/versions/0003_keywords_planning.py:986-997 | which permissions each built-in role receives |
| Rewrites.UpgradeExactly | migrations/versions/0003_keywords_planning.py:998-1008 | a built-in system role becomes the ascending list, once each, of its texts and what it receives, with one null at the end if it had one; every other role is unchanged |

## Left out

- Concurrent transactions and savepoints: the machine runs one transaction at a time.
- ON DELETE SET NULL, which only keys of sessions, SCIM links, invitations and current brand and product versions use.
- Success of INSERT and UPDATE as an observation: isolation speaks of statements that took effect; a global unique key such as `id` can make another tenant's row the reason one fails.
- Isolation of agencies, federated_provider_connections and scim_configurations, which are under the isolation policy: it is false there, as `IsolationLimits` shows, and the isolation results exclude them.
- Brands and products as parents in `Tenancy.DeleteSuccessIsLocal`: their single-column RESTRICT keys are not workspace-qualified.
- Platform, operator and worker policies, and the INSERT, UPDATE and DELETE policies of memberships and workspaces, which add only the isolation predicate again.
- Session settings that are neither blank nor a uuid, whose cast raises.
- Credit holds, ledgers and quotas, of which the migrations show only per-row CHECKs.
- Job, saga, webhook and outbox transitions, whose state columns are free strings in the database.
- Hash chains, which the database stores and never checks.
- Guarded tables other than legal holds are covered by `History.HistoryForever` and not listed one by one.
- The DELETE-only trigger of keyword_provider_calls and the 657df178a4f3 permission merge, which would repeat results given here.
- Idempotency keys with NULLS NOT DISTINCT, and partial unique indexes other than the consent root.
- Collations, timestamps and text forms of JSON: orders and renderings are parameters; a component key stands for its rank.
- GRANT, REVOKE, TRUNCATE, disabling triggers, table creation and drop order: superuser actions and finite facts.
- The application under src/ and the frontend: wiring, I/O and user interface.
