/** The keys, CHECKs and triggers of the migrations that the results rest on.

    A result never fixes the whole schema: it asks that the schema has at least a named group of
    constraints, so whatever else the migrations install only narrows the runs it speaks of. */
module BlogOps {
  import opened Sql
  import opened Schemas

  function Key(child: Table, parent: Table, cols: set<Pair>, onDelete: Action): ForeignKey {
    ForeignKey(child, parent, cols, onDelete, false)
  }

  /** `(workspace_id, c) -> (workspace_id, id)`. */
  function Tenant(child: Table, c: Column, parent: Table, onDelete: Action): ForeignKey {
    Key(child, parent, {Pair(WorkspaceId, WorkspaceId), Pair(c, Id)}, onDelete)
  }

  function Plain(t: Table, cols: set<Column>): Unique { Unique(t, cols, Lit(True)) }

  /** A column declared NOT NULL. */
  predicate Required(s: Schema, t: Table, c: Column) { Check(t, NotNull(c)) in s.checks }

  predicate IsImmutable(s: Schema, t: Table) { TableTrigger(t, Immutable) in s.triggers }

  // ---------- generation and knowledge (4fd7a4ed3cfb, 0002) ----------

  const MarkerContent := Tenant(ContentLibraryMarkers, ContentId, Contents, Cascade)
  const StepJob := Tenant(GenerationJobSteps, JobId, GenerationJobs, Cascade)
  const ModelRunStep := Key(ModelRuns, GenerationJobSteps,
    {Pair(WorkspaceId, WorkspaceId), Pair(JobId, JobId), Pair(StepId, Id)}, Restrict)
  const SnapshotSourceVersion := Tenant(GenerationSnapshotSources, SourceVersionId, SourceVersions, Restrict)
  const SourceVersionSource := Tenant(SourceVersions, SourceId, KnowledgeSources, Cascade)
  const SourceVersionKey := Plain(SourceVersions, {WorkspaceId, Id})

  predicate MarkerConstraints(s: Schema) {
    && MarkerContent in s.keys && IsImmutable(s, ContentLibraryMarkers)
    && Required(s, ContentLibraryMarkers, WorkspaceId) && Required(s, ContentLibraryMarkers, ContentId)
  }

  predicate ModelRunConstraints(s: Schema) {
    && ModelRunStep in s.keys && StepJob in s.keys && IsImmutable(s, ModelRuns)
    && Required(s, ModelRuns, WorkspaceId) && Required(s, ModelRuns, JobId) && Required(s, ModelRuns, StepId)
  }

  predicate KnowledgeConstraints(s: Schema) {
    && SnapshotSourceVersion in s.keys && SourceVersionSource in s.keys && SourceVersionKey in s.uniques
    && IsImmutable(s, GenerationSnapshotSources) && TableTrigger(SourceVersions, NoUpdate) in s.triggers
    && Required(s, GenerationSnapshotSources, WorkspaceId) && Required(s, GenerationSnapshotSources, SourceVersionId)
    && Required(s, SourceVersions, SourceId)
  }

  // ---------- bulk work (b386e9e57103) ----------

  const RowJob := Tenant(BulkRows, JobId, BulkJobs, Cascade)
  const AttemptRow := Key(BulkRowAttempts, BulkRows,
    {Pair(WorkspaceId, WorkspaceId), Pair(JobId, JobId), Pair(RowId, Id)}, Cascade)

  predicate AttemptConstraints(s: Schema) {
    && AttemptRow in s.keys && RowJob in s.keys && IsImmutable(s, BulkRowAttempts)
    && Required(s, BulkRowAttempts, WorkspaceId) && Required(s, BulkRowAttempts, JobId)
    && Required(s, BulkRowAttempts, RowId)
  }

  // ---------- planning (0003) ----------

  const CommentParent := Tenant(PlanningComments, ParentCommentId, PlanningComments, Cascade)
  const PlanCampaign := Tenant(MonthlyPlanProposals, CampaignId, Campaigns, Restrict)

  predicate PlanConstraints(s: Schema) {
    && PlanCampaign in s.keys && TableTrigger(MonthlyPlanProposals, PlanGuard) in s.triggers
    && Required(s, MonthlyPlanProposals, WorkspaceId) && Required(s, MonthlyPlanProposals, Status)
  }

  // ---------- all constraints on contents and bulk_jobs ----------

  /** `(workspace_id, c) -> (workspace_id, id)` for some column `c`. */
  predicate CitesId(k: ForeignKey) {
    exists m | m in k.cols :: m.to == Id && k.cols == {Pair(WorkspaceId, WorkspaceId), m}
  }

  /** The CHECKs of `t`, NOT NULL apart, leave `id` alone, and other tables cite it with workspace_id. */
  predicate PlainIdentity(s: Schema, t: Table) {
    && Plain(t, {Id}) in s.uniques
    && (forall c | c in s.checks && c.table == t :: c.cond == NotNull(Id) || !MentionsColumn(c.cond, Id))
    && (forall k | k in s.keys && k.parent == t :: CitesId(k))
  }

  const ContentBrand := Tenant(Contents, BrandId, Brands, Restrict)
  const ContentBrief := Tenant(Contents, BriefId, ContentBriefs, Restrict)
  const ContentCurrent := Tenant(Contents, CurrentVersionId, ContentVersions, Restrict).(deferred := true)

  predicate ContentLink(k: ForeignKey) { k == ContentBrand || k == ContentBrief || k == ContentCurrent }

  /** contents has no trigger, these two unique keys and three foreign keys. */
  predicate ContentsConstraints(s: Schema) {
    && PlainIdentity(s, Contents)
    && (forall g | g in s.triggers :: g.table != Contents)
    && (forall u | u in s.uniques && u.table == Contents ::
          u == Plain(Contents, {Id}) || u == Plain(Contents, {WorkspaceId, Id}))
    && (forall k | k in s.keys && k.child == Contents :: ContentLink(k))
  }

  /** FROZEN_COLUMNS['bulk_jobs']. */
  const BulkJobFields: seq<Column> :=
    [WorkspaceId, CampaignId, Named("input_file_id"), Named("mapping_id"), Named("template_version_id"),
     Named("requested_by"), Named("operation"), Named("priority"), Named("idempotency_key"), Named("request_hash"),
     Named("input_snapshot_hash"), Named("mapping_snapshot"), Named("mapping_snapshot_hash"),
     Named("template_snapshot"), Named("template_snapshot_hash"), Named("brand_snapshot"),
     Named("brand_snapshot_hash"), Named("model_policy_snapshot"), Named("model_policy_hash"),
     Named("quality_policy_snapshot"), Named("quality_policy_hash"), Named("approval_policy_snapshot"),
     Named("approval_policy_hash"), Named("publishing_policy_snapshot"), Named("publishing_policy_hash"),
     Named("retry_policy_snapshot"), Named("concurrency_policy_snapshot"), Named("callback_endpoint_ref"),
     Named("callback_secret_ref"), Named("dry_run"), Named("sample_size"), Named("total_rows"),
     Named("estimated_cost"), Named("maximum_cost"), Named("authorized_cost"), Named("currency"),
     Named("budget_reservation_ref"), Named("max_row_attempts"), Named("concurrency_limit"),
     Named("daily_throughput_limit")]

  const BulkJobOnce :=
    Plain(BulkJobs, {WorkspaceId, Named("requested_by"), Named("operation"), Named("idempotency_key")})

  predicate BulkJobLink(k: ForeignKey) {
    || k == Tenant(BulkJobs, CampaignId, Campaigns, Restrict)
    || k == Tenant(BulkJobs, Named("input_file_id"), OtherTable("bulk_input_files"), Restrict)
    || k == Tenant(BulkJobs, Named("mapping_id"), OtherTable("bulk_mappings"), Restrict)
    || k == Tenant(BulkJobs, Named("template_version_id"), OtherTable("template_versions"), Restrict)
  }

  /** bulk_jobs has one trigger, these three unique keys and four foreign keys. */
  predicate BulkJobConstraints(s: Schema) {
    && PlainIdentity(s, BulkJobs)
    && (forall g | g in s.triggers && g.table == BulkJobs :: g.trigger == FrozenSnapshot(BulkJobFields))
    && (forall u | u in s.uniques && u.table == BulkJobs ::
          u == Plain(BulkJobs, {Id}) || u == Plain(BulkJobs, {WorkspaceId, Id}) || u == BulkJobOnce)
    && (forall k | k in s.keys && k.child == BulkJobs :: BulkJobLink(k))
  }

  // ---------- exact approvals (f56325b3586e, b386e9e57103, abc59044a6c9) ----------

  /** `(workspace_id, content_version_id, content_hash) -> content_versions`. */
  function VersionAndHash(child: Table): ForeignKey {
    Key(child, ContentVersions,
        {Pair(WorkspaceId, WorkspaceId), Pair(ContentVersionId, Id), Pair(ContentHash, ContentHash)}, Restrict)
  }

  /** The same with `content_id`, against content_version_exact_identity. */
  function ExactVersion(child: Table): ForeignKey {
    Key(child, ContentVersions,
        {Pair(WorkspaceId, WorkspaceId), Pair(ContentId, ContentId), Pair(ContentVersionId, Id),
         Pair(ContentHash, ContentHash)}, Restrict)
  }

  /** `(workspace_id, c, content_id, content_version_id, content_hash)` against an exact-identity key. */
  function Exact(child: Table, c: Column, parent: Table): ForeignKey {
    Key(child, parent,
        {Pair(WorkspaceId, WorkspaceId), Pair(c, Id), Pair(ContentId, ContentId),
         Pair(ContentVersionId, ContentVersionId), Pair(ContentHash, ContentHash)}, Restrict)
  }

  function ExactApproval(child: Table): ForeignKey { Exact(child, ApprovalRequestId, ApprovalRequests) }

  const RowAssessment := Exact(BulkRows, QualityAssessmentId, QualityAssessments)

  /** `(content_id IS NULL) = (content_version_id IS NULL)
      AND (content_version_id IS NULL) = (content_hash IS NULL)`. */
  const IdentityComplete :=
    And(Same(IsNull(Col(ContentId)), IsNull(Col(ContentVersionId))),
        Same(IsNull(Col(ContentVersionId)), IsNull(Col(ContentHash))))

  /** `c IS NULL OR content_version_id IS NOT NULL`. */
  function NeedsContent(c: Column): Expr { Or(IsNull(Col(c)), NotNull(ContentVersionId)) }

  predicate PublishingTable(t: Table) { t == PublishJobs || t == PublishedPosts || t == NaverPackages }

  /** The exact-approval key of a publishing table, all of whose columns are NOT NULL. */
  predicate PublishConstraints(s: Schema) {
    forall t | t in {PublishJobs, PublishedPosts, NaverPackages} ::
      && ExactApproval(t) in s.keys && Required(s, t, WorkspaceId) && Required(s, t, ApprovalRequestId)
      && Required(s, t, ContentId) && Required(s, t, ContentVersionId) && Required(s, t, ContentHash)
  }

  predicate BulkRowConstraints(s: Schema) {
    && ExactApproval(BulkRows) in s.keys && ExactVersion(BulkRows) in s.keys && RowAssessment in s.keys
    && Required(s, BulkRows, WorkspaceId)
    && Check(BulkRows, IdentityComplete) in s.checks
    && Check(BulkRows, NeedsContent(ApprovalRequestId)) in s.checks
    && Check(BulkRows, NeedsContent(QualityAssessmentId)) in s.checks
  }

  /** The tables whose rows an exact key cites have a primary key on `id`. */
  predicate CitedConstraints(s: Schema) {
    && Plain(ApprovalRequests, {Id}) in s.uniques && Plain(QualityAssessments, {Id}) in s.uniques
    && Plain(ContentVersions, {Id}) in s.uniques
  }

  predicate PackageConstraints(s: Schema) {
    IsImmutable(s, NaverPackages) && IsImmutable(s, ContentVersions) && VersionAndHash(NaverPackages) in s.keys
  }

  // ---------- consent evidence (657df178a4f3) ----------

  const ConsentPredecessor := Tenant(ConsentEvidence, SupersedesId, ConsentEvidence, Restrict).(deferred := true)
  const ConsentKey := Plain(ConsentEvidence, {WorkspaceId, Id})
  const SingleSuccessor := Plain(ConsentEvidence, {WorkspaceId, SupersedesId})
  const SingleRoot := Unique(ConsentEvidence, {WorkspaceId, SubjectId, Purpose}, IsNull(Col(SupersedesId)))

  predicate ConsentConstraints(s: Schema) {
    && ConsentPredecessor in s.keys
    && ConsentKey in s.uniques && SingleSuccessor in s.uniques && SingleRoot in s.uniques
    && IsImmutable(s, ConsentEvidence)
    && Required(s, ConsentEvidence, WorkspaceId) && Required(s, ConsentEvidence, Id)
    && Required(s, ConsentEvidence, SubjectId) && Required(s, ConsentEvidence, Purpose)
  }

  /** HISTORY_FROZEN_FIELDS['security_legal_holds']. */
  const LegalHoldFields: seq<Column> :=
    [Id, WorkspaceId, Named("external_matter_ref"), Named("title"), Named("reason"), Named("scope_snapshot"),
     Named("scope_hash"), Named("evidence_object_refs"), Named("activated_by"), Named("activated_at"),
     Named("expires_at"), Named("created_at")]

  // ---------- CASCADE keys of the tenant tables ----------

  function T(name: string): Table { OtherTable(name) }

  predicate CascadesBy(k: ForeignKey, child: Table, c: Column, parent: Table) { k == Tenant(child, c, parent, Cascade) }

  const ChunkDocument := Key(T("source_chunks"), T("source_documents"),
    {Pair(WorkspaceId, WorkspaceId), Pair(SourceVersionId, SourceVersionId), Pair(Named("document_id"), Id)}, Cascade)

  /** 0002, lines 217, 305, 500 and 708. */
  predicate KnowledgeCascade(k: ForeignKey) {
    || CascadesBy(k, T("knowledge_jobs"), SourceId, KnowledgeSources)
    || CascadesBy(k, SourceVersions, SourceId, KnowledgeSources)
    || CascadesBy(k, T("source_documents"), SourceVersionId, SourceVersions)
    || k == ChunkDocument
  }

  /** 0003, lines 249, 290-333, 510-552, 618 and 704. */
  predicate KeywordCascade(k: ForeignKey) {
    || CascadesBy(k, T("keyword_alert_rules"), Named("keyword_id"), T("keywords"))
    || CascadesBy(k, T("keyword_collection_members"), Named("collection_id"), T("keyword_collections"))
    || CascadesBy(k, T("keyword_collection_members"), Named("keyword_id"), T("keywords"))
    || CascadesBy(k, T("keyword_content_links"), Named("keyword_id"), T("keywords"))
    || CascadesBy(k, T("keyword_intent_revisions"), Named("keyword_id"), T("keywords"))
    || CascadesBy(k, T("keyword_cluster_members"), Named("cluster_id"), T("keyword_clusters"))
    || CascadesBy(k, T("keyword_cluster_members"), Named("keyword_id"), T("keywords"))
    || CascadesBy(k, T("keyword_metrics"), Named("keyword_id"), T("keywords"))
    || CascadesBy(k, T("keyword_research_items"), JobId, T("keyword_research_jobs"))
    || CascadesBy(k, T("keyword_score_snapshots"), Named("keyword_id"), T("keywords"))
  }

  /** 0003, lines 207, 227, 641, 732, 780 and 840. */
  predicate PlanningCascade(k: ForeignKey) {
    || k == CommentParent
    || CascadesBy(k, T("campaign_spend_ledger"), CampaignId, Campaigns)
    || CascadesBy(k, T("topic_intent_revisions"), Named("topic_node_id"), T("topic_clusters"))
    || CascadesBy(k, T("content_brief_assignments"), BriefId, ContentBriefs)
    || CascadesBy(k, T("content_brief_versions"), BriefId, ContentBriefs)
    || CascadesBy(k, T("content_brief_decisions"), BriefId, ContentBriefs)
  }

  /** 4fd7a4ed3cfb, lines 224, 239 and 564, and b386e9e57103, lines 805, 870 and 941. */
  predicate ProductionCascade(k: ForeignKey) {
    || CascadesBy(k, T("content_edit_leases"), ContentId, Contents)
    || k == MarkerContent || k == StepJob
    || CascadesBy(k, T("media_plan_items"), Named("plan_id"), T("media_plan_versions"))
    || k == RowJob || k == AttemptRow
  }

  /** f56325b3586e, lines 289-345, 395, 410, 427 and 445. */
  predicate QualityCascade(k: ForeignKey) {
    || CascadesBy(k, T("duplication_reports"), Named("report_id"), T("quality_reports"))
    || CascadesBy(k, T("fact_citation_reports"), Named("report_id"), T("quality_reports"))
    || CascadesBy(k, T("morphology_reports"), Named("report_id"), T("quality_reports"))
    || CascadesBy(k, T("naturalness_reports"), Named("report_id"), T("quality_reports"))
    || CascadesBy(k, T("quality_assessment_reports"), Named("assessment_id"), QualityAssessments)
    || CascadesBy(k, T("quality_mentions"), Named("comment_id"), T("quality_comments"))
    || CascadesBy(k, T("safety_policy_reports"), Named("report_id"), T("quality_reports"))
    || CascadesBy(k, T("seo_reports"), Named("report_id"), T("quality_reports"))
  }

  /** The workspace-qualified CASCADE keys of the migrations, all 34 of them. */
  predicate TenantCascade(k: ForeignKey) {
    KnowledgeCascade(k) || KeywordCascade(k) || PlanningCascade(k) || ProductionCascade(k) || QualityCascade(k)
  }

  lemma KnowledgeCarriesWorkspace(k: ForeignKey)
    requires KnowledgeCascade(k)
    ensures Pair(WorkspaceId, WorkspaceId) in k.cols
  {
  }

  lemma KeywordCarriesWorkspace(k: ForeignKey)
    requires KeywordCascade(k)
    ensures Pair(WorkspaceId, WorkspaceId) in k.cols
  {
  }

  lemma PlanningCarriesWorkspace(k: ForeignKey)
    requires PlanningCascade(k)
    ensures Pair(WorkspaceId, WorkspaceId) in k.cols
  {
  }

  lemma ProductionCarriesWorkspace(k: ForeignKey)
    requires ProductionCascade(k)
    ensures Pair(WorkspaceId, WorkspaceId) in k.cols
  {
  }

  lemma QualityCarriesWorkspace(k: ForeignKey)
    requires QualityCascade(k)
    ensures Pair(WorkspaceId, WorkspaceId) in k.cols
  {
  }

  lemma TenantCascadeCarriesWorkspace(k: ForeignKey)
    requires TenantCascade(k)
    ensures Pair(WorkspaceId, WorkspaceId) in k.cols
  {
    if KnowledgeCascade(k) {
      KnowledgeCarriesWorkspace(k);
    } else if KeywordCascade(k) {
      KeywordCarriesWorkspace(k);
    } else if PlanningCascade(k) {
      PlanningCarriesWorkspace(k);
    } else if ProductionCascade(k) {
      ProductionCarriesWorkspace(k);
    } else {
      QualityCarriesWorkspace(k);
    }
  }

  // ---------- CASCADE keys of one column, all in 0002 ----------

  function ById(child: Table, c: Column, parent: Table): ForeignKey { Key(child, parent, {Pair(c, Id)}, Cascade) }

  const AgencyOfClient := ById(T("agency_clients"), Named("agency_id"), T("agencies"))
  const ConfigurationOfLink := ById(T("scim_resource_links"), Named("configuration_id"), T("scim_configurations"))
  const ConnectionOfIdentity :=
    ById(T("external_identities"), Named("connection_id"), T("federated_provider_connections"))
  const SessionOfToken := ById(T("session_refresh_tokens"), Named("session_id"), T("login_sessions"))
  const FactorOfCode := ById(T("mfa_recovery_codes"), Named("factor_id"), T("mfa_factors"))

  predicate UserCascade(k: ForeignKey) {
    && k == ById(k.child, UserId, T("users"))
    && k.child in {T("authentication_challenges"), T("identity_one_time_tokens"), T("login_sessions"), T("mfa_factors"),
                   T("terms_consents"), T("user_credentials"), T("external_identities")}
  }

  predicate WorkspaceCascade(k: ForeignKey) {
    || k == ById(T("agency_clients"), ClientWorkspaceId, T("workspaces"))
    || (&& k == ById(k.child, WorkspaceId, T("workspaces"))
        && k.child in {T("agencies"), T("federated_provider_connections"), T("roles"), T("scim_configurations"),
                       T("workspace_authentication_policies"), T("agency_clients"), T("memberships"),
                       T("scim_resource_links"), T("workspace_invitations")})
  }

  /** The CASCADE keys of the migrations that are not workspace-qualified, all 22 of them. */
  predicate GlobalCascade(k: ForeignKey) {
    || UserCascade(k) || WorkspaceCascade(k)
    || k == AgencyOfClient || k == ConfigurationOfLink || k == ConnectionOfIdentity
    || k == SessionOfToken || k == FactorOfCode
  }

  /** The tables they refer to. The last three are under the isolation policy. */
  predicate GlobalParent(t: Table) {
    || t == T("users") || t == T("workspaces") || t == T("login_sessions") || t == T("mfa_factors")
    || t == T("agencies") || t == T("federated_provider_connections") || t == T("scim_configurations")
  }

  lemma GlobalCascadeIsPlain(k: ForeignKey)
    requires GlobalCascade(k)
    ensures k.onDelete == Cascade && GlobalParent(k.parent) && Pair(WorkspaceId, WorkspaceId) !in k.cols
  {
  }

  lemma GlobalParentHasKey(t: Table) returns (k: ForeignKey)
    requires GlobalParent(t)
    ensures GlobalCascade(k) && k.parent == t
  {
    if t == T("users") {
      k := ById(T("user_credentials"), UserId, t);
      assert UserCascade(k);
    } else if t == T("workspaces") {
      k := ById(T("agency_clients"), ClientWorkspaceId, t);
      assert WorkspaceCascade(k);
    } else if t == T("login_sessions") {
      k := SessionOfToken;
    } else if t == T("mfa_factors") {
      k := FactorOfCode;
    } else if t == T("agencies") {
      k := AgencyOfClient;
    } else if t == T("federated_provider_connections") {
      k := ConnectionOfIdentity;
    } else {
      k := ConfigurationOfLink;
    }
  }
}
