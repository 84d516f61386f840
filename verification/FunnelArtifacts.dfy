/** The artifacts that the proposal, its review and the readiness envelope hand to each other, and their hashes. */
module FunnelArtifacts {
  import opened Support
  import opened TimestampAudit
  import opened EvidenceCollection
  import opened ReadinessGate

  /** The hashes of the artifacts a gate was judged from. */
  datatype GateSources = GateSources(
    reaudit: Digest, baseline: Digest, status: Digest, evidence: Digest, ad: Digest, ae: Digest, history: Digest)

  datatype GateFile = GateFile(
    rows: seq<GateRow>, state: GateState, sources: GateSources, pairId: Digest, agPairId: Digest)

  /** The artifacts every later step reads again; those it only links by hash are given by their hash. */
  datatype Inputs = Inputs(
    gate: GateFile, reaudit: AuditFile, baseline: Digest, status: Collection, evidence: EvidenceFile, ad: Digest,
    ae: Digest, history: Digest)

  datatype Sources = Sources(
    gate: Digest, reaudit: Digest, baseline: Digest, status: Digest, evidence: Digest, agPairId: Digest, ad: Digest,
    ae: Digest, history: Digest)

  // ---- Proposal ----

  datatype Preconditions = Preconditions(
    result: Option<string>, settlementHash: Option<Digest>, updatedAt: Option<string>, noLinkedEvaluation: bool,
    notExpiredBefore: int, notPreviouslyApplied: bool, notSuperseded: bool)

  datatype Disposition =
    | Proposed | GateNotReady | NoEligibleTransition | ProposalLineageFailure | ProposalSourceMissing
    | CanonicalTimestampAlreadyPresent | SettlementResultChanged | SettlementLineageDrifted | ProposalTimestampConflict
    | ProposalTimezoneAmbiguous | ProposalSourceStale | ProposalBlocked | EvaluationHasAppeared | EvidenceDrifted

  /** No preconditions stands for an absent or incomplete set. */
  datatype ProposalRow = ProposalRow(
    ticker: string, proposed: Option<string>, evidenceIdentity: Option<string>, evidenceHash: Option<Digest>,
    preconditions: Option<Preconditions>, disposition: Disposition, hash: Digest)

  datatype ProposalState =
    NoEligibleProposals | ProposalConflict | ProposalDrift | ReadyForReview | PartiallyReadyForReview

  datatype Proposal = Proposal(
    id: Digest, rows: seq<ProposalRow>, sources: Sources, generatedAt: int, expiresAt: int, state: ProposalState,
    executionAuthorized: bool)

  /** The review manifest published with a proposal. */
  datatype ProposalManifest = ProposalManifest(
    pairId: Digest, proposalHash: Digest, rowsHash: Digest, executionAuthorized: bool)

  // ---- Review ----

  datatype Approval = Approval(
    proposalHash: Digest, manifestHash: Digest, rows: Option<seq<Digest>>, reviewer: string, approvedAt: Option<int>,
    expiresAt: Option<int>, separateExecutionOnly: bool, authorizesExecution: bool, rejected: bool, complete: bool)

  datatype ReviewResult = Eligible | Ineligible | RowLineageFailure | RowEvidenceConflict | RowDrifted

  datatype ReviewRow = ReviewRow(ticker: string, proposalRowHash: Digest, result: ReviewResult, verified: bool)

  datatype ReviewState =
    | ReviewLineageFailure | ProposalHasExpired | CurrentStateDrifted | ReviewEvidenceConflict | ApprovalInvalid
    | ReviewRejected | AwaitingApproval | NoRowsToAdvance | Approved

  datatype Attestation = Attestation(
    rows: seq<ReviewRow>, state: ReviewState, sources: Sources, proposalHash: Digest, manifestHash: Digest,
    approvalHash: Option<Digest>, pairId: Digest, executionAuthorized: bool)

  datatype Advancement = Advancement(
    pairId: Digest, attestationHash: Digest, proposalHash: Digest, manifestHash: Digest, eligible: seq<Digest>,
    approvalHash: Option<Digest>, expiresAt: int, state: ReviewState, executionAuthorized: bool)

  // ---- Hashes ----

  /** Canonical hashes by kind of artifact; a row's own hash field is blanked first. */
  datatype Hashes = Hashes(
    audit: AuditFile -> Digest,
    collection: Collection -> Digest,
    evidence: EvidenceFile -> Digest,
    gate: GateFile -> Digest,
    proposalRow: ProposalRow -> Digest,
    proposalRows: seq<ProposalRow> -> Digest,
    proposalId: (Digest, int, seq<ProposalRow>) -> Digest,
    proposal: Proposal -> Digest,
    manifest: ProposalManifest -> Digest,
    approval: Approval -> Digest,
    reviewId: (Digest, int, Option<Digest>, seq<ReviewRow>) -> Digest,
    reviewPair: (Digest, ReviewState) -> Digest,
    attestation: Attestation -> Digest)

  /** These two artifacts do not collide. */
  predicate Apart<A(==)>(hash: A -> Digest, a: A, b: A) { hash(a) == hash(b) ==> a == b }

  function SourcesOf(h: Hashes, i: Inputs): Sources {
    Sources(h.gate(i.gate), h.audit(i.reaudit), i.baseline, h.collection(i.status), h.evidence(i.evidence),
      i.status.pairId, i.ad, i.ae, i.history)
  }

  /** The gate was judged from these very artifacts. */
  predicate GateLinked(h: Hashes, i: Inputs) {
    i.gate.sources == GateSources(
      h.audit(i.reaudit), i.baseline, h.collection(i.status), h.evidence(i.evidence), i.ad, i.ae, i.history)
  }

  predicate DistinctBy<T, K(==)>(rows: seq<T>, key: T -> K) {
    forall i, j :: 0 <= i < j < |rows| ==> key(rows[i]) != key(rows[j])
  }

  function Sealed(h: Hashes, row: ProposalRow): ProposalRow { row.(hash := h.proposalRow(row.(hash := ""))) }

  lemma SameHashSameRow(h: Hashes, a: ProposalRow, b: ProposalRow)
    requires Apart(h.proposalRow, a.(hash := ""), b.(hash := ""))
    requires a == Sealed(h, a) && b == Sealed(h, b) && a.hash == b.hash
    ensures a == b
  {
    assert a.(hash := "") == b.(hash := "");
    assert a == a.(hash := "").(hash := a.hash) && b == b.(hash := "").(hash := b.hash);
  }
}
