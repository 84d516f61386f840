/**
 The settlement steps from collection to envelope taken together: what the later ones can still refuse once their
 inputs link to the steps before.
 */
module Funnel {
  import opened Support
  import opened Lists
  import opened Text
  import opened TimestampAudit
  import opened EvidenceCollection
  import opened ReadinessGate
  import opened FunnelArtifacts
  import opened CanonicalizationProposal
  import opened ProposalReview
  import opened ReadinessEnvelope

  /** One run of each step; a step may have read other artifacts than the next, and only the hashes tie them. */
  datatype Runs = Runs(
    h: Hashes, lineage: Lineage,
    collectedFrom: AuditFile, world: World, collection: Collection, evidence: EvidenceFile,
    baseline: AuditFile, facts: seq<Facts>, auditor: Auditor, auditedFile: AuditFile,
    proposalInputs: Inputs, proposalTable: CanonicalizationProposal.Table, proposedAt: int, validFor: int,
    reviewInputs: Inputs, reviewTable: CanonicalizationProposal.Table, reviewed: Proposal,
    reviewManifest: ProposalManifest, reviewApproval: Option<Approval>, approvalStatus: ApprovalStatus,
    reviewedAt: int, clockSkew: int,
    envelopeInputs: Inputs, envelopeTable: CanonicalizationProposal.Table, proposal: Proposal,
    manifest: ProposalManifest, approval: Option<Approval>, attestation: Attestation, advancement: Advancement,
    envelopedAt: int)

  /** The collector published this status, and the gate accepted it, its evidence and its own new audit. */
  ghost predicate Gated(q: Runs) {
    && q.collection.rows == StatusRows(q.lineage, q.world, q.collectedFrom.rows)
    && q.collection.auditHash == q.h.audit(q.collectedFrom)
    && PairFaultOf(q.collection, q.h.collection(q.collection), q.evidence, q.h.audit(q.baseline)).None?
    && DistinctKeys(q.baseline.rows) && DistinctKeys(q.auditedFile.rows)
    && q.auditor.lineage == q.lineage
    && (forall f :: f in q.facts ==> f.artifacts == ArtifactsOf(q.evidence.rows, f.ticker))
    && q.auditedFile.rows == AuditRows(q.auditor, q.facts)
    && q.proposalInputs.gate.rows == GateRows(q.baseline.rows, q.auditedFile.rows)
    && q.proposalInputs.gate.sources.reaudit == q.h.audit(q.auditedFile)
    && q.proposalInputs.gate.sources.status == q.h.collection(q.collection)
    && q.proposalInputs.gate.sources.evidence == q.h.evidence(q.evidence)
  }

  ghost predicate Proposing(q: Runs) {
    && InputFault(q.h, q.proposalInputs, q.validFor).None?
    && q.reviewed == ProposalOf(q.h, q.proposalInputs, q.lineage, q.proposalTable, q.proposedAt, q.validFor)
  }

  ghost predicate Reviewing(q: Runs) {
    && ProposalFault(q.h, q.reviewInputs, q.reviewed, q.reviewManifest, q.clockSkew).None?
    && ApprovalStatusOf(q.h, q.reviewApproval, q.reviewed, q.reviewManifest,
         TextSorted(EligibleHashes(ReviewRows(q.reviewInputs, q.lineage, q.reviewTable, q.reviewed))), q.reviewedAt,
         q.clockSkew) == Ok(q.approvalStatus)
    && q.attestation == ReviewOf(q.h, q.reviewInputs, q.lineage, q.reviewTable, q.reviewed, q.reviewManifest,
         q.reviewApproval, q.approvalStatus, q.reviewedAt).attestation
  }

  ghost predicate Enveloping(q: Runs) {
    EnvelopeFaultOf(q.h, q.envelopeInputs, q.proposal, q.manifest, q.approval, q.attestation, q.advancement).None?
  }

  /** Each step published what it had to, and the next accepted its inputs. */
  ghost predicate Published(q: Runs) { Gated(q) && Proposing(q) && Reviewing(q) && Enveloping(q) }

  /** No two artifacts that these runs take for each other collide. */
  predicate NoCollisions(q: Runs) {
    && Apart(q.h.audit, q.collectedFrom, q.baseline)
    && Apart(q.h.audit, q.proposalInputs.reaudit, q.auditedFile)
    && Apart(q.h.audit, q.reviewInputs.reaudit, q.auditedFile)
    && Apart(q.h.audit, q.envelopeInputs.reaudit, q.auditedFile)
    && Apart(q.h.collection, q.proposalInputs.status, q.collection)
    && Apart(q.h.collection, q.reviewInputs.status, q.collection)
    && Apart(q.h.evidence, q.proposalInputs.evidence, q.evidence)
    && Apart(q.h.evidence, q.reviewInputs.evidence, q.evidence)
    && Apart(q.h.evidence, q.envelopeInputs.evidence, q.evidence)
    && Apart(q.h.gate, q.reviewInputs.gate, q.proposalInputs.gate)
    && Apart(q.h.proposal, q.proposal, q.reviewed)
    && forall a, b :: a in q.reviewed.rows && b in q.reviewed.rows ==>
         Apart(q.h.proposalRow, a.(hash := ""), b.(hash := ""))
  }

  /** All steps worked on the same gate, audit, collection, evidence and proposal. */
  lemma StepsShareArtifacts(q: Runs)
    requires Published(q) && NoCollisions(q)
    ensures q.collectedFrom == q.baseline
    ensures q.proposal == q.reviewed && q.reviewInputs.gate == q.proposalInputs.gate
    ensures q.proposalInputs.reaudit == q.auditedFile
    ensures q.reviewInputs.reaudit == q.auditedFile && q.envelopeInputs.reaudit == q.auditedFile
    ensures q.proposalInputs.status == q.collection && q.reviewInputs.status == q.collection
    ensures q.proposalInputs.evidence == q.evidence
    ensures q.reviewInputs.evidence == q.evidence && q.envelopeInputs.evidence == q.evidence
  {
    hide ProposalRows, ReviewRows, EligibleHashes, ProposalStateOf, ReviewStateOf, DistinctBy, DistinctKeys, TextSorted,
      GateRows, Sealed, FirstRowFault, Due, AuditRows, StatusRows, ApprovalStatusOf;
    assert q.collection.auditHash == q.h.audit(q.baseline);
    assert q.reviewed.sources == SourcesOf(q.h, q.proposalInputs) == SourcesOf(q.h, q.reviewInputs);
    assert q.h.proposal(q.reviewed) == q.attestation.proposalHash == q.h.proposal(q.proposal);
    assert q.attestation.sources == SourcesOf(q.h, q.reviewInputs);
    assert SourcesOf(q.h, q.envelopeInputs).reaudit == SourcesOf(q.h, q.reviewInputs).reaudit;
    assert SourcesOf(q.h, q.envelopeInputs).evidence == SourcesOf(q.h, q.reviewInputs).evidence;
  }

  /** The accepted inputs name no ticker and no key twice. */
  lemma NothingTwice(q: Runs)
    requires Published(q) && NoCollisions(q)
    ensures DistinctKeys(q.auditedFile.rows) && DistinctKeys(q.baseline.rows)
    ensures DistinctBy(q.proposalInputs.gate.rows, (g: GateRow) => g.ticker)
    ensures DistinctBy(q.auditedFile.rows, (a: AuditRow) => a.ticker)
    ensures DistinctBy(q.reviewed.rows, (p: ProposalRow) => p.ticker)
    ensures forall p :: p in q.reviewed.rows ==> p == Sealed(q.h, p)
  {
    hide ProposalRows, ReviewOf, EnvelopeFaultOf, ProposalOf, GateRows, PairFaultOf, AuditRows, StatusRows,
      Sealed, ApprovalStatusOf;
    StepsShareArtifacts(q);
  }

  // ---- What the review can refuse ----

  /** All that the artifacts hold in support of a proposed row. */
  ghost predicate Supported(q: Runs, p: ProposalRow, g: GateRow, audited: AuditRow, e: Evidence) {
    && p.ticker in q.proposalTable
    && (var row := q.proposalTable[p.ticker];
       && Unset(row.settledAt) && BinaryOutcome(row.result).Some?
       && audited.settlementHash == Some(q.lineage(p.ticker, row))
       && p.preconditions == Some(Preconditions(
            row.result, audited.settlementHash, row.updatedAt, true, q.reviewed.expiresAt, true, true)))
    && GateOpen(q.proposalInputs.gate.state)
    && g in q.proposalInputs.gate.rows && g.ticker == p.ticker && g.transition == AuthoritativeEvidenceAdded
    && audited in q.auditedFile.rows && FindRow(q.auditedFile.rows, (g.captureId, g.ticker)) == Some(audited)
    && audited.classification != TimestampConflict && audited.timezoneUnambiguous && audited.sourceFresh
    && audited.ready
    && p.evidenceHash == audited.evidenceHash
    && FindStatus(q.collection.rows, p.ticker).Some?
    && FindEvidence(q.evidence.rows, p.ticker) == Some(e)
    && audited.candidateTime == Some(e.timestamp) == p.proposed
  }

  /** Every row of the proposal was built from a row of the gate. */
  lemma RowHasItsGateRow(q: Runs, p: ProposalRow) returns (g: GateRow)
    requires Published(q) && p in q.reviewed.rows
    ensures g in q.proposalInputs.gate.rows
    ensures p == ProposalRowOf(q.h, q.proposalInputs, q.lineage, q.proposalTable, q.reviewed.expiresAt, g)
  {
    hide Gated, Reviewing, Enveloping, InputFault, ProposalRows, ProposalRowOf, ProposalStateOf, SourcesOf;
    g := RowComesFromGate(q.h, q.proposalInputs, q.lineage, q.proposalTable, q.proposedAt + q.validFor, p);
  }

  lemma ProposedRowIsSupported(q: Runs, p: ProposalRow) returns (g: GateRow, audited: AuditRow, e: Evidence)
    requires Published(q) && NoCollisions(q) && p in q.reviewed.rows && p.disposition == Proposed
    ensures Supported(q, p, g, audited, e)
  {
    hide NoCollisions, Published, BinaryOutcome, DispositionOf;
    StepsShareArtifacts(q);
    g := RowHasItsGateRow(q, p);
    ProposedExactly(q.h, q.proposalInputs, q.lineage, q.proposalTable, q.reviewed.expiresAt, g);
    audited := FindRow(q.auditedFile.rows, (g.captureId, g.ticker)).value;
    e := FindEvidence(q.evidence.rows, p.ticker).value;
  }

  lemma OneGateRow(q: Runs, a: GateRow, b: GateRow)
    requires Published(q) && NoCollisions(q)
    requires a in q.proposalInputs.gate.rows && b in q.proposalInputs.gate.rows && a.ticker == b.ticker
    ensures a == b
  {
    hide Published, NoCollisions;
    NothingTwice(q);
    var rows := q.proposalInputs.gate.rows;
    var i, j :| 0 <= i < |rows| && 0 <= j < |rows| && rows[i] == a && rows[j] == b;
  }

  lemma OneAuditRow(q: Runs, a: AuditRow, b: AuditRow)
    requires Published(q) && NoCollisions(q)
    requires a in q.auditedFile.rows && b in q.auditedFile.rows && a.ticker == b.ticker
    ensures a == b
  {
    hide Published, NoCollisions;
    NothingTwice(q);
    var rows := q.auditedFile.rows;
    var i, j :| 0 <= i < |rows| && 0 <= j < |rows| && rows[i] == a && rows[j] == b;
  }

  lemma OneProposalRow(q: Runs, a: ProposalRow, b: ProposalRow)
    requires Published(q) && NoCollisions(q)
    requires a in q.reviewed.rows && b in q.reviewed.rows && a.hash == b.hash
    ensures a == b
  {
    hide Published;
    NothingTwice(q);
    SameHashSameRow(q.h, a, b);
  }

  /** The settlement still has no timestamp, and the result and the lineage that the proposal was made from. */
  ghost predicate Unmoved(q: Runs, t: CanonicalizationProposal.Table, p: ProposalRow) {
    && p.ticker in t && p.ticker in q.proposalTable
    && (t[p.ticker].settledAt == None || t[p.ticker].settledAt == Some(""))
    && t[p.ticker].result == q.proposalTable[p.ticker].result
    && q.lineage(p.ticker, t[p.ticker]) == q.lineage(p.ticker, q.proposalTable[p.ticker])
  }

  /** The row checks find a proposed settlement drifted exactly when it has moved. */
  lemma DriftExactly(q: Runs, t: CanonicalizationProposal.Table, p: ProposalRow)
    requires Published(q) && NoCollisions(q) && p in q.reviewed.rows && p.disposition == Proposed
    ensures p.preconditions.Some?
    ensures Drifted(q.lineage, p.ticker, Current(t, p.ticker), p.preconditions.value) <==> !Unmoved(q, t, p)
  {
    hide Published, NoCollisions, BinaryOutcome;
    var g, audited, e := ProposedRowIsSupported(q, p);
  }

  /**
   A review that accepts its inputs refuses a proposed row only if its settlement has drifted since the proposal: the
   review's other row checks never fail.
   */
  lemma ReviewRejectsOnlyDrift(q: Runs, p: ProposalRow)
    requires Published(q) && NoCollisions(q) && p in q.reviewed.rows
    ensures ReviewResultOf(q.reviewInputs, q.lineage, q.reviewTable, p) ==
      if p.disposition != Proposed then Ineligible
      else if Unmoved(q, q.reviewTable, p) then Eligible
      else RowDrifted
    ensures p.disposition == Proposed ==> p.preconditions.Some?
  {
    hide Published, NoCollisions, Drifted, BinaryOutcome, Unmoved;
    if p.disposition == Proposed {
      StepsShareArtifacts(q);
      DriftExactly(q, q.reviewTable, p);
      var g, audited, e := ProposedRowIsSupported(q, p);
      OneGateRow(q, g, FindGate(q.reviewInputs.gate.rows, p.ticker).value);
      OneAuditRow(q, audited, FindAudit(q.reviewInputs.reaudit.rows, p.ticker).value);
    }
  }

  // ---- What the envelope can refuse ----

  function HandoffOfRuns(q: Runs): Handoff {
    HandoffOf(q.h, q.envelopeInputs, q.lineage, q.envelopeTable, q.proposal, q.manifest, q.approval, q.attestation,
      q.advancement, q.envelopedAt)
  }

  lemma SortedTextKeeps(hashes: seq<Digest>)
    ensures multiset(TextSorted(hashes)) == multiset(hashes)
    ensures forall hash :: hash in TextSorted(hashes) <==> hash in hashes
  {
    hide TextAtMost;
    SortKeeps(hashes, TextAtMost);
    assert forall hash :: hash in TextSorted(hashes) <==> hash in multiset(TextSorted(hashes));
    assert forall hash :: hash in hashes <==> hash in multiset(hashes);
  }

  /** The proposal row and the review row that the envelope finds for a row hash. */
  lemma EnvelopeRowWasReviewed(q: Runs, row: EnvelopeRow) returns (hash: Digest)
    requires row in HandoffOfRuns(q).envelope.rows
    ensures hash in q.advancement.eligible
    ensures row == EnvelopeRowOf(q.envelopeInputs, q.lineage, q.envelopeTable, q.proposal, q.attestation, hash)
  {
    hide EnvelopeRowOf, EnvelopeStateOf, ApprovalHolds, Earliest, ReadyHashes, TextSorted;
    var hashes := TextSorted(q.advancement.eligible);
    var rows := EnvelopeRows(q.envelopeInputs, q.lineage, q.envelopeTable, q.proposal, q.attestation, q.advancement);
    var k :| 0 <= k < |rows| && rows[k] == row;
    hash := hashes[k];
    SortedTextKeeps(q.advancement.eligible);
    assert hash in hashes;
  }

  /** Any row of the attestation reviews a row of the proposal, and a row of that hash is that very row. */
  lemma AttestedRow(q: Runs, review: ReviewRow) returns (p: ProposalRow)
    requires Published(q) && NoCollisions(q) && review in q.attestation.rows
    ensures p in q.reviewed.rows && review == ReviewRowOf(q.reviewInputs, q.lineage, q.reviewTable, p)
    ensures forall other :: other in q.reviewed.rows && other.hash == review.proposalRowHash ==> other == p
  {
    hide NoCollisions, Gated, Proposing, Enveloping, ProposalFault, ReviewResultOf, ReviewRows, ReviewStateOf,
      TextSorted, EligibleHashes, SourcesOf, ApprovalStatusOf;
    p := ReviewedRow(q.reviewInputs, q.lineage, q.reviewTable, q.reviewed, review);
    forall other | other in q.reviewed.rows && other.hash == p.hash ensures other == p {
      OneProposalRow(q, other, p);
    }
  }

  lemma AdvancedHashIsEligible(q: Runs, hash: Digest) returns (review: ReviewRow)
    requires Enveloping(q) && q.attestation.state == Approved && hash in q.advancement.eligible
    ensures review in q.attestation.rows && review.result == Eligible && review.proposalRowHash == hash
  {
    hide EnvelopeLinked, DistinctBy, EligibleHashes;
    assert hash in multiset(q.advancement.eligible);
    assert hash in multiset(EligibleHashes(q.attestation.rows));
    EligibleHashesExact(q.attestation.rows);
    assert hash in EligibleHashes(q.attestation.rows);
    review :| review in q.attestation.rows && review.result == Eligible && review.proposalRowHash == hash;
  }

  /** What an advanced row of an approved review is. */
  ghost predicate Advanced(q: Runs, row: EnvelopeRow, p: ProposalRow) {
    && p in q.reviewed.rows && p.disposition == Proposed
    && ReviewResultOf(q.reviewInputs, q.lineage, q.reviewTable, p) == Eligible
    && row.ticker == p.ticker && row.proposalRowHash == p.hash && row.proposed == p.proposed
    && row.preconditions == p.preconditions && p.preconditions.Some?
  }

  /**
   An envelope that accepts its inputs refuses a row of an approved review only if its settlement has drifted: the
   envelope's other row checks never fail.
   */
  lemma EnvelopeRejectsOnlyDrift(q: Runs, row: EnvelopeRow) returns (p: ProposalRow)
    requires Published(q) && NoCollisions(q) && q.attestation.state == Approved
    requires row in HandoffOfRuns(q).envelope.rows
    ensures Advanced(q, row, p)
    ensures row.readiness == if Unmoved(q, q.envelopeTable, p) then Ready else EnvelopeDrifted
  {
    hide NoCollisions, Gated, Proposing, Reviewing, Enveloping, HandoffOfRuns, ReviewResultOf, Drifted, BinaryOutcome,
      Unmoved;
    StepsShareArtifacts(q);
    var hash := EnvelopeRowWasReviewed(q, row);
    var eligible := AdvancedHashIsEligible(q, hash);
    p := AttestedRow(q, eligible);
    var review := FindReview(q.attestation.rows, hash).value;
    var same := AttestedRow(q, review);
    var found := FindProposal(q.proposal.rows, hash).value;
    ReviewRejectsOnlyDrift(q, p);
    var g, audited, e := ProposedRowIsSupported(q, p);
    OneAuditRow(q, audited, FindAudit(q.envelopeInputs.reaudit.rows, p.ticker).value);
    DriftExactly(q, q.envelopeTable, p);
  }

  // ---- When the steps let everything through ----

  ghost predicate IsProposed(q: Runs, p: ProposalRow) { p in q.reviewed.rows && p.disposition == Proposed }

  /** The list names the hash of every proposed row once, and nothing else. */
  ghost predicate NamesProposed(q: Runs, hashes: Option<seq<Digest>>) {
    && hashes.Some? && NoDuplicates(hashes.value)
    && forall d :: d in hashes.value <==> exists p :: IsProposed(q, p) && p.hash == d
  }

  /** The approval is complete, of this proposal and all its proposed rows, and authorises no execution by itself. */
  ghost predicate Covers(q: Runs, a: Approval) {
    && a.complete && a.proposalHash == q.h.proposal(q.reviewed) && a.manifestHash == q.h.manifest(q.reviewManifest)
    && !a.authorizesExecution && a.separateExecutionOnly && NamesProposed(q, a.rows)
  }

  /** The review has exactly the reviews of the proposal's rows. */
  lemma ReviewCoversProposal(q: Runs)
    requires Reviewing(q)
    ensures forall p :: p in q.reviewed.rows ==>
      ReviewRowOf(q.reviewInputs, q.lineage, q.reviewTable, p) in q.attestation.rows
  {
    hide ReviewRowOf, ProposalFault, ReviewStateOf, TextSorted, EligibleHashes, SourcesOf, ProposalReview.AtMost,
      ApprovalStatusOf;
    var ordered := Sort(q.reviewed.rows, ProposalReview.AtMost);
    SortKeeps(q.reviewed.rows, ProposalReview.AtMost);
    forall p | p in q.reviewed.rows
      ensures ReviewRowOf(q.reviewInputs, q.lineage, q.reviewTable, p) in q.attestation.rows
    {
      assert p in multiset(ordered);
      var k :| 0 <= k < |ordered| && ordered[k] == p;
      assert q.attestation.rows[k] == ReviewRowOf(q.reviewInputs, q.lineage, q.reviewTable, p);
    }
  }

  lemma StateOfReview(q: Runs)
    requires Reviewing(q)
    ensures q.attestation.state
         == ReviewStateOf(q.attestation.rows, q.reviewedAt >= q.reviewed.expiresAt, q.approvalStatus)
    ensures q.attestation.rows == ReviewRows(q.reviewInputs, q.lineage, q.reviewTable, q.reviewed)
    ensures ApprovalStatusOf(q.h, q.reviewApproval, q.reviewed, q.reviewManifest,
      TextSorted(EligibleHashes(q.attestation.rows)), q.reviewedAt, q.clockSkew) == Ok(q.approvalStatus)
  {
    hide ProposalFault, ReviewRows, ReviewStateOf, TextSorted, EligibleHashes, SourcesOf, ApprovalStatusOf;
  }

  lemma ReviewHashesOnce(q: Runs)
    requires Published(q) && NoCollisions(q)
    ensures DistinctBy(q.attestation.rows, (row: ReviewRow) => row.proposalRowHash)
  {
    hide NoCollisions, Gated, Proposing, Enveloping, Reviewing, ReviewResultOf, ProposalReview.AtMost, Sort;
    var rows := q.reviewed.rows;
    NothingTwice(q);
    StateOfReview(q);
    forall i, j | 0 <= i < j < |rows| ensures rows[i].hash != rows[j].hash {
      if rows[i].hash == rows[j].hash {
        OneProposalRow(q, rows[i], rows[j]);
      }
    }
    SortKeepsDistinct(rows, (p: ProposalRow) => p.hash, ProposalReview.AtMost);
  }

  lemma SortIsOnceEach(hashes: seq<Digest>)
    requires NoDuplicates(hashes)
    ensures NoDuplicates(TextSorted(hashes)) && forall d :: d in TextSorted(hashes) <==> d in hashes
  {
    hide TextAtMost;
    SortOfDistinct(hashes, TextAtMost);
  }

  ghost predicate Judged(q: Runs, p: ProposalRow, review: ReviewRow) {
    && review.proposalRowHash == p.hash
    && review.result == if p.disposition != Proposed then Ineligible
                        else if Unmoved(q, q.reviewTable, p) then Eligible
                        else RowDrifted
  }

  /** Every proposal row has its review, every review has its proposal row, and the result says whether it moved. */
  lemma ReviewedRows(q: Runs)
    requires Published(q) && NoCollisions(q)
    ensures forall p :: p in q.reviewed.rows ==>
      exists review :: review in q.attestation.rows && Judged(q, p, review)
    ensures forall review :: review in q.attestation.rows ==>
      exists p :: p in q.reviewed.rows && Judged(q, p, review)
  {
    hide NoCollisions, Gated, Proposing, Enveloping, Reviewing, ReviewResultOf, Unmoved;
    ReviewCoversProposal(q);
    forall p | p in q.reviewed.rows
      ensures exists review :: review in q.attestation.rows && Judged(q, p, review)
    {
      ReviewRejectsOnlyDrift(q, p);
      assert Judged(q, p, ReviewRowOf(q.reviewInputs, q.lineage, q.reviewTable, p));
    }
    forall review | review in q.attestation.rows
      ensures exists p :: p in q.reviewed.rows && Judged(q, p, review)
    {
      var p := AttestedRow(q, review);
      ReviewRejectsOnlyDrift(q, p);
      assert Judged(q, p, review);
    }
  }

  lemma EligibleHasRow(q: Runs, d: Digest)
    requires Published(q) && NoCollisions(q)
    ensures d in EligibleHashes(q.attestation.rows) <==>
      exists p :: IsProposed(q, p) && Unmoved(q, q.reviewTable, p) && p.hash == d
  {
    hide Published, NoCollisions, EligibleHashes, Unmoved;
    EligibleHashesExact(q.attestation.rows);
    ReviewedRows(q);
  }

  /** The eligible hashes are those of the proposed rows that have not moved, once each. */
  lemma EligibleAreUnmoved(q: Runs)
    requires Published(q) && NoCollisions(q)
    ensures
      var eligible := EligibleHashes(q.attestation.rows);
      && NoDuplicates(eligible) && NoDuplicates(TextSorted(eligible))
      && (forall d :: d in TextSorted(eligible) <==> d in eligible)
      && (forall d :: d in eligible <==> exists p :: IsProposed(q, p) && Unmoved(q, q.reviewTable, p) && p.hash == d)
  {
    hide Published, NoCollisions, TextSorted, EligibleHashes, Unmoved, IsProposed;
    var eligible := EligibleHashes(q.attestation.rows);
    ReviewHashesOnce(q);
    HashesOnce(q.attestation.rows);
    SortIsOnceEach(eligible);
    forall d ensures d in eligible <==> exists p :: IsProposed(q, p) && Unmoved(q, q.reviewTable, p) && p.hash == d {
      EligibleHasRow(q, d);
    }
  }

  ghost predicate SomeProposed(q: Runs) { exists p :: IsProposed(q, p) }

  /** A proposed settlement is not what it was any more. */
  ghost predicate SomeMoved(q: Runs, t: CanonicalizationProposal.Table) {
    exists p :: IsProposed(q, p) && !Unmoved(q, t, p)
  }

  lemma ReviewResults(q: Runs)
    requires Published(q) && NoCollisions(q)
    ensures !AnyResult(q.attestation.rows, RowLineageFailure) && !AnyResult(q.attestation.rows, RowEvidenceConflict)
    ensures AnyResult(q.attestation.rows, RowDrifted) <==> SomeMoved(q, q.reviewTable)
    ensures AnyResult(q.attestation.rows, Eligible) <==>
      exists p :: IsProposed(q, p) && Unmoved(q, q.reviewTable, p)
  {
    hide Published, NoCollisions, Unmoved;
    ReviewedRows(q);
  }

  lemma CoversExactly(q: Runs, a: Approval)
    requires Published(q) && NoCollisions(q) && !SomeMoved(q, q.reviewTable)
    ensures Covers(q, a) <==>
      Binds(q.h, a, q.reviewed, q.reviewManifest, TextSorted(EligibleHashes(q.attestation.rows)))
  {
    hide Published, NoCollisions, Unmoved, TextSorted, EligibleHashes;
    EligibleAreUnmoved(q);
  }

  /**
   How a review that accepts its inputs ends: its state is decided by the time, by proposed settlements that moved, and
   by the approval alone.
   */
  lemma ReviewEndsExactly(q: Runs)
    requires Published(q) && NoCollisions(q)
    ensures q.attestation.state ==
      if q.reviewedAt >= q.reviewed.expiresAt then ProposalHasExpired
      else if SomeMoved(q, q.reviewTable) then CurrentStateDrifted
      else if q.reviewApproval.None? then if SomeProposed(q) then AwaitingApproval else NoRowsToAdvance
      else if !Covers(q, q.reviewApproval.value) || !InForce(q.reviewApproval.value, q.reviewedAt, q.clockSkew) then
        ApprovalInvalid
      else if q.reviewApproval.value.rejected then ReviewRejected
      else if Blank(q.reviewApproval.value.reviewer) then ApprovalInvalid
      else if SomeProposed(q) then Approved
      else NoRowsToAdvance
  {
    hide NoCollisions, Gated, Proposing, Enveloping, Reviewing, TextSorted, EligibleHashes, ApprovalStatusOf, Unmoved,
      InForce, Blank, AnyResult, Covers, Binds;
    var eligible := TextSorted(EligibleHashes(q.attestation.rows));
    StateOfReview(q);
    ReviewResults(q);
    if !SomeMoved(q, q.reviewTable) && q.reviewApproval.Some? {
      CoversExactly(q, q.reviewApproval.value);
    }
    ApprovalStatusExactly(q.h, q.reviewApproval, q.reviewed, q.reviewManifest, eligible, q.reviewedAt, q.clockSkew);
  }

  /**
   A review approves exactly in time, something proposed of which nothing moved, under a complete approval in force of
   these very rows that does not reject and names a reviewer.
   */
  lemma ReviewApprovesExactly(q: Runs)
    requires Published(q) && NoCollisions(q)
    ensures q.attestation.state == Approved <==>
      && q.reviewedAt < q.reviewed.expiresAt
      && SomeProposed(q) && !SomeMoved(q, q.reviewTable)
      && q.reviewApproval.Some?
      && (var a := q.reviewApproval.value;
          Covers(q, a) && InForce(a, q.reviewedAt, q.clockSkew) && !a.rejected && !Blank(a.reviewer))
  {
    hide Published, NoCollisions, Covers, InForce, Blank, SomeProposed, SomeMoved;
    ReviewEndsExactly(q);
  }

  /** Every eligible hash of an approved review has its row in the envelope. */
  lemma EnvelopeCoversProposal(q: Runs, p: ProposalRow) returns (row: EnvelopeRow)
    requires Published(q) && NoCollisions(q) && q.attestation.state == Approved
    requires p in q.reviewed.rows && ReviewResultOf(q.reviewInputs, q.lineage, q.reviewTable, p) == Eligible
    ensures row in HandoffOfRuns(q).envelope.rows && row.proposalRowHash == p.hash
  {
    hide NoCollisions, Gated, Proposing, ProposalFault, ReviewResultOf, EnvelopeLinked, DistinctBy, EnvelopeStateOf,
      ApprovalHolds, Earliest, ReadyHashes, TextSorted, EligibleHashes, ReadinessOf, ReviewOf, SourcesOf,
      ApprovalStatusOf;
    ReviewCoversProposal(q);
    EligibleHashesExact(q.attestation.rows);
    assert p.hash in EligibleHashes(q.attestation.rows);
    assert p.hash in multiset(EligibleHashes(q.attestation.rows));
    assert p.hash in multiset(q.advancement.eligible);
    var hashes := TextSorted(q.advancement.eligible);
    SortedTextKeeps(q.advancement.eligible);
    var k :| 0 <= k < |hashes| && hashes[k] == p.hash;
    row := HandoffOfRuns(q).envelope.rows[k];
  }

  /** The envelope's approval is of the proposal and its proposed rows, names a reviewer and is in force. */
  ghost predicate Holds(q: Runs, a: Approval) {
    && a.proposalHash == q.h.proposal(q.proposal) && a.manifestHash == q.h.manifest(q.manifest)
    && !a.authorizesExecution && a.separateExecutionOnly && NamesProposed(q, a.rows) && !Blank(a.reviewer)
    && a.approvedAt.Some? && a.expiresAt.Some? && a.approvedAt.value <= q.envelopedAt < a.expiresAt.value
  }

  /** An approved review advances the hashes of all proposed rows. */
  lemma AdvancedAreProposed(q: Runs)
    requires Published(q) && NoCollisions(q) && q.attestation.state == Approved
    ensures NamesProposed(q, Some(q.advancement.eligible))
  {
    hide NoCollisions, Gated, Proposing, Reviewing, EnvelopeLinked, EligibleHashes, Unmoved, Covers, InForce, Blank,
      TextSorted;
    ReviewApprovesExactly(q);
    EligibleAreUnmoved(q);
    var advanced := q.advancement.eligible;
    assert NoDuplicates(advanced);
    SameOnceEach(advanced, EligibleHashes(q.attestation.rows));
  }

  lemma SameHashes(q: Runs, hashes: seq<Digest>, advanced: seq<Digest>)
    requires NamesProposed(q, Some(advanced))
    ensures DistinctBy(hashes, (d: Digest) => d) && multiset(hashes) == multiset(advanced) <==>
      NamesProposed(q, Some(hashes))
  {
    assert DistinctBy(hashes, (d: Digest) => d) <==> NoDuplicates(hashes);
    if NoDuplicates(hashes) {
      SameOnceEach(hashes, advanced);
    }
  }

  lemma HoldsExactly(q: Runs)
    requires Published(q) && NoCollisions(q) && q.attestation.state == Approved
    ensures ApprovalHolds(q.h, q.proposal, q.manifest, q.approval, q.advancement, q.envelopedAt) <==>
      q.approval.Some? && Holds(q, q.approval.value)
  {
    hide Published, NoCollisions, Strip, Blank;
    AdvancedAreProposed(q);
    if q.approval.Some? {
      StripExactly(q.approval.value.reviewer);
      if q.approval.value.rows.Some? {
        SameHashes(q, q.approval.value.rows.value, q.advancement.eligible);
      }
    }
  }

  ghost predicate Kept(q: Runs, p: ProposalRow, row: EnvelopeRow) {
    row.readiness == if Unmoved(q, q.envelopeTable, p) then Ready else EnvelopeDrifted
  }

  /** Each row of an approved review's envelope is ready or has drifted, and each proposed row has its own. */
  lemma EnvelopeRowsMove(q: Runs)
    requires Published(q) && NoCollisions(q) && q.attestation.state == Approved
    ensures forall row :: row in HandoffOfRuns(q).envelope.rows ==> exists p :: IsProposed(q, p) && Kept(q, p, row)
    ensures forall p :: IsProposed(q, p) ==> exists row :: row in HandoffOfRuns(q).envelope.rows && Kept(q, p, row)
    ensures SomeProposed(q)
  {
    hide Published, NoCollisions, ReviewResultOf, Unmoved, HandoffOfRuns;
    var rows := HandoffOfRuns(q).envelope.rows;
    ReviewApprovesExactly(q);
    forall row | row in rows ensures exists p :: IsProposed(q, p) && Kept(q, p, row) {
      var p := EnvelopeRejectsOnlyDrift(q, row);
      assert IsProposed(q, p) && Kept(q, p, row);
    }
    forall p | IsProposed(q, p) ensures exists row :: row in rows && Kept(q, p, row) {
      ReviewRejectsOnlyDrift(q, p);
      var row := EnvelopeCoversProposal(q, p);
      var same := EnvelopeRejectsOnlyDrift(q, row);
      OneProposalRow(q, p, same);
      assert Kept(q, p, row);
    }
  }

  lemma StateOfEnvelope(q: Runs)
    ensures HandoffOfRuns(q).envelope.state == EnvelopeStateOf(
      HandoffOfRuns(q).envelope.rows, q.attestation.state == Approved,
      ApprovalHolds(q.h, q.proposal, q.manifest, q.approval, q.advancement, q.envelopedAt),
      q.envelopedAt >= q.proposal.expiresAt || q.envelopedAt >= q.advancement.expiresAt)
  {
    hide EnvelopeRows, ApprovalHolds, Earliest, ReadyHashes, EnvelopeStateOf;
  }

  /** How the envelope of an approved review ends: its approval, the time and moved settlements decide alone. */
  lemma EnvelopeEndsExactly(q: Runs)
    requires Published(q) && NoCollisions(q) && q.attestation.state == Approved
    ensures HandoffOfRuns(q).envelope.state ==
      if q.approval.None? || !Holds(q, q.approval.value) then ApprovalExpiredOrInvalid
      else if q.envelopedAt >= q.proposal.expiresAt || q.envelopedAt >= q.advancement.expiresAt then ProposalExpired
      else if SomeMoved(q, q.envelopeTable) then StateDrifted
      else ReadyForExecutorDesign
  {
    hide Published, NoCollisions, HandoffOfRuns, ApprovalHolds, Unmoved, Holds, IsProposed;
    StateOfEnvelope(q);
    HoldsExactly(q);
    EnvelopeRowsMove(q);
  }

  /** The envelope of an approved review opens exactly in time, under an approval that holds, and with nothing moved. */
  lemma EnvelopeOpensExactly(q: Runs)
    requires Published(q) && NoCollisions(q)
    ensures HandoffOfRuns(q).envelope.state == ReadyForExecutorDesign <==>
      && q.attestation.state == Approved
      && q.approval.Some? && Holds(q, q.approval.value)
      && q.envelopedAt < q.proposal.expiresAt && q.envelopedAt < q.advancement.expiresAt
      && !SomeMoved(q, q.envelopeTable)
  {
    hide Published, NoCollisions, HandoffOfRuns, ApprovalHolds, Holds, SomeMoved;
    StateOfEnvelope(q);
    if q.attestation.state == Approved {
      EnvelopeEndsExactly(q);
    }
  }
}
