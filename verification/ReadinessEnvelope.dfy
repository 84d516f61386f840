/** The readiness envelope handed to the settlement protocol (scripts/local/phase4ak_readiness_envelope.py). */
module ReadinessEnvelope {
  import opened Support
  import opened Lists
  import opened Text
  import opened TimestampAudit
  import opened EvidenceCollection
  import opened FunnelArtifacts
  import opened CanonicalizationProposal
  import opened ProposalReview

  datatype EnvelopeFault =
    | EnvelopeLinkFailure | ExecutionAuthorizationPresent | ApprovalClockInvalid | DuplicateCandidate
    | AdvancementRowsInvalid | AdvancementRowsMismatch

  datatype Readiness = Ready | Incomplete | EnvelopeLineageFailure | EnvelopeDrifted | EnvelopeConflict

  datatype EnvelopeRow = EnvelopeRow(
    ticker: string, proposalRowHash: Digest, proposed: Option<string>, preconditions: Option<Preconditions>,
    readiness: Readiness)

  datatype EnvelopeState =
    | LinkFailure | ReviewNotApproved | ApprovalExpiredOrInvalid | ProposalExpired | StateDrifted | EvidenceConflict
    | PreconditionIncomplete | ReadyForExecutorDesign | NoRows

  datatype Envelope = Envelope(rows: seq<EnvelopeRow>, state: EnvelopeState, proposalExpires: int, reviewExpires: int)

  datatype Handoff = Handoff(envelope: Envelope, earliestDeadline: int, ready: seq<Digest>)

  predicate EnvelopeLinked(
    h: Hashes, i: Inputs, p: Proposal, m: ProposalManifest, approval: Option<Approval>, a: Attestation, v: Advancement)
  {
    && a.pairId == v.pairId && v.attestationHash == h.attestation(a)
    && a.proposalHash == v.proposalHash == h.proposal(p)
    && a.manifestHash == v.manifestHash == h.manifest(m)
    && a.approvalHash == v.approvalHash == HashOf(h, approval)
    && a.sources.(baseline := i.baseline, agPairId := i.status.pairId) == SourcesOf(h, i)
    && m.proposalHash == h.proposal(p) && m.rowsHash == h.proposalRows(p.rows)
    && p.sources.(agPairId := i.status.pairId) == SourcesOf(h, i)
  }

  /** The approval as the envelope checks it again. */
  predicate ApprovalHolds(
    h: Hashes, p: Proposal, m: ProposalManifest, approval: Option<Approval>, v: Advancement, now: int)
  {
    && approval.Some?
    && var a := approval.value;
       && a.proposalHash == h.proposal(p) && a.manifestHash == h.manifest(m)
       && a.separateExecutionOnly && !a.authorizesExecution && Strip(a.reviewer) != ""
       && a.approvedAt.Some? && a.expiresAt.Some?
       && a.approvedAt.value <= now < a.expiresAt.value
       && a.rows.Some? && DistinctBy(a.rows.value, (d: Digest) => d) && multiset(a.rows.value) == multiset(v.eligible)
  }

  function EnvelopeFaultOf(
    h: Hashes, i: Inputs, p: Proposal, m: ProposalManifest, approval: Option<Approval>, a: Attestation, v: Advancement)
    : Option<EnvelopeFault>
  {
    if !EnvelopeLinked(h, i, p, m, approval, a, v) then Some(EnvelopeLinkFailure)
    else if a.executionAuthorized || v.executionAuthorized || p.executionAuthorized || m.executionAuthorized then
      Some(ExecutionAuthorizationPresent)
    else if approval.Some? && (approval.value.approvedAt.None? || approval.value.expiresAt.None?) then
      Some(ApprovalClockInvalid)
    else if !DistinctBy(p.rows, (row: ProposalRow) => row.ticker) || !DistinctBy(a.rows, (row: ReviewRow) => row.ticker)
            || !DistinctBy(i.evidence.rows, (e: Evidence) => e.ticker)
            || !DistinctBy(i.reaudit.rows, (r: AuditRow) => r.ticker) then Some(DuplicateCandidate)
    else if !DistinctBy(v.eligible, (d: Digest) => d) then Some(AdvancementRowsInvalid)
    else if a.state == Approved && multiset(v.eligible) != multiset(EligibleHashes(a.rows)) then
      Some(AdvancementRowsMismatch)
    else None
  }

  function FindProposal(rows: seq<ProposalRow>, hash: Digest): (r: Option<ProposalRow>)
    ensures r.Some? ==> r.value in rows && r.value.hash == hash
    ensures r.None? ==> forall row :: row in rows ==> row.hash != hash
  {
    FirstWhere(rows, (row: ProposalRow) => row.hash == hash)
  }

  function FindReview(rows: seq<ReviewRow>, hash: Digest): (r: Option<ReviewRow>)
    ensures r.Some? ==> r.value in rows && r.value.proposalRowHash == hash
    ensures r.None? ==> forall row :: row in rows ==> row.proposalRowHash != hash
  {
    FirstWhere(rows, (row: ReviewRow) => row.proposalRowHash == hash)
  }

  function ReadinessOf(
    i: Inputs, lineage: Lineage, t: Table, proposed: Option<ProposalRow>, review: Option<ReviewRow>): Readiness
  {
    if proposed.None? || review.None? then EnvelopeLineageFailure
    else
      var row := proposed.value;
      var audited := FindAudit(i.reaudit.rows, row.ticker);
      var source := FindEvidence(i.evidence.rows, row.ticker);
      if row.preconditions.None? then Incomplete
      else if review.value.result != Eligible || !review.value.verified then EnvelopeLineageFailure
      else if Drifted(lineage, row.ticker, Current(t, row.ticker), row.preconditions.value) then EnvelopeDrifted
      else if audited.None? || source.None? then EnvelopeConflict
      else if audited.value.classification == TimestampConflict then EnvelopeConflict
      else if !audited.value.sourceFresh || !audited.value.timezoneUnambiguous then EnvelopeConflict
      else if Some(source.value.timestamp) != row.proposed then EnvelopeConflict
      else if audited.value.evidenceHash != row.evidenceHash then EnvelopeConflict
      else Ready
  }

  function EnvelopeRowOf(i: Inputs, lineage: Lineage, t: Table, p: Proposal, a: Attestation, hash: Digest): EnvelopeRow
  {
    var proposed, review := FindProposal(p.rows, hash), FindReview(a.rows, hash);
    EnvelopeRow(if proposed.Some? && review.Some? then proposed.value.ticker else "", hash,
      if proposed.Some? then proposed.value.proposed else None,
      if proposed.Some? then proposed.value.preconditions else None,
      ReadinessOf(i, lineage, t, proposed, review))
  }

  function EnvelopeRows(i: Inputs, lineage: Lineage, t: Table, p: Proposal, a: Attestation, v: Advancement)
    : seq<EnvelopeRow>
  {
    Map(TextSorted(v.eligible), hash => EnvelopeRowOf(i, lineage, t, p, a, hash))
  }

  predicate AnyReadiness(rows: seq<EnvelopeRow>, r: Readiness) { exists row :: row in rows && row.readiness == r }

  function EnvelopeStateOf(rows: seq<EnvelopeRow>, approved: bool, approvalHolds: bool, expired: bool): EnvelopeState {
    if AnyReadiness(rows, EnvelopeLineageFailure) then LinkFailure
    else if !approved then ReviewNotApproved
    else if !approvalHolds then ApprovalExpiredOrInvalid
    else if expired then ProposalExpired
    else if AnyReadiness(rows, EnvelopeDrifted) then StateDrifted
    else if AnyReadiness(rows, EnvelopeConflict) then EvidenceConflict
    else if AnyReadiness(rows, Incomplete) then PreconditionIncomplete
    else if AnyReadiness(rows, Ready) then ReadyForExecutorDesign
    else NoRows
  }

  function Earliest(p: Proposal, v: Advancement, approval: Option<Approval>): int {
    var d := if p.expiresAt <= v.expiresAt then p.expiresAt else v.expiresAt;
    if approval.Some? && approval.value.expiresAt.Some? && approval.value.expiresAt.value < d
    then approval.value.expiresAt.value else d
  }

  function ReadyHashes(rows: seq<EnvelopeRow>): seq<Digest> {
    if rows == [] then []
    else (if rows[0].readiness == Ready then [rows[0].proposalRowHash] else []) + ReadyHashes(rows[1..])
  }

  function HandoffOf(
    h: Hashes, i: Inputs, lineage: Lineage, t: Table, p: Proposal, m: ProposalManifest, approval: Option<Approval>,
    a: Attestation, v: Advancement, now: int): Handoff
  {
    var rows := EnvelopeRows(i, lineage, t, p, a, v);
    var state := EnvelopeStateOf(rows, a.state == Approved, ApprovalHolds(h, p, m, approval, v, now),
      now >= p.expiresAt || now >= v.expiresAt);
    Handoff(Envelope(rows, state, p.expiresAt, v.expiresAt), Earliest(p, v, approval),
      if state == ReadyForExecutorDesign then ReadyHashes(rows) else [])
  }

  method BuildEnvelope(
    h: Hashes, i: Inputs, lineage: Lineage, t: Table, p: Proposal, m: ProposalManifest, approval: Option<Approval>,
    a: Attestation, v: Advancement, now: int)
    returns (r: Result<Handoff, EnvelopeFault>)
    ensures
      var fault := EnvelopeFaultOf(h, i, p, m, approval, a, v);
      r == if fault.Some? then Err(fault.value) else Ok(HandoffOf(h, i, lineage, t, p, m, approval, a, v, now))
  {
    hide EnvelopeFaultOf, EnvelopeRowOf, EnvelopeStateOf, ApprovalHolds, TextSorted, Earliest;
    var fault := EnvelopeFaultOf(h, i, p, m, approval, a, v);
    if fault.Some? {
      return Err(fault.value);
    }
    var hashes := TextSorted(v.eligible);
    var rows: seq<EnvelopeRow> := [];
    var k := 0;
    while k < |hashes|
      invariant 0 <= k <= |hashes| && |rows| == k
      invariant forall n :: 0 <= n < k ==> rows[n] == EnvelopeRowOf(i, lineage, t, p, a, hashes[n])
    {
      rows := rows + [EnvelopeRowOf(i, lineage, t, p, a, hashes[k])];
      k := k + 1;
    }
    assert rows == EnvelopeRows(i, lineage, t, p, a, v);
    var state := EnvelopeStateOf(rows, a.state == Approved, ApprovalHolds(h, p, m, approval, v, now),
      now >= p.expiresAt || now >= v.expiresAt);
    r := Ok(Handoff(Envelope(rows, state, p.expiresAt, v.expiresAt), Earliest(p, v, approval),
      if state == ReadyForExecutorDesign then ReadyHashes(rows) else []));
  }

  // ---- What an envelope checks ----

  /** Attestation, advancement, approval and proposal are of one another and of these artifacts, as their hashes say. */
  ghost predicate AdvancementLinks(
    h: Hashes, i: Inputs, p: Proposal, m: ProposalManifest, approval: Option<Approval>, a: Attestation, v: Advancement)
  {
    var approvalHash := if approval.Some? then Some(h.approval(approval.value)) else None;
    && a.pairId == v.pairId && v.attestationHash == h.attestation(a)
    && a.proposalHash == h.proposal(p) && v.proposalHash == h.proposal(p) && m.proposalHash == h.proposal(p)
    && a.manifestHash == h.manifest(m) && v.manifestHash == h.manifest(m)
    && a.approvalHash == approvalHash && v.approvalHash == approvalHash
    && m.rowsHash == h.proposalRows(p.rows) && p.sources.baseline == i.baseline
    && a.sources.gate == p.sources.gate && p.sources.gate == h.gate(i.gate)
    && a.sources.reaudit == p.sources.reaudit && p.sources.reaudit == h.audit(i.reaudit)
    && a.sources.status == p.sources.status && p.sources.status == h.collection(i.status)
    && a.sources.evidence == p.sources.evidence && p.sources.evidence == h.evidence(i.evidence)
    && a.sources.ad == p.sources.ad && p.sources.ad == i.ad
    && a.sources.ae == p.sources.ae && p.sources.ae == i.ae
    && a.sources.history == p.sources.history && p.sources.history == i.history
  }

  lemma AdvancementLinksExactly(
    h: Hashes, i: Inputs, p: Proposal, m: ProposalManifest, approval: Option<Approval>, a: Attestation, v: Advancement)
    ensures EnvelopeLinked(h, i, p, m, approval, a, v) <==> AdvancementLinks(h, i, p, m, approval, a, v)
  {
  }

  /** Some ticker has two rows in the proposal, its review, the evidence or the audit. */
  ghost predicate RepeatsCandidate(i: Inputs, p: Proposal, a: Attestation) {
    || RepeatsProposed(p)
    || (exists j, k :: 0 <= j < k < |a.rows| && a.rows[j].ticker == a.rows[k].ticker)
    || (exists j, k :: 0 <= j < k < |i.evidence.rows| && i.evidence.rows[j].ticker == i.evidence.rows[k].ticker)
    || (exists j, k :: 0 <= j < k < |i.reaudit.rows| && i.reaudit.rows[j].ticker == i.reaudit.rows[k].ticker)
  }

  lemma CandidateRepeatsExactly(i: Inputs, p: Proposal, a: Attestation)
    ensures RepeatsCandidate(i, p, a) <==>
      !DistinctBy(p.rows, (row: ProposalRow) => row.ticker) || !DistinctBy(a.rows, (row: ReviewRow) => row.ticker)
      || !DistinctBy(i.evidence.rows, (e: Evidence) => e.ticker)
      || !DistinctBy(i.reaudit.rows, (r: AuditRow) => r.ticker)
  {
  }

  lemma DistinctHashesExactly(hashes: seq<Digest>)
    ensures DistinctBy(hashes, (d: Digest) => d) <==> NoDuplicates(hashes)
  {
  }

  /** When an envelope is refused, and for what. */
  lemma EnvelopeFaultExactly(
    h: Hashes, i: Inputs, p: Proposal, m: ProposalManifest, approval: Option<Approval>, a: Attestation, v: Advancement)
    ensures EnvelopeFaultOf(h, i, p, m, approval, a, v) ==
      if !AdvancementLinks(h, i, p, m, approval, a, v) then Some(EnvelopeLinkFailure)
      else if a.executionAuthorized || v.executionAuthorized || p.executionAuthorized || m.executionAuthorized then
        Some(ExecutionAuthorizationPresent)
      else if approval.Some? && (approval.value.approvedAt.None? || approval.value.expiresAt.None?) then
        Some(ApprovalClockInvalid)
      else if RepeatsCandidate(i, p, a) then Some(DuplicateCandidate)
      else if !NoDuplicates(v.eligible) then Some(AdvancementRowsInvalid)
      else if a.state == Approved && multiset(v.eligible) != multiset(EligibleHashes(a.rows)) then
        Some(AdvancementRowsMismatch)
      else None
  {
    hide EnvelopeLinked, AdvancementLinks, RepeatsCandidate, DistinctBy, NoDuplicates, EligibleHashes;
    AdvancementLinksExactly(h, i, p, m, approval, a, v);
    CandidateRepeatsExactly(i, p, a);
    DistinctHashesExactly(v.eligible);
  }

  /** What the envelope finds of one advanced hash: its rows, then its settlement, then its evidence. */
  lemma ReadinessExactly(i: Inputs, lineage: Lineage, t: Table, p: Proposal, a: Attestation, hash: Digest)
    ensures
      var row := EnvelopeRowOf(i, lineage, t, p, a, hash);
      var proposed, review := FindProposal(p.rows, hash), FindReview(a.rows, hash);
      && row.proposalRowHash == hash
      && (proposed.Some? ==>
            row.proposed == proposed.value.proposed && row.preconditions == proposed.value.preconditions)
      && (proposed.Some? && review.Some? ==> row.ticker == proposed.value.ticker)
      && row.readiness ==
           if proposed.None? || review.None? then EnvelopeLineageFailure
           else if proposed.value.preconditions.None? then Incomplete
           else if review.value.result != Eligible || !review.value.verified then EnvelopeLineageFailure
           else if !SettlementHolds(lineage, t, proposed.value.ticker, proposed.value.preconditions.value) then
             EnvelopeDrifted
           else if !EvidenceHolds(i.reaudit, i.evidence, proposed.value) then EnvelopeConflict
           else Ready
  {
    hide Drifted, SettlementHolds;
    var proposed := FindProposal(p.rows, hash);
    if proposed.Some? && proposed.value.preconditions.Some? {
      SettlementHoldsExactly(lineage, t, proposed.value.ticker, proposed.value.preconditions.value);
    }
  }

  lemma {:induction false} AllHashesReady(rows: seq<EnvelopeRow>)
    requires forall row :: row in rows ==> row.readiness == Ready
    ensures ReadyHashes(rows) == Map(rows, (row: EnvelopeRow) => row.proposalRowHash)
  {
    if rows != [] {
      AllHashesReady(rows[1..]);
    }
  }

  /**
   The envelope is ready exactly when the review approved, the approval still holds, neither proposal nor review has
   expired, and every advanced row, of which there is one at least, is ready.
   */
  lemma EnvelopeReadyExactly(rows: seq<EnvelopeRow>, approved: bool, approvalHolds: bool, expired: bool)
    ensures EnvelopeStateOf(rows, approved, approvalHolds, expired) == ReadyForExecutorDesign <==>
      approved && approvalHolds && !expired && rows != [] && forall row :: row in rows ==> row.readiness == Ready
  {
    if rows != [] {
      assert rows[0] in rows;
    }
  }

  /** An open envelope hands on all advanced hashes in ascending order, any other none. */
  lemma HandedOnExactly(
    h: Hashes, i: Inputs, lineage: Lineage, t: Table, p: Proposal, m: ProposalManifest, approval: Option<Approval>,
    a: Attestation, v: Advancement, now: int)
    ensures
      var handoff := HandoffOf(h, i, lineage, t, p, m, approval, a, v, now);
      && (handoff.envelope.state != ReadyForExecutorDesign ==> handoff.ready == [])
      && (handoff.envelope.state == ReadyForExecutorDesign ==> handoff.ready == TextSorted(v.eligible))
  {
    hide DistinctBy, ApprovalHolds, ReadinessOf, Earliest, TextSorted, EnvelopeStateOf, ReadyHashes;
    var rows := EnvelopeRows(i, lineage, t, p, a, v);
    EnvelopeReadyExactly(rows, a.state == Approved, ApprovalHolds(h, p, m, approval, v, now),
      now >= p.expiresAt || now >= v.expiresAt);
    if forall row :: row in rows ==> row.readiness == Ready {
      AllHashesReady(rows);
    }
  }

  /** A ready envelope is built before every deadline it hands on. */
  lemma ReadyBeforeEveryDeadline(
    h: Hashes, i: Inputs, lineage: Lineage, t: Table, p: Proposal, m: ProposalManifest, approval: Option<Approval>,
    a: Attestation, v: Advancement, now: int)
    ensures
      var handoff := HandoffOf(h, i, lineage, t, p, m, approval, a, v, now);
      handoff.envelope.state == ReadyForExecutorDesign ==>
        && approval.Some? && approval.value.expiresAt.Some?
        && now < handoff.earliestDeadline
        && handoff.earliestDeadline <= p.expiresAt
        && handoff.earliestDeadline <= v.expiresAt
        && handoff.earliestDeadline <= approval.value.expiresAt.value
        && handoff.earliestDeadline in {p.expiresAt, v.expiresAt, approval.value.expiresAt.value}
  {
    hide EnvelopeRows, DistinctBy;
    EnvelopeReadyExactly(EnvelopeRows(i, lineage, t, p, a, v), a.state == Approved,
      ApprovalHolds(h, p, m, approval, v, now), now >= p.expiresAt || now >= v.expiresAt);
  }
}
