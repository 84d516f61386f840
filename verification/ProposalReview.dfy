/** The independent review of a proposal (scripts/local/phase4aj_independent_proposal_review.py). */
module ProposalReview {
  import opened Support
  import opened Lists
  import opened Text
  import opened TimestampAudit
  import opened EvidenceCollection
  import opened ReadinessGate
  import opened FunnelArtifacts
  import opened CanonicalizationProposal

  datatype ReviewFault =
    | ClockSkewInvalid | ReviewLinkFailure | ProposalValidityInvalid | ExecutionCapabilityPresent | DuplicateProposalRow
    | ProposalRowHashMismatch | DuplicateLineageRow | ApprovalTimeInvalid

  predicate ReviewLinked(h: Hashes, i: Inputs, p: Proposal, m: ProposalManifest) {
    && m.pairId == p.id && m.proposalHash == h.proposal(p) && m.rowsHash == h.proposalRows(p.rows)
    && p.sources == SourcesOf(h, i) && i.status.pairId == i.evidence.pairId
    && GateLinked(h, i)
  }

  function FindGate(rows: seq<GateRow>, ticker: string): (r: Option<GateRow>)
    ensures r.Some? ==> r.value in rows && r.value.ticker == ticker
    ensures r.None? ==> forall g :: g in rows ==> g.ticker != ticker
  {
    FirstWhere(rows, (g: GateRow) => g.ticker == ticker)
  }

  function FindAudit(rows: seq<AuditRow>, ticker: string): (r: Option<AuditRow>)
    ensures r.Some? ==> r.value in rows && r.value.ticker == ticker
    ensures r.None? ==> forall a :: a in rows ==> a.ticker != ticker
  {
    FirstWhere(rows, (a: AuditRow) => a.ticker == ticker)
  }

  /** Whether the settlement still is what the preconditions expect. */
  predicate Drifted(lineage: Lineage, ticker: string, current: Option<Row>, expected: Preconditions) {
    || current.None?
    || !Unset(current.value.settledAt)
    || BinaryOutcome(current.value.result).None? || current.value.result != expected.result
    || Some(lineage(ticker, current.value)) != expected.settlementHash
    || !expected.noLinkedEvaluation || !expected.notPreviouslyApplied || !expected.notSuperseded
  }

  function ReviewResultOf(i: Inputs, lineage: Lineage, t: Table, row: ProposalRow): ReviewResult {
    var g := FindGate(i.gate.rows, row.ticker);
    var audited := FindAudit(i.reaudit.rows, row.ticker);
    var evidence := FindEvidence(i.evidence.rows, row.ticker);
    if row.disposition != Proposed then Ineligible
    else if row.preconditions.None? then RowLineageFailure
    else if !GateOpen(i.gate.state) || g.None? || g.value.transition != AuthoritativeEvidenceAdded then
      RowLineageFailure
    else if audited.None? || !audited.value.ready then RowLineageFailure
    else if evidence.None? || FindStatus(i.status.rows, row.ticker).None? then RowEvidenceConflict
    else if audited.value.classification == TimestampConflict then RowEvidenceConflict
    else if !audited.value.timezoneUnambiguous || !audited.value.sourceFresh then RowEvidenceConflict
    else if Some(evidence.value.timestamp) != row.proposed then RowEvidenceConflict
    else if audited.value.evidenceHash != row.evidenceHash then RowEvidenceConflict
    else if Drifted(lineage, row.ticker, Current(t, row.ticker), row.preconditions.value) then RowDrifted
    else Eligible
  }

  function ReviewRowOf(i: Inputs, lineage: Lineage, t: Table, row: ProposalRow): ReviewRow {
    var result := ReviewResultOf(i, lineage, t, row);
    ReviewRow(row.ticker, row.hash, result, result == Eligible)
  }

  predicate AtMost(a: ProposalRow, b: ProposalRow) { TextsAtMost([a.ticker], [b.ticker]) }

  function ReviewRows(i: Inputs, lineage: Lineage, t: Table, p: Proposal): seq<ReviewRow> {
    Map(Sort(p.rows, AtMost), row => ReviewRowOf(i, lineage, t, row))
  }

  /** Every row of the proposal is reviewed, by ticker. */
  lemma ReviewOrderExactly(i: Inputs, lineage: Lineage, t: Table, p: Proposal)
    ensures
      var rows := ReviewRows(i, lineage, t, p);
      && |rows| == |p.rows|
      && forall j, k :: 0 <= j < k < |rows| ==> KeysInOrder([rows[j].ticker], [rows[k].ticker])
  {
    hide TextsAtMost, KeysInOrder, Sort, ReviewResultOf;
    SortByKeys(p.rows, (row: ProposalRow) => [row.ticker], AtMost);
  }

  function EligibleHashes(rows: seq<ReviewRow>): seq<Digest> {
    if rows == [] then []
    else (if rows[0].result == Eligible then [rows[0].proposalRowHash] else []) + EligibleHashes(rows[1..])
  }

  // ---- Approval ----

  datatype ApprovalStatus = Absent | Invalid | Rejected | Valid

  /** The approval binds this proposal, this manifest and exactly these rows, and is in force. */
  function ApprovalStatusOf(
    h: Hashes, approval: Option<Approval>, p: Proposal, m: ProposalManifest, eligible: seq<Digest>, now: int, skew: int)
    : Result<ApprovalStatus, ReviewFault>
  {
    if approval.None? then Ok(Absent)
    else
      var a := approval.value;
      if !a.complete then Ok(Invalid)
      else if a.proposalHash != h.proposal(p) || a.manifestHash != h.manifest(m) then Ok(Invalid)
      else if a.authorizesExecution || !a.separateExecutionOnly then Ok(Invalid)
      else if a.rows.None? || !DistinctBy(a.rows.value, (d: Digest) => d) then Ok(Invalid)
      else if multiset(a.rows.value) != multiset(eligible) then Ok(Invalid)
      else if a.approvedAt.None? || a.expiresAt.None? then Err(ApprovalTimeInvalid)
      else if a.expiresAt.value <= a.approvedAt.value then Ok(Invalid)
      else if a.approvedAt.value > now + skew then Ok(Invalid)
      else if now >= a.expiresAt.value then Ok(Invalid)
      else if a.rejected then Ok(Rejected)
      else if Strip(a.reviewer) == "" then Ok(Invalid)
      else Ok(Valid)
  }

  /** A complete approval of this proposal and exactly these rows that authorises no execution by itself. */
  ghost predicate Binds(h: Hashes, a: Approval, p: Proposal, m: ProposalManifest, eligible: seq<Digest>) {
    && a.complete && a.proposalHash == h.proposal(p) && a.manifestHash == h.manifest(m)
    && !a.authorizesExecution && a.separateExecutionOnly
    && a.rows.Some? && NoDuplicates(eligible)
    && NoDuplicates(a.rows.value) && (forall d :: d in a.rows.value <==> d in eligible)
  }

  /** The approval's interval is not empty and has begun, up to the clock skew, but not ended. */
  ghost predicate InForce(a: Approval, now: int, skew: int) {
    && a.approvedAt.Some? && a.expiresAt.Some?
    && a.approvedAt.value < a.expiresAt.value && a.approvedAt.value <= now + skew && now < a.expiresAt.value
  }

  lemma BindsExactly(h: Hashes, a: Approval, p: Proposal, m: ProposalManifest, eligible: seq<Digest>)
    ensures Binds(h, a, p, m, eligible) <==>
      && a.complete && a.proposalHash == h.proposal(p) && a.manifestHash == h.manifest(m)
      && !a.authorizesExecution && a.separateExecutionOnly
      && a.rows.Some? && DistinctBy(a.rows.value, (d: Digest) => d) && multiset(a.rows.value) == multiset(eligible)
  {
    if a.rows.Some? {
      var rows := a.rows.value;
      assert DistinctBy(rows, (d: Digest) => d) <==> NoDuplicates(rows);
      if NoDuplicates(rows) {
        SameOnceEach(rows, eligible);
      }
    }
  }

  /**
   An approval is valid exactly when it binds what is reviewed, is in force, is not a rejection and names a reviewer; it
   rejects exactly when it binds, is in force and says so; its times can stop the review only if it binds.
   */
  lemma ApprovalStatusExactly(
    h: Hashes, approval: Option<Approval>, p: Proposal, m: ProposalManifest, eligible: seq<Digest>, now: int, skew: int)
    ensures ApprovalStatusOf(h, approval, p, m, eligible, now, skew) == Ok(Absent) <==> approval.None?
    ensures ApprovalStatusOf(h, approval, p, m, eligible, now, skew) == Ok(Valid) <==>
      && approval.Some? && Binds(h, approval.value, p, m, eligible) && InForce(approval.value, now, skew)
      && !approval.value.rejected && !Blank(approval.value.reviewer)
    ensures ApprovalStatusOf(h, approval, p, m, eligible, now, skew) == Ok(Rejected) <==>
      && approval.Some? && Binds(h, approval.value, p, m, eligible) && InForce(approval.value, now, skew)
      && approval.value.rejected
    ensures ApprovalStatusOf(h, approval, p, m, eligible, now, skew) == Err(ApprovalTimeInvalid) <==>
      && approval.Some? && Binds(h, approval.value, p, m, eligible)
      && (approval.value.approvedAt.None? || approval.value.expiresAt.None?)
    ensures ApprovalStatusOf(h, approval, p, m, eligible, now, skew) == Ok(Invalid) <==>
      && approval.Some?
      && var a := approval.value;
         || !Binds(h, a, p, m, eligible)
         || (a.approvedAt.Some? && a.expiresAt.Some? && !InForce(a, now, skew))
         || (InForce(a, now, skew) && !a.rejected && Blank(a.reviewer))
  {
    hide Binds, Strip, Blank, DistinctBy;
    if approval.Some? {
      BindsExactly(h, approval.value, p, m, eligible);
      StripExactly(approval.value.reviewer);
    }
  }

  predicate AnyResult(rows: seq<ReviewRow>, result: ReviewResult) { exists row :: row in rows && row.result == result }

  function ReviewStateOf(rows: seq<ReviewRow>, expired: bool, status: ApprovalStatus): ReviewState {
    if AnyResult(rows, RowLineageFailure) then ReviewLineageFailure
    else if expired then ProposalHasExpired
    else if AnyResult(rows, RowDrifted) then CurrentStateDrifted
    else if AnyResult(rows, RowEvidenceConflict) then ReviewEvidenceConflict
    else if status == Invalid then ApprovalInvalid
    else if status == Rejected then ReviewRejected
    else if !AnyResult(rows, Eligible) then NoRowsToAdvance
    else if status == Absent then AwaitingApproval
    else Approved
  }

  // ---- The review ----

  datatype Review = Review(attestation: Attestation, advancement: Advancement)

  function ProposalFault(h: Hashes, i: Inputs, p: Proposal, m: ProposalManifest, skew: int): Option<ReviewFault> {
    if skew < 0 then Some(ClockSkewInvalid)
    else if !ReviewLinked(h, i, p, m) then Some(ReviewLinkFailure)
    else if p.expiresAt <= p.generatedAt then Some(ProposalValidityInvalid)
    else if p.executionAuthorized then Some(ExecutionCapabilityPresent)
    else if !DistinctBy(p.rows, (row: ProposalRow) => row.ticker) then Some(DuplicateProposalRow)
    else if exists row :: row in p.rows && row != Sealed(h, row) then Some(ProposalRowHashMismatch)
    else if !DistinctBy(i.gate.rows, (g: GateRow) => g.ticker) || !DistinctBy(i.reaudit.rows, (a: AuditRow) => a.ticker)
            || !DistinctBy(i.status.rows, (s: StatusRow) => s.ticker)
            || !DistinctBy(i.evidence.rows, (e: Evidence) => e.ticker) then Some(DuplicateLineageRow)
    else None
  }

  function TextSorted(hashes: seq<Digest>): seq<Digest> { Sort(hashes, TextAtMost) }

  /** The hashes in ascending order, as often as they were given. */
  lemma TextSortedExactly(hashes: seq<Digest>)
    ensures multiset(TextSorted(hashes)) == multiset(hashes)
    ensures forall i, j :: 0 <= i < j < |TextSorted(hashes)| ==> Precedes(TextSorted(hashes)[i], TextSorted(hashes)[j])
  {
    hide TextAtMost, Precedes, Sort;
    SortTexts(hashes);
  }

  function HashOf(h: Hashes, approval: Option<Approval>): Option<Digest> {
    if approval.Some? then Some(h.approval(approval.value)) else None
  }

  function ReviewOf(
    h: Hashes, i: Inputs, lineage: Lineage, t: Table, p: Proposal, m: ProposalManifest, approval: Option<Approval>,
    status: ApprovalStatus, now: int): Review
  {
    var rows := ReviewRows(i, lineage, t, p);
    var eligible := TextSorted(EligibleHashes(rows));
    var state := ReviewStateOf(rows, now >= p.expiresAt, status);
    var pairId := h.reviewPair(h.reviewId(h.proposal(p), now, HashOf(h, approval), rows), state);
    var attestation := Attestation(
      rows, state, SourcesOf(h, i), h.proposal(p), h.manifest(m), HashOf(h, approval), pairId, false);
    Review(attestation,
      Advancement(pairId, h.attestation(attestation), h.proposal(p), h.manifest(m),
        if state == Approved then eligible else [], HashOf(h, approval), p.expiresAt, state, false))
  }

  method ReviewProposal(
    h: Hashes, i: Inputs, lineage: Lineage, t: Table, p: Proposal, m: ProposalManifest, approval: Option<Approval>,
    now: int, skew: int)
    returns (r: Result<Review, ReviewFault>)
    ensures
      var fault := ProposalFault(h, i, p, m, skew);
      var eligible := TextSorted(EligibleHashes(ReviewRows(i, lineage, t, p)));
      var status := ApprovalStatusOf(h, approval, p, m, eligible, now, skew);
      r == if fault.Some? then Err(fault.value)
           else if status.Err? then Err(status.error)
           else Ok(ReviewOf(h, i, lineage, t, p, m, approval, status.value, now))
  {
    hide ProposalFault, ReviewRowOf, ReviewStateOf, ApprovalStatusOf, EligibleHashes, TextSorted, SourcesOf, AtMost;
    var fault := ProposalFault(h, i, p, m, skew);
    if fault.Some? {
      return Err(fault.value);
    }
    var ordered := Sort(p.rows, AtMost);
    var rows: seq<ReviewRow> := [];
    var k := 0;
    while k < |ordered|
      invariant 0 <= k <= |ordered| && |rows| == k
      invariant forall n :: 0 <= n < k ==> rows[n] == ReviewRowOf(i, lineage, t, ordered[n])
    {
      rows := rows + [ReviewRowOf(i, lineage, t, ordered[k])];
      k := k + 1;
    }
    assert rows == ReviewRows(i, lineage, t, p);
    var eligible := TextSorted(EligibleHashes(rows));
    var status := ApprovalStatusOf(h, approval, p, m, eligible, now, skew);
    if status.Err? {
      return Err(status.error);
    }
    var state := ReviewStateOf(rows, now >= p.expiresAt, status.value);
    var pairId := h.reviewPair(h.reviewId(h.proposal(p), now, HashOf(h, approval), rows), state);
    var attestation := Attestation(
      rows, state, SourcesOf(h, i), h.proposal(p), h.manifest(m), HashOf(h, approval), pairId, false);
    var advancement := Advancement(pairId, h.attestation(attestation), h.proposal(p), h.manifest(m),
      if state == Approved then eligible else [], HashOf(h, approval), p.expiresAt, state, false);
    r := Ok(Review(attestation, advancement));
  }

  // ---- What a review checks ----

  /** The proposal and its manifest are one pair, made from these very artifacts, as their hashes say. */
  ghost predicate ProposalLinks(h: Hashes, i: Inputs, p: Proposal, m: ProposalManifest) {
    && m.pairId == p.id && m.proposalHash == h.proposal(p) && m.rowsHash == h.proposalRows(p.rows)
    && p.sources.gate == h.gate(i.gate)
    && p.sources.reaudit == i.gate.sources.reaudit && i.gate.sources.reaudit == h.audit(i.reaudit)
    && p.sources.baseline == i.gate.sources.baseline && i.gate.sources.baseline == i.baseline
    && p.sources.status == i.gate.sources.status && i.gate.sources.status == h.collection(i.status)
    && p.sources.evidence == i.gate.sources.evidence && i.gate.sources.evidence == h.evidence(i.evidence)
    && p.sources.ad == i.gate.sources.ad && i.gate.sources.ad == i.ad
    && p.sources.ae == i.gate.sources.ae && i.gate.sources.ae == i.ae
    && p.sources.history == i.gate.sources.history && i.gate.sources.history == i.history
    && p.sources.agPairId == i.status.pairId && i.status.pairId == i.evidence.pairId
  }

  /** Some ticker has two rows in one of the artifacts behind the proposal. */
  ghost predicate RepeatsLineage(i: Inputs) {
    || (exists j, k :: 0 <= j < k < |i.gate.rows| && i.gate.rows[j].ticker == i.gate.rows[k].ticker)
    || (exists j, k :: 0 <= j < k < |i.reaudit.rows| && i.reaudit.rows[j].ticker == i.reaudit.rows[k].ticker)
    || RepeatsTicker(i)
  }

  ghost predicate RepeatsProposed(p: Proposal) {
    exists j, k :: 0 <= j < k < |p.rows| && p.rows[j].ticker == p.rows[k].ticker
  }

  lemma LineageRepeatsExactly(i: Inputs)
    ensures RepeatsLineage(i) <==>
      !DistinctBy(i.gate.rows, (g: GateRow) => g.ticker) || !DistinctBy(i.reaudit.rows, (a: AuditRow) => a.ticker)
      || !DistinctBy(i.status.rows, (s: StatusRow) => s.ticker)
      || !DistinctBy(i.evidence.rows, (e: Evidence) => e.ticker)
  {
    hide RepeatsTicker;
    TickersRepeatExactly(i);
  }

  lemma ProposedRepeatsExactly(p: Proposal)
    ensures RepeatsProposed(p) <==> !DistinctBy(p.rows, (row: ProposalRow) => row.ticker)
  {
  }

  lemma ProposalLinksExactly(h: Hashes, i: Inputs, p: Proposal, m: ProposalManifest)
    ensures ReviewLinked(h, i, p, m) <==> ProposalLinks(h, i, p, m)
  {
  }

  lemma SealedExactly(h: Hashes, row: ProposalRow)
    ensures row == Sealed(h, row) <==> row.hash == h.proposalRow(row.(hash := ""))
  {
    assert row == row.(hash := row.hash);
  }

  /** When a review is refused, and for what. */
  lemma ProposalFaultExactly(h: Hashes, i: Inputs, p: Proposal, m: ProposalManifest, skew: int)
    ensures ProposalFault(h, i, p, m, skew) ==
      if skew < 0 then Some(ClockSkewInvalid)
      else if !ProposalLinks(h, i, p, m) then Some(ReviewLinkFailure)
      else if p.expiresAt <= p.generatedAt then Some(ProposalValidityInvalid)
      else if p.executionAuthorized then Some(ExecutionCapabilityPresent)
      else if RepeatsProposed(p) then Some(DuplicateProposalRow)
      else if exists row :: row in p.rows && row.hash != h.proposalRow(row.(hash := "")) then
        Some(ProposalRowHashMismatch)
      else if RepeatsLineage(i) then Some(DuplicateLineageRow)
      else None
  {
    hide ReviewLinked, ProposalLinks, DistinctBy, RepeatsProposed, RepeatsLineage, Sealed;
    ProposalLinksExactly(h, i, p, m);
    ProposedRepeatsExactly(p);
    LineageRepeatsExactly(i);
    forall row | row in p.rows ensures row == Sealed(h, row) <==> row.hash == h.proposalRow(row.(hash := "")) {
      SealedExactly(h, row);
    }
  }

  /** The gate is open for this ticker, whose evidence the new audit found ready. */
  ghost predicate LineageHolds(i: Inputs, row: ProposalRow) {
    var g, audited := FindGate(i.gate.rows, row.ticker), FindAudit(i.reaudit.rows, row.ticker);
    && row.preconditions.Some? && i.gate.state in {ReadyForProposal, PartiallyReady}
    && g.Some? && g.value.transition == AuthoritativeEvidenceAdded
    && audited.Some? && audited.value.ready
  }

  /** The audited evidence and the collected time are those proposed, without conflict, ambiguity or staleness. */
  ghost predicate EvidenceHolds(reaudit: AuditFile, evidence: EvidenceFile, row: ProposalRow) {
    var audited, e := FindAudit(reaudit.rows, row.ticker), FindEvidence(evidence.rows, row.ticker);
    && audited.Some? && e.Some?
    && audited.value.classification != TimestampConflict
    && audited.value.timezoneUnambiguous && audited.value.sourceFresh
    && row.proposed == Some(e.value.timestamp) && row.evidenceHash == audited.value.evidenceHash
  }

  /** The settlement is still what the preconditions expect, and they exclude nothing. */
  ghost predicate SettlementHolds(lineage: Lineage, t: Table, ticker: string, expected: Preconditions) {
    && ticker in t && (t[ticker].settledAt == None || t[ticker].settledAt == Some(""))
    && BinaryOutcome(t[ticker].result).Some? && t[ticker].result == expected.result
    && expected.settlementHash == Some(lineage(ticker, t[ticker]))
    && expected.noLinkedEvaluation && expected.notPreviouslyApplied && expected.notSuperseded
  }

  lemma SettlementHoldsExactly(lineage: Lineage, t: Table, ticker: string, expected: Preconditions)
    ensures Drifted(lineage, ticker, Current(t, ticker), expected) <==> !SettlementHolds(lineage, t, ticker, expected)
  {
    hide BinaryOutcome;
  }

  /** What the review of one row finds: its lineage is checked before its evidence, and that before the settlement. */
  lemma ReviewResultExactly(i: Inputs, lineage: Lineage, t: Table, row: ProposalRow)
    ensures ReviewResultOf(i, lineage, t, row) ==
      if row.disposition != Proposed then Ineligible
      else if !LineageHolds(i, row) then RowLineageFailure
      else if !EvidenceHolds(i.reaudit, i.evidence, row) || (forall s :: s in i.status.rows ==> s.ticker != row.ticker)
      then RowEvidenceConflict
      else if !SettlementHolds(lineage, t, row.ticker, row.preconditions.value) then RowDrifted
      else Eligible
  {
    hide Drifted, SettlementHolds;
    if row.preconditions.Some? {
      SettlementHoldsExactly(lineage, t, row.ticker, row.preconditions.value);
    }
  }

  /** Every reviewed row reviews a row of the proposal. */
  lemma ReviewedRow(i: Inputs, lineage: Lineage, t: Table, p: Proposal, row: ReviewRow) returns (proposed: ProposalRow)
    requires row in ReviewRows(i, lineage, t, p)
    ensures proposed in p.rows && row == ReviewRowOf(i, lineage, t, proposed)
  {
    hide ReviewRowOf, AtMost;
    var ordered := Sort(p.rows, AtMost);
    var rows := ReviewRows(i, lineage, t, p);
    var k :| 0 <= k < |rows| && rows[k] == row;
    proposed := ordered[k];
    SortKeeps(p.rows, AtMost);
    assert proposed in multiset(ordered);
  }

  lemma {:induction false} EligibleHashesExact(rows: seq<ReviewRow>)
    ensures forall d :: d in EligibleHashes(rows) <==>
      exists row :: row in rows && row.result == Eligible && row.proposalRowHash == d
    ensures EligibleHashes(rows) == [] <==> !AnyResult(rows, Eligible)
  {
    if rows != [] {
      EligibleHashesExact(rows[1..]);
      assert rows == [rows[0]] + rows[1..];
    }
  }

  lemma {:induction false} HashesOnce(rows: seq<ReviewRow>)
    requires DistinctBy(rows, (row: ReviewRow) => row.proposalRowHash)
    ensures NoDuplicates(EligibleHashes(rows))
  {
    if rows != [] {
      var rest := rows[1..];
      HashesOnce(rest);
      EligibleHashesExact(rest);
      assert rows[0].proposalRowHash !in EligibleHashes(rest);
    }
  }
}
