/** The canonicalization proposal (scripts/local/phase4ai_canonicalization_proposal.py). */
module CanonicalizationProposal {
  import opened Support
  import opened Lists
  import opened Text
  import opened TimestampAudit
  import opened EvidenceCollection
  import opened ReadinessGate
  import opened FunnelArtifacts

  type Table = map<string, Row>

  datatype Fault = ValidityInvalid | InputLineageFailure | DuplicateInputRow | DuplicateTicker

  predicate GateOpen(state: GateState) { state == ReadyForProposal || state == PartiallyReady }

  function FindEvidence(rows: seq<Evidence>, ticker: string): (r: Option<Evidence>)
    ensures r.Some? ==> r.value in rows && r.value.ticker == ticker
    ensures r.None? ==> forall e :: e in rows ==> e.ticker != ticker
  {
    FirstWhere(rows, (e: Evidence) => e.ticker == ticker)
  }

  function FindStatus(rows: seq<StatusRow>, ticker: string): (r: Option<StatusRow>)
    ensures r.Some? ==> r.value in rows && r.value.ticker == ticker
    ensures r.None? ==> forall s :: s in rows ==> s.ticker != ticker
  {
    FirstWhere(rows, (s: StatusRow) => s.ticker == ticker)
  }

  function Current(t: Table, ticker: string): Option<Row> { if ticker in t then Some(t[ticker]) else None }

  /** The first reason not to propose, up to the state of the settlement and its audit. */
  function Ladder(i: Inputs, lineage: Lineage, g: GateRow, audited: Option<AuditRow>, current: Option<Row>): Disposition
  {
    if !GateOpen(i.gate.state) then GateNotReady
    else if g.transition != AuthoritativeEvidenceAdded then NoEligibleTransition
    else if audited.None? then ProposalLineageFailure
    else if current.None? then ProposalSourceMissing
    else if !Unset(current.value.settledAt) then CanonicalTimestampAlreadyPresent
    else if BinaryOutcome(current.value.result).None? then SettlementResultChanged
    else if Some(lineage(g.ticker, current.value)) != audited.value.settlementHash then SettlementLineageDrifted
    else if audited.value.classification == TimestampConflict then ProposalTimestampConflict
    else if !audited.value.timezoneUnambiguous then ProposalTimezoneAmbiguous
    else if !audited.value.sourceFresh then ProposalSourceStale
    else if !audited.value.ready then ProposalBlocked
    else if audited.value.evaluationAppeared then EvaluationHasAppeared
    else Proposed
  }

  function DispositionOf(
    i: Inputs, lineage: Lineage, g: GateRow, audited: Option<AuditRow>, current: Option<Row>): Disposition
  {
    var d := Ladder(i, lineage, g, audited, current);
    var evidence := FindEvidence(i.evidence.rows, g.ticker);
    if d != Proposed then d
    else if FindStatus(i.status.rows, g.ticker).None? || evidence.None? then EvidenceDrifted
    else if audited.Some? && Some(evidence.value.timestamp) != audited.value.candidateTime then EvidenceDrifted
    else Proposed
  }

  function ProposalRowOf(h: Hashes, i: Inputs, lineage: Lineage, t: Table, expiresAt: int, g: GateRow): ProposalRow {
    var audited := FindRow(i.reaudit.rows, (g.captureId, g.ticker));
    var current := Current(t, g.ticker);
    var evidence := FindEvidence(i.evidence.rows, g.ticker);
    var expected := Preconditions(
      if current.Some? then current.value.result else None,
      if current.Some? then Some(lineage(g.ticker, current.value)) else None,
      if current.Some? then current.value.updatedAt else None,
      true, expiresAt, true, true);
    Sealed(h, ProposalRow(g.ticker,
      if audited.Some? then audited.value.candidateTime else None,
      if evidence.Some? then Some(evidence.value.identity) else None,
      if audited.Some? then audited.value.evidenceHash else None,
      Some(expected), DispositionOf(i, lineage, g, audited, current), ""))
  }

  predicate AtMost(a: GateRow, b: GateRow) { KeyAtMost((a.captureId, a.ticker), (b.captureId, b.ticker)) }

  function ProposalRows(h: Hashes, i: Inputs, lineage: Lineage, t: Table, expiresAt: int): seq<ProposalRow> {
    Map(Sort(i.gate.rows, AtMost), g => ProposalRowOf(h, i, lineage, t, expiresAt, g))
  }

  function Counted(rows: seq<ProposalRow>, d: Disposition): nat {
    CountWhere(rows, (row: ProposalRow) => row.disposition == d)
  }

  function ProposalStateOf(rows: seq<ProposalRow>): ProposalState {
    var proposed := Counted(rows, Proposed);
    if rows == [] then NoEligibleProposals
    else if Counted(rows, ProposalTimestampConflict) + Counted(rows, SettlementResultChanged) > 0 then ProposalConflict
    else if Counted(rows, CanonicalTimestampAlreadyPresent) + Counted(rows, SettlementLineageDrifted)
            + Counted(rows, EvidenceDrifted) + Counted(rows, EvaluationHasAppeared) > 0 then ProposalDrift
    else if proposed == |rows| then ReadyForReview
    else if proposed > 0 then PartiallyReadyForReview
    else NoEligibleProposals
  }

  function InputFault(h: Hashes, i: Inputs, validFor: int): Option<Fault> {
    if validFor <= 0 then Some(ValidityInvalid)
    else if !(GateLinked(h, i)
              && i.status.pairId == i.evidence.pairId == i.gate.agPairId
              && i.evidence.collectionHash == h.collection(i.status)
              && i.gate.pairId == i.reaudit.pairId) then Some(InputLineageFailure)
    else if !DistinctBy(i.gate.rows, (g: GateRow) => (g.captureId, g.ticker)) || !DistinctKeys(i.reaudit.rows) then
      Some(DuplicateInputRow)
    else if !DistinctBy(i.status.rows, (s: StatusRow) => s.ticker)
            || !DistinctBy(i.evidence.rows, (e: Evidence) => e.ticker) then Some(DuplicateTicker)
    else None
  }

  function ProposalOf(h: Hashes, i: Inputs, lineage: Lineage, t: Table, now: int, validFor: int): Proposal {
    var rows := ProposalRows(h, i, lineage, t, now + validFor);
    Proposal(h.proposalId(h.gate(i.gate), now, rows), rows, SourcesOf(h, i), now, now + validFor,
      ProposalStateOf(rows), false)
  }

  method Propose(h: Hashes, i: Inputs, lineage: Lineage, t: Table, now: int, validFor: int)
    returns (r: Result<Proposal, Fault>)
    ensures
      var fault := InputFault(h, i, validFor);
      r == if fault.Some? then Err(fault.value) else Ok(ProposalOf(h, i, lineage, t, now, validFor))
  {
    hide ProposalRowOf, ProposalStateOf, AtMost, InputFault;
    var fault := InputFault(h, i, validFor);
    if fault.Some? {
      return Err(fault.value);
    }
    var expiresAt := now + validFor;
    var ordered := Sort(i.gate.rows, AtMost);
    var rows: seq<ProposalRow> := [];
    var k := 0;
    while k < |ordered|
      invariant 0 <= k <= |ordered| && |rows| == k
      invariant forall n :: 0 <= n < k ==> rows[n] == ProposalRowOf(h, i, lineage, t, expiresAt, ordered[n])
    {
      rows := rows + [ProposalRowOf(h, i, lineage, t, expiresAt, ordered[k])];
      k := k + 1;
    }
    assert rows == ProposalRows(h, i, lineage, t, expiresAt);
    r := Ok(Proposal(h.proposalId(h.gate(i.gate), now, rows), rows, SourcesOf(h, i), now, expiresAt,
      ProposalStateOf(rows), false));
  }

  // ---- What a proposal says ----

  /** The artifacts were made from one another, as their hashes and pair numbers say. */
  ghost predicate InputsLink(h: Hashes, i: Inputs) {
    && i.gate.sources.reaudit == h.audit(i.reaudit) && i.gate.sources.baseline == i.baseline
    && i.gate.sources.status == h.collection(i.status) && i.gate.sources.evidence == h.evidence(i.evidence)
    && i.gate.sources.ad == i.ad && i.gate.sources.ae == i.ae && i.gate.sources.history == i.history
    && i.status.pairId == i.evidence.pairId && i.evidence.pairId == i.gate.agPairId
    && i.evidence.collectionHash == h.collection(i.status) && i.gate.pairId == i.reaudit.pairId
  }

  /** Two gate rows, or two rows of the audit, are of one capture of one ticker. */
  ghost predicate RepeatsKey(i: Inputs) {
    || (exists j, k :: 0 <= j < k < |i.gate.rows|
          && i.gate.rows[j].captureId == i.gate.rows[k].captureId && i.gate.rows[j].ticker == i.gate.rows[k].ticker)
    || (exists j, k :: 0 <= j < k < |i.reaudit.rows|
          && i.reaudit.rows[j].captureId == i.reaudit.rows[k].captureId
          && i.reaudit.rows[j].ticker == i.reaudit.rows[k].ticker)
  }

  ghost predicate RepeatsTicker(i: Inputs) {
    || (exists j, k :: 0 <= j < k < |i.status.rows| && i.status.rows[j].ticker == i.status.rows[k].ticker)
    || (exists j, k :: 0 <= j < k < |i.evidence.rows| && i.evidence.rows[j].ticker == i.evidence.rows[k].ticker)
  }

  lemma KeysRepeatExactly(i: Inputs)
    ensures RepeatsKey(i) <==>
      !DistinctBy(i.gate.rows, (g: GateRow) => (g.captureId, g.ticker)) || !DistinctKeys(i.reaudit.rows)
  {
  }

  lemma TickersRepeatExactly(i: Inputs)
    ensures RepeatsTicker(i) <==>
      !DistinctBy(i.status.rows, (s: StatusRow) => s.ticker) || !DistinctBy(i.evidence.rows, (e: Evidence) => e.ticker)
  {
  }

  /** When a proposal is refused, and for what. */
  lemma InputFaultExactly(h: Hashes, i: Inputs, validFor: int)
    ensures InputFault(h, i, validFor) ==
      if validFor <= 0 then Some(ValidityInvalid)
      else if !InputsLink(h, i) then Some(InputLineageFailure)
      else if RepeatsKey(i) then Some(DuplicateInputRow)
      else if RepeatsTicker(i) then Some(DuplicateTicker)
      else None
  {
    KeysRepeatExactly(i);
    TickersRepeatExactly(i);
    hide DistinctBy, DistinctKeys, RepeatsKey, RepeatsTicker;
  }

  /** The obstacle is not there, given that none before it is. */
  ghost predicate Clears(i: Inputs, lineage: Lineage, t: Table, g: GateRow, d: Disposition) {
    var audited := FindRow(i.reaudit.rows, (g.captureId, g.ticker));
    var evidence := FindEvidence(i.evidence.rows, g.ticker);
    match d
    case GateNotReady => i.gate.state in {ReadyForProposal, PartiallyReady}
    case NoEligibleTransition => g.transition == AuthoritativeEvidenceAdded
    case ProposalLineageFailure => audited.Some?
    case ProposalSourceMissing => g.ticker in t
    case CanonicalTimestampAlreadyPresent =>
      g.ticker in t && (t[g.ticker].settledAt == None || t[g.ticker].settledAt == Some(""))
    case SettlementResultChanged => g.ticker in t && BinaryOutcome(t[g.ticker].result).Some?
    case SettlementLineageDrifted =>
      g.ticker in t && audited.Some? && audited.value.settlementHash == Some(lineage(g.ticker, t[g.ticker]))
    case ProposalTimestampConflict => audited.Some? && audited.value.classification != TimestampConflict
    case ProposalTimezoneAmbiguous => audited.Some? && audited.value.timezoneUnambiguous
    case ProposalSourceStale => audited.Some? && audited.value.sourceFresh
    case ProposalBlocked => audited.Some? && audited.value.ready
    case EvaluationHasAppeared => audited.Some? && !audited.value.evaluationAppeared
    case EvidenceDrifted =>
      && audited.Some? && evidence.Some? && audited.value.candidateTime == Some(evidence.value.timestamp)
      && exists s :: s in i.status.rows && s.ticker == g.ticker
    case Proposed => true
  }

  lemma ObstaclesToGate(i: Inputs, lineage: Lineage, t: Table, g: GateRow)
    ensures
      var audited := FindRow(i.reaudit.rows, (g.captureId, g.ticker));
      var current := Current(t, g.ticker);
      && (Clears(i, lineage, t, g, GateNotReady) <==> GateOpen(i.gate.state))
      && (Clears(i, lineage, t, g, NoEligibleTransition) <==> g.transition == AuthoritativeEvidenceAdded)
      && (Clears(i, lineage, t, g, ProposalLineageFailure) <==> audited.Some?)
      && (Clears(i, lineage, t, g, ProposalSourceMissing) <==> current.Some?)
      && (Clears(i, lineage, t, g, CanonicalTimestampAlreadyPresent) <==>
            current.Some? && Unset(current.value.settledAt))
      && (Clears(i, lineage, t, g, SettlementResultChanged) <==>
            current.Some? && BinaryOutcome(current.value.result).Some?)
      && (Clears(i, lineage, t, g, SettlementLineageDrifted) <==>
            current.Some? && audited.Some? && Some(lineage(g.ticker, current.value)) == audited.value.settlementHash)
  {
    hide BinaryOutcome, FindRow;
  }

  lemma ObstaclesOfAudit(i: Inputs, lineage: Lineage, t: Table, g: GateRow)
    ensures
      var audited := FindRow(i.reaudit.rows, (g.captureId, g.ticker));
      var evidence := FindEvidence(i.evidence.rows, g.ticker);
      && (Clears(i, lineage, t, g, ProposalTimestampConflict) <==>
            audited.Some? && audited.value.classification != TimestampConflict)
      && (Clears(i, lineage, t, g, ProposalTimezoneAmbiguous) <==>
            audited.Some? && audited.value.timezoneUnambiguous)
      && (Clears(i, lineage, t, g, ProposalSourceStale) <==> audited.Some? && audited.value.sourceFresh)
      && (Clears(i, lineage, t, g, ProposalBlocked) <==> audited.Some? && audited.value.ready)
      && (Clears(i, lineage, t, g, EvaluationHasAppeared) <==> audited.Some? && !audited.value.evaluationAppeared)
      && (Clears(i, lineage, t, g, EvidenceDrifted) <==>
            && audited.Some? && evidence.Some? && FindStatus(i.status.rows, g.ticker).Some?
            && Some(evidence.value.timestamp) == audited.value.candidateTime)
  {
    hide FindRow, FindEvidence;
  }

  /** The disposition of a row is the first obstacle in its way, and it is proposed if there is none. */
  lemma DispositionExactly(h: Hashes, i: Inputs, lineage: Lineage, t: Table, expiresAt: int, g: GateRow)
    ensures ProposalRowOf(h, i, lineage, t, expiresAt, g).disposition ==
      if !Clears(i, lineage, t, g, GateNotReady) then GateNotReady
      else if !Clears(i, lineage, t, g, NoEligibleTransition) then NoEligibleTransition
      else if !Clears(i, lineage, t, g, ProposalLineageFailure) then ProposalLineageFailure
      else if !Clears(i, lineage, t, g, ProposalSourceMissing) then ProposalSourceMissing
      else if !Clears(i, lineage, t, g, CanonicalTimestampAlreadyPresent) then CanonicalTimestampAlreadyPresent
      else if !Clears(i, lineage, t, g, SettlementResultChanged) then SettlementResultChanged
      else if !Clears(i, lineage, t, g, SettlementLineageDrifted) then SettlementLineageDrifted
      else if !Clears(i, lineage, t, g, ProposalTimestampConflict) then ProposalTimestampConflict
      else if !Clears(i, lineage, t, g, ProposalTimezoneAmbiguous) then ProposalTimezoneAmbiguous
      else if !Clears(i, lineage, t, g, ProposalSourceStale) then ProposalSourceStale
      else if !Clears(i, lineage, t, g, ProposalBlocked) then ProposalBlocked
      else if !Clears(i, lineage, t, g, EvaluationHasAppeared) then EvaluationHasAppeared
      else if !Clears(i, lineage, t, g, EvidenceDrifted) then EvidenceDrifted
      else Proposed
  {
    hide Clears, FindRow, FindEvidence, FindStatus, Current, BinaryOutcome, GateOpen, Unset;
    ObstaclesToGate(i, lineage, t, g);
    ObstaclesOfAudit(i, lineage, t, g);
  }

  /** The proposal has one row per gate row, in order of ticker and capture. */
  lemma ProposalOrderExactly(h: Hashes, i: Inputs, lineage: Lineage, t: Table, expiresAt: int)
    returns (gates: seq<GateRow>)
    ensures multiset(gates) == multiset(i.gate.rows)
    ensures forall j, k :: 0 <= j < k < |gates| ==>
      KeysInOrder([gates[j].ticker, gates[j].captureId], [gates[k].ticker, gates[k].captureId])
    ensures
      var rows := ProposalRows(h, i, lineage, t, expiresAt);
      && |rows| == |gates|
      && forall k :: 0 <= k < |rows| ==> rows[k] == ProposalRowOf(h, i, lineage, t, expiresAt, gates[k])
  {
    hide TextsAtMost, KeysInOrder, Sort, ProposalRowOf;
    gates := Sort(i.gate.rows, AtMost);
    SortByKeys(i.gate.rows, (g: GateRow) => [g.ticker, g.captureId], AtMost);
  }

  /** What a proposal row records of its audit, of its evidence and of the settlement as it stands. */
  lemma ProposalRowExactly(h: Hashes, i: Inputs, lineage: Lineage, t: Table, expiresAt: int, g: GateRow)
    ensures
      var row := ProposalRowOf(h, i, lineage, t, expiresAt, g);
      var audited := FindRow(i.reaudit.rows, (g.captureId, g.ticker));
      var evidence := FindEvidence(i.evidence.rows, g.ticker);
      && row.ticker == g.ticker && row.hash == h.proposalRow(row.(hash := ""))
      && row.proposed == (if audited.Some? then audited.value.candidateTime else None)
      && row.evidenceHash == (if audited.Some? then audited.value.evidenceHash else None)
      && row.evidenceIdentity == (if evidence.Some? then Some(evidence.value.identity) else None)
      && row.preconditions == Some(
           if g.ticker in t then
             Preconditions(
               t[g.ticker].result, Some(lineage(g.ticker, t[g.ticker])), t[g.ticker].updatedAt, true, expiresAt, true,
               true)
           else Preconditions(None, None, None, true, expiresAt, true, true))
  {
    hide DispositionOf, FindRow;
    var row := ProposalRowOf(h, i, lineage, t, expiresAt, g);
    assert row == Sealed(h, row.(hash := ""));
  }

  ghost predicate AnyDisposition(rows: seq<ProposalRow>, ds: set<Disposition>) {
    exists row :: row in rows && row.disposition in ds
  }

  lemma CountedExactly(rows: seq<ProposalRow>, d: Disposition)
    ensures Counted(rows, d) <= |rows|
    ensures Counted(rows, d) == |rows| <==> forall row :: row in rows ==> row.disposition == d
    ensures Counted(rows, d) > 0 <==> exists row :: row in rows && row.disposition == d
  {
    CountWhereExact(rows, (row: ProposalRow) => row.disposition == d);
  }

  /** The state of a proposal: conflicts before drift before what is proposed. */
  lemma ProposalStateExactly(rows: seq<ProposalRow>)
    ensures ProposalStateOf(rows) ==
      if AnyDisposition(rows, {ProposalTimestampConflict, SettlementResultChanged}) then ProposalConflict
      else if AnyDisposition(
        rows, {CanonicalTimestampAlreadyPresent, SettlementLineageDrifted, EvidenceDrifted, EvaluationHasAppeared}) then
        ProposalDrift
      else if rows != [] && forall row :: row in rows ==> row.disposition == Proposed then ReadyForReview
      else if AnyDisposition(rows, {Proposed}) then PartiallyReadyForReview
      else NoEligibleProposals
  {
    hide Counted;
    CountedExactly(rows, Proposed);
    CountedExactly(rows, ProposalTimestampConflict);
    CountedExactly(rows, SettlementResultChanged);
    CountedExactly(rows, CanonicalTimestampAlreadyPresent);
    CountedExactly(rows, SettlementLineageDrifted);
    CountedExactly(rows, EvidenceDrifted);
    CountedExactly(rows, EvaluationHasAppeared);
    assert rows != [] ==> rows[0] in rows;
  }

  /** Every row of a proposal comes from a row of its gate, and is sealed with its own hash. */
  lemma RowComesFromGate(
    h: Hashes, i: Inputs, lineage: Lineage, t: Table, expiresAt: int, row: ProposalRow) returns (g: GateRow)
    requires row in ProposalRows(h, i, lineage, t, expiresAt)
    ensures g in i.gate.rows && row == ProposalRowOf(h, i, lineage, t, expiresAt, g)
    ensures row == Sealed(h, row)
  {
    hide DispositionOf, AtMost;
    var ordered := Sort(i.gate.rows, AtMost);
    var rows := ProposalRows(h, i, lineage, t, expiresAt);
    var k :| 0 <= k < |rows| && rows[k] == row;
    g := ordered[k];
    SortKeeps(i.gate.rows, AtMost);
    assert g in multiset(ordered);
  }

  /**
   A timestamp is proposed exactly when the gate is open, evidence was added, the settlement is still unset with the
   audited lineage and a binary result, its audit is ready, and the collected evidence states the very time audited.
   */
  lemma ProposedExactly(h: Hashes, i: Inputs, lineage: Lineage, t: Table, expiresAt: int, g: GateRow)
    ensures
      var row := ProposalRowOf(h, i, lineage, t, expiresAt, g);
      var audited := FindRow(i.reaudit.rows, (g.captureId, g.ticker));
      var evidence := FindEvidence(i.evidence.rows, g.ticker);
      row.disposition == Proposed <==>
        && GateOpen(i.gate.state) && g.transition == AuthoritativeEvidenceAdded
        && g.ticker in t && Unset(t[g.ticker].settledAt) && BinaryOutcome(t[g.ticker].result).Some?
        && audited.Some? && audited.value.settlementHash == Some(lineage(g.ticker, t[g.ticker]))
        && audited.value.classification != TimestampConflict && audited.value.timezoneUnambiguous
        && audited.value.sourceFresh && audited.value.ready && !audited.value.evaluationAppeared
        && FindStatus(i.status.rows, g.ticker).Some?
        && evidence.Some? && audited.value.candidateTime == Some(evidence.value.timestamp) == row.proposed
  {
    hide BinaryOutcome, Unset;
  }
}
