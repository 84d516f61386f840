/** What a committed timestamp owes to each step before it. */
module Provenance {
  import opened Support
  import opened Lists
  import opened Text
  import opened TimestampAudit
  import opened EvidenceCollection
  import opened ReadinessGate
  import opened FunnelArtifacts
  import opened CanonicalizationProposal
  import opened ProposalReview
  import opened ReadinessEnvelope
  import opened Funnel
  import SettlementTransaction

  // ---- The chain behind a ready row ----

  /** The artifacts' rows behind one ready row, from the proposal back to the collection. */
  datatype Trail = Trail(
    proposed: ProposalRow, gated: GateRow, before: AuditRow, audited: AuditRow, facts: Facts, collected: StatusRow)

  /** The audit of these facts found the settlement ready, and every authority on it agreed on this time. */
  ghost predicate Backed(q: Runs, k: Trail, time: string) {
    && k.facts in q.facts && k.audited in q.auditedFile.rows
    && k.audited == AuditRowOf(q.auditor, k.facts)
    && k.audited.ready && k.audited.classification == ArtifactTimestampAvailable
    && Agreed(CandidatesOf(q.auditor, k.facts), time) && Agreed(k.audited.inventory, time)
  }

  /** The collector found evidence for the settlement, and every response it had attests this time. */
  ghost predicate Collected(q: Runs, k: Trail, time: string) {
    && k.before in q.baseline.rows && k.before.classification == ResultPresentTimestampMissing
    && k.collected in q.collection.rows && k.collected.ticker == k.proposed.ticker && Successful(k.collected)
    && EvidenceOf(k.collected).timestamp == time
    && Attested(q.world, k.proposed.ticker, time)
  }

  /** The settlement's hash was this one at the baseline, at the collection, in the new audit and for the proposal. */
  ghost predicate SameSettlement(q: Runs, k: Trail, hash: Digest) {
    var ticker := k.proposed.ticker;
    && k.before.settlementHash == Some(hash) && k.audited.settlementHash == Some(hash)
    && ticker in q.world.table && q.lineage(ticker, q.world.table[ticker]) == hash
    && ticker in q.proposalTable && q.lineage(ticker, q.proposalTable[ticker]) == hash
    && k.proposed.preconditions.Some? && k.proposed.preconditions.value.settlementHash == Some(hash)
  }

  ghost predicate Chain(q: Runs, row: EnvelopeRow, k: Trail) {
    && Advanced(q, row, k.proposed)
    && k.gated in q.proposalInputs.gate.rows && k.gated.transition == AuthoritativeEvidenceAdded
    && k.gated.ticker == k.audited.ticker == k.before.ticker == row.ticker
    && k.gated.captureId == k.audited.captureId == k.before.captureId
    && row.proposed.Some? && k.audited.candidateTime == row.proposed
    && Backed(q, k, row.proposed.value) && Collected(q, k, row.proposed.value)
    && k.audited.settlementHash.Some? && SameSettlement(q, k, k.audited.settlementHash.value)
  }

  lemma {:induction false} DueRow(rows: seq<StatusRow>, ticker: string) returns (s: StatusRow)
    requires ticker in Due(rows)
    ensures s in rows && s.ticker == ticker && Successful(s) && Due(rows)[ticker] == EvidenceOf(s)
  {
    hide EvidenceOf;
    var front, last := rows[..|rows| - 1], rows[|rows| - 1];
    assert rows == front + [last];
    if Successful(last) && last.ticker == ticker {
      s := last;
    } else {
      s := DueRow(front, ticker);
    }
  }

  /** The evidence behind a proposed row was found by the collector and is attested by its responses. */
  lemma EvidenceWasCollected(q: Runs, e: Evidence) returns (s: StatusRow)
    requires Published(q) && NoCollisions(q) && e in q.evidence.rows
    ensures s in q.collection.rows && s.ticker == e.ticker && Successful(s) && EvidenceOf(s) == e
    ensures Captures(q.baseline.rows, e.ticker) != []
    ensures s == StatusRowOf(q.lineage, q.world, Captures(q.baseline.rows, e.ticker), e.ticker)
  {
    hide NoCollisions, Proposing, Reviewing, Enveloping, Captures, StatusRows, StatusRowOf, Due, PairFaultOf, GateRows,
      AuditRows, EvidenceOf;
    StepsShareArtifacts(q);
    PairHoldsExactly(q.collection, q.h.collection(q.collection), q.evidence, q.h.audit(q.baseline));
    s := DueRow(q.collection.rows, e.ticker);
    StatusRowsExact(q.lineage, q.world, q.baseline.rows);
  }

  lemma GateRowOfKey(baseline: seq<AuditRow>, reaudit: seq<AuditRow>, key: RowKey) returns (g: GateRow)
    requires key in AllKeys(baseline, reaudit)
    ensures g in GateRows(baseline, reaudit) && (g.captureId, g.ticker) == key
  {
    hide AllKeys;
    var keys := AllKeys(baseline, reaudit);
    var k :| 0 <= k < |keys| && keys[k] == key;
    g := GateRows(baseline, reaudit)[k];
  }

  /** A ticker the gate knows once was audited once in the baseline. */
  lemma OneBaselineRow(q: Runs, a: AuditRow, b: AuditRow)
    requires Published(q) && NoCollisions(q)
    requires a in q.baseline.rows && b in q.baseline.rows && a.ticker == b.ticker
    ensures a == b
  {
    hide NoCollisions, Proposing, Reviewing, Enveloping, StatusRows, PairFaultOf, AuditRows, AllKeys, GateRowOf;
    var rows, audited := q.baseline.rows, q.auditedFile.rows;
    GateRowsCoverKeys(rows, audited);
    var x := GateRowOfKey(rows, audited, KeyOf(a));
    var y := GateRowOfKey(rows, audited, KeyOf(b));
    OneGateRow(q, x, y);
    assert KeyOf(a) == KeyOf(b);
    var i, j :| 0 <= i < |rows| && 0 <= j < |rows| && rows[i] == a && rows[j] == b;
  }

  /** The one baseline row of a collected ticker is what the collector asked about. */
  lemma OnlyCapture(q: Runs, before: AuditRow)
    requires Published(q) && NoCollisions(q)
    requires before in q.baseline.rows && Captures(q.baseline.rows, before.ticker) != []
    ensures before.classification == ResultPresentTimestampMissing
    ensures HashesOf(Captures(q.baseline.rows, before.ticker)) == {before.settlementHash}
  {
    hide Published, NoCollisions;
    var captures := Captures(q.baseline.rows, before.ticker);
    assert captures[0] in captures;
    forall row | row in captures ensures row == before {
      OneBaselineRow(q, row, before);
    }
  }

  /**
   Behind every ready row stands one time and one settlement: the time is the one all exchange responses stated to the
   collector and all authorities agreed on in the new audit, and the settlement's hash never changed in between.
   */
  lemma ReadyRowProvenance(q: Runs, row: EnvelopeRow) returns (k: Trail)
    requires Published(q) && NoCollisions(q) && q.attestation.state == Approved
    requires row in HandoffOfRuns(q).envelope.rows && row.readiness == Ready
    ensures Chain(q, row, k)
    ensures Unmoved(q, q.envelopeTable, k.proposed)
  {
    hide NoCollisions, Proposing, Reviewing, Enveloping, HandoffOfRuns, ReviewResultOf, AuditRowOf, Agreed, GateRows,
      AuditRows, StatusRows, PairFaultOf, Attested, BinaryOutcome, Unmoved, Captures, StatusRowOf, EvidenceOf;
    StepsShareArtifacts(q);
    var p := EnvelopeRejectsOnlyDrift(q, row);
    var g, audited, e := ProposedRowIsSupported(q, p);
    var before, after, f := EvidenceAddedIsReady(q.auditor, q.facts, q.baseline.rows, g);
    var s := EvidenceWasCollected(q, e);
    var captures := Captures(q.baseline.rows, p.ticker);
    EvidenceFoundExactly(q.lineage, q.world, captures, p.ticker);
    OnlyCapture(q, before);
    k := Trail(p, g, before, audited, f, s);
  }

  // ---- The settlement transaction ----

  function ReadyRows(rows: seq<EnvelopeRow>): seq<EnvelopeRow> {
    if rows == [] then []
    else (if rows[0].readiness == Ready then [rows[0]] else []) + ReadyRows(rows[1..])
  }

  function CandidateOf(row: EnvelopeRow): SettlementTransaction.Candidate {
    if row.preconditions.None? then SettlementTransaction.Candidate(row.ticker, row.proposed, None, None, "")
    else
      var expected := row.preconditions.value;
      SettlementTransaction.Candidate(row.ticker, row.proposed, expected.result, expected.updatedAt,
        if expected.settlementHash.Some? then expected.settlementHash.value else "")
  }

  predicate ByTicker(a: SettlementTransaction.Candidate, b: SettlementTransaction.Candidate) {
    TextsAtMost([a.ticker], [b.ticker])
  }

  /** The request made of the protocol by a handoff: its ready rows as candidates by ticker, and its deadline. */
  predicate Requested(q: Runs, handoff: Handoff, r: SettlementTransaction.Request) {
    && r.ready == (handoff.envelope.state == ReadyForExecutorDesign)
    && r.earliestDeadline == handoff.earliestDeadline
    && r.candidates == Sort(Map(ReadyRows(handoff.envelope.rows), CandidateOf), ByTicker)
  }

  /** Every handoff has its request, whatever is asked besides. */
  lemma RequestOf(q: Runs, handoff: Handoff, others: SettlementTransaction.Request)
    returns (r: SettlementTransaction.Request)
    ensures Requested(q, handoff, r)
    ensures r.lineage == others.lineage && r.now == others.now && r.failure == others.failure
  {
    r := others.(
      ready := handoff.envelope.state == ReadyForExecutorDesign,
      earliestDeadline := handoff.earliestDeadline,
      candidates := Sort(Map(ReadyRows(handoff.envelope.rows), CandidateOf), ByTicker));
  }

  /** The protocol meets the candidates by ticker. */
  lemma CandidateOrderExactly(q: Runs, handoff: Handoff, r: SettlementTransaction.Request)
    requires Requested(q, handoff, r)
    ensures forall i, j ::
      0 <= i < j < |r.candidates| ==> KeysInOrder([r.candidates[i].ticker], [r.candidates[j].ticker])
  {
    hide TextsAtMost, KeysInOrder, Sort, ReadyRows, CandidateOf;
    SortByKeys(Map(ReadyRows(handoff.envelope.rows), CandidateOf),
      (c: SettlementTransaction.Candidate) => [c.ticker], ByTicker);
  }

  lemma {:induction false} AllReadyRows(rows: seq<EnvelopeRow>)
    ensures forall row :: row in ReadyRows(rows) <==> row in rows && row.readiness == Ready
    ensures (forall row :: row in rows ==> row.readiness == Ready) ==> ReadyRows(rows) == rows
  {
    if rows != [] {
      AllReadyRows(rows[1..]);
      assert rows == [rows[0]] + rows[1..];
    }
  }

  lemma CandidateWasReady(rows: seq<EnvelopeRow>, c: SettlementTransaction.Candidate) returns (row: EnvelopeRow)
    requires c in Sort(Map(ReadyRows(rows), CandidateOf), ByTicker)
    ensures row in rows && row.readiness == Ready && c == CandidateOf(row)
  {
    hide CandidateOf, ReadyRows, ByTicker;
    AllReadyRows(rows);
    var ready := ReadyRows(rows);
    var listed := Map(ready, CandidateOf);
    SortKeeps(listed, ByTicker);
    assert c in multiset(Sort(listed, ByTicker));
    var i :| 0 <= i < |listed| && listed[i] == c;
    row := ready[i];
  }

  /** The candidate's settlement has no timestamp, not even an empty one. */
  predicate OverNull(t: SettlementTransaction.Table, c: SettlementTransaction.Candidate) {
    c.ticker in t && t[c.ticker].settledAt == None
  }

  /** The settlement is over NULL, and a trail explains its proposed time and its present hash. */
  ghost predicate Explained(q: Runs, t: SettlementTransaction.Table, c: SettlementTransaction.Candidate) {
    && OverNull(t, c) && c.proposed.Some?
    && exists k: Trail ::
         && k.proposed.ticker == c.ticker
         && Backed(q, k, c.proposed.value) && Collected(q, k, c.proposed.value)
         && SameSettlement(q, k, q.lineage(c.ticker, t[c.ticker]))
  }

  lemma ReadyIsApproved(q: Runs)
    ensures HandoffOfRuns(q).envelope.state == ReadyForExecutorDesign ==> q.attestation.state == Approved
    ensures HandoffOfRuns(q).envelope.state == ReadyForExecutorDesign ==>
      forall row :: row in HandoffOfRuns(q).envelope.rows ==> row.readiness == Ready
    ensures HandoffOfRuns(q).envelope.state == ReadyForExecutorDesign ==> HandoffOfRuns(q).envelope.rows != []
  {
    hide EnvelopeRows, ApprovalHolds, Earliest, ReadyHashes, EnvelopeStateOf;
    EnvelopeReadyExactly(HandoffOfRuns(q).envelope.rows, q.attestation.state == Approved,
      ApprovalHolds(q.h, q.proposal, q.manifest, q.approval, q.advancement, q.envelopedAt),
      q.envelopedAt >= q.proposal.expiresAt || q.envelopedAt >= q.advancement.expiresAt);
  }

  /** Review and envelope each met an approval of all proposed rows, in force, that rejects nothing. */
  ghost predicate Authorised(q: Runs) {
    && q.reviewApproval.Some?
    && (var a := q.reviewApproval.value;
        Covers(q, a) && InForce(a, q.reviewedAt, q.clockSkew) && !a.rejected && !Blank(a.reviewer))
    && q.approval.Some? && Holds(q, q.approval.value)
    && (Apart(q.h.approval, q.approval.value, q.reviewApproval.value) ==> q.approval == q.reviewApproval)
  }

  lemma SameApproval(q: Runs)
    requires Published(q) && q.approval.Some? && q.reviewApproval.Some?
    ensures q.h.approval(q.approval.value) == q.h.approval(q.reviewApproval.value)
  {
    hide Gated, Proposing, ProposalFault, ApprovalStatusOf, ReviewRows, ReviewStateOf, DistinctBy, EligibleHashes,
      TextSorted, SourcesOf;
    assert q.attestation.approvalHash == HashOf(q.h, q.reviewApproval);
    assert q.attestation.approvalHash == HashOf(q.h, q.approval);
  }

  lemma ReadyIsAuthorised(q: Runs)
    requires Published(q) && NoCollisions(q) && HandoffOfRuns(q).envelope.state == ReadyForExecutorDesign
    ensures Authorised(q)
  {
    hide Published, NoCollisions, HandoffOfRuns, Covers, InForce, Holds, Blank, SomeProposed, SomeMoved;
    EnvelopeOpensExactly(q);
    ReviewApprovesExactly(q);
    SameApproval(q);
  }

  /**
   What a commit means: it follows only approvals that reject nothing; every timestamp the protocol writes is written
   over a NULL and strictly before the proposal, the review and the approval expire; it is the one time that all
   exchange responses stated and all authorities in the audit agreed on; the settlement's hash is the one it had then;
   and nothing else in the table changes.
   */
  lemma CommittedTimestampProvenance(q: Runs, t: SettlementTransaction.Table, r: SettlementTransaction.Request)
    requires Published(q) && NoCollisions(q) && r.lineage == q.lineage && Requested(q, HandoffOfRuns(q), r)
    requires SettlementTransaction.Expected(t, r).outcome == SettlementTransaction.Committed
    ensures r.now < q.proposal.expiresAt && r.now < q.advancement.expiresAt
    ensures Authorised(q) && r.now < q.approval.value.expiresAt.value
    ensures SettlementTransaction.OnlySettles(t, SettlementTransaction.SwapAll(t, r.candidates), r.candidates)
    ensures forall c :: c in r.candidates ==> Explained(q, t, c)
  {
    hide HandoffOf, AuditRowOf, Agreed, Published, NoCollisions, ReviewResultOf, SettlementTransaction.OnlySettles,
      SettlementTransaction.SwapAll, SettlementTransaction.Expected, SettlementTransaction.RevalidationFault, Attested,
      Authorised, Unmoved, ReadyRows, Sort, Backed, Collected;
    SettlementTransaction.CommitsExactly(t, r);
    ReadyBeforeEveryDeadline(q.h, q.envelopeInputs, q.lineage, q.envelopeTable, q.proposal, q.manifest, q.approval,
      q.attestation, q.advancement, q.envelopedAt);
    ReadyIsApproved(q);
    ReadyIsAuthorised(q);
    forall c | c in r.candidates ensures Explained(q, t, c) {
      var row := CandidateWasReady(HandoffOfRuns(q).envelope.rows, c);
      var k := ReadyRowProvenance(q, row);
    }
  }
}
