/** What becomes of settlements that no one disturbs: the way from the collected evidence to the commit. */
module Passage {
  import opened Support
  import opened Lists
  import opened Text
  import opened TimestampAudit
  import opened EvidenceCollection
  import opened ReadinessGate
  import opened FunnelArtifacts
  import opened CanonicalizationProposal
  import opened ProposalReview
  import opened ReadinessEnvelope
  import opened Funnel
  import opened Provenance
  import opened ExchangeCollector
  import SettlementTransaction

  // ---- From the collection to the gate ----

  /** The new audit reads back every time that the collector writes. */
  ghost predicate TimesSurvive(q: Runs) {
    forall text: string :: q.world.parse(text).Time? ==>
      q.auditor.normalize(q.world.parse(text).normalized) == Some(q.world.parse(text).normalized)
  }

  /**
   The baseline found the timestamp of f's settlement missing; collector and new audit met the same row, attributed as
   before, and the new audit found it fresh and not evaluated.
   */
  ghost predicate Waiting(q: Runs, earlier: Facts, f: Facts) {
    && AuditRowOf(q.auditor, earlier) in q.baseline.rows
    && AuditRowOf(q.auditor, earlier).classification == ResultPresentTimestampMissing
    && f in q.facts && f.captureId == earlier.captureId && f.ticker == earlier.ticker && f.source == earlier.source
    && f.attributedHash == earlier.attributedHash && f.captureLineageHash == earlier.captureLineageHash
    && f.knownClassification && !f.evaluationAppeared && Fresh(f.sourceAge, q.auditor.freshnessSeconds)
    && f.source.Some? && f.ticker in q.world.table && q.world.table[f.ticker] == f.source.value
    && forall row :: row in Captures(q.baseline.rows, f.ticker) ==>
         row.settlementHash == Some(q.lineage(f.ticker, f.source.value))
  }

  lemma OneRowOfKey(rows: seq<AuditRow>, row: AuditRow, key: RowKey)
    requires DistinctKeys(rows) && row in rows && KeyOf(row) == key
    ensures FindRow(rows, key) == Some(row)
  {
    var found := FindRow(rows, key);
    var i, j :| 0 <= i < |rows| && 0 <= j < |rows| && rows[i] == row && (found.Some? ==> rows[j] == found.value);
  }

  /** The two audits have the rows of these facts under their key. */
  lemma RowsOfKey(q: Runs, earlier: Facts, f: Facts)
    requires Gated(q) && Waiting(q, earlier, f)
    ensures FindRow(q.baseline.rows, (f.captureId, f.ticker)) == Some(AuditRowOf(q.auditor, earlier))
    ensures FindRow(q.auditedFile.rows, (f.captureId, f.ticker)) == Some(AuditRowOf(q.auditor, f))
  {
    hide StatusRows, PairFaultOf, GateRows, AuditRows, VerdictOf, CandidatesOf, ArtifactsOf;
    var key := (f.captureId, f.ticker);
    FactsAreAudited(q.auditor, q.facts, f);
    OneRowOfKey(q.baseline.rows, AuditRowOf(q.auditor, earlier), key);
    OneRowOfKey(q.auditedFile.rows, AuditRowOf(q.auditor, f), key);
  }

  lemma {:induction false} SuccessfulIsDue(rows: seq<StatusRow>, s: StatusRow)
    requires s in rows && Successful(s)
    ensures s.ticker in Due(rows)
  {
    hide EvidenceOf;
    var front, last := rows[..|rows| - 1], rows[|rows| - 1];
    assert rows == front + [last];
    if s in front {
      SuccessfulIsDue(front, s);
    }
  }

  /** The evidence on a ticker is what its status row found, if anything. */
  lemma EvidenceOfTicker(q: Runs, s: StatusRow)
    requires Gated(q) && s in q.collection.rows && OneRowPerTicker(q.collection.rows)
    ensures Successful(s) ==> EvidenceOf(s) in q.evidence.rows && EvidenceOf(s).ticker == s.ticker
    ensures forall e :: e in q.evidence.rows && e.ticker == s.ticker ==> Successful(s) && e == EvidenceOf(s)
  {
    hide StatusRows, PairFaultOf, GateRows, AuditRows, Due, DistinctTickers, ArtifactsOf;
    var rows := q.collection.rows;
    PairHoldsExactly(q.collection, q.h.collection(q.collection), q.evidence, q.h.audit(q.baseline));
    if s.ticker in Due(rows) {
      var due := DueRow(rows, s.ticker);
      var i, j :| 0 <= i < |rows| && 0 <= j < |rows| && rows[i] == s && rows[j] == due;
    }
    if Successful(s) {
      SuccessfulIsDue(rows, s);
    }
  }

  lemma AuditRowKeys(a: Auditor, f: Facts)
    ensures AuditRowOf(a, f).ticker == f.ticker && AuditRowOf(a, f).captureId == f.captureId
    ensures AuditRowOf(a, f).settlementHash == CurrentHash(a, f)
    ensures AuditRowOf(a, f).evaluationAppeared == f.evaluationAppeared
  {
    hide VerdictOf, CandidatesOf;
  }

  lemma AttestedSurvives(q: Runs, ticker: string, time: string)
    requires TimesSurvive(q) && Attested(q.world, ticker, time)
    ensures q.auditor.normalize(time) == Some(time)
  {
    hide Sound;
    var r :| r in ResponsesOf(q.world, ticker) && r.market.Some? && r.market.value.stamps != [];
    var stamp := r.market.value.stamps[0];
    assert stamp in r.market.value.stamps;
    assert q.world.parse(stamp.1) == Time(time);
  }

  lemma StatusNamesTicker(lineage: Lineage, w: World, captures: seq<AuditRow>, ticker: string)
    ensures StatusRowOf(lineage, w, captures, ticker).ticker == ticker
  {
    hide InspectionOf;
  }

  /** What the new audit knows of a waiting settlement is what the collector found. */
  lemma ArtifactsAreCollected(q: Runs, earlier: Facts, f: Facts)
    requires Gated(q) && q.collectedFrom == q.baseline && TimesSurvive(q) && Waiting(q, earlier, f)
    ensures f.artifacts != [] <==> exists time: string :: Attested(q.world, f.ticker, time)
    ensures f.artifacts != [] ==>
      exists time: string :: Attested(q.world, f.ticker, time) && ArtifactsState(q.auditor, f, time)
  {
    hide StatusRows, PairFaultOf, GateRows, AuditRows, AuditRowOf, StatusRowOf, Captures, EvidenceOf, Attested;
    var captures := Captures(q.baseline.rows, f.ticker);
    var s := StatusRowOf(q.lineage, q.world, captures, f.ticker);
    AuditRowKeys(q.auditor, earlier);
    assert AuditRowOf(q.auditor, earlier) in captures;
    assert HashesOf(captures) == {Some(q.lineage(f.ticker, f.source.value))} by {
      assert captures[0] in captures;
    }
    EvidenceFoundExactly(q.lineage, q.world, captures, f.ticker);
    StatusRowsExact(q.lineage, q.world, q.baseline.rows);
    assert s.ticker == f.ticker by { StatusNamesTicker(q.lineage, q.world, captures, f.ticker); }
    EvidenceOfTicker(q, s);
    if f.artifacts != [] {
      assert f.artifacts[0] in f.artifacts;
    }
    if Successful(s) {
      var e := EvidenceOf(s);
      AttestedSurvives(q, f.ticker, e.timestamp);
      assert (e.identity, e.timestamp) in f.artifacts;
      assert ArtifactsState(q.auditor, f, e.timestamp);
    }
  }

  lemma SilentBySource(a: Auditor, f: Facts, g: Facts)
    requires f.source == g.source
    ensures Silent(a, f) <==> Silent(a, g)
  {
  }

  lemma OneStatedTime(a: Auditor, f: Facts, time: string, other: string)
    requires f.artifacts != [] && ArtifactsState(a, f, time) && ArtifactsState(a, f, other)
    ensures time == other
  {
    assert f.artifacts[0] in f.artifacts;
  }

  /**
   Evidence is added to a waiting settlement exactly when the collector's responses attest one time, which is then the
   time that the new audit reports; a settlement without such a time stays blocked as it was.
   */
  lemma AttestedEvidenceIsAdded(q: Runs, earlier: Facts, f: Facts)
    requires Gated(q) && q.collectedFrom == q.baseline && TimesSurvive(q) && Waiting(q, earlier, f)
    ensures
      var g := GateRowOf(q.baseline.rows, q.auditedFile.rows, (f.captureId, f.ticker));
      && g in q.proposalInputs.gate.rows
      && g.transition ==
         if exists time: string :: Attested(q.world, f.ticker, time) then AuthoritativeEvidenceAdded
         else UnchangedBlocked
    ensures
      var audited := AuditRowOf(q.auditor, f);
      (exists time: string :: Attested(q.world, f.ticker, time)) ==>
        && audited.ready && audited.candidateTime.Some?
        && Attested(q.world, f.ticker, audited.candidateTime.value)
  {
    hide StatusRows, PairFaultOf, AuditRows, AuditRowOf, Captures, Attested, AllKeys, ArtifactsState, Silent,
      CandidatesOf, BinaryOutcome;
    RowsOfKey(q, earlier, f);
    ArtifactsAreCollected(q, earlier, f);
    MissingExactly(q.auditor, earlier);
    MissingExactly(q.auditor, f);
    AuditRowKeys(q.auditor, earlier);
    AuditRowKeys(q.auditor, f);
    SilentBySource(q.auditor, earlier, f);
    ArtifactsSpeakExactly(q.auditor, f);
    GateRowsCoverKeys(q.baseline.rows, q.auditedFile.rows);
    var g := GateRowOfKey(q.baseline.rows, q.auditedFile.rows, (f.captureId, f.ticker));
    if f.artifacts != [] {
      ArtifactEvidenceIsReady(q.auditor, f);
      var time: string :| Attested(q.world, f.ticker, time) && ArtifactsState(q.auditor, f, time);
      OneStatedTime(q.auditor, f, time, AuditRowOf(q.auditor, f).candidateTime.value);
    }
  }

  // ---- From the gate to the proposal ----

  lemma SortKeepsMember<T>(xs: seq<T>, x: T, atMost: (T, T) -> bool) returns (k: nat)
    requires x in xs
    ensures k < |xs| && Sort(xs, atMost)[k] == x
  {
    hide Sort;
    SortKeeps(xs, atMost);
    assert x in multiset(Sort(xs, atMost));
    k :| 0 <= k < |xs| && Sort(xs, atMost)[k] == x;
  }

  lemma WhatIsProposed(q: Runs)
    requires Proposing(q)
    ensures q.reviewed.rows
         == ProposalRows(q.h, q.proposalInputs, q.lineage, q.proposalTable, q.proposedAt + q.validFor)
    ensures q.reviewed.expiresAt > q.reviewed.generatedAt && !q.reviewed.executionAuthorized
  {
    hide ProposalRows, ProposalStateOf, SourcesOf, GateLinked, DistinctKeys;
  }

  lemma ProposalCoversGate(q: Runs, g: GateRow) returns (p: ProposalRow)
    requires Proposing(q) && g in q.proposalInputs.gate.rows
    ensures p in q.reviewed.rows
    ensures p == ProposalRowOf(q.h, q.proposalInputs, q.lineage, q.proposalTable, q.proposedAt + q.validFor, g)
  {
    hide Proposing, ProposalRowOf, CanonicalizationProposal.AtMost, Sort;
    WhatIsProposed(q);
    var k := SortKeepsMember(q.proposalInputs.gate.rows, g, CanonicalizationProposal.AtMost);
    p := q.reviewed.rows[k];
  }

  lemma OneAttestedTime(w: World, ticker: string, time: string, other: string)
    requires Attested(w, ticker, time) && Attested(w, ticker, other)
    ensures time == other
  {
    hide Sound;
    var r :| r in ResponsesOf(w, ticker) && r.market.Some? && r.market.value.stamps != [];
    var stamp := r.market.value.stamps[0];
    assert stamp in r.market.value.stamps;
    assert w.parse(stamp.1) == Time(time) && w.parse(stamp.1) == Time(other);
  }

  lemma ProposalNamesTime(
    h: Hashes, i: Inputs, lineage: Lineage, t: CanonicalizationProposal.Table, expiresAt: int, g: GateRow)
    ensures
      var p := ProposalRowOf(h, i, lineage, t, expiresAt, g);
      var audited := FindRow(i.reaudit.rows, (g.captureId, g.ticker));
      p.ticker == g.ticker && p.proposed == if audited.Some? then audited.value.candidateTime else None
  {
    hide DispositionOf, FindRow;
  }

  /** The status and the evidence of an attested waiting settlement. */
  lemma WaitingIsCollected(q: Runs, earlier: Facts, f: Facts)
    requires Gated(q) && q.collectedFrom == q.baseline && TimesSurvive(q) && Waiting(q, earlier, f)
    requires exists time: string :: Attested(q.world, f.ticker, time)
    ensures FindStatus(q.collection.rows, f.ticker).Some?
    ensures FindEvidence(q.evidence.rows, f.ticker).Some?
    ensures Attested(q.world, f.ticker, FindEvidence(q.evidence.rows, f.ticker).value.timestamp)
  {
    hide StatusRows, PairFaultOf, GateRows, AuditRows, AuditRowOf, StatusRowOf, Captures, EvidenceOf, Attested;
    var captures := Captures(q.baseline.rows, f.ticker);
    var s := StatusRowOf(q.lineage, q.world, captures, f.ticker);
    AuditRowKeys(q.auditor, earlier);
    assert AuditRowOf(q.auditor, earlier) in captures;
    assert captures[0] in captures;
    assert HashesOf(captures) == {Some(q.lineage(f.ticker, f.source.value))};
    EvidenceFoundExactly(q.lineage, q.world, captures, f.ticker);
    StatusRowsExact(q.lineage, q.world, q.baseline.rows);
    StatusNamesTicker(q.lineage, q.world, captures, f.ticker);
    EvidenceOfTicker(q, s);
  }

  /** What the audit row of an attested waiting settlement says besides its time. */
  lemma WaitingIsReady(q: Runs, earlier: Facts, f: Facts)
    requires Gated(q) && q.collectedFrom == q.baseline && TimesSurvive(q) && Waiting(q, earlier, f)
    requires exists time: string :: Attested(q.world, f.ticker, time)
    ensures
      var audited := AuditRowOf(q.auditor, f);
      && audited.classification == ArtifactTimestampAvailable && audited.timezoneUnambiguous && audited.sourceFresh
      && audited.ready && !audited.evaluationAppeared
      && audited.settlementHash == Some(q.lineage(f.ticker, f.source.value))
    ensures Unset(f.source.value.settledAt) && BinaryOutcome(f.source.value.result).Some?
  {
    hide StatusRows, PairFaultOf, AuditRows, GateRows, AuditRowOf, Captures, Attested, ArtifactsState, CandidatesOf,
      BinaryOutcome;
    ArtifactsAreCollected(q, earlier, f);
    MissingExactly(q.auditor, earlier);
    AuditRowKeys(q.auditor, f);
    SilentBySource(q.auditor, earlier, f);
    ArtifactsSpeakExactly(q.auditor, f);
    ArtifactEvidenceIsReady(q.auditor, f);
  }

  /**
   Over an open gate a waiting settlement that is still the same is proposed exactly when the collector's responses
   attest one time, and then with that time.
   */
  lemma WaitingIsProposed(q: Runs, earlier: Facts, f: Facts) returns (p: ProposalRow)
    requires Published(q) && NoCollisions(q) && TimesSurvive(q) && Waiting(q, earlier, f)
    requires GateOpen(q.proposalInputs.gate.state) && Current(q.proposalTable, f.ticker) == f.source
    ensures p in q.reviewed.rows && p.ticker == f.ticker
    ensures p.disposition == Proposed <==> exists time: string :: Attested(q.world, f.ticker, time)
    ensures p.disposition == Proposed ==> p.proposed.Some? && Attested(q.world, f.ticker, p.proposed.value)
  {
    hide NoCollisions, Reviewing, Enveloping, StatusRows, PairFaultOf, AuditRows, GateRows, AuditRowOf, Captures,
      Attested, CandidatesOf, BinaryOutcome, InputFault, ProposalOf, ProposalRowOf, StatusRowOf, EvidenceOf;
    StepsShareArtifacts(q);
    AttestedEvidenceIsAdded(q, earlier, f);
    RowsOfKey(q, earlier, f);
    var g := GateRowOf(q.baseline.rows, q.auditedFile.rows, (f.captureId, f.ticker));
    p := ProposalCoversGate(q, g);
    var i, expiresAt := q.proposalInputs, q.proposedAt + q.validFor;
    ProposedExactly(q.h, i, q.lineage, q.proposalTable, expiresAt, g);
    ProposalNamesTime(q.h, i, q.lineage, q.proposalTable, expiresAt, g);
    if time: string :| Attested(q.world, f.ticker, time) {
      WaitingIsCollected(q, earlier, f);
      var e := FindEvidence(q.evidence.rows, f.ticker).value;
      OneAttestedTime(q.world, f.ticker, e.timestamp, AuditRowOf(q.auditor, f).candidateTime.value);
      WaitingIsReady(q, earlier, f);
    }
  }

  // ---- From the proposal to the review ----

  /** A row of the proposal for a gate row, and where it stands. */
  lemma ProposalRowAt(q: Runs, g: GateRow) returns (k: nat)
    requires q.reviewed.rows == ProposalRows(q.h, q.proposalInputs, q.lineage, q.proposalTable,
      q.proposedAt + q.validFor) && g in q.proposalInputs.gate.rows
    ensures k < |q.reviewed.rows| && Sort(q.proposalInputs.gate.rows, CanonicalizationProposal.AtMost)[k] == g
    ensures q.reviewed.rows[k].ticker == g.ticker
  {
    hide ProposalRowOf, CanonicalizationProposal.AtMost, Sort;
    k := SortKeepsMember(q.proposalInputs.gate.rows, g, CanonicalizationProposal.AtMost);
    ProposalNamesTime(q.h, q.proposalInputs, q.lineage, q.proposalTable, q.proposedAt + q.validFor, g);
  }

  lemma TwoProposalRows(q: Runs, x: GateRow, y: GateRow)
    requires q.reviewed.rows == ProposalRows(q.h, q.proposalInputs, q.lineage, q.proposalTable,
      q.proposedAt + q.validFor)
    requires x in q.proposalInputs.gate.rows && y in q.proposalInputs.gate.rows && x != y && x.ticker == y.ticker
    ensures !DistinctBy(q.reviewed.rows, (p: ProposalRow) => p.ticker)
  {
    hide ProposalRows, CanonicalizationProposal.AtMost, Sort;
    var k := ProposalRowAt(q, x);
    var n := ProposalRowAt(q, y);
  }

  /**
   Collection, gate and proposal take several captures of one ticker, but no review accepts what they propose: every
   review refuses a proposal whose audit has two captures of one ticker.
   */
  lemma SharedTickerIsNeverReviewed(
    q: Runs, a: AuditRow, b: AuditRow, i: Inputs, m: ProposalManifest, skew: int)
    requires Gated(q) && Proposing(q) && a in q.auditedFile.rows && b in q.auditedFile.rows
    requires a.ticker == b.ticker && a.captureId != b.captureId
    ensures ProposalFault(q.h, i, q.reviewed, m, skew).Some?
    ensures skew >= 0 && ReviewLinked(q.h, i, q.reviewed, m) ==>
      ProposalFault(q.h, i, q.reviewed, m, skew) == Some(DuplicateProposalRow)
  {
    hide Proposing, StatusRows, PairFaultOf, AuditRows, AllKeys, GateRowOf, GateRows, ReviewLinked, DistinctKeys,
      Sealed;
    WhatIsProposed(q);
    GateRowsCoverKeys(q.baseline.rows, q.auditedFile.rows);
    var x := GateRowOfKey(q.baseline.rows, q.auditedFile.rows, KeyOf(a));
    var y := GateRowOfKey(q.baseline.rows, q.auditedFile.rows, KeyOf(b));
    TwoProposalRows(q, x, y);
  }

  // ---- From the envelope to the commit ----

  /** The rows of the envelope are those of the advanced hashes, and no hash is advanced twice. */
  lemma EnvelopeHashes(q: Runs)
    requires Published(q)
    ensures |HandoffOfRuns(q).envelope.rows| == |TextSorted(q.advancement.eligible)|
    ensures forall i :: 0 <= i < |TextSorted(q.advancement.eligible)| ==>
      HandoffOfRuns(q).envelope.rows[i].proposalRowHash == TextSorted(q.advancement.eligible)[i]
    ensures NoDuplicates(TextSorted(q.advancement.eligible))
  {
    hide Gated, Proposing, Reviewing, EnvelopeLinked, EnvelopeStateOf, ApprovalHolds, Earliest, ReadyHashes,
      EligibleHashes, ReadinessOf, TextAtMost;
    assert NoDuplicates(q.advancement.eligible);
    SortOfDistinct(q.advancement.eligible, TextAtMost);
  }

  lemma OneProposal(q: Runs, a: ProposalRow, b: ProposalRow)
    requires Published(q) && NoCollisions(q)
    requires a in q.reviewed.rows && b in q.reviewed.rows && a.ticker == b.ticker
    ensures a == b
  {
    hide Published, NoCollisions;
    NothingTwice(q);
    var rows := q.reviewed.rows;
    var i, j :| 0 <= i < |rows| && 0 <= j < |rows| && rows[i] == a && rows[j] == b;
  }

  /** No two rows of the envelope speak of one settlement. */
  lemma OneEnvelopeRow(q: Runs, i: nat, j: nat)
    requires Published(q) && NoCollisions(q) && q.attestation.state == Approved
    requires i < |HandoffOfRuns(q).envelope.rows| && j < |HandoffOfRuns(q).envelope.rows|
    ensures
      var rows := HandoffOfRuns(q).envelope.rows;
      rows[i].ticker == rows[j].ticker ==> i == j
  {
    hide Published, NoCollisions, HandoffOfRuns, TextSorted, ReviewResultOf, Unmoved;
    var rows := HandoffOfRuns(q).envelope.rows;
    var a := EnvelopeRejectsOnlyDrift(q, rows[i]);
    var b := EnvelopeRejectsOnlyDrift(q, rows[j]);
    if rows[i].ticker == rows[j].ticker {
      OneProposal(q, a, b);
      EnvelopeHashes(q);
    }
  }

  /** The protocol never meets a candidate twice: of an open envelope it gets every row, once each. */
  lemma CandidatesAreDistinct(q: Runs, r: SettlementTransaction.Request)
    requires Published(q) && NoCollisions(q) && Requested(q, HandoffOfRuns(q), r)
    requires HandoffOfRuns(q).envelope.state == ReadyForExecutorDesign
    ensures SettlementTransaction.DistinctTickers(r.candidates)
    ensures |r.candidates| == |HandoffOfRuns(q).envelope.rows| > 0
  {
    hide Published, NoCollisions, HandoffOfRuns, ByTicker;
    ReadyIsApproved(q);
    var rows := HandoffOfRuns(q).envelope.rows;
    AllReadyRows(rows);
    var listed := Map(rows, CandidateOf);
    forall i, j | 0 <= i < j < |listed| ensures listed[i].ticker != listed[j].ticker {
      OneEnvelopeRow(q, i, j);
    }
    SortKeepsDistinct(listed, (c: SettlementTransaction.Candidate) => c.ticker, ByTicker);
  }

  /** The candidate's settlement is what it was when the timestamp was proposed. */
  predicate Undisturbed(q: Runs, t: SettlementTransaction.Table, c: SettlementTransaction.Candidate) {
    c.ticker in t && c.ticker in q.proposalTable && t[c.ticker] == q.proposalTable[c.ticker]
  }

  /** An undisturbed candidate passes revalidation, and is over a NULL or an empty string. */
  lemma UndisturbedCandidate(
    q: Runs, t: SettlementTransaction.Table, row: EnvelopeRow, c: SettlementTransaction.Candidate)
    requires Published(q) && NoCollisions(q) && q.attestation.state == Approved
    requires row in HandoffOfRuns(q).envelope.rows && c == CandidateOf(row) && Undisturbed(q, t, c)
    ensures SettlementTransaction.Passes(q.lineage, t, c)
    ensures Unset(t[c.ticker].settledAt) && c.result.Some? && t[c.ticker].updatedAt == c.updatedAt
  {
    hide Published, NoCollisions, HandoffOfRuns, ReviewResultOf, Unmoved;
    var p := EnvelopeRejectsOnlyDrift(q, row);
    var g, audited, e := ProposedRowIsSupported(q, p);
  }

  /**
   Over settlements that no one disturbed since the proposal an open envelope commits in time if and only if every one
   of them is NULL: a settlement whose timestamp is the empty string passes every step before, and then rolls back the
   whole transaction by its row count.
   */
  lemma UndisturbedCommitsExactly(q: Runs, t: SettlementTransaction.Table, r: SettlementTransaction.Request)
    requires Published(q) && NoCollisions(q) && r.lineage == q.lineage && Requested(q, HandoffOfRuns(q), r)
    requires HandoffOfRuns(q).envelope.state == ReadyForExecutorDesign
    requires r.now < r.earliestDeadline && r.failure.None?
    requires forall c :: c in r.candidates ==> Undisturbed(q, t, c)
    ensures
      var report := SettlementTransaction.Expected(t, r);
      && (report.outcome == SettlementTransaction.Committed <==>
            forall c :: c in r.candidates ==> OverNull(t, c))
      && (report.outcome == SettlementTransaction.Committed
          || report.outcome == SettlementTransaction.RolledBack(SettlementTransaction.RowCountMismatch))
  {
    hide Published, NoCollisions, HandoffOfRuns, Sort, ReadyRows, CandidateOf, ByTicker, SettlementTransaction.Expected,
      SettlementTransaction.Passes;
    ReadyIsApproved(q);
    CandidatesAreDistinct(q, r);
    forall c | c in r.candidates
      ensures SettlementTransaction.Passes(q.lineage, t, c)
      ensures Unset(t[c.ticker].settledAt) && c.result.Some? && t[c.ticker].updatedAt == c.updatedAt
    {
      var row := CandidateWasReady(HandoffOfRuns(q).envelope.rows, c);
      UndisturbedCandidate(q, t, row, c);
    }
    SettlementTransaction.RevalidatedMissesRollBack(t, r);
  }
}
