/**
 The protocol run honestly on a cohort of settlements: every step reads what the step before published, nobody disturbs
 the settlements, and the reviewer approves what the review found eligible.
 */
module HonestRun {
  import opened Support
  import opened Lists
  import opened Text
  import opened TimestampAudit
  import opened EvidenceCollection
  import opened ReadinessGate
  import opened FunnelArtifacts
  import opened CanonicalizationProposal
  import opened ProposalReview
  import opened ReadinessEnvelope
  import opened Funnel
  import opened Provenance
  import opened Passage
  import SettlementTransaction

  /** The settlements that are audited, and who looks at them when. */
  datatype Scene = Scene(
    h: Hashes, auditor: Auditor, world: World, facts: seq<Facts>, links: Inputs, now: int, validFor: int,
    reviewer: string)

  function Baseline(s: Scene): AuditFile { AuditFile(AuditRows(s.auditor, s.facts), "") }

  function CollectionOf(s: Scene): Collection {
    Collection(StatusRows(s.auditor.lineage, s.world, Baseline(s).rows), "", s.h.audit(Baseline(s)))
  }

  function EvidenceFileOf(s: Scene): EvidenceFile {
    EvidenceFile(Sort(EvidenceRows(CollectionOf(s).rows), EvidenceAtMost), "", s.h.collection(CollectionOf(s)))
  }

  /** What the new audit knows of a settlement: the same, and the evidence collected. */
  function Later(s: Scene, f: Facts): Facts { f.(artifacts := ArtifactsOf(EvidenceFileOf(s).rows, f.ticker)) }

  function LaterFacts(s: Scene): seq<Facts> { Map(s.facts, f => Later(s, f)) }

  function Reaudit(s: Scene): AuditFile { AuditFile(AuditRows(s.auditor, LaterFacts(s)), "") }

  function Gate(s: Scene): GateFile {
    var rows := GateRows(Baseline(s).rows, Reaudit(s).rows);
    GateFile(rows,
      GateStateOf(rows, ReadyCount(Reaudit(s).rows), |Reaudit(s).rows|),
      GateSources(s.h.audit(Reaudit(s)), s.h.audit(Baseline(s)), s.h.collection(CollectionOf(s)),
        s.h.evidence(EvidenceFileOf(s)), s.links.ad, s.links.ae, s.links.history), "", "")
  }

  function InputsOf(s: Scene): Inputs {
    Inputs(Gate(s), Reaudit(s), s.h.audit(Baseline(s)), CollectionOf(s), EvidenceFileOf(s), s.links.ad, s.links.ae,
      s.links.history)
  }

  function TheProposal(s: Scene): Proposal {
    ProposalOf(s.h, InputsOf(s), s.auditor.lineage, s.world.table, s.now, s.validFor)
  }

  function TheManifest(s: Scene): ProposalManifest {
    ProposalManifest(TheProposal(s).id, s.h.proposal(TheProposal(s)), s.h.proposalRows(TheProposal(s).rows), false)
  }

  function EligibleOf(s: Scene): seq<Digest> {
    TextSorted(EligibleHashes(ReviewRows(InputsOf(s), s.auditor.lineage, s.world.table, TheProposal(s))))
  }

  function TheApproval(s: Scene): Approval {
    Approval(s.h.proposal(TheProposal(s)), s.h.manifest(TheManifest(s)), Some(EligibleOf(s)), s.reviewer, Some(s.now),
      Some(s.now + s.validFor), true, false, false, true)
  }

  function TheReview(s: Scene): Review {
    ReviewOf(s.h, InputsOf(s), s.auditor.lineage, s.world.table, TheProposal(s), TheManifest(s), Some(TheApproval(s)),
      Valid, s.now)
  }

  function RunsOf(s: Scene): Runs {
    Runs(s.h, s.auditor.lineage,
      Baseline(s), s.world, CollectionOf(s), EvidenceFileOf(s),
      Baseline(s), LaterFacts(s), s.auditor, Reaudit(s),
      InputsOf(s), s.world.table, s.now, s.validFor,
      InputsOf(s), s.world.table, TheProposal(s), TheManifest(s),
      Some(TheApproval(s)), Valid, s.now, 0,
      InputsOf(s), s.world.table, TheProposal(s), TheManifest(s),
      Some(TheApproval(s)), TheReview(s).attestation, TheReview(s).advancement, s.now)
  }

  /** No ticker is audited twice. */
  predicate DistinctFacts(facts: seq<Facts>) {
    forall i, j :: 0 <= i < j < |facts| ==> facts[i].ticker != facts[j].ticker
  }

  lemma OneOfTicker(facts: seq<Facts>, f: Facts, g: Facts)
    requires DistinctFacts(facts) && f in facts && g in facts && f.ticker == g.ticker
    ensures f == g
  {
    var i, j :| 0 <= i < |facts| && 0 <= j < |facts| && facts[i] == f && facts[j] == g;
  }

  lemma AuditedOnce(a: Auditor, facts: seq<Facts>)
    requires DistinctFacts(facts)
    ensures DistinctBy(AuditRows(a, facts), (row: AuditRow) => row.ticker) && DistinctKeys(AuditRows(a, facts))
  {
    hide AuditRowOf, TimestampAudit.AtMost, Sort;
    var rows := Map(facts, f => AuditRowOf(a, f));
    forall i, j | 0 <= i < j < |rows| ensures rows[i].ticker != rows[j].ticker {
      AuditRowKeys(a, facts[i]);
      AuditRowKeys(a, facts[j]);
    }
    SortKeepsDistinct(rows, (row: AuditRow) => row.ticker, TimestampAudit.AtMost);
  }

  lemma LaterKeeps(s: Scene, f: Facts)
    ensures
      var g := Later(s, f);
      && g.ticker == f.ticker && g.captureId == f.captureId && g.source == f.source
      && g.attributedHash == f.attributedHash && g.captureLineageHash == f.captureLineageHash
      && g.knownClassification == f.knownClassification && g.evaluationAppeared == f.evaluationAppeared
      && g.sourceAge == f.sourceAge && g.artifacts == ArtifactsOf(EvidenceFileOf(s).rows, f.ticker)
  {
    hide EvidenceFileOf;
  }

  lemma LaterAreDistinct(s: Scene)
    requires DistinctFacts(s.facts)
    ensures DistinctFacts(LaterFacts(s))
  {
    hide Later;
    forall i, j | 0 <= i < j < |s.facts| ensures LaterFacts(s)[i].ticker != LaterFacts(s)[j].ticker {
      LaterKeeps(s, s.facts[i]);
      LaterKeeps(s, s.facts[j]);
    }
  }

  lemma LaterIsAudited(s: Scene, f: Facts)
    requires f in s.facts
    ensures Later(s, f) in LaterFacts(s)
  {
    hide Later;
    var i :| 0 <= i < |s.facts| && s.facts[i] == f;
    assert LaterFacts(s)[i] == Later(s, f);
  }

  lemma LaterWasAudited(s: Scene, g: Facts) returns (f: Facts)
    requires g in LaterFacts(s)
    ensures f in s.facts && g == Later(s, f)
  {
    hide Later;
    var i :| 0 <= i < |LaterFacts(s)| && LaterFacts(s)[i] == g;
    f := s.facts[i];
  }

  lemma InputsAre(s: Scene)
    ensures InputsOf(s).gate.rows == GateRows(Baseline(s).rows, Reaudit(s).rows)
    ensures InputsOf(s).gate.sources.reaudit == s.h.audit(Reaudit(s))
    ensures InputsOf(s).gate.sources.status == s.h.collection(CollectionOf(s))
    ensures InputsOf(s).gate.sources.evidence == s.h.evidence(EvidenceFileOf(s))
    ensures InputsOf(s).reaudit == Reaudit(s) && InputsOf(s).status == CollectionOf(s)
    ensures InputsOf(s).evidence == EvidenceFileOf(s) && GateLinked(s.h, InputsOf(s))
    ensures InputsOf(s).gate.pairId == "" == InputsOf(s).gate.agPairId
  {
    hide GateRows, Baseline, Reaudit, CollectionOf, EvidenceFileOf, GateStateOf;
  }

  lemma SceneIsGated(s: Scene)
    requires DistinctFacts(s.facts)
    ensures Gated(RunsOf(s)) && RunsOf(s).collectedFrom == RunsOf(s).baseline
  {
    hide StatusRows, GateRows, AuditRowOf, AuditRows, TheProposal, TheReview, InputsOf, TheManifest, TheApproval,
      EvidenceRows, Sort, PairFaultOf, ArtifactsOf, EvidenceAtMost, GateStateOf, DistinctKeys, LaterFacts, Later;
    var q := RunsOf(s);
    LaterAreDistinct(s);
    AuditedOnce(s.auditor, s.facts);
    AuditedOnce(s.auditor, LaterFacts(s));
    forall g | g in q.facts ensures g.artifacts == ArtifactsOf(q.evidence.rows, g.ticker) {
      var f := LaterWasAudited(s, g);
      LaterKeeps(s, f);
    }
    CollectedPairIsAccepted(s.auditor.lineage, s.world, Baseline(s).rows, "", s.h.audit(Baseline(s)),
      s.h.collection(CollectionOf(s)));
    assert q.proposalInputs == InputsOf(s);
    InputsAre(s);
  }

  // ---- Each step accepts the step before ----

  function FactKey(f: Facts): RowKey { (f.captureId, f.ticker) }

  /** The gate's keys are those of the settlements audited. */
  lemma KeyHasFacts(s: Scene, key: RowKey) returns (f: Facts)
    requires key in AllKeys(Baseline(s).rows, Reaudit(s).rows)
    ensures f in s.facts && FactKey(f) == key
  {
    hide AuditRowOf, AuditRows, AllKeys, EvidenceFileOf, LaterFacts, Later;
    GateRowsCoverKeys(Baseline(s).rows, Reaudit(s).rows);
    var row :| (row in Baseline(s).rows || row in Reaudit(s).rows) && KeyOf(row) == key;
    if row in Baseline(s).rows {
      f := AuditedFacts(s.auditor, s.facts, row);
      AuditRowKeys(s.auditor, f);
    } else {
      var g := AuditedFacts(s.auditor, LaterFacts(s), row);
      AuditRowKeys(s.auditor, g);
      f := LaterWasAudited(s, g);
      LaterKeeps(s, f);
    }
  }

  lemma GateRowHasFacts(s: Scene, g: GateRow) returns (f: Facts)
    requires g in InputsOf(s).gate.rows
    ensures f in s.facts && g == GateRowOf(Baseline(s).rows, Reaudit(s).rows, FactKey(f))
    ensures g.ticker == f.ticker && g.captureId == f.captureId
  {
    hide AllKeys, Baseline, Reaudit, InputsOf;
    InputsAre(s);
    var keys := AllKeys(Baseline(s).rows, Reaudit(s).rows);
    var k :| 0 <= k < |keys| && GateRows(Baseline(s).rows, Reaudit(s).rows)[k] == g;
    assert keys[k] in keys;
    f := KeyHasFacts(s, keys[k]);
  }

  lemma GateRowNamesKey(baseline: seq<AuditRow>, reaudit: seq<AuditRow>, key: RowKey)
    ensures GateRowOf(baseline, reaudit, key).captureId == key.0 && GateRowOf(baseline, reaudit, key).ticker == key.1
  {
    hide TransitionOf;
  }

  lemma GatedOnce(s: Scene)
    requires DistinctFacts(s.facts)
    ensures DistinctBy(InputsOf(s).gate.rows, (g: GateRow) => g.ticker)
    ensures DistinctBy(InputsOf(s).gate.rows, (g: GateRow) => (g.captureId, g.ticker))
  {
    hide AllKeys, Baseline, Reaudit, InputsOf, GateRowOf;
    InputsAre(s);
    var before, after := Baseline(s).rows, Reaudit(s).rows;
    var keys, rows := AllKeys(before, after), InputsOf(s).gate.rows;
    GateRowsCoverKeys(before, after);
    forall i, j | 0 <= i < j < |rows| ensures rows[i].ticker != rows[j].ticker {
      assert keys[i] in keys && keys[j] in keys;
      var f := KeyHasFacts(s, keys[i]);
      var g := KeyHasFacts(s, keys[j]);
      GateRowNamesKey(before, after, keys[i]);
      GateRowNamesKey(before, after, keys[j]);
      if f.ticker == g.ticker {
        OneOfTicker(s.facts, f, g);
      }
    }
  }

  /** No step finds a ticker twice. */
  lemma NamesAreDistinct(s: Scene)
    requires DistinctFacts(s.facts)
    ensures DistinctKeys(Reaudit(s).rows)
    ensures DistinctBy(Reaudit(s).rows, (a: AuditRow) => a.ticker)
    ensures DistinctBy(CollectionOf(s).rows, (row: StatusRow) => row.ticker)
    ensures DistinctBy(EvidenceFileOf(s).rows, (e: Evidence) => e.ticker)
    ensures EvidenceFileOf(s).collectionHash == s.h.collection(CollectionOf(s))
    ensures EvidenceFileOf(s).pairId == CollectionOf(s).pairId == Reaudit(s).pairId == ""
  {
    hide StatusRows, AuditRowOf, AuditRows, EvidenceRows, Sort, EvidenceAtMost, PairFaultOf, LaterFacts;
    LaterAreDistinct(s);
    AuditedOnce(s.auditor, LaterFacts(s));
    StatusRowsExact(s.auditor.lineage, s.world, Baseline(s).rows);
    CollectedPairIsAccepted(s.auditor.lineage, s.world, Baseline(s).rows, "", s.h.audit(Baseline(s)),
      s.h.collection(CollectionOf(s)));
    PairHoldsExactly(CollectionOf(s), s.h.collection(CollectionOf(s)), EvidenceFileOf(s), s.h.audit(Baseline(s)));
  }

  lemma TheProposalRows(s: Scene)
    ensures TheProposal(s).rows
      == ProposalRows(s.h, InputsOf(s), s.auditor.lineage, s.world.table, s.now + s.validFor)
  {
    hide InputsOf, ProposalStateOf, SourcesOf, ProposalRows;
  }

  /** Every proposal row is sealed, and no ticker is proposed twice. */
  lemma ProposedOnce(s: Scene)
    requires DistinctFacts(s.facts)
    ensures DistinctBy(TheProposal(s).rows, (p: ProposalRow) => p.ticker)
    ensures forall p :: p in TheProposal(s).rows ==> p == Sealed(s.h, p)
  {
    hide InputsOf, TheProposal, ProposalRowOf, CanonicalizationProposal.AtMost, Sort, Sealed;
    GatedOnce(s);
    TheProposalRows(s);
    var i, expiresAt := InputsOf(s), s.now + s.validFor;
    var ordered := Sort(i.gate.rows, CanonicalizationProposal.AtMost);
    SortKeepsDistinct(i.gate.rows, (g: GateRow) => g.ticker, CanonicalizationProposal.AtMost);
    var rows := TheProposal(s).rows;
    forall k, n | 0 <= k < n < |rows| ensures rows[k].ticker != rows[n].ticker {
      ProposalNamesTime(s.h, i, s.auditor.lineage, s.world.table, expiresAt, ordered[k]);
      ProposalNamesTime(s.h, i, s.auditor.lineage, s.world.table, expiresAt, ordered[n]);
    }
    forall p | p in rows ensures p == Sealed(s.h, p) {
      var g := RowComesFromGate(s.h, i, s.auditor.lineage, s.world.table, expiresAt, p);
    }
  }

  lemma SceneIsProposing(s: Scene)
    requires s.validFor > 0 && DistinctFacts(s.facts)
    ensures Proposing(RunsOf(s))
  {
    hide StatusRows, GateRows, AuditRowOf, AuditRows, TheReview, EvidenceRows, Sort, PairFaultOf, ArtifactsOf,
      EvidenceAtMost, GateStateOf, InputsOf, Baseline, Reaudit, CollectionOf, EvidenceFileOf, ProposalRows,
      ProposalStateOf, TheManifest, TheApproval, Gated, SourcesOf, DistinctKeys, LaterFacts;
    GatedOnce(s);
    InputsAre(s);
    NamesAreDistinct(s);
  }

  /** The row hashes of the proposal do not collide. */
  predicate RowsApart(s: Scene) {
    forall a, b :: a in TheProposal(s).rows && b in TheProposal(s).rows ==>
      Apart(s.h.proposalRow, a.(hash := ""), b.(hash := ""))
  }

  function Reviewed(s: Scene): seq<ReviewRow> {
    ReviewRows(InputsOf(s), s.auditor.lineage, s.world.table, TheProposal(s))
  }

  /** No ticker and no row hash is reviewed twice. */
  lemma ReviewedOnce(s: Scene)
    requires DistinctFacts(s.facts) && RowsApart(s)
    ensures DistinctBy(Reviewed(s), (row: ReviewRow) => row.ticker)
    ensures DistinctBy(Reviewed(s), (row: ReviewRow) => row.proposalRowHash)
  {
    hide InputsOf, TheProposal, ReviewResultOf, ProposalReview.AtMost, Sort, Sealed;
    ProposedOnce(s);
    var rows := TheProposal(s).rows;
    forall i, j | 0 <= i < j < |rows| ensures rows[i].hash != rows[j].hash {
      if rows[i].hash == rows[j].hash {
        SameHashSameRow(s.h, rows[i], rows[j]);
      }
    }
    SortKeepsDistinct(rows, (p: ProposalRow) => p.ticker, ProposalReview.AtMost);
    SortKeepsDistinct(rows, (p: ProposalRow) => p.hash, ProposalReview.AtMost);
  }

  lemma EligibleOnce(s: Scene)
    requires DistinctFacts(s.facts) && RowsApart(s)
    ensures NoDuplicates(EligibleOf(s)) && multiset(EligibleOf(s)) == multiset(EligibleHashes(Reviewed(s)))
  {
    hide InputsOf, TheProposal, ReviewRows, TextAtMost, EligibleHashes, Sort;
    ReviewedOnce(s);
    HashesOnce(Reviewed(s));
    SortOfDistinct(EligibleHashes(Reviewed(s)), TextAtMost);
    SortedTextKeeps(EligibleHashes(Reviewed(s)));
  }

  lemma SceneIsReviewing(s: Scene)
    requires s.validFor > 0 && Strip(s.reviewer) != "" && DistinctFacts(s.facts) && RowsApart(s)
    ensures Reviewing(RunsOf(s))
  {
    hide StatusRows, GateRows, AuditRowOf, AuditRows, EvidenceRows, Sort, PairFaultOf, ArtifactsOf, EvidenceAtMost,
      GateStateOf, InputsOf, Baseline, Reaudit, CollectionOf, EvidenceFileOf, ProposalRows,
      ProposalStateOf, Gated, Sealed, ReviewRows, TextSorted, EligibleHashes, ReviewStateOf, LaterFacts, RowsApart;
    ProposedOnce(s);
    GatedOnce(s);
    InputsAre(s);
    NamesAreDistinct(s);
    EligibleOnce(s);
    var p, m := TheProposal(s), TheManifest(s);
    assert p.sources == SourcesOf(s.h, InputsOf(s));
    assert p.generatedAt == s.now && p.expiresAt == s.now + s.validFor;
    assert ReviewLinked(s.h, InputsOf(s), p, m);
    assert ApprovalStatusOf(s.h, Some(TheApproval(s)), p, m, EligibleOf(s), s.now, 0) == Ok(Valid);
  }

  lemma SceneIsEnveloping(s: Scene)
    requires s.validFor > 0 && Strip(s.reviewer) != "" && DistinctFacts(s.facts) && RowsApart(s)
    ensures Enveloping(RunsOf(s))
  {
    hide StatusRows, GateRows, AuditRowOf, AuditRows, EvidenceRows, Sort, PairFaultOf, ArtifactsOf, EvidenceAtMost,
      GateStateOf, InputsOf, Baseline, Reaudit, CollectionOf, EvidenceFileOf, ProposalRows,
      ProposalStateOf, Gated, Sealed, ReviewRows, TextSorted, EligibleHashes, ReviewStateOf, LaterFacts, RowsApart;
    ProposedOnce(s);
    InputsAre(s);
    NamesAreDistinct(s);
    ReviewedOnce(s);
    EligibleOnce(s);
    assert TheReview(s).attestation.rows == Reviewed(s);
    assert TheProposal(s).sources == SourcesOf(s.h, InputsOf(s));
    assert InputsOf(s).baseline == SourcesOf(s.h, InputsOf(s)).baseline;
    assert InputsOf(s).status.pairId == SourcesOf(s.h, InputsOf(s)).agPairId;
    assert EnvelopeLinked(s.h, InputsOf(s), TheProposal(s), TheManifest(s), Some(TheApproval(s)),
      TheReview(s).attestation, TheReview(s).advancement);
  }

  /** The honest run meets everything that the results about linked steps ask for. */
  lemma SceneIsPublished(s: Scene)
    requires s.validFor > 0 && Strip(s.reviewer) != "" && DistinctFacts(s.facts) && RowsApart(s)
    ensures Published(RunsOf(s)) && NoCollisions(RunsOf(s))
    ensures RunsOf(s).collectedFrom == RunsOf(s).baseline
  {
    hide Gated, Proposing, Reviewing, Enveloping, InputsOf, TheManifest, TheApproval, TheReview, TheProposal, Baseline,
      Reaudit, CollectionOf, EvidenceFileOf, LaterFacts;
    SceneIsGated(s);
    SceneIsProposing(s);
    SceneIsReviewing(s);
    SceneIsEnveloping(s);
    InputsAre(s);
  }

  // ---- What the honest run ends in ----

  /** The settlement lacks a timestamp, is attributed, fresh and not evaluated, and is the row in the table. */
  predicate Unsettled(s: Scene, f: Facts) {
    && Attributed(s.auditor, f) && Silent(s.auditor, f) && f.artifacts == []
    && Fresh(f.sourceAge, s.auditor.freshnessSeconds) && !f.evaluationAppeared
    && f.ticker in s.world.table && s.world.table[f.ticker] == f.source.value
  }

  /** An undisturbed cohort without timestamps, and a reviewer who gives a name. */
  ghost predicate Undecided(s: Scene) {
    && s.validFor > 0 && Strip(s.reviewer) != ""
    && DistinctFacts(s.facts) && RowsApart(s) && TimesSurvive(RunsOf(s))
    && forall f :: f in s.facts ==> Unsettled(s, f)
  }

  /** Result and timestamps of a settlement that an honest run may find. */
  ghost predicate ReadsUnsettled(row: SettlementTransaction.Row) {
    && row.result.Some? && (exists part :: HasCore(row.result.value, part) && (IsYes(part) || IsNo(part)))
    && (row.settledAt == None || row.settledAt == Some(""))
  }

  /** Any cohort of distinct tickers qualifies whose settlements are as they were attributed, fresh and unevaluated. */
  lemma CohortQualifies(s: Scene)
    requires s.validFor > 0 && !Blank(s.reviewer)
    requires forall i, j :: 0 <= i < j < |s.facts| ==> s.facts[i].ticker != s.facts[j].ticker
    requires forall a: ProposalRow, b: ProposalRow :: s.h.proposalRow(a) == s.h.proposalRow(b) ==> a == b
    requires forall text: string :: s.world.parse(text).Time? ==>
      s.auditor.normalize(s.world.parse(text).normalized) == Some(s.world.parse(text).normalized)
    requires forall f :: f in s.facts ==>
      && f.knownClassification && f.source.Some? && f.artifacts == [] && !f.evaluationAppeared
      && s.auditor.lineage(f.ticker, f.source.value) == f.attributedHash && |f.captureLineageHash| == 64
      && ReadsUnsettled(f.source.value) && s.auditor.stated(f.source.value) == []
      && f.sourceAge.Some? && 0 <= f.sourceAge.value < s.auditor.freshnessSeconds
      && f.ticker in s.world.table && s.world.table[f.ticker] == f.source.value
    ensures Undecided(s)
  {
    hide InputsOf, TheProposal, TheManifest, TheApproval, TheReview, CollectionOf, EvidenceFileOf, Baseline, Reaudit,
      LaterFacts, Strip, HasCore, IsYes, IsNo, BinaryOutcome;
    StripExactly(s.reviewer);
    forall f | f in s.facts ensures Unsettled(s, f) {
      BinaryExactly(f.source.value.result);
    }
  }

  ghost predicate IsAttested(s: Scene, f: Facts) { exists time: string :: Attested(s.world, f.ticker, time) }

  predicate StillNull(s: Scene, f: Facts) {
    f.ticker in s.world.table && s.world.table[f.ticker].settledAt == None
  }

  lemma SceneHolds(s: Scene)
    requires Undecided(s)
    ensures Published(RunsOf(s)) && NoCollisions(RunsOf(s)) && Gated(RunsOf(s)) && TimesSurvive(RunsOf(s))
    ensures RunsOf(s).collectedFrom == RunsOf(s).baseline && DistinctFacts(s.facts)
  {
    hide RunsOf, Published, NoCollisions, Gated, TimesSurvive, Strip, RowsApart, Unsettled;
    SceneIsPublished(s);
    SceneIsGated(s);
  }

  lemma SceneIsWaiting(s: Scene, f: Facts)
    requires DistinctFacts(s.facts) && f in s.facts && Unsettled(s, f)
    ensures Waiting(RunsOf(s), f, Later(s, f))
  {
    hide AuditRowOf, AuditRows, InputsOf, TheManifest, TheApproval, TheReview, TheProposal, CollectionOf,
      EvidenceFileOf, Silent, Later, LaterFacts, Captures;
    var q := RunsOf(s);
    MissingExactly(s.auditor, f);
    FactsAreAudited(s.auditor, s.facts, f);
    AuditRowKeys(s.auditor, f);
    LaterKeeps(s, f);
    LaterIsAudited(s, f);
    forall row | row in Captures(q.baseline.rows, f.ticker) ensures row == AuditRowOf(s.auditor, f) {
      var g := AuditedFacts(s.auditor, s.facts, row);
      AuditRowKeys(s.auditor, g);
      OneOfTicker(s.facts, f, g);
    }
  }

  lemma AddedArtifactIsCalm(baseline: seq<AuditRow>, reaudit: seq<AuditRow>, key: RowKey)
    requires FindRow(reaudit, key).Some? && FindRow(reaudit, key).value.classification == ArtifactTimestampAvailable
    requires GateRowOf(baseline, reaudit, key).transition == AuthoritativeEvidenceAdded
    ensures Calm(GateRowOf(baseline, reaudit, key))
  {
  }

  lemma StillMissingIsCalm(baseline: seq<AuditRow>, reaudit: seq<AuditRow>, key: RowKey)
    requires FindRow(baseline, key).Some? && FindRow(reaudit, key).Some?
    requires FindRow(baseline, key).value.classification == ResultPresentTimestampMissing
    requires GateRowOf(baseline, reaudit, key).transition == UnchangedBlocked
    ensures Calm(GateRowOf(baseline, reaudit, key))
  {
  }

  lemma WaitingWasMissing(q: Runs, earlier: Facts, f: Facts)
    requires Waiting(q, earlier, f)
    ensures AuditRowOf(q.auditor, earlier).classification == ResultPresentTimestampMissing
  {
  }

  /** The gate row of any undisturbed settlement is calm, and its new audit row is ready if a time is attested. */
  lemma SceneIsCalm(s: Scene, f: Facts)
    requires Undecided(s) && f in s.facts
    ensures Calm(GateRowOf(Baseline(s).rows, Reaudit(s).rows, FactKey(f)))
    ensures IsAttested(s, f) ==> AuditRowOf(s.auditor, Later(s, f)).ready
  {
    hide Published, NoCollisions, Gated, AuditRowOf, GateRowOf, FindRow, Attested, Calm, TimesSurvive, Waiting, Strip,
      RowsApart, Later, InputsOf, TheProposal, TheManifest, TheApproval, TheReview, CollectionOf, EvidenceFileOf,
      AuditRows;
    var q, g := RunsOf(s), Later(s, f);
    SceneHolds(s);
    SceneIsWaiting(s, f);
    LaterKeeps(s, f);
    RowsOfKey(q, f, g);
    AttestedEvidenceIsAdded(q, f, g);
    WaitingWasMissing(q, f, g);
    if IsAttested(s, f) {
      WaitingIsReady(q, f, g);
      AddedArtifactIsCalm(Baseline(s).rows, Reaudit(s).rows, FactKey(f));
    } else {
      StillMissingIsCalm(Baseline(s).rows, Reaudit(s).rows, FactKey(f));
    }
  }

  lemma SceneOpensGate(s: Scene, f: Facts)
    requires Undecided(s) && f in s.facts && IsAttested(s, f)
    ensures GateOpen(RunsOf(s).proposalInputs.gate.state)
  {
    hide AuditRowOf, AuditRows, GateRowOf, TheManifest, TheApproval, TheReview, TheProposal, CollectionOf,
      EvidenceFileOf, Unsettled, Later, TimesSurvive, GateStateOf, Calm, AllKeys, Strip, RowsApart, Attested;
    var before, after := Baseline(s).rows, Reaudit(s).rows;
    var rows := GateRows(before, after);
    InputsAre(s);
    forall g | g in rows ensures Calm(g) {
      var e := GateRowHasFacts(s, g);
      SceneIsCalm(s, e);
    }
    SceneIsCalm(s, f);
    LaterIsAudited(s, f);
    FactsAreAudited(s.auditor, LaterFacts(s), Later(s, f));
    assert AuditRowOf(s.auditor, Later(s, f)) in after;
    ReadyCountExactly(after);
    RowsNotEmpty(before, after);
    CalmGateOpensExactly(rows, ReadyCount(after), |after|);
  }

  /** Over the table that a proposal was made from every proposed settlement is unmoved. */
  lemma ProposedIsUnmoved(q: Runs, p: ProposalRow)
    requires Published(q) && NoCollisions(q) && p in q.reviewed.rows && p.disposition == Proposed
    ensures Unmoved(q, q.proposalTable, p) && p.ticker in q.proposalTable
  {
    hide Published, NoCollisions, BinaryOutcome;
    var g, audited, e := ProposedRowIsSupported(q, p);
  }

  /** The deadlines of the honest run, and what its steps read. */
  lemma SceneDates(s: Scene)
    ensures
      var q := RunsOf(s);
      && q.reviewedAt == q.envelopedAt == s.now && q.approvalStatus == Valid
      && q.reviewed.expiresAt == q.proposal.expiresAt == q.advancement.expiresAt == s.now + s.validFor
      && q.reviewed.rows == TheProposal(s).rows && q.lineage == s.auditor.lineage
      && q.world == s.world && q.proposalTable == q.reviewTable == q.envelopeTable == s.world.table
  {
    hide InputsOf, TheManifest, TheApproval, CollectionOf, EvidenceFileOf, ProposalRows, ReviewRows, ReviewStateOf,
      TextSorted, EligibleHashes, Reaudit, LaterFacts, Baseline, SourcesOf, ProposalStateOf;
  }

  lemma SceneApproval(s: Scene)
    requires s.validFor > 0 && Strip(s.reviewer) != "" && DistinctFacts(s.facts) && RowsApart(s)
    requires TheReview(s).attestation.state == Approved
    ensures
      var q := RunsOf(s);
      ApprovalHolds(q.h, q.proposal, q.manifest, q.approval, q.advancement, q.envelopedAt)
  {
    hide InputsOf, TheManifest, CollectionOf, EvidenceFileOf, TheProposal, ReviewRows, ReviewStateOf, TextSorted,
      EligibleHashes, Reaudit, LaterFacts, Baseline, SourcesOf, Strip, RowsApart, DistinctFacts;
    EligibleOnce(s);
  }

  lemma ReviewIsPublished(q: Runs)
    requires Published(q)
    ensures Reviewing(q)
  {
    hide Gated, Proposing, Reviewing, Enveloping;
  }

  /** Nothing having moved, an approval found valid is one of all proposed rows and in force. */
  lemma ValidIsApproved(q: Runs)
    requires Published(q) && NoCollisions(q) && q.approvalStatus == Valid
    requires q.reviewedAt < q.reviewed.expiresAt && SomeProposed(q) && !SomeMoved(q, q.reviewTable)
    ensures q.attestation.state == Approved
  {
    hide Published, NoCollisions, Reviewing, ApprovalStatusOf, TextSorted, EligibleHashes, Covers, Binds, InForce,
      Blank, SomeMoved, SomeProposed;
    var eligible := TextSorted(EligibleHashes(q.attestation.rows));
    ReviewIsPublished(q);
    StateOfReview(q);
    ApprovalStatusExactly(q.h, q.reviewApproval, q.reviewed, q.reviewManifest, eligible, q.reviewedAt, q.clockSkew);
    CoversExactly(q, q.reviewApproval.value);
    ReviewApprovesExactly(q);
  }

  lemma AttestationOfRuns(s: Scene)
    ensures RunsOf(s).attestation == TheReview(s).attestation
  {
    hide TheReview, InputsOf, TheManifest, TheApproval, TheProposal, CollectionOf, EvidenceFileOf, Reaudit, LaterFacts;
  }

  lemma SourceIsCurrent(s: Scene, f: Facts)
    requires Unsettled(s, f)
    ensures Current(s.world.table, f.ticker) == f.source
  {
    hide Silent;
  }

  /** Once the gate is open a settlement of the cohort is proposed exactly if a time is attested for it. */
  lemma SceneProposes(s: Scene, f: Facts) returns (p: ProposalRow)
    requires Undecided(s) && f in s.facts && GateOpen(RunsOf(s).proposalInputs.gate.state)
    ensures p in RunsOf(s).reviewed.rows && p.ticker == f.ticker
    ensures p.disposition == Proposed <==> IsAttested(s, f)
    ensures p.disposition == Proposed ==> p.proposed.Some? && Attested(s.world, f.ticker, p.proposed.value)
  {
    hide RunsOf, Published, NoCollisions, Gated, Attested, TimesSurvive, Waiting, Strip, RowsApart, Later, Silent,
      Attributed;
    SceneHolds(s);
    SceneDates(s);
    SceneIsWaiting(s, f);
    LaterKeeps(s, f);
    SourceIsCurrent(s, f);
    p := WaitingIsProposed(RunsOf(s), f, Later(s, f));
  }

  /** If any settlement is attested the honest envelope opens. */
  lemma SceneOpensEnvelope(s: Scene, f: Facts)
    requires Undecided(s) && f in s.facts && IsAttested(s, f)
    ensures HandoffOfRuns(RunsOf(s)).envelope.state == ReadyForExecutorDesign
    ensures RunsOf(s).attestation.state == Approved
  {
    hide RunsOf, HandoffOfRuns, TimesSurvive, Published, NoCollisions, Attested, Unmoved, ApprovalHolds, Holds, Gated,
      Unsettled, TheProposal, TheReview, Strip, RowsApart, IsAttested;
    var q := RunsOf(s);
    SceneHolds(s);
    SceneOpensGate(s, f);
    SceneDates(s);
    var p := SceneProposes(s, f);
    assert IsProposed(q, p);
    forall row | IsProposed(q, row) ensures Unmoved(q, q.proposalTable, row) {
      ProposedIsUnmoved(q, row);
    }
    ValidIsApproved(q);
    AttestationOfRuns(s);
    SceneApproval(s);
    HoldsExactly(q);
    EnvelopeOpensExactly(q);
  }

  lemma CandidateNamesRow(row: EnvelopeRow)
    ensures CandidateOf(row).ticker == row.ticker && CandidateOf(row).proposed == row.proposed
  {
  }

  lemma ProposalRowHasFacts(s: Scene, p: ProposalRow) returns (f: Facts)
    requires p in TheProposal(s).rows
    ensures f in s.facts && f.ticker == p.ticker
  {
    hide InputsOf, TheProposal, ProposalRowOf, ProposalRows, GateRowOf, Baseline, Reaudit, FindRow, Sealed;
    TheProposalRows(s);
    var g := RowComesFromGate(s.h, InputsOf(s), s.auditor.lineage, s.world.table, s.now + s.validFor, p);
    ProposalNamesTime(s.h, InputsOf(s), s.auditor.lineage, s.world.table, s.now + s.validFor, g);
    f := GateRowHasFacts(s, g);
  }

  /** Every candidate of an approved honest run is an attested settlement of the cohort, at the time attested. */
  lemma CandidateIsAttested(s: Scene, r: SettlementTransaction.Request, c: SettlementTransaction.Candidate)
    returns (f: Facts)
    requires Undecided(s) && RunsOf(s).attestation.state == Approved
    requires Requested(RunsOf(s), HandoffOfRuns(RunsOf(s)), r) && c in r.candidates
    ensures f in s.facts && f.ticker == c.ticker && c.ticker in s.world.table
    ensures c.proposed.Some? && Attested(s.world, f.ticker, c.proposed.value)
  {
    hide RunsOf, HandoffOfRuns, Published, NoCollisions, Gated, ReadyRows, CandidateOf, ByTicker, Sort, TheProposal,
      ReviewResultOf, Strip, Unsettled, RowsApart, TimesSurvive, Attested, IsAttested, Unmoved, Backed, SameSettlement;
    var q := RunsOf(s);
    SceneHolds(s);
    SceneDates(s);
    var row := CandidateWasReady(HandoffOfRuns(q).envelope.rows, c);
    var p := EnvelopeRejectsOnlyDrift(q, row);
    ProposedIsUnmoved(q, p);
    CandidateNamesRow(row);
    f := ProposalRowHasFacts(s, p);
    var k := ReadyRowProvenance(q, row);
  }

  lemma ReadyRowIsCandidate(rows: seq<EnvelopeRow>, row: EnvelopeRow)
    requires row in rows && row.readiness == Ready
    ensures CandidateOf(row) in Sort(Map(ReadyRows(rows), CandidateOf), ByTicker)
  {
    hide CandidateOf, ReadyRows, ByTicker;
    AllReadyRows(rows);
    var ready := ReadyRows(rows);
    var listed := Map(ready, CandidateOf);
    SortKeeps(listed, ByTicker);
    var i :| 0 <= i < |ready| && ready[i] == row;
    assert listed[i] in multiset(listed);
    assert listed[i] in multiset(Sort(listed, ByTicker));
  }

  /** Every attested settlement of the cohort is a candidate once the envelope is open. */
  lemma AttestedIsCandidate(s: Scene, r: SettlementTransaction.Request, f: Facts)
    returns (c: SettlementTransaction.Candidate)
    requires Undecided(s) && f in s.facts && IsAttested(s, f)
    requires Requested(RunsOf(s), HandoffOfRuns(RunsOf(s)), r)
    ensures c in r.candidates && c.ticker == f.ticker
  {
    hide RunsOf, HandoffOfRuns, Published, NoCollisions, Gated, CandidateOf, ByTicker, Sort, TheProposal,
      ReviewResultOf, Strip, Unsettled, RowsApart, TimesSurvive, Attested, IsAttested, Unmoved, Map, ReadyRows;
    var q := RunsOf(s);
    SceneHolds(s);
    SceneDates(s);
    SceneOpensGate(s, f);
    SceneOpensEnvelope(s, f);
    ReadyIsApproved(q);
    var p := SceneProposes(s, f);
    ProposedIsUnmoved(q, p);
    ReviewRejectsOnlyDrift(q, p);
    var row := EnvelopeCoversProposal(q, p);
    var same := EnvelopeRejectsOnlyDrift(q, row);
    OneProposalRow(q, p, same);
    CandidateNamesRow(row);
    ReadyRowIsCandidate(HandoffOfRuns(q).envelope.rows, row);
    c := CandidateOf(row);
  }

  /** The candidate is a settlement of the cohort, at a time attested. */
  ghost predicate FromCohort(s: Scene, c: SettlementTransaction.Candidate) {
    && c.proposed.Some?
    && exists f :: f in s.facts && f.ticker == c.ticker && Attested(s.world, f.ticker, c.proposed.value)
  }

  ghost predicate IsCandidate(r: SettlementTransaction.Request, ticker: string, time: string) {
    exists c :: c in r.candidates && c.ticker == ticker && c.proposed == Some(time)
  }

  /** The candidates are exactly the attested settlements of the cohort, each at the time attested. */
  ghost predicate CandidatesAreAttested(s: Scene, r: SettlementTransaction.Request) {
    && (forall c :: c in r.candidates ==> FromCohort(s, c))
    && (forall f, time: string :: f in s.facts && Attested(s.world, f.ticker, time) ==> IsCandidate(r, f.ticker, time))
  }

  lemma OpenEnvelopeHasAttested(s: Scene, r: SettlementTransaction.Request)
    requires Undecided(s) && RunsOf(s).attestation.state == Approved
    requires Requested(RunsOf(s), HandoffOfRuns(RunsOf(s)), r)
    ensures CandidatesAreAttested(s, r)
  {
    hide RunsOf, HandoffOfRuns, Undecided, Attested, Requested;
    forall c | c in r.candidates ensures FromCohort(s, c) {
      var f := CandidateIsAttested(s, r, c);
    }
    forall f, time: string | f in s.facts && Attested(s.world, f.ticker, time) ensures IsCandidate(r, f.ticker, time) {
      assert IsAttested(s, f);
      var c := AttestedIsCandidate(s, r, f);
      var g := CandidateIsAttested(s, r, c);
      OneAttestedTime(s.world, f.ticker, time, c.proposed.value);
    }
  }

  /** Some settlement of the cohort is attested, and all that are attested are NULL. */
  ghost predicate AttestedOverNull(s: Scene) {
    && (exists f :: f in s.facts && IsAttested(s, f))
    && (forall f :: f in s.facts && IsAttested(s, f) ==> StillNull(s, f))
  }

  lemma CommittedIsAttested(s: Scene, r: SettlementTransaction.Request)
    requires Undecided(s) && Requested(RunsOf(s), HandoffOfRuns(RunsOf(s)), r) && r.lineage == s.auditor.lineage
    requires SettlementTransaction.Expected(s.world.table, r).outcome == SettlementTransaction.Committed
    ensures AttestedOverNull(s) && CandidatesAreAttested(s, r)
  {
    hide RunsOf, HandoffOfRuns, Attested, Undecided, Sort, ReadyRows, CandidateOf, ByTicker,
      SettlementTransaction.Expected, SettlementTransaction.SwapAll, SettlementTransaction.Settled, FromCohort,
      IsCandidate;
    var q, t := RunsOf(s), s.world.table;
    ReadyIsApproved(q);
    SettlementTransaction.CommitsExactly(t, r);
    OpenEnvelopeHasAttested(s, r);
    var first := CandidateIsAttested(s, r, r.candidates[0]);
    forall f | f in s.facts && IsAttested(s, f) ensures StillNull(s, f) {
      var c := AttestedIsCandidate(s, r, f);
      assert t[c.ticker].settledAt == None;
    }
  }

  lemma CandidateIsUndisturbed(s: Scene, r: SettlementTransaction.Request, c: SettlementTransaction.Candidate)
    requires Undecided(s) && RunsOf(s).attestation.state == Approved && AttestedOverNull(s)
    requires Requested(RunsOf(s), HandoffOfRuns(RunsOf(s)), r) && c in r.candidates
    ensures Undisturbed(RunsOf(s), s.world.table, c) && OverNull(s.world.table, c)
  {
    hide RunsOf, HandoffOfRuns, Attested, Undecided, Requested;
    SceneDates(s);
    var e := CandidateIsAttested(s, r, c);
    assert IsAttested(s, e);
  }

  lemma AttestedCommits(s: Scene, r: SettlementTransaction.Request)
    requires Undecided(s) && Requested(RunsOf(s), HandoffOfRuns(RunsOf(s)), r) && r.lineage == s.auditor.lineage
    requires r.now < r.earliestDeadline && r.failure.None? && AttestedOverNull(s)
    ensures SettlementTransaction.Expected(s.world.table, r).outcome == SettlementTransaction.Committed
  {
    hide RunsOf, HandoffOfRuns, Published, NoCollisions, Gated, TimesSurvive, IsAttested, StillNull, Undecided,
      Requested, Undisturbed, OverNull, SettlementTransaction.Expected;
    var q, t := RunsOf(s), s.world.table;
    SceneHolds(s);
    SceneDates(s);
    var f :| f in s.facts && IsAttested(s, f);
    SceneOpensEnvelope(s, f);
    forall c | c in r.candidates ensures Undisturbed(q, t, c) && OverNull(t, c) {
      CandidateIsUndisturbed(s, r, c);
    }
    UndisturbedCommitsExactly(q, t, r);
  }

  /**
   An honest run over any cohort of undisturbed settlements without timestamps commits in time if and only if the
   exchange's responses attest a time for one of them at least, and all for which they do are NULL; the settlements
   written are then exactly those, each with the time attested.
   */
  lemma HonestRunCommitsExactly(s: Scene, r: SettlementTransaction.Request)
    requires Undecided(s) && Requested(RunsOf(s), HandoffOfRuns(RunsOf(s)), r) && r.lineage == s.auditor.lineage
    requires r.now < r.earliestDeadline && r.failure.None?
    ensures SettlementTransaction.Expected(s.world.table, r).outcome == SettlementTransaction.Committed
       <==> AttestedOverNull(s)
    ensures AttestedOverNull(s) ==> CandidatesAreAttested(s, r)
  {
    hide *;
    if SettlementTransaction.Expected(s.world.table, r).outcome == SettlementTransaction.Committed {
      CommittedIsAttested(s, r);
    }
    if AttestedOverNull(s) {
      AttestedCommits(s, r);
    }
  }
}
