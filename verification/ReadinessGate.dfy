/**
 The readiness gate (scripts/local/phase4ah_timestamp_readiness_gate.py): collected evidence is matched with its
 status report, and a fresh audit is compared with the baseline.
 */
module ReadinessGate {
  import opened Support
  import opened Lists
  import opened Text
  import opened TimestampAudit
  import opened EvidenceCollection

  datatype AuditFile = AuditFile(rows: seq<AuditRow>, pairId: Digest)

  // ---- The evidence pair ----

  datatype PairFault =
    | PairIdMismatch | EvidenceStatusHashMismatch | BaselineLineageMismatch | DuplicateEvidenceTicker
    | EvidenceTickerNotSuccessful | EvidenceTimestampMismatch | EvidenceSourceIdentityMismatch | EvidenceSetMismatch

  /** The evidence due for each successful ticker; a later row of the same ticker replaces an earlier one. */
  function Due(rows: seq<StatusRow>): map<string, Evidence> {
    if rows == [] then map[]
    else
      var last := rows[|rows| - 1];
      var front := Due(rows[..|rows| - 1]);
      if Successful(last) then front[last.ticker := EvidenceOf(last)] else front
  }

  function TickersOf(rows: seq<Evidence>): set<string> { set e | e in rows :: e.ticker }

  function RowFault(due: map<string, Evidence>, seen: set<string>, e: Evidence): Option<PairFault> {
    if e.ticker in seen then Some(DuplicateEvidenceTicker)
    else if e.ticker !in due then Some(EvidenceTickerNotSuccessful)
    else if e.timestamp != due[e.ticker].timestamp then Some(EvidenceTimestampMismatch)
    else if e.identity != due[e.ticker].identity then Some(EvidenceSourceIdentityMismatch)
    else None
  }

  function FirstRowFault(due: map<string, Evidence>, rows: seq<Evidence>): Option<PairFault> {
    if rows == [] then None
    else
      var front := rows[..|rows| - 1];
      var fault := FirstRowFault(due, front);
      if fault.Some? then fault else RowFault(due, TickersOf(front), rows[|rows| - 1])
  }

  function PairFaultOf(status: Collection, statusHash: Digest, evidence: EvidenceFile, baselineHash: Digest)
    : Option<PairFault>
  {
    if status.pairId != evidence.pairId then Some(PairIdMismatch)
    else if evidence.collectionHash != statusHash then Some(EvidenceStatusHashMismatch)
    else if status.auditHash != baselineHash then Some(BaselineLineageMismatch)
    else
      var fault := FirstRowFault(Due(status.rows), evidence.rows);
      if fault.Some? then fault
      else if Due(status.rows).Keys != TickersOf(evidence.rows) then Some(EvidenceSetMismatch)
      else None
  }

  lemma {:induction false} RowFaultLasts(due: map<string, Evidence>, rows: seq<Evidence>, n: nat)
    requires n <= |rows| && FirstRowFault(due, rows[..n]).Some?
    ensures FirstRowFault(due, rows) == FirstRowFault(due, rows[..n])
  {
    hide RowFault;
    if n < |rows| {
      assert rows[..|rows| - 1][..n] == rows[..n];
      RowFaultLasts(due, rows[..|rows| - 1], n);
    } else {
      assert rows[..n] == rows;
    }
  }

  method ValidatePair(status: Collection, statusHash: Digest, evidence: EvidenceFile, baselineHash: Digest)
    returns (fault: Option<PairFault>)
    ensures fault == PairFaultOf(status, statusHash, evidence, baselineHash)
  {
    hide Due;
    if status.pairId != evidence.pairId {
      return Some(PairIdMismatch);
    }
    if evidence.collectionHash != statusHash {
      return Some(EvidenceStatusHashMismatch);
    }
    if status.auditHash != baselineHash {
      return Some(BaselineLineageMismatch);
    }
    var due := Due(status.rows);
    var seen: set<string> := {};
    var i := 0;
    while i < |evidence.rows|
      invariant 0 <= i <= |evidence.rows|
      invariant seen == TickersOf(evidence.rows[..i])
      invariant FirstRowFault(due, evidence.rows[..i]).None?
    {
      assert evidence.rows[..i + 1][..i] == evidence.rows[..i];
      assert evidence.rows[..i + 1] == evidence.rows[..i] + [evidence.rows[i]];
      fault := RowFault(due, seen, evidence.rows[i]);
      if fault.Some? {
        RowFaultLasts(due, evidence.rows, i + 1);
        return;
      }
      seen := seen + {evidence.rows[i].ticker};
      i := i + 1;
    }
    assert evidence.rows[..i] == evidence.rows;
    fault := if due.Keys != seen then Some(EvidenceSetMismatch) else None;
  }

  predicate DistinctTickers(rows: seq<Evidence>) {
    forall i, j :: 0 <= i < j < |rows| ==> rows[i].ticker != rows[j].ticker
  }

  predicate AllDue(due: map<string, Evidence>, rows: seq<Evidence>) {
    forall e :: e in rows ==> e.ticker in due && due[e.ticker] == e
  }

  lemma DistinctTickersGrow(front: seq<Evidence>, last: Evidence)
    ensures DistinctTickers(front + [last]) <==> DistinctTickers(front) && last.ticker !in TickersOf(front)
  {
    var rows := front + [last];
    if DistinctTickers(rows) {
      forall i, j | 0 <= i < j < |front| ensures front[i].ticker != front[j].ticker {
        assert rows[i] == front[i] && rows[j] == front[j];
      }
      forall e | e in front ensures e.ticker != last.ticker {
        var i :| 0 <= i < |front| && front[i] == e;
        assert rows[i] == e && rows[|front|] == last;
      }
    }
    if DistinctTickers(front) && last.ticker !in TickersOf(front) {
      forall i, j | 0 <= i < j < |rows| ensures rows[i].ticker != rows[j].ticker {
        assert rows[i] in front;
      }
    }
  }

  lemma NoRowsAreDistinct(rows: seq<Evidence>)
    requires rows == []
    ensures DistinctTickers(rows)
  {
  }

  lemma {:induction false} NoRowFaultExact(due: map<string, Evidence>, rows: seq<Evidence>)
    requires forall t :: t in due ==> due[t].ticker == t
    ensures FirstRowFault(due, rows).None? <==> DistinctTickers(rows) && AllDue(due, rows)
  {
    hide DistinctTickers, TickersOf;
    if rows == [] {
      assert DistinctTickers(rows) by { NoRowsAreDistinct(rows); }
    } else {
      var front, last := rows[..|rows| - 1], rows[|rows| - 1];
      NoRowFaultExact(due, front);
      assert rows == front + [last];
      DistinctTickersGrow(front, last);
      assert AllDue(due, rows) <==> AllDue(due, front) && last.ticker in due && due[last.ticker] == last;
    }
  }

  lemma {:induction false} DueKeepsTickers(rows: seq<StatusRow>)
    ensures forall t :: t in Due(rows) ==> Due(rows)[t].ticker == t
  {
    if rows != [] {
      DueKeepsTickers(rows[..|rows| - 1]);
    }
  }

  /** A pair is accepted exactly when its hashes link and its evidence is, once each, what the status calls for. */
  lemma PairHoldsExactly(status: Collection, statusHash: Digest, evidence: EvidenceFile, baselineHash: Digest)
    ensures PairFaultOf(status, statusHash, evidence, baselineHash).None? <==>
      && status.pairId == evidence.pairId && evidence.collectionHash == statusHash && status.auditHash == baselineHash
      && DistinctTickers(evidence.rows)
      && (forall e: Evidence :: e in evidence.rows <==> e.ticker in Due(status.rows) && Due(status.rows)[e.ticker] == e)
  {
    hide Due, FirstRowFault, DistinctTickers;
    var due := Due(status.rows);
    DueKeepsTickers(status.rows);
    NoRowFaultExact(due, evidence.rows);
    if forall e: Evidence :: e in evidence.rows <==> e.ticker in due && due[e.ticker] == e {
      forall t | t in due ensures t in TickersOf(evidence.rows) {
        assert due[t] in evidence.rows;
      }
    }
  }

  // ---- The evidence the collector publishes ----

  lemma EvidenceNamesTicker(row: StatusRow)
    requires Successful(row)
    ensures EvidenceOf(row).ticker == row.ticker
  {
  }

  lemma {:induction false} EvidenceRowsAreDue(rows: seq<StatusRow>)
    requires OneRowPerTicker(rows)
    ensures DistinctTickers(EvidenceRows(rows))
    ensures forall e: Evidence :: e in EvidenceRows(rows) <==> e.ticker in Due(rows) && Due(rows)[e.ticker] == e
    ensures forall t :: t in Due(rows) ==> exists row :: row in rows && row.ticker == t
  {
    hide EvidenceOf, DistinctTickers;
    if rows == [] {
      NoRowsAreDistinct(EvidenceRows(rows));
    } else {
      var front, last := rows[..|rows| - 1], rows[|rows| - 1];
      EvidenceRowsAreDue(front);
      assert rows == front + [last];
      assert last.ticker !in Due(front) by {
        assert forall row :: row in front ==> row.ticker != last.ticker;
      }
      if Successful(last) {
        EvidenceNamesTicker(last);
        DistinctTickersGrow(EvidenceRows(front), EvidenceOf(last));
      } else {
        assert EvidenceRows(rows) == EvidenceRows(front);
      }
    }
  }

  lemma DistinctTickersOfSame(a: seq<Evidence>, b: seq<Evidence>)
    requires DistinctTickers(a) && multiset(a) == multiset(b)
    ensures DistinctTickers(b)
  {
    forall i, j | 0 <= i < j < |b| ensures b[i].ticker != b[j].ticker {
      assert b[i] in multiset(b) && b[j] in multiset(b);
      assert b[i] in a && b[j] in a;
      if b[i] == b[j] {
        NoDuplicatesCounts(a);
        NoDuplicatesCounts(b);
      }
    }
  }

  /** What the collector publishes always passes the gate's pair check. */
  lemma CollectedPairIsAccepted(
    lineage: Lineage, w: World, audited: seq<AuditRow>, pairId: Digest, baselineHash: Digest, statusHash: Digest)
    ensures
      var rows := StatusRows(lineage, w, audited);
      PairFaultOf(Collection(rows, pairId, baselineHash), statusHash,
        EvidenceFile(Sort(EvidenceRows(rows), EvidenceAtMost), pairId, statusHash), baselineHash).None?
  {
    hide Due, EvidenceAtMost, DistinctTickers, OneRowPerTicker, EvidenceRows, Sort, PairFaultOf, StatusRows;
    var rows := StatusRows(lineage, w, audited);
    StatusRowsExact(lineage, w, audited);
    var evidence := Sort(EvidenceRows(rows), EvidenceAtMost);
    EvidenceRowsAreDue(rows);
    SortKeeps(EvidenceRows(rows), EvidenceAtMost);
    DistinctTickersOfSame(EvidenceRows(rows), evidence);
    assert forall e: Evidence :: e in evidence <==> e in multiset(evidence);
    assert forall e: Evidence :: e in EvidenceRows(rows) <==> e in multiset(EvidenceRows(rows));
    PairHoldsExactly(Collection(rows, pairId, baselineHash), statusHash, EvidenceFile(evidence, pairId, statusHash),
      baselineHash);
  }

  // ---- Transitions ----

  datatype Transition =
    | RowAdded | RowRemoved | LineageDrifted | EvaluationAppeared | UnchangedBlocked | AuthoritativeEvidenceAdded
    | CanonicalTimestampAppeared | ConflictDiscovered | TimezoneAmbiguityDiscovered | SourceBecameStale
    | SourceDisappeared | UnexpectedTransition

  function TransitionOf(baseline: Option<AuditRow>, current: Option<AuditRow>): Transition {
    if baseline.None? then RowAdded
    else if current.None? then RowRemoved
    else
      var after := current.value.classification;
      if baseline.value.settlementHash != current.value.settlementHash then LineageDrifted
      else if current.value.evaluationAppeared then EvaluationAppeared
      else if baseline.value.classification == after then UnchangedBlocked
      else match after
        case ArtifactTimestampAvailable => AuthoritativeEvidenceAdded
        case CanonicalSettledAtPresent => CanonicalTimestampAppeared
        case TimestampConflict => ConflictDiscovered
        case TimezoneAmbiguous => TimezoneAmbiguityDiscovered
        case SourceStale => SourceBecameStale
        case SourceMissing => SourceDisappeared
        case LineageFailure => LineageDrifted
        case _ => UnexpectedTransition
  }

  datatype GateRow = GateRow(
    captureId: string, ticker: string, reaudit: Option<Classification>, transition: Transition)

  datatype GateState =
    | NoEligibleRows | Blocked | AttentionLineage | AttentionConflict | AttentionStale | ReadyForProposal
    | PartiallyReady | WaitingForEvidence

  function AnyTransition(rows: seq<GateRow>, t: Transition): bool { exists row :: row in rows && row.transition == t }

  function AnyClass(rows: seq<GateRow>, c: Classification): bool { exists row :: row in rows && row.reaudit == Some(c) }

  function GateStateOf(rows: seq<GateRow>, ready: nat, total: nat): GateState {
    if rows == [] then NoEligibleRows
    else if AnyTransition(rows, UnexpectedTransition) then Blocked
    else if AnyTransition(rows, LineageDrifted) || AnyTransition(rows, RowRemoved) || AnyTransition(rows, RowAdded) then
      AttentionLineage
    else if AnyClass(rows, TimestampConflict) || AnyTransition(rows, ConflictDiscovered) then AttentionConflict
    else if AnyClass(rows, SourceStale) || AnyTransition(rows, SourceBecameStale) then AttentionStale
    else if total > 0 && ready == total then ReadyForProposal
    else if ready > 0 then PartiallyReady
    else WaitingForEvidence
  }

  predicate KeyAtMost(a: RowKey, b: RowKey) { TextsAtMost([a.1, a.0], [b.1, b.0]) }

  function FindRow(rows: seq<AuditRow>, key: RowKey): (r: Option<AuditRow>)
    ensures r.Some? ==> r.value in rows && KeyOf(r.value) == key
  {
    FirstWhere(rows, (row: AuditRow) => KeyOf(row) == key)
  }

  function AllKeys(baseline: seq<AuditRow>, reaudit: seq<AuditRow>): seq<RowKey> {
    Sort(Unique(Map(baseline, KeyOf) + Map(reaudit, KeyOf)), KeyAtMost)
  }

  function GateRowOf(baseline: seq<AuditRow>, reaudit: seq<AuditRow>, key: RowKey): GateRow {
    var after := FindRow(reaudit, key);
    GateRow(key.0, key.1, if after.Some? then Some(after.value.classification) else None,
      TransitionOf(FindRow(baseline, key), after))
  }

  function GateRows(baseline: seq<AuditRow>, reaudit: seq<AuditRow>): seq<GateRow> {
    Map(AllKeys(baseline, reaudit), key => GateRowOf(baseline, reaudit, key))
  }

  datatype GateFault = DuplicateBaselineRow | DuplicateReauditRow

  datatype Judgement = Judgement(rows: seq<GateRow>, state: GateState)

  method JudgeReadiness(baseline: seq<AuditRow>, reaudit: seq<AuditRow>) returns (r: Result<Judgement, GateFault>)
    ensures r.Ok? <==> DistinctKeys(baseline) && DistinctKeys(reaudit)
    ensures r.Ok? ==>
      && r.value.rows == GateRows(baseline, reaudit)
      && r.value.state
         == GateStateOf(GateRows(baseline, reaudit), ReadyCount(reaudit), |reaudit|)
  {
    hide GateRowOf, AllKeys, GateStateOf;
    if !DistinctKeys(baseline) {
      return Err(DuplicateBaselineRow);
    }
    if !DistinctKeys(reaudit) {
      return Err(DuplicateReauditRow);
    }
    var keys := AllKeys(baseline, reaudit);
    var rows: seq<GateRow> := [];
    var i := 0;
    while i < |keys|
      invariant 0 <= i <= |keys| && |rows| == i
      invariant forall k :: 0 <= k < i ==> rows[k] == GateRowOf(baseline, reaudit, keys[k])
    {
      rows := rows + [GateRowOf(baseline, reaudit, keys[i])];
      i := i + 1;
    }
    assert rows == GateRows(baseline, reaudit);
    r := Ok(Judgement(rows, GateStateOf(rows, ReadyCount(reaudit), |reaudit|)));
  }

  lemma KeyIsMapped(rows: seq<AuditRow>, key: RowKey)
    ensures key in Map(rows, KeyOf) <==> exists row :: row in rows && KeyOf(row) == key
  {
    hide KeyOf;
    var keys := Map(rows, KeyOf);
    if key in keys {
      var i :| 0 <= i < |keys| && keys[i] == key;
      assert rows[i] in rows;
    }
    if row :| row in rows && KeyOf(row) == key {
      var i :| 0 <= i < |rows| && rows[i] == row;
      assert keys[i] == key;
    }
  }

  /** The gate has one row per audited key, in either audit. */
  lemma GateRowsCoverKeys(baseline: seq<AuditRow>, reaudit: seq<AuditRow>)
    ensures NoDuplicates(AllKeys(baseline, reaudit))
    ensures forall key: RowKey :: key in AllKeys(baseline, reaudit) <==>
      exists row :: (row in baseline || row in reaudit) && KeyOf(row) == key
  {
    hide KeyAtMost, KeyOf, Map;
    var keys := Map(baseline, KeyOf) + Map(reaudit, KeyOf);
    SortOfDistinct(Unique(keys), KeyAtMost);
    forall key: RowKey
      ensures key in keys <==> exists row :: (row in baseline || row in reaudit) && KeyOf(row) == key
    {
      KeyIsMapped(baseline, key);
      KeyIsMapped(reaudit, key);
    }
  }

  /** The gate's rows are in order of ticker and capture. */
  lemma GateOrderExactly(baseline: seq<AuditRow>, reaudit: seq<AuditRow>)
    ensures
      var rows := GateRows(baseline, reaudit);
      forall i, j :: 0 <= i < j < |rows| ==>
        KeysInOrder([rows[i].ticker, rows[i].captureId], [rows[j].ticker, rows[j].captureId])
  {
    hide TextsAtMost, KeysInOrder, Sort, TransitionOf, FindRow, Unique, Map;
    SortByKeys(Unique(Map(baseline, KeyOf) + Map(reaudit, KeyOf)), (key: RowKey) => [key.1, key.0], KeyAtMost);
  }

  /** What a gate row says of the two audits' rows of its key. */
  lemma TransitionExactly(baseline: seq<AuditRow>, reaudit: seq<AuditRow>, key: RowKey)
    ensures
      var row := GateRowOf(baseline, reaudit, key);
      var before, after := FindRow(baseline, key), FindRow(reaudit, key);
      var kept := before.Some? && after.Some? && before.value.settlementHash == after.value.settlementHash;
      var changed :=
        kept && !after.value.evaluationAppeared && before.value.classification != after.value.classification;
      && row.captureId == key.0 && row.ticker == key.1
      && row.reaudit == (if after.Some? then Some(after.value.classification) else None)
      && (row.transition == RowAdded <==> before.None?)
      && (row.transition == RowRemoved <==> before.Some? && after.None?)
      && (row.transition == LineageDrifted <==>
            before.Some? && after.Some? && (!kept || (changed && after.value.classification == LineageFailure)))
      && (row.transition == EvaluationAppeared <==> kept && after.value.evaluationAppeared)
      && (row.transition == UnchangedBlocked <==> kept && !after.value.evaluationAppeared && !changed)
      && (row.transition == AuthoritativeEvidenceAdded <==>
            changed && after.value.classification == ArtifactTimestampAvailable)
      && (row.transition == CanonicalTimestampAppeared <==>
            changed && after.value.classification == CanonicalSettledAtPresent)
      && (row.transition == ConflictDiscovered <==> changed && after.value.classification == TimestampConflict)
      && (row.transition == TimezoneAmbiguityDiscovered <==>
            changed && after.value.classification == TimezoneAmbiguous)
      && (row.transition == SourceBecameStale <==> changed && after.value.classification == SourceStale)
      && (row.transition == SourceDisappeared <==> changed && after.value.classification == SourceMissing)
  {
    hide FindRow;
  }

  /** Some row made one of these transitions. */
  ghost predicate AnyMade(rows: seq<GateRow>, ts: set<Transition>) { exists row :: row in rows && row.transition in ts }

  ghost predicate AnyIn(rows: seq<GateRow>, c: Classification) { exists row :: row in rows && row.reaudit == Some(c) }

  lemma ReadyCountExactly(rows: seq<AuditRow>)
    ensures ReadyCount(rows) <= |rows|
    ensures ReadyCount(rows) == |rows| <==> forall row :: row in rows ==> row.ready
    ensures ReadyCount(rows) > 0 <==> exists row :: row in rows && row.ready
  {
    CountWhereExact(rows, (row: AuditRow) => row.ready);
  }

  /** The gate's state: the unexpected first, then lineage, conflicts and staleness, then how much is ready. */
  lemma GateStateExactly(baseline: seq<AuditRow>, reaudit: seq<AuditRow>)
    ensures
      var rows := GateRows(baseline, reaudit);
      GateStateOf(rows, ReadyCount(reaudit), |reaudit|) ==
        if rows == [] then NoEligibleRows
        else if AnyMade(rows, {UnexpectedTransition}) then Blocked
        else if AnyMade(rows, {LineageDrifted, RowRemoved, RowAdded}) then AttentionLineage
        else if AnyIn(rows, TimestampConflict) || AnyMade(rows, {ConflictDiscovered}) then AttentionConflict
        else if AnyIn(rows, SourceStale) || AnyMade(rows, {SourceBecameStale}) then AttentionStale
        else if reaudit != [] && forall row :: row in reaudit ==> row.ready then ReadyForProposal
        else if exists row :: row in reaudit && row.ready then PartiallyReady
        else WaitingForEvidence
  {
    hide GateRowOf, AllKeys, ReadyCount;
    ReadyCountExactly(reaudit);
  }

  /**
   A settlement whose hash held since the baseline and that the new audit, of these facts among those audited, finds
   ready by artifact.
   */
  ghost predicate NewlyBacked(
    a: Auditor, facts: seq<Facts>, baseline: seq<AuditRow>, key: RowKey,
    before: AuditRow, after: AuditRow, f: Facts)
  {
    && before in baseline && KeyOf(before) == key && KeyOf(after) == key
    && before.settlementHash == after.settlementHash && before.classification != after.classification
    && f in facts && after == AuditRowOf(a, f)
    && after.ready && after.sourceFresh && after.timezoneUnambiguous
    && after.classification == ArtifactTimestampAvailable
    && after.candidateTime.Some?
    && Agreed(CandidatesOf(a, f), after.candidateTime.value) && Agreed(after.inventory, after.candidateTime.value)
  }

  lemma SameEvaluation(a: Auditor, f: Facts)
    ensures AuditRowOf(a, f).evaluationAppeared == f.evaluationAppeared
  {
  }

  /**
   Evidence counts as added only to a settlement whose hash is unchanged since the baseline and which is ready in the
   new audit, whatever was audited: all its authorities agree on the time the audit reports.
   */
  lemma EvidenceAddedIsReady(
    a: Auditor, facts: seq<Facts>, baseline: seq<AuditRow>, row: GateRow)
    returns (before: AuditRow, after: AuditRow, f: Facts)
    requires row in GateRows(baseline, AuditRows(a, facts))
    requires row.transition == AuthoritativeEvidenceAdded
    ensures FindRow(AuditRows(a, facts), (row.captureId, row.ticker)) == Some(after)
    ensures NewlyBacked(a, facts, baseline, (row.captureId, row.ticker), before, after, f)
  {
    hide AllKeys, AuditRowOf, AuditRows, Agreed;
    var reaudit := AuditRows(a, facts);
    var i :| 0 <= i < |GateRows(baseline, reaudit)| && GateRows(baseline, reaudit)[i] == row;
    var key := AllKeys(baseline, reaudit)[i];
    before, after := FindRow(baseline, key).value, FindRow(reaudit, key).value;
    f := AuditedFacts(a, facts, after);
    SameEvaluation(a, f);
    ArtifactEvidenceIsReady(a, f);
  }

  /** No sign of drift, conflict or staleness. */
  predicate Calm(row: GateRow) {
    && row.transition !in
         {UnexpectedTransition, LineageDrifted, RowRemoved, RowAdded, ConflictDiscovered, SourceBecameStale}
    && row.reaudit !in {Some(TimestampConflict), Some(SourceStale)}
  }

  lemma StateOpensExactly(rows: seq<GateRow>, ready: nat, total: nat)
    ensures GateStateOf(rows, ready, total) == ReadyForProposal <==>
      rows != [] && (forall row :: row in rows ==> Calm(row)) && total > 0 && ready == total
  {
  }

  lemma RowsNotEmpty(baseline: seq<AuditRow>, reaudit: seq<AuditRow>)
    requires reaudit != []
    ensures GateRows(baseline, reaudit) != []
  {
    hide AllKeys, GateRowOf;
    GateRowsCoverKeys(baseline, reaudit);
    assert reaudit[0] in reaudit;
    assert KeyOf(reaudit[0]) in AllKeys(baseline, reaudit);
  }

  /** Over calm rows the gate opens, fully or partially, exactly when something is ready. */
  lemma CalmGateOpensExactly(rows: seq<GateRow>, ready: nat, total: nat)
    requires rows != [] && ready <= total && forall row :: row in rows ==> Calm(row)
    ensures GateStateOf(rows, ready, total) in {ReadyForProposal, PartiallyReady} <==> ready > 0
  {
  }

  /** The gate opens fully exactly when no row is alarming and every audited settlement is ready. */
  lemma GateOpensExactly(baseline: seq<AuditRow>, reaudit: seq<AuditRow>)
    ensures
      var rows := GateRows(baseline, reaudit);
      GateStateOf(rows, ReadyCount(reaudit), |reaudit|) == ReadyForProposal <==>
        && (forall row :: row in rows ==> Calm(row))
        && reaudit != [] && (forall audited :: audited in reaudit ==> audited.ready)
  {
    hide GateRowOf, AllKeys, GateStateOf, Calm;
    var rows := GateRows(baseline, reaudit);
    StateOpensExactly(rows, ReadyCount(reaudit), |reaudit|);
    ReadyCountExactly(reaudit);
    if reaudit != [] {
      RowsNotEmpty(baseline, reaudit);
    }
  }
}
