/**
 The audit of settlement timestamp evidence (scripts/local/phase4af_settlement_timestamp_audit.py): which settlements
 have exactly one timestamp that every authority agrees on.
 */
module TimestampAudit {
  import opened Support
  import opened Lists
  import opened Text
  import SettlementTransaction

  type Digest = string

  type Row = SettlementTransaction.Row

  /** The lineage hash of a settlement row. */
  type Lineage = (string, Row) -> Digest

  /** The binary outcome of a result text, if it is one (src/kalshi_predictor/phase4cd/reconciliation_audit.py). */
  function BinaryOutcome(result: Option<string>): Option<bool> {
    var normalized := Lower(Strip(if result.Some? then result.value else ""));
    if normalized == "yes" then Some(true) else if normalized == "no" then Some(false) else None
  }

  /** Three letters reading yes, in either case. */
  ghost predicate IsYes(s: string) { |s| == 3 && s[0] in {'y', 'Y'} && s[1] in {'e', 'E'} && s[2] in {'s', 'S'} }

  ghost predicate IsNo(s: string) { |s| == 2 && s[0] in {'n', 'N'} && s[1] in {'o', 'O'} }

  lemma LowerExactly(s: string)
    ensures Lower(s) == "yes" <==> IsYes(s)
    ensures Lower(s) == "no" <==> IsNo(s)
  {
    var lower := Lower(s);
    if IsYes(s) {
      assert lower[0] == 'y' && lower[1] == 'e' && lower[2] == 's' && |lower| == 3;
      assert lower == "yes";
    }
    if IsNo(s) {
      assert lower[0] == 'n' && lower[1] == 'o' && |lower| == 2;
      assert lower == "no";
    }
  }

  /** A result is binary exactly when it reads yes or no between blank ends. */
  lemma BinaryExactly(result: Option<string>)
    ensures BinaryOutcome(result) == Some(true) <==>
      result.Some? && exists part :: HasCore(result.value, part) && IsYes(part)
    ensures BinaryOutcome(result) == Some(false) <==>
      result.Some? && exists part :: HasCore(result.value, part) && IsNo(part)
  {
    hide HasCore, Lower;
    var s := if result.Some? then result.value else "";
    LowerExactly(Strip(s));
    StripIsCore(s);
    forall part | HasCore(s, part) && (IsYes(part) || IsNo(part)) ensures part == Strip(s) {
      OneCore(s, part, Strip(s));
    }
    assert Strip("") == "";
  }

  predicate Unset(settledAt: Option<string>) { settledAt == None || settledAt == Some("") }

  /** Where evidence comes from; a context is named for its column of a market or settlement. */
  datatype SourceType =
    | CanonicalSettlement | ExchangeSettlementTimestamp | ValidatedSettlementArtifact | ContextOnly(column: string)

  /** One piece of evidence; no normalized time when the original is malformed or names no zone. */
  datatype Candidate = Candidate(
    source: SourceType, identity: string, original: string, normalized: Option<string>, authoritative: bool,
    evidenceHash: Digest)

  datatype Classification =
    | SourceMissing | LineageFailure | NotActuallySettled | TimezoneAmbiguous | TimestampConflict | SourceStale
    | CanonicalSettledAtPresent | ExchangeTimestampAvailable | ArtifactTimestampAvailable
    | ResultPresentTimestampMissing | AuditBlocked

  datatype Verdict = Verdict(
    classification: Classification, timezoneUnambiguous: bool, conflict: bool, ready: bool, chosen: Option<Candidate>)

  function Usable(cs: seq<Candidate>): set<string> {
    set c | c in cs && c.authoritative && c.normalized.Some? :: c.normalized.value
  }

  predicate Ambiguous(cs: seq<Candidate>) { exists c :: c in cs && c.authoritative && c.normalized.None? }

  function FirstUsable(cs: seq<Candidate>, source: SourceType): (r: Option<Candidate>)
    ensures r.Some? ==> r.value in cs && r.value.authoritative && r.value.normalized.Some? && r.value.source == source
    ensures r.None? ==> forall c :: c in cs && c.authoritative && c.normalized.Some? ==> c.source != source
  {
    FirstWhere(cs, (c: Candidate) => c.authoritative && c.normalized.Some? && c.source == source)
  }

  /** The evidence of one settlement, classified; canonical evidence is chosen before exchange before artifact. */
  function Classify(
    result: Option<string>, cs: seq<Candidate>, recent: bool, lineageValid: bool, present: bool, evaluated: bool)
    : Verdict
  {
    var canonical := FirstUsable(cs, CanonicalSettlement);
    var exchange := FirstUsable(cs, ExchangeSettlementTimestamp);
    var artifact := FirstUsable(cs, ValidatedSettlementArtifact);
    var chosen := if canonical.Some? then canonical else if exchange.Some? then exchange else artifact;
    var conflict := |Usable(cs)| > 1;
    var classification :=
      if !present then SourceMissing
      else if !lineageValid then LineageFailure
      else if BinaryOutcome(result).None? then NotActuallySettled
      else if Ambiguous(cs) then TimezoneAmbiguous
      else if conflict then TimestampConflict
      else if chosen.Some? && !recent then SourceStale
      else if canonical.Some? then CanonicalSettledAtPresent
      else if exchange.Some? then ExchangeTimestampAvailable
      else if artifact.Some? then ArtifactTimestampAvailable
      else ResultPresentTimestampMissing;
    var ready :=
      classification in {ExchangeTimestampAvailable, ArtifactTimestampAvailable} && |Usable(cs)| == 1 && !evaluated;
    Verdict(classification, !Ambiguous(cs), conflict, ready, chosen)
  }

  /** Every authoritative candidate normalizes to this time. */
  ghost predicate Agreed(cs: seq<Candidate>, time: string) {
    forall c :: c in cs && c.authoritative ==> c.normalized == Some(time)
  }

  lemma AtMostOne(times: set<string>)
    ensures |times| <= 1 <==> forall a, b :: a in times && b in times ==> a == b
  {
    if |times| > 1 {
      var a :| a in times;
      assert |times - {a}| == |times| - 1;
      var b :| b in times - {a};
      assert a in times && b in times && a != b;
    } else if times != {} {
      var a :| a in times;
      assert |times - {a}| == 0;
    }
  }

  /**
   A settlement is ready exactly when it is present with valid lineage, a binary result, fresh evidence and no
   evaluation yet, holds no canonical timestamp, has exchange or artifact evidence, and all its authorities agree on
   one time; that time is the one chosen.
   */
  lemma ReadyExactly(
    result: Option<string>, cs: seq<Candidate>, recent: bool, lineageValid: bool, present: bool, evaluated: bool)
    ensures
      var v := Classify(result, cs, recent, lineageValid, present, evaluated);
      && (v.ready <==>
            && present && lineageValid && BinaryOutcome(result).Some? && recent && !evaluated
            && (forall c :: c in cs && c.authoritative ==> c.source != CanonicalSettlement)
            && (exists c :: c in cs && c.authoritative
                  && c.source in {ExchangeSettlementTimestamp, ValidatedSettlementArtifact})
            && (exists time: string :: Agreed(cs, time)))
      && (v.ready ==> v.chosen.Some? && v.chosen.value.normalized.Some? && Agreed(cs, v.chosen.value.normalized.value))
  {
    hide BinaryOutcome;
    var v := Classify(result, cs, recent, lineageValid, present, evaluated);
    AtMostOne(Usable(cs));
    if !Ambiguous(cs) && |Usable(cs)| <= 1 && v.chosen.Some? {
      var time := v.chosen.value.normalized.value;
      assert time in Usable(cs);
      assert forall c :: c in cs && c.authoritative ==> c.normalized.value in Usable(cs);
      assert Agreed(cs, time);
      assert Usable(cs) == {time};
    }
  }

  // ---- Audit rows ----

  /**
   What one audited settlement is judged on: its row, the non-empty time columns of its market, and the identities and
   times of the validated evidence about it.
   */
  datatype Facts = Facts(
    captureId: string, ticker: string, knownClassification: bool, attributedHash: Digest, captureLineageHash: string,
    evaluationAppeared: bool, source: Option<Row>, market: seq<(string, string)>, artifacts: seq<(string, string)>,
    sourceAge: Option<int>)

  /**
   How an audit reads times and hashes: `stated` gives the non-empty timestamp fields of a row's raw exchange record in
   their fixed order, and `seal` the hash of a piece of evidence.
   */
  datatype Auditor = Auditor(
    lineage: Lineage, freshnessSeconds: nat, normalize: string -> Option<string>,
    seal: (SourceType, string, string) -> Digest, stated: Row -> seq<(string, string)>)

  function Evidenced(a: Auditor, source: SourceType, identity: string, original: string, authoritative: bool): Candidate
  {
    Candidate(source, identity, original, a.normalize(original), authoritative, a.seal(source, identity, original))
  }

  /** The evidence in a list of named times. */
  function Listed(
    a: Auditor, source: string -> SourceType, prefix: string, authoritative: bool, fields: seq<(string, string)>)
    : (r: seq<Candidate>)
    ensures forall c :: c in r <==>
      exists field :: field in fields && c == Evidenced(a, source(field.0), prefix + field.0, field.1, authoritative)
  {
    if fields == [] then []
    else
      assert fields == [fields[0]] + fields[1..];
      [Evidenced(a, source(fields[0].0), prefix + fields[0].0, fields[0].1, authoritative)]
      + Listed(a, source, prefix, authoritative, fields[1..])
  }

  /** All evidence on a settlement, in the order the audit meets it: its own row's, its market's, and artifacts. */
  function CandidatesOf(a: Auditor, f: Facts): seq<Candidate> {
    (if f.source.None? then []
     else
       var row := f.source.value;
       var identity := "settlements:" + f.ticker;
       (if Unset(row.settledAt) then []
        else [Evidenced(a, CanonicalSettlement, identity + ":settled_at", row.settledAt.value, true)])
       + Listed(a, _ => ExchangeSettlementTimestamp, identity + ":raw_json:", true, a.stated(row))
       + (if Unset(row.updatedAt) then []
          else
            [Evidenced(
              a, ContextOnly("SETTLEMENT_UPDATED_AT"), identity + ":updated_at", row.updatedAt.value, false)])
       + Listed(a, column => ContextOnly("MARKET_" + Upper(column)), "markets:" + f.ticker + ":", false, f.market))
    + Listed(a, _ => ValidatedSettlementArtifact, "", true, f.artifacts)
  }

  datatype AuditRow = AuditRow(
    captureId: string, ticker: string, evaluationAppeared: bool, classification: Classification,
    timezoneUnambiguous: bool, sourceFresh: bool, ready: bool, candidateTime: Option<string>,
    evidenceHash: Option<Digest>, settlementHash: Option<Digest>, inventory: seq<Candidate>)

  type RowKey = (string, string)

  function KeyOf(row: AuditRow): RowKey { (row.captureId, row.ticker) }

  predicate DistinctKeys(rows: seq<AuditRow>) {
    forall i, j :: 0 <= i < j < |rows| ==> KeyOf(rows[i]) != KeyOf(rows[j])
  }

  const DIGEST_LENGTH: nat := 64

  predicate Fresh(age: Option<int>, freshnessSeconds: nat) { age.Some? && 0 <= age.value < freshnessSeconds }

  function CurrentHash(a: Auditor, f: Facts): Option<Digest> {
    if f.source.Some? then Some(a.lineage(f.ticker, f.source.value)) else None
  }

  predicate LineageValid(a: Auditor, f: Facts) {
    f.source.Some? && CurrentHash(a, f) == Some(f.attributedHash) && |f.captureLineageHash| == DIGEST_LENGTH
  }

  function VerdictOf(a: Auditor, f: Facts): Verdict {
    if !f.knownClassification then Verdict(AuditBlocked, false, false, false, None)
    else
      Classify(if f.source.Some? then f.source.value.result else None, CandidatesOf(a, f),
        Fresh(f.sourceAge, a.freshnessSeconds), LineageValid(a, f), f.source.Some?, f.evaluationAppeared)
  }

  function SourceName(source: SourceType): string {
    match source
    case CanonicalSettlement => "CANONICAL_SETTLEMENT"
    case ExchangeSettlementTimestamp => "EXCHANGE_SETTLEMENT_TIMESTAMP"
    case ValidatedSettlementArtifact => "VALIDATED_SETTLEMENT_ARTIFACT"
    case ContextOnly(column) => column
  }

  predicate CandidateAtMost(a: Candidate, b: Candidate) {
    TextsAtMost([SourceName(a.source), a.identity, a.original], [SourceName(b.source), b.identity, b.original])
  }

  function AuditRowOf(a: Auditor, f: Facts): AuditRow {
    var v := VerdictOf(a, f);
    AuditRow(f.captureId, f.ticker, f.evaluationAppeared, v.classification, v.timezoneUnambiguous,
      f.knownClassification && Fresh(f.sourceAge, a.freshnessSeconds), v.ready,
      if v.chosen.Some? then v.chosen.value.normalized else None,
      if v.chosen.Some? then Some(v.chosen.value.evidenceHash) else None,
      CurrentHash(a, f), Sort(CandidatesOf(a, f), CandidateAtMost))
  }

  predicate AtMost(a: AuditRow, b: AuditRow) { TextsAtMost([a.ticker, a.captureId], [b.ticker, b.captureId]) }

  // ---- What a row of the audit says ----

  /** The piece of evidence is this text from this place, read and sealed by the auditor. */
  ghost predicate IsEvidence(
    a: Auditor, c: Candidate, source: SourceType, identity: string, original: string, authoritative: bool)
  {
    && c.source == source && c.identity == identity && c.original == original && c.authoritative == authoritative
    && c.normalized == a.normalize(original) && c.evidenceHash == a.seal(source, identity, original)
  }

  /**
   Everything that counts as evidence: the row's own timestamp and its raw exchange record, which are authoritative, as
   are artifacts; the update time and the market's times give context only.
   */
  ghost predicate IsCandidate(a: Auditor, f: Facts, c: Candidate) {
    var identity := "settlements:" + f.ticker;
    || (f.source.Some? && f.source.value.settledAt.Some? && f.source.value.settledAt.value != ""
        && IsEvidence(a, c, CanonicalSettlement, identity + ":settled_at", f.source.value.settledAt.value, true))
    || (f.source.Some?
        && exists field ::
             && field in a.stated(f.source.value)
             && IsEvidence(a, c, ExchangeSettlementTimestamp, identity + ":raw_json:" + field.0, field.1, true))
    || (f.source.Some? && f.source.value.updatedAt.Some? && f.source.value.updatedAt.value != ""
        && IsEvidence(a, c, ContextOnly("SETTLEMENT_UPDATED_AT"), identity + ":updated_at",
             f.source.value.updatedAt.value, false))
    || (f.source.Some?
        && exists field ::
             && field in f.market
             && IsEvidence(
                  a, c, ContextOnly("MARKET_" + Upper(field.0)), "markets:" + f.ticker + ":" + field.0, field.1, false))
    || (exists field :: field in f.artifacts
          && IsEvidence(a, c, ValidatedSettlementArtifact, field.0, field.1, true))
  }

  lemma EvidencedExactly(
    a: Auditor, c: Candidate, source: SourceType, identity: string, original: string, authoritative: bool)
    ensures c == Evidenced(a, source, identity, original, authoritative) <==>
      IsEvidence(a, c, source, identity, original, authoritative)
  {
  }

  lemma ListedExactly(
    a: Auditor, source: string -> SourceType, prefix: string, authoritative: bool, fields: seq<(string, string)>,
    c: Candidate)
    ensures c in Listed(a, source, prefix, authoritative, fields) <==>
      exists field :: field in fields && IsEvidence(a, c, source(field.0), prefix + field.0, field.1, authoritative)
  {
    hide Listed, Evidenced, IsEvidence;
    forall field | field in fields
      ensures c == Evidenced(a, source(field.0), prefix + field.0, field.1, authoritative) <==>
        IsEvidence(a, c, source(field.0), prefix + field.0, field.1, authoritative)
    {
      EvidencedExactly(a, c, source(field.0), prefix + field.0, field.1, authoritative);
    }
  }

  /** The evidence on a settlement is all that counts as such, and nothing else. */
  lemma CandidatesExactly(a: Auditor, f: Facts, c: Candidate)
    ensures c in CandidatesOf(a, f) <==> IsCandidate(a, f, c)
  {
    hide Listed, Evidenced, IsEvidence;
    ListedExactly(a, _ => ValidatedSettlementArtifact, "", true, f.artifacts, c);
    assert forall field: (string, string) :: "" + field.0 == field.0;
    if f.source.Some? {
      var row, identity := f.source.value, "settlements:" + f.ticker;
      if !Unset(row.settledAt) {
        EvidencedExactly(a, c, CanonicalSettlement, identity + ":settled_at", row.settledAt.value, true);
      }
      ListedExactly(a, _ => ExchangeSettlementTimestamp, identity + ":raw_json:", true, a.stated(row), c);
      if !Unset(row.updatedAt) {
        EvidencedExactly(
          a, c, ContextOnly("SETTLEMENT_UPDATED_AT"), identity + ":updated_at", row.updatedAt.value, false);
      }
      ListedExactly(
        a, column => ContextOnly("MARKET_" + Upper(column)), "markets:" + f.ticker + ":", false, f.market, c);
    }
  }

  /** Some authority's text is no time with a zone. */
  ghost predicate AnyUnreadable(cs: seq<Candidate>) { exists c :: c in cs && c.authoritative && c.normalized.None? }

  ghost predicate AnyDisagreement(cs: seq<Candidate>) {
    exists c, d :: c in cs && d in cs && c.authoritative && d.authoritative && c.normalized.Some? && d.normalized.Some?
      && c.normalized != d.normalized
  }

  /** Some authority of this kind states a time. */
  ghost predicate AnyTime(cs: seq<Candidate>, source: SourceType) {
    exists c :: c in cs && c.authoritative && c.normalized.Some? && c.source == source
  }

  lemma EvidenceConflicts(cs: seq<Candidate>)
    ensures |Usable(cs)| > 1 <==> AnyDisagreement(cs)
    ensures Ambiguous(cs) <==> AnyUnreadable(cs)
  {
    AtMostOne(Usable(cs));
    if a, b :| a in Usable(cs) && b in Usable(cs) && a != b {
      var c :| c in cs && c.authoritative && c.normalized.Some? && c.normalized.value == a;
      var d :| d in cs && d.authoritative && d.normalized.Some? && d.normalized.value == b;
    }
    if AnyDisagreement(cs) {
      var c, d :| c in cs && d in cs && c.authoritative && d.authoritative && c.normalized.Some? && d.normalized.Some?
        && c.normalized != d.normalized;
      assert c.normalized.value in Usable(cs) && d.normalized.value in Usable(cs);
    }
  }

  lemma ReadyByClass(
    result: Option<string>, cs: seq<Candidate>, recent: bool, lineageValid: bool, present: bool, evaluated: bool)
    ensures
      var v := Classify(result, cs, recent, lineageValid, present, evaluated);
      v.ready <==>
        v.classification in {ExchangeTimestampAvailable, ArtifactTimestampAvailable} && !evaluated
  {
    hide BinaryOutcome;
    var v := Classify(result, cs, recent, lineageValid, present, evaluated);
    if v.chosen.Some? {
      assert v.chosen.value.normalized.value in Usable(cs);
    }
  }

  /** The class of a settlement's evidence: what is wrong with it, else the strongest source that states a time. */
  lemma ClassExactly(a: Auditor, f: Facts)
    ensures AuditRowOf(a, f).classification ==
      if !f.knownClassification then AuditBlocked
      else if f.source.None? then SourceMissing
      else if a.lineage(f.ticker, f.source.value) != f.attributedHash then LineageFailure
      else if |f.captureLineageHash| != 64 then LineageFailure
      else if BinaryOutcome(f.source.value.result).None? then NotActuallySettled
      else if AnyUnreadable(CandidatesOf(a, f)) then TimezoneAmbiguous
      else if AnyDisagreement(CandidatesOf(a, f)) then TimestampConflict
      else if !AuditRowOf(a, f).sourceFresh
              && (|| AnyTime(CandidatesOf(a, f), CanonicalSettlement)
                  || AnyTime(CandidatesOf(a, f), ExchangeSettlementTimestamp)
                  || AnyTime(CandidatesOf(a, f), ValidatedSettlementArtifact)) then SourceStale
      else if AnyTime(CandidatesOf(a, f), CanonicalSettlement) then CanonicalSettledAtPresent
      else if AnyTime(CandidatesOf(a, f), ExchangeSettlementTimestamp) then ExchangeTimestampAvailable
      else if AnyTime(CandidatesOf(a, f), ValidatedSettlementArtifact) then ArtifactTimestampAvailable
      else ResultPresentTimestampMissing
  {
    hide BinaryOutcome, CandidatesOf, Sort, AnyDisagreement, AnyUnreadable, Ambiguous, Usable;
    EvidenceConflicts(CandidatesOf(a, f));
  }

  /** The time a row proposes is stated by the strongest source that states one, and goes with that source's hash. */
  lemma ChosenExactly(a: Auditor, f: Facts)
    ensures
      var row, cs := AuditRowOf(a, f), CandidatesOf(a, f);
      if f.knownClassification
         && (AnyTime(cs, CanonicalSettlement) || AnyTime(cs, ExchangeSettlementTimestamp)
             || AnyTime(cs, ValidatedSettlementArtifact)) then
        exists c ::
          && c in cs && c.authoritative && c.normalized.Some? && row.candidateTime == c.normalized
          && row.evidenceHash == Some(c.evidenceHash)
          && c.source == if AnyTime(cs, CanonicalSettlement) then CanonicalSettlement
                         else if AnyTime(cs, ExchangeSettlementTimestamp) then ExchangeSettlementTimestamp
                         else ValidatedSettlementArtifact
      else row.candidateTime == None && row.evidenceHash == None
  {
    hide BinaryOutcome, CandidatesOf, Sort, Ambiguous, Usable;
  }

  /** What the row records besides: freshness, readiness, the settlement's hash and the inventory. */
  lemma AuditRowExactly(a: Auditor, f: Facts)
    ensures
      var row, cs := AuditRowOf(a, f), CandidatesOf(a, f);
      && row.captureId == f.captureId && row.ticker == f.ticker && row.evaluationAppeared == f.evaluationAppeared
      && (row.sourceFresh <==>
            f.knownClassification && f.sourceAge.Some? && 0 <= f.sourceAge.value < a.freshnessSeconds)
      && (row.timezoneUnambiguous <==> f.knownClassification && !AnyUnreadable(cs))
      && (row.ready <==>
            row.classification in {ExchangeTimestampAvailable, ArtifactTimestampAvailable} && !f.evaluationAppeared)
      && row.settlementHash == (if f.source.Some? then Some(a.lineage(f.ticker, f.source.value)) else None)
      && multiset(row.inventory) == multiset(cs)
  {
    hide BinaryOutcome, CandidatesOf, Sort, AnyUnreadable, Ambiguous, Usable, AnyDisagreement;
    var cs := CandidatesOf(a, f);
    EvidenceConflicts(cs);
    SortKeeps(cs, CandidateAtMost);
    if f.knownClassification {
      ReadyByClass(if f.source.Some? then f.source.value.result else None, cs,
        Fresh(f.sourceAge, a.freshnessSeconds), LineageValid(a, f), f.source.Some?, f.evaluationAppeared);
    }
  }

  function AuditRows(a: Auditor, facts: seq<Facts>): seq<AuditRow> {
    Sort(Map(facts, f => AuditRowOf(a, f)), AtMost)
  }

  /** The rows of an audit are in order of ticker and capture, and each inventory by source, identity and text. */
  lemma AuditOrderExactly(a: Auditor, facts: seq<Facts>, f: Facts)
    ensures
      var rows := AuditRows(a, facts);
      forall i, j :: 0 <= i < j < |rows| ==>
        KeysInOrder([rows[i].ticker, rows[i].captureId], [rows[j].ticker, rows[j].captureId])
    ensures
      var cs := AuditRowOf(a, f).inventory;
      forall i, j :: 0 <= i < j < |cs| ==>
        KeysInOrder(
          [SourceName(cs[i].source), cs[i].identity, cs[i].original],
          [SourceName(cs[j].source), cs[j].identity, cs[j].original])
  {
    hide TextsAtMost, KeysInOrder, Sort, VerdictOf, CandidatesOf, SourceName;
    SortByKeys(Map(facts, f => AuditRowOf(a, f)), (row: AuditRow) => [row.ticker, row.captureId], AtMost);
    SortByKeys(CandidatesOf(a, f), (c: Candidate) => [SourceName(c.source), c.identity, c.original], CandidateAtMost);
  }

  lemma SameStart<T>(a: seq<T>, b: seq<T>, k: nat)
    requires 0 < k <= |a| && k <= |b| && a[..k] == b[..k]
    ensures a[0] == b[0]
  {
    assert a[..k][0] == b[..k][0];
  }

  /** Of two sources whose names start with different letters, the lesser letter goes first. */
  lemma NamesInOrder(a: seq<string>, b: seq<string>)
    requires a != [] && b != [] && a[0] != "" && b[0] != "" && a[0][0] > b[0][0]
    ensures !KeysInOrder(a, b)
  {
    if k :| 0 <= k < |a| && k < |b| && a[..k] == b[..k] && a[k] != b[k] && Precedes(a[k], b[k]) {
      if k > 0 {
        SameStart(a, b, k);
      } else if i :| 0 <= i < |a[0]| && i < |b[0]| && a[0][..i] == b[0][..i] && a[0][i] < b[0][i] {
        if i > 0 {
          SameStart(a[0], b[0], i);
        }
      }
    }
  }

  /** In the inventory the settlement's own time stands before the exchange's, and that before any artifact's. */
  lemma InventoryBySource(a: Auditor, f: Facts, i: nat, j: nat)
    requires i < j < |AuditRowOf(a, f).inventory|
    ensures
      var cs := AuditRowOf(a, f).inventory;
      && (cs[j].source == CanonicalSettlement ==>
            cs[i].source != ExchangeSettlementTimestamp && cs[i].source != ValidatedSettlementArtifact)
      && (cs[j].source == ExchangeSettlementTimestamp ==> cs[i].source != ValidatedSettlementArtifact)
  {
    hide KeysInOrder, VerdictOf, CandidatesOf, AuditRowOf;
    AuditOrderExactly(a, [], f);
    var cs := AuditRowOf(a, f).inventory;
    var x := [SourceName(cs[i].source), cs[i].identity, cs[i].original];
    var y := [SourceName(cs[j].source), cs[j].identity, cs[j].original];
    assert KeysInOrder(x, y);
    if x[0] != "" && y[0] != "" && x[0][0] > y[0][0] {
      NamesInOrder(x, y);
    }
  }

  function ReadyCount(rows: seq<AuditRow>): nat { CountWhere(rows, (row: AuditRow) => row.ready) }

  method Audit(a: Auditor, facts: seq<Facts>) returns (rows: seq<AuditRow>, readyCount: nat)
    ensures rows == AuditRows(a, facts)
    ensures readyCount == ReadyCount(rows)
  {
    hide AuditRowOf, AtMost;
    rows := [];
    var i := 0;
    while i < |facts|
      invariant 0 <= i <= |facts| && |rows| == i
      invariant forall k :: 0 <= k < i ==> rows[k] == AuditRowOf(a, facts[k])
    {
      rows := rows + [AuditRowOf(a, facts[i])];
      i := i + 1;
    }
    assert rows == Map(facts, f => AuditRowOf(a, f));
    rows := Sort(rows, AtMost);
    readyCount := ReadyCount(rows);
  }

  /** Every row of an audit is the row of facts that were audited. */
  lemma AuditedFacts(a: Auditor, facts: seq<Facts>, row: AuditRow) returns (f: Facts)
    requires row in AuditRows(a, facts)
    ensures f in facts && row == AuditRowOf(a, f)
  {
    hide AuditRowOf, AtMost;
    var rows := Map(facts, f => AuditRowOf(a, f));
    SortKeeps(rows, AtMost);
    assert row in multiset(Sort(rows, AtMost));
    var k :| 0 <= k < |rows| && rows[k] == row;
    f := facts[k];
  }

  /** All that was audited has its row. */
  lemma FactsAreAudited(a: Auditor, facts: seq<Facts>, f: Facts)
    requires f in facts
    ensures AuditRowOf(a, f) in AuditRows(a, facts)
  {
    hide AuditRowOf, AtMost;
    var rows := Map(facts, f => AuditRowOf(a, f));
    SortKeeps(rows, AtMost);
    var k :| 0 <= k < |facts| && facts[k] == f;
    assert rows[k] in multiset(rows);
    assert rows[k] in multiset(Sort(rows, AtMost));
  }

  lemma SameMembersAgree(a: seq<Candidate>, b: seq<Candidate>, time: string)
    requires multiset(a) == multiset(b)
    ensures Agreed(a, time) <==> Agreed(b, time)
  {
    assert forall c :: c in a <==> c in multiset(a);
    assert forall c :: c in b <==> c in multiset(b);
  }

  /**
   A row that shows artifact evidence and no evaluation is ready: its settlement had valid lineage and no canonical
   timestamp, and every authority in the inventory the row records agreed on the time the row reports.
   */
  lemma ArtifactEvidenceIsReady(a: Auditor, f: Facts)
    requires AuditRowOf(a, f).classification == ArtifactTimestampAvailable
    requires !f.evaluationAppeared
    ensures
      var row := AuditRowOf(a, f);
      && row.ready && row.sourceFresh && row.timezoneUnambiguous
      && f.source.Some? && row.settlementHash == Some(f.attributedHash)
      && row.candidateTime.Some? && Agreed(CandidatesOf(a, f), row.candidateTime.value)
      && Agreed(row.inventory, row.candidateTime.value)
      && (forall c :: c in CandidatesOf(a, f) && c.authoritative ==>
            c.source == ValidatedSettlementArtifact || c.source.ContextOnly?)
  {
    hide BinaryOutcome, Sort, CandidateAtMost, CandidatesOf;
    ReadyExactly(f.source.value.result, CandidatesOf(a, f), Fresh(f.sourceAge, a.freshnessSeconds),
      LineageValid(a, f), f.source.Some?, f.evaluationAppeared);
    AtMostOne(Usable(CandidatesOf(a, f)));
    var artifact := FirstUsable(CandidatesOf(a, f), ValidatedSettlementArtifact).value;
    assert artifact.normalized.value in Usable(CandidatesOf(a, f));
    SortKeeps(CandidatesOf(a, f), CandidateAtMost);
    SameMembersAgree(CandidatesOf(a, f), Sort(CandidatesOf(a, f), CandidateAtMost), artifact.normalized.value);
  }

  // ---- What new evidence does ----

  /** The settlement's own row states no time. */
  predicate Silent(a: Auditor, f: Facts) {
    f.source.Some? && Unset(f.source.value.settledAt) && a.stated(f.source.value) == []
  }

  /** Over a silent row the authorities are exactly the artifacts. */
  lemma OnlyArtifacts(a: Auditor, f: Facts)
    requires Silent(a, f)
    ensures forall c :: c in CandidatesOf(a, f) && c.authoritative <==>
      exists e :: e in f.artifacts && c == Evidenced(a, ValidatedSettlementArtifact, e.0, e.1, true)
  {
    assert forall e: (string, string) :: "" + e.0 == e.0;
  }

  lemma SpokenIsAuthority(a: Auditor, f: Facts) returns (c: Candidate)
    requires f.source.Some? && (!Silent(a, f) || f.artifacts != [])
    ensures c in CandidatesOf(a, f) && c.authoritative && !c.source.ContextOnly?
  {
    var row := f.source.value;
    var identity := "settlements:" + f.ticker;
    if !Unset(row.settledAt) {
      c := Evidenced(a, CanonicalSettlement, identity + ":settled_at", row.settledAt.value, true);
    } else if a.stated(row) != [] {
      var field := a.stated(row)[0];
      c := Evidenced(a, ExchangeSettlementTimestamp, identity + ":raw_json:" + field.0, field.1, true);
    } else {
      var e := f.artifacts[0];
      c := Evidenced(a, ValidatedSettlementArtifact, "" + e.0, e.1, true);
    }
  }

  /** A settlement is known, is the one attributed, and has a binary result. */
  predicate Attributed(a: Auditor, f: Facts) {
    f.knownClassification && LineageValid(a, f) && BinaryOutcome(f.source.value.result).Some?
  }

  /** A timestamp is missing exactly when an attributed settlement's row is silent and no artifact speaks of it. */
  lemma MissingExactly(a: Auditor, f: Facts)
    ensures AuditRowOf(a, f).classification == ResultPresentTimestampMissing <==>
      Attributed(a, f) && Silent(a, f) && f.artifacts == []
  {
    hide BinaryOutcome, CandidatesOf, Sort, Silent;
    if f.source.Some? {
      if !Silent(a, f) || f.artifacts != [] {
        var c := SpokenIsAuthority(a, f);
        assert c.normalized.Some? ==> c.normalized.value in Usable(CandidatesOf(a, f));
      } else {
        OnlyArtifacts(a, f);
      }
    }
  }

  /** With artifacts as the only authorities, evidence is available exactly when there is some and all of it agrees. */
  lemma ArtifactClassExactly(
    result: Option<string>, cs: seq<Candidate>, recent: bool, lineageValid: bool, present: bool, evaluated: bool)
    requires forall c :: c in cs && c.authoritative ==> c.source == ValidatedSettlementArtifact
    ensures
      var v := Classify(result, cs, recent, lineageValid, present, evaluated);
      && (v.classification == ArtifactTimestampAvailable <==>
            && present && lineageValid && BinaryOutcome(result).Some? && recent
            && (exists c :: c in cs && c.authoritative) && (exists time: string :: Agreed(cs, time)))
      && (v.classification == ArtifactTimestampAvailable ==>
            v.chosen.Some? && v.chosen.value.normalized.Some? && Agreed(cs, v.chosen.value.normalized.value))
  {
    hide BinaryOutcome, Agreed;
    ReadyExactly(result, cs, recent, lineageValid, present, false);
    AtMostOne(Usable(cs));
    var artifact := FirstUsable(cs, ValidatedSettlementArtifact);
    if artifact.Some? {
      assert artifact.value.normalized.value in Usable(cs);
    }
  }

  predicate ArtifactsState(a: Auditor, f: Facts, time: string) {
    forall e :: e in f.artifacts ==> a.normalize(e.1) == Some(time)
  }

  lemma ArtifactsAgree(a: Auditor, f: Facts, time: string)
    requires Silent(a, f)
    ensures Agreed(CandidatesOf(a, f), time) <==> ArtifactsState(a, f, time)
  {
    hide CandidatesOf, Silent;
    OnlyArtifacts(a, f);
    forall e | Agreed(CandidatesOf(a, f), time) && e in f.artifacts
      ensures a.normalize(e.1) == Some(time)
    {
      assert Evidenced(a, ValidatedSettlementArtifact, e.0, e.1, true) in CandidatesOf(a, f);
    }
  }

  /**
   Over a silent row artifacts are what makes evidence available, exactly when there are some, they all state one time
   and the source is fresh; that time is then the one reported.
   */
  lemma ArtifactsSpeakExactly(a: Auditor, f: Facts)
    requires Silent(a, f)
    ensures
      var row := AuditRowOf(a, f);
      && (row.classification == ArtifactTimestampAvailable <==>
            && Attributed(a, f) && Fresh(f.sourceAge, a.freshnessSeconds) && f.artifacts != []
            && exists time: string :: ArtifactsState(a, f, time))
      && (row.classification == ArtifactTimestampAvailable ==>
            row.candidateTime.Some? && ArtifactsState(a, f, row.candidateTime.value))
  {
    hide BinaryOutcome, CandidatesOf, Sort, Classify, Agreed, ArtifactsState, Fresh;
    OnlyArtifacts(a, f);
    var cs := CandidatesOf(a, f);
    ArtifactClassExactly(f.source.value.result, cs, Fresh(f.sourceAge, a.freshnessSeconds), LineageValid(a, f), true,
      f.evaluationAppeared);
    if f.artifacts != [] {
      var e := f.artifacts[0];
      assert e in f.artifacts;
      assert Evidenced(a, ValidatedSettlementArtifact, e.0, e.1, true) in cs;
    }
    forall time: string ensures Agreed(cs, time) <==> ArtifactsState(a, f, time) {
      ArtifactsAgree(a, f, time);
    }
  }
}
