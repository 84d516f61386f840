/**
 The pure model of the settlement transaction, its invariants and the shrinking of counterexamples
 (scripts/local/phase4am_property_invariant_model.py).
 */
module PropertyModel {
  import opened Support
  import opened Text

  datatype Json =
    | Null | Boolean(flag: bool) | Number(number: real) | Text(text: string) | List(items: seq<Json>)
    | Object(fields: map<string, Json>)

  type Case = map<string, Json>

  function Get(c: map<string, Json>, key: string): Json { if key in c then c[key] else Null }

  /** Equality with True, which in Python the number one has too. */
  predicate EqualsTrue(v: Json) { v == Boolean(true) || v == Number(1.0) }

  /** Booleans compare and hash as zero and one. */
  function Key(v: Json): Json { if v.Boolean? then Number(if v.flag then 1.0 else 0.0) else v }

  predicate Hashable(v: Json) { !v.List? && !v.Object? }

  /** What len accepts. */
  predicate Sized(v: Json) { v.List? || v.Object? || v.Text? }

  function Length(v: Json): nat
    requires Sized(v)
  {
    match v
    case List(items) => |items|
    case Object(fields) => |fields|
    case Text(text) => |text|
  }

  // ---- Evaluating a case ----

  datatype State =
    | Start | Refused | TransactionStarted | Revalidated | CasApplied | RowCountVerified | PostconditionVerified
    | Committed | RolledBack

  datatype Reason =
    | MalformedRow | MissingColumn | DuplicateIdentity | IdentityInvalid | ResultEncodingInvalid
    | SettlementAlreadyTimestamped | TimestampInvalidOrNaive | ArtifactExpired | LineageMismatch
    | RowCountMismatch | PostconditionMismatch

  datatype Evaluation = Evaluation(
    before: Json, after: Json, transitions: seq<State>, reasons: seq<Reason>, affected: nat, committed: bool,
    rolledBack: bool)

  datatype Raised = TypeError | ValueError

  const REQUIRED: set<string> := {"ticker", "result", "settled_at", "updated_at", "payload"}

  /** Parsing of an ISO time with a zone; None for anything else. */
  type Parser = string -> Option<int>

  function ParseTime(parse: Parser, v: Json): Option<int> { if v.Text? then parse(v.text) else None }

  predicate RowsOf(c: Case) {
    && Get(c, "rows").List? && Get(c, "rows").items != []
    && forall row :: row in Get(c, "rows").items ==> row.Object?
  }

  predicate Complete(rows: seq<Json>) { forall row :: row in rows ==> row.Object? && REQUIRED <= row.fields.Keys }

  predicate AnyUnhashable(rows: seq<Json>)
    requires Complete(rows)
  {
    exists row :: row in rows && !Hashable(row.fields["ticker"])
  }

  predicate DistinctTickers(rows: seq<Json>)
    requires Complete(rows)
  {
    forall i, j :: 0 <= i < j < |rows| ==> Key(rows[i].fields["ticker"]) != Key(rows[j].fields["ticker"])
  }

  predicate Named(row: Json)
    requires row.Object? && REQUIRED <= row.fields.Keys
  {
    row.fields["ticker"].Text? && row.fields["ticker"].text != ""
  }

  predicate Decided(row: Json)
    requires row.Object? && REQUIRED <= row.fields.Keys
  {
    row.fields["result"] == Text("NO") || row.fields["result"] == Text("YES")
  }

  predicate Unsettled(row: Json)
    requires row.Object? && REQUIRED <= row.fields.Keys
  {
    row.fields["settled_at"] == Null || row.fields["settled_at"] == Text("")
  }

  /** The first precondition that fails, if any. */
  function Fault(c: Case, parse: Parser, now: int): Result<Option<Reason>, Raised> {
    if !RowsOf(c) then Ok(Some(MalformedRow))
    else
      var rows := Get(c, "rows").items;
      var expires := ParseTime(parse, Get(c, "expires_at"));
      if !Complete(rows) then Ok(Some(MissingColumn))
      else if AnyUnhashable(rows) then Err(TypeError)
      else if !DistinctTickers(rows) then Ok(Some(DuplicateIdentity))
      else if exists row :: row in rows && !Named(row) then Ok(Some(IdentityInvalid))
      else if exists row :: row in rows && !Decided(row) then Ok(Some(ResultEncodingInvalid))
      else if exists row :: row in rows && !Unsettled(row) then Ok(Some(SettlementAlreadyTimestamped))
      else if ParseTime(parse, Get(c, "proposed_settled_at")) == None || expires == None then
        Ok(Some(TimestampInvalidOrNaive))
      else if now >= expires.value then Ok(Some(ArtifactExpired))
      else if Get(c, "lineage_matches") != Boolean(true) then Ok(Some(LineageMismatch))
      else Ok(None)
  }

  /** A row with its settled_at written. */
  function Stamped(row: Json, value: Json): Json
    requires row.Object?
  {
    Object(row.fields["settled_at" := value])
  }

  function AllStamped(rows: seq<Json>, value: Json): (r: seq<Json>)
    requires forall row :: row in rows ==> row.Object?
    ensures |r| == |rows| && forall i :: 0 <= i < |rows| ==> r[i] == Stamped(rows[i], value)
  {
    seq(|rows|, i requires 0 <= i < |rows| => Stamped(rows[i], value))
  }

  function AffectedBy(effect: Json, rows: nat): nat {
    if effect == Text("ONE") then rows else if effect == Text("ZERO") then 0 else rows + 1
  }

  function Evaluate(c: Case, parse: Parser, now: int): Result<Evaluation, Raised> {
    var before := Get(c, "rows");
    match Fault(c, parse, now)
    case Err(e) => Err(e)
    case Ok(Some(reason)) => Ok(Evaluation(before, before, [Start, Refused], [reason], 0, false, false))
    case Ok(None) =>
      var rows := before.items;
      var affected := AffectedBy(Get(c, "cas_effect"), |rows|);
      if affected != |rows| then
        Ok(Evaluation(before, before, [Start, TransactionStarted, Revalidated, CasApplied, RolledBack],
          [RowCountMismatch], affected, false, true))
      else if Get(c, "postcondition_matches") != Boolean(true) then
        Ok(Evaluation(before, before,
          [Start, TransactionStarted, Revalidated, CasApplied, RowCountVerified, RolledBack],
          [PostconditionMismatch], affected, false, true))
      else
        Ok(Evaluation(before, List(AllStamped(rows, Get(c, "proposed_settled_at"))),
          [Start, TransactionStarted, Revalidated, CasApplied, RowCountVerified, PostconditionVerified, Committed],
          [], affected, true, false))
  }

  lemma NoFaultMeansRows(c: Case, parse: Parser, now: int)
    requires Fault(c, parse, now) == Ok(None)
    ensures RowsOf(c)
  {
  }

  /** The evaluation as the program performs it, on copies of the rows that it stamps one by one. */
  method EvaluateCase(c: Case, parse: Parser, now: int) returns (r: Result<Evaluation, Raised>)
    ensures r == Evaluate(c, parse, now)
  {
    hide Fault;
    var before := Get(c, "rows");
    var transitions := [Start];
    var fault := Fault(c, parse, now);
    if fault.Err? {
      return Err(fault.error);
    }
    if fault.value.Some? {
      transitions := transitions + [Refused];
      assert transitions == [Start, Refused];
      return Ok(Evaluation(before, before, transitions, [fault.value.value], 0, false, false));
    }
    NoFaultMeansRows(c, parse, now);
    transitions := transitions + [TransactionStarted, Revalidated, CasApplied];
    var affected := AffectedBy(Get(c, "cas_effect"), |before.items|);
    var after := before.items;
    var i := 0;
    while i < |after|
      invariant 0 <= i <= |after| == |before.items|
      invariant forall k :: 0 <= k < i ==> after[k] == Stamped(before.items[k], Get(c, "proposed_settled_at"))
      invariant forall k :: i <= k < |after| ==> after[k] == before.items[k]
    {
      after := after[i := Stamped(after[i], Get(c, "proposed_settled_at"))];
      i := i + 1;
    }
    assert after == AllStamped(before.items, Get(c, "proposed_settled_at"));
    if affected != |before.items| {
      transitions := transitions + [RolledBack];
      assert transitions == [Start, TransactionStarted, Revalidated, CasApplied, RolledBack];
      return Ok(Evaluation(before, before, transitions, [RowCountMismatch], affected, false, true));
    }
    transitions := transitions + [RowCountVerified];
    if Get(c, "postcondition_matches") != Boolean(true) {
      transitions := transitions + [RolledBack];
      assert transitions == [Start, TransactionStarted, Revalidated, CasApplied, RowCountVerified, RolledBack];
      return Ok(Evaluation(before, before, transitions, [PostconditionMismatch], affected, false, true));
    }
    transitions := transitions + [PostconditionVerified, Committed];
    assert transitions
        == [Start, TransactionStarted, Revalidated, CasApplied, RowCountVerified, PostconditionVerified, Committed];
    r := Ok(Evaluation(before, List(after), transitions, [], affected, true, false));
  }

  // ---- The invariants ----

  function Legal(s: State): set<State> {
    match s
    case Start => {Refused, TransactionStarted}
    case TransactionStarted => {Revalidated, RolledBack}
    case Revalidated => {CasApplied, RolledBack}
    case CasApplied => {RowCountVerified, RolledBack}
    case RowCountVerified => {PostconditionVerified, RolledBack}
    case PostconditionVerified => {State.Committed, RolledBack}
    case _ => {}
  }

  datatype Failure =
    | StateTransitionsLegal | CompareAndSwapExactlyOneRow | RollbackOrRefusalPreservesState
    | OnlyCanonicalTimestampChanges | TransactionAtomicity

  predicate TraceLegal(transitions: seq<State>) {
    forall i :: 0 <= i < |transitions| - 1 ==> transitions[i + 1] in Legal(transitions[i])
  }

  /** The columns of the first row whose values differ in the second. */
  function Differences(before: map<string, Json>, after: map<string, Json>): set<string> {
    set key | key in before && (key !in after || before[key] != after[key])
  }

  predicate OnlyTimestamps(before: seq<Json>, after: seq<Json>) {
    && |before| == |after|
    && forall i :: 0 <= i < |before| ==>
         before[i].Object? && after[i].Object? && Differences(before[i].fields, after[i].fields) == {"settled_at"}
  }

  /** The invariants a result breaks; rows without a length raise, and so do committed rows of another number. */
  function InvariantFailures(e: Evaluation): Result<set<Failure>, Raised>
    requires e.transitions != []
  {
    if !Sized(e.before) || (e.committed && !(e.before.List? && e.after.List?)) then Err(TypeError)
    else if e.committed && |e.before.items| != |e.after.items| then Err(ValueError)
    else
      Ok((if TraceLegal(e.transitions) then {} else {StateTransitionsLegal})
         + (if e.committed && e.affected != Length(e.before) then {CompareAndSwapExactlyOneRow} else {})
         + (if (e.rolledBack || e.transitions[|e.transitions| - 1] == Refused) && e.after != e.before
            then {RollbackOrRefusalPreservesState} else {})
         + (if e.committed && !OnlyTimestamps(e.before.items, e.after.items)
            then {OnlyCanonicalTimestampChanges} else {})
         + (if Length(e.before) > 1 && !e.committed && e.after != e.before then {TransactionAtomicity} else {}))
  }

  /** The case states this text as a time with a zone, and it is this one. */
  ghost predicate States(c: Case, key: string, parse: Parser, time: int) {
    key in c && c[key].Text? && parse(c[key].text) == Some(time)
  }

  ghost predicate HasColumns(row: Json) {
    row.Object? && {"ticker", "result", "settled_at", "updated_at", "payload"} <= row.fields.Keys
  }

  ghost predicate HasRows(c: Case) {
    "rows" in c && c["rows"].List? && c["rows"].items != [] && forall row :: row in c["rows"].items ==> row.Object?
  }

  ghost predicate HasCompleteRows(c: Case) {
    HasRows(c) && forall i :: 0 <= i < |c["rows"].items| ==> HasColumns(c["rows"].items[i])
  }

  /** The row's ticker is a text with something in it. */
  ghost predicate HasName(row: Json) {
    HasColumns(row) && row.fields["ticker"].Text? && row.fields["ticker"].text != ""
  }

  ghost predicate HasResult(row: Json) { HasColumns(row) && row.fields["result"] in {Text("YES"), Text("NO")} }

  ghost predicate HasNoTime(row: Json) { HasColumns(row) && row.fields["settled_at"] in {Null, Text("")} }

  /** Two tickers are alike to Python, to which true and false are one and zero. */
  ghost predicate Alike(a: Json, b: Json) {
    || a == b
    || (a == Boolean(true) && b == Number(1.0)) || (a == Number(1.0) && b == Boolean(true))
    || (a == Boolean(false) && b == Number(0.0)) || (a == Number(0.0) && b == Boolean(false))
  }

  /** The refusals in the order of their checks. */
  const REFUSALS: seq<Reason> := [
    MalformedRow, MissingColumn, DuplicateIdentity, IdentityInvalid, ResultEncodingInvalid,
    SettlementAlreadyTimestamped, TimestampInvalidOrNaive, ArtifactExpired, LineageMismatch]

  /** The case meets the precondition behind a refusal, given that it meets those before. */
  ghost predicate Meets(c: Case, parse: Parser, now: int, reason: Reason) {
    match reason
    case MalformedRow => HasRows(c)
    case MissingColumn => HasCompleteRows(c)
    case DuplicateIdentity =>
      HasCompleteRows(c) && forall i, j :: 0 <= i < j < |c["rows"].items| ==>
        !Alike(c["rows"].items[i].fields["ticker"], c["rows"].items[j].fields["ticker"])
    case IdentityInvalid => HasRows(c) && forall row :: row in c["rows"].items ==> HasName(row)
    case ResultEncodingInvalid => HasRows(c) && forall row :: row in c["rows"].items ==> HasResult(row)
    case SettlementAlreadyTimestamped => HasRows(c) && forall row :: row in c["rows"].items ==> HasNoTime(row)
    case TimestampInvalidOrNaive =>
      && (exists time :: States(c, "proposed_settled_at", parse, time))
      && (exists time :: States(c, "expires_at", parse, time))
    case ArtifactExpired => exists time :: States(c, "expires_at", parse, time) && now < time
    case LineageMismatch => "lineage_matches" in c && c["lineage_matches"] == Boolean(true)
    case _ => true
  }

  ghost predicate MeetsAll(c: Case, parse: Parser, now: int) {
    forall k :: 0 <= k < |REFUSALS| ==> Meets(c, parse, now, REFUSALS[k])
  }

  /** What it takes to commit. */
  ghost predicate Committable(c: Case, parse: Parser, now: int) {
    && MeetsAll(c, parse, now)
    && "cas_effect" in c && c["cas_effect"] == Text("ONE")
    && "postcondition_matches" in c && c["postcondition_matches"] == Boolean(true)
  }

  lemma AlikeExactly(a: Json, b: Json)
    ensures Key(a) == Key(b) <==> Alike(a, b)
  {
  }

  lemma ColumnsExactly(c: Case)
    ensures RowsOf(c) <==> HasRows(c)
    ensures RowsOf(c) ==> (Complete(Get(c, "rows").items) <==> HasCompleteRows(c)) && Get(c, "rows") == c["rows"]
  {
  }

  lemma TimesExactly(c: Case, parse: Parser, now: int)
    ensures Meets(c, parse, now, TimestampInvalidOrNaive) <==>
      ParseTime(parse, Get(c, "proposed_settled_at")).Some? && ParseTime(parse, Get(c, "expires_at")).Some?
    ensures Meets(c, parse, now, ArtifactExpired) <==>
      ParseTime(parse, Get(c, "expires_at")).Some? && now < ParseTime(parse, Get(c, "expires_at")).value
  {
    var proposed, expires := ParseTime(parse, Get(c, "proposed_settled_at")), ParseTime(parse, Get(c, "expires_at"));
    if proposed.Some? {
      assert States(c, "proposed_settled_at", parse, proposed.value);
    }
    if expires.Some? {
      assert States(c, "expires_at", parse, expires.value);
    }
  }

  /** Evaluation raises exactly if the rows are complete and some ticker is a list or an object. */
  ghost predicate Raises(c: Case) {
    && HasCompleteRows(c)
    && exists i :: 0 <= i < |c["rows"].items|
         && (c["rows"].items[i].fields["ticker"].List? || c["rows"].items[i].fields["ticker"].Object?)
  }

  lemma RowsExactly(c: Case, parse: Parser, now: int)
    requires HasCompleteRows(c) && Complete(c["rows"].items)
    ensures AnyUnhashable(c["rows"].items) <==> Raises(c)
    ensures DistinctTickers(c["rows"].items) <==> Meets(c, parse, now, DuplicateIdentity)
    ensures (exists row :: row in c["rows"].items && !Named(row)) <==> !Meets(c, parse, now, IdentityInvalid)
    ensures (exists row :: row in c["rows"].items && !Decided(row)) <==> !Meets(c, parse, now, ResultEncodingInvalid)
    ensures (exists row :: row in c["rows"].items && !Unsettled(row)) <==>
      !Meets(c, parse, now, SettlementAlreadyTimestamped)
  {
    hide Key, Alike;
    forall i, j | 0 <= i < j < |c["rows"].items|
      ensures
        var a, b := c["rows"].items[i].fields["ticker"], c["rows"].items[j].fields["ticker"];
        Key(a) == Key(b) <==> Alike(a, b)
    {
      AlikeExactly(c["rows"].items[i].fields["ticker"], c["rows"].items[j].fields["ticker"]);
    }
  }

  /** The first precondition the case does not meet. */
  ghost predicate FirstUnmet(c: Case, parse: Parser, now: int, k: nat) {
    && k < |REFUSALS| && !Meets(c, parse, now, REFUSALS[k])
    && forall j :: 0 <= j < k ==> Meets(c, parse, now, REFUSALS[j])
  }

  lemma FirstTwo(c: Case, parse: Parser, now: int)
    ensures Meets(c, parse, now, MalformedRow) <==> HasRows(c)
    ensures Meets(c, parse, now, MissingColumn) <==> HasCompleteRows(c)
    ensures Meets(c, parse, now, LineageMismatch) <==> Get(c, "lineage_matches") == Boolean(true)
    ensures HasCompleteRows(c) ==> HasRows(c)
    ensures Raises(c) ==> HasCompleteRows(c) && !Meets(c, parse, now, IdentityInvalid)
  {
    if Raises(c) {
      var i :| 0 <= i < |c["rows"].items|
        && (c["rows"].items[i].fields["ticker"].List? || c["rows"].items[i].fields["ticker"].Object?);
      assert !HasName(c["rows"].items[i]) && c["rows"].items[i] in c["rows"].items;
    }
  }

  lemma Unrolled(c: Case, parse: Parser, now: int)
    ensures MeetsAll(c, parse, now) <==>
      && Meets(c, parse, now, MalformedRow) && Meets(c, parse, now, MissingColumn)
      && Meets(c, parse, now, DuplicateIdentity) && Meets(c, parse, now, IdentityInvalid)
      && Meets(c, parse, now, ResultEncodingInvalid) && Meets(c, parse, now, SettlementAlreadyTimestamped)
      && Meets(c, parse, now, TimestampInvalidOrNaive) && Meets(c, parse, now, ArtifactExpired)
      && Meets(c, parse, now, LineageMismatch)
    ensures REFUSALS[0] == MalformedRow && REFUSALS[1] == MissingColumn && REFUSALS[2] == DuplicateIdentity
    ensures REFUSALS[3] == IdentityInvalid && REFUSALS[4] == ResultEncodingInvalid
    ensures REFUSALS[5] == SettlementAlreadyTimestamped && REFUSALS[6] == TimestampInvalidOrNaive
    ensures REFUSALS[7] == ArtifactExpired && REFUSALS[8] == LineageMismatch
  {
    hide Meets;
    assert MeetsAll(c, parse, now) ==>
      && Meets(c, parse, now, REFUSALS[0]) && Meets(c, parse, now, REFUSALS[1]) && Meets(c, parse, now, REFUSALS[2])
      && Meets(c, parse, now, REFUSALS[3]) && Meets(c, parse, now, REFUSALS[4]) && Meets(c, parse, now, REFUSALS[5])
      && Meets(c, parse, now, REFUSALS[6]) && Meets(c, parse, now, REFUSALS[7]) && Meets(c, parse, now, REFUSALS[8]);
  }

  lemma FaultExactly(c: Case, parse: Parser, now: int) returns (k: nat)
    ensures Fault(c, parse, now) ==
      if Raises(c) then Err(TypeError)
      else if MeetsAll(c, parse, now) then Ok(None)
      else if k < |REFUSALS| then Ok(Some(REFUSALS[k]))
      else Ok(None)
    ensures !Raises(c) && !MeetsAll(c, parse, now) ==> FirstUnmet(c, parse, now, k)
    ensures MeetsAll(c, parse, now) ==> !Raises(c)
  {
    hide ParseTime, DistinctTickers, Named, Decided, Unsettled, Alike, AnyUnhashable, Raises, HasCompleteRows, HasRows,
      RowsOf, Complete, Meets;
    ColumnsExactly(c);
    TimesExactly(c, parse, now);
    FirstTwo(c, parse, now);
    if HasCompleteRows(c) {
      RowsExactly(c, parse, now);
    }
    k := 0;
    while k < |REFUSALS| && Meets(c, parse, now, REFUSALS[k])
      invariant 0 <= k <= |REFUSALS| && forall j :: 0 <= j < k ==> Meets(c, parse, now, REFUSALS[j])
    {
      k := k + 1;
    }
    Unrolled(c, parse, now);
  }

  /** The rows of the case with the proposed time written into each. */
  ghost predicate StampsAll(c: Case, after: Json) {
    && HasRows(c) && "proposed_settled_at" in c
    && after.List? && |after.items| == |c["rows"].items|
    && forall i :: 0 <= i < |after.items| ==>
         after.items[i] == Object(c["rows"].items[i].fields["settled_at" := c["proposed_settled_at"]])
  }

  lemma AllMet(c: Case, parse: Parser, now: int)
    requires MeetsAll(c, parse, now)
    ensures HasRows(c) && "proposed_settled_at" in c
  {
    assert Meets(c, parse, now, REFUSALS[0]) && Meets(c, parse, now, REFUSALS[6]);
  }

  /**
   A case commits exactly when every precondition holds, strictly before expiry; committing stamps every row and
   changes nothing else, and every other ending leaves the rows as they were.
   */
  lemma CommitsExactly(c: Case, parse: Parser, now: int)
    ensures Evaluate(c, parse, now).Err? <==> Raises(c)
    ensures Evaluate(c, parse, now).Ok? ==>
      var e := Evaluate(c, parse, now).value;
      && e.before == (if "rows" in c then c["rows"] else Null)
      && (e.committed <==> Committable(c, parse, now))
      && (e.committed ==> StampsAll(c, e.after) && e.affected == |c["rows"].items| && e.reasons == [] && !e.rolledBack)
      && (!e.committed ==> e.after == e.before)
  {
    hide Fault, Raises, Meets, RowsOf;
    var k := FaultExactly(c, parse, now);
    if MeetsAll(c, parse, now) {
      AllMet(c, parse, now);
      ColumnsExactly(c);
    }
  }

  /**
   A case that does not commit is refused for the first precondition it does not meet, or, meeting them all, rolled
   back: for its row count unless the swap affects one row per ticker, and otherwise for its postcondition.
   */
  lemma EndsExactly(c: Case, parse: Parser, now: int) returns (k: nat)
    requires !Raises(c)
    ensures Evaluate(c, parse, now).Ok?
    ensures
      var e := Evaluate(c, parse, now).value;
      !MeetsAll(c, parse, now) ==>
        FirstUnmet(c, parse, now, k) && e.reasons == [REFUSALS[k]] && e.transitions == [Start, Refused]
        && e.affected == 0 && !e.rolledBack
    ensures
      var e, effect := Evaluate(c, parse, now).value, if "cas_effect" in c then c["cas_effect"] else Null;
      MeetsAll(c, parse, now) && effect != Text("ONE") ==>
        && HasRows(c) && e.affected == (if effect == Text("ZERO") then 0 else |c["rows"].items| + 1)
        && e.reasons == [RowCountMismatch] && e.rolledBack
        && e.transitions == [Start, TransactionStarted, Revalidated, CasApplied, RolledBack]
    ensures
      var e := Evaluate(c, parse, now).value;
      MeetsAll(c, parse, now) && "cas_effect" in c && c["cas_effect"] == Text("ONE") && !e.committed ==>
        && HasRows(c) && e.affected == |c["rows"].items| && e.reasons == [PostconditionMismatch] && e.rolledBack
        && e.transitions == [Start, TransactionStarted, Revalidated, CasApplied, RowCountVerified, RolledBack]
    ensures
      var e := Evaluate(c, parse, now).value;
      e.committed ==>
        e.transitions
        == [Start, TransactionStarted, Revalidated, CasApplied, RowCountVerified, PostconditionVerified, Committed]
  {
    hide Fault, Raises, Meets, RowsOf;
    k := FaultExactly(c, parse, now);
    if MeetsAll(c, parse, now) {
      AllMet(c, parse, now);
      ColumnsExactly(c);
    }
  }

  lemma StampDiffers(row: Json, value: Json)
    requires HasNoTime(row)
    requires value.Text? && value.text != ""
    ensures Differences(row.fields, row.fields["settled_at" := value]) == {"settled_at"}
  {
  }

  /** A result with a legal trace that keeps the rows, or stamps all of them and commits, breaks nothing. */
  lemma NothingBroken(e: Evaluation)
    requires e.transitions != [] && TraceLegal(e.transitions)
    requires !e.committed ==> e.after == e.before
    requires e.committed ==>
      && e.before.List? && e.after.List? && OnlyTimestamps(e.before.items, e.after.items)
      && e.affected == |e.before.items| && !e.rolledBack && e.transitions[|e.transitions| - 1] != Refused
    ensures InvariantFailures(e) == if Sized(e.before) then Ok({}) else Err(TypeError)
  {
  }

  lemma CommittableRows(c: Case, parse: Parser, now: int)
    requires Committable(c, parse, now)
    ensures HasRows(c) && forall row :: row in c["rows"].items ==> HasNoTime(row)
    ensures exists time :: States(c, "proposed_settled_at", parse, time)
  {
    assert Meets(c, parse, now, REFUSALS[1]) && Meets(c, parse, now, REFUSALS[5]) && Meets(c, parse, now, REFUSALS[6]);
  }

  lemma CommitOnlyStamps(c: Case, parse: Parser, now: int, after: Json)
    requires parse("") == None && Committable(c, parse, now) && StampsAll(c, after)
    ensures OnlyTimestamps(c["rows"].items, after.items)
  {
    hide Committable, Differences;
    CommittableRows(c, parse, now);
    var rows, value := c["rows"].items, c["proposed_settled_at"];
    forall i | 0 <= i < |rows|
      ensures rows[i].Object? && Differences(rows[i].fields, rows[i].fields["settled_at" := value]) == {"settled_at"}
    {
      assert rows[i] in rows;
      StampDiffers(rows[i], value);
    }
  }

  lemma TracesAreLegal()
    ensures TraceLegal([Start, Refused])
    ensures TraceLegal([Start, TransactionStarted, Revalidated, CasApplied, RolledBack])
    ensures TraceLegal([Start, TransactionStarted, Revalidated, CasApplied, RowCountVerified, RolledBack])
    ensures TraceLegal(
      [Start, TransactionStarted, Revalidated, CasApplied, RowCountVerified, PostconditionVerified, Committed])
  {
  }

  /** Which states may follow which. */
  ghost predicate MayFollow(s: State, next: State) {
    || (s == Start && next in {Refused, TransactionStarted})
    || (s == TransactionStarted && next in {Revalidated, RolledBack})
    || (s == Revalidated && next in {CasApplied, RolledBack})
    || (s == CasApplied && next in {RowCountVerified, RolledBack})
    || (s == RowCountVerified && next in {PostconditionVerified, RolledBack})
    || (s == PostconditionVerified && next in {State.Committed, RolledBack})
  }

  /** The row differs from what it was in its timestamp and in nothing else it had. */
  ghost predicate OnlyStamped(before: Json, after: Json) {
    && before.Object? && after.Object? && "settled_at" in before.fields
    && forall key :: key in before.fields ==>
         (key == "settled_at" <==> key !in after.fields || before.fields[key] != after.fields[key])
  }

  lemma FollowsExactly(s: State, next: State)
    ensures next in Legal(s) <==> MayFollow(s, next)
  {
  }

  lemma OnlyStampedExactly(before: Json, after: Json)
    ensures OnlyStamped(before, after) <==>
      before.Object? && after.Object? && Differences(before.fields, after.fields) == {"settled_at"}
  {
    if before.Object? && after.Object? {
      var d := Differences(before.fields, after.fields);
      assert forall key :: key in d <==>
        key in before.fields && (key !in after.fields || before.fields[key] != after.fields[key]);
      if d == {"settled_at"} {
        assert "settled_at" in d;
      }
    }
  }

  /** The checks themselves: each failure is reported exactly when a result breaks its rule. */
  lemma InvariantsExactly(e: Evaluation)
    requires e.transitions != [] && InvariantFailures(e).Ok?
    ensures StateTransitionsLegal in InvariantFailures(e).value <==>
      exists i :: 0 <= i < |e.transitions| - 1 && !MayFollow(e.transitions[i], e.transitions[i + 1])
    ensures CompareAndSwapExactlyOneRow in InvariantFailures(e).value <==>
      e.committed && e.affected != Length(e.before)
    ensures RollbackOrRefusalPreservesState in InvariantFailures(e).value <==>
      (e.rolledBack || e.transitions[|e.transitions| - 1] == Refused) && e.after != e.before
    ensures OnlyCanonicalTimestampChanges in InvariantFailures(e).value <==>
      e.committed && exists i :: 0 <= i < |e.before.items| && !OnlyStamped(e.before.items[i], e.after.items[i])
    ensures TransactionAtomicity in InvariantFailures(e).value <==>
      Length(e.before) > 1 && !e.committed && e.after != e.before
  {
    hide Legal, MayFollow, OnlyStamped, Differences, Length, Sized;
    forall i | 0 <= i < |e.transitions| - 1
      ensures e.transitions[i + 1] in Legal(e.transitions[i]) <==> MayFollow(e.transitions[i], e.transitions[i + 1])
    {
      FollowsExactly(e.transitions[i], e.transitions[i + 1]);
    }
    if e.committed {
      forall i | 0 <= i < |e.before.items|
        ensures OnlyStamped(e.before.items[i], e.after.items[i]) <==>
          e.before.items[i].Object? && e.after.items[i].Object?
          && Differences(e.before.items[i].fields, e.after.items[i].fields) == {"settled_at"}
      {
        OnlyStampedExactly(e.before.items[i], e.after.items[i]);
      }
    }
  }

  lemma StampsAreRows(c: Case, after: Json)
    requires StampsAll(c, after)
    ensures HasRows(c) && after.List? && "rows" in c && c["rows"].List?
  {
  }

  /**
   No case whatever breaks an invariant. Evaluation raises only for a ticker that cannot be hashed, and checking the
   result raises exactly when the rows have no length.
   */
  lemma NoCaseBreaksAnInvariant(c: Case, parse: Parser, now: int)
    requires parse("") == None
    ensures Evaluate(c, parse, now).Err? <==> Raises(c)
    ensures
      var r := Evaluate(c, parse, now);
      r.Ok? ==>
        && r.value.transitions != []
        && InvariantFailures(r.value)
           == if "rows" in c && (c["rows"].List? || c["rows"].Object? || c["rows"].Text?) then Ok({})
              else Err(TypeError)
  {
    hide Evaluate, Committable, OnlyTimestamps, TraceLegal, InvariantFailures, MeetsAll, FirstUnmet, StampsAll, Raises;
    CommitsExactly(c, parse, now);
    if Evaluate(c, parse, now).Ok? {
      var k := EndsExactly(c, parse, now);
      TracesAreLegal();
      var e := Evaluate(c, parse, now).value;
      if e.committed {
        CommitOnlyStamps(c, parse, now, e.after);
        StampsAreRows(c, e.after);
      }
      NothingBroken(e);
    }
  }

  // ---- Shrinking ----

  /** The simplifications offered: the first row alone, and each switch set to its ordinary value. */
  function Offers(c: Case): (r: seq<(string, Json)>)
    ensures forall i :: 0 <= i < |r| ==> r[i].0 != "case_hash"
  {
    (if Get(c, "rows").List? && |Get(c, "rows").items| > 1 then [("rows", List(Get(c, "rows").items[..1]))] else [])
    + (if EqualsTrue(Get(c, "lineage_matches")) then [] else [("lineage_matches", Boolean(true))])
    + (if Get(c, "cas_effect") == Text("ONE") then [] else [("cas_effect", Text("ONE"))])
    + (if EqualsTrue(Get(c, "postcondition_matches")) then [] else [("postcondition_matches", Boolean(true))])
  }

  function Candidates(c: Case): (r: seq<Case>)
    ensures |r| == |Offers(c)|
    ensures forall i :: 0 <= i < |r| ==> r[i] == c[Offers(c)[i].0 := Offers(c)[i].1]
  {
    seq(|Offers(c)|, i requires 0 <= i < |Offers(c)| => c[Offers(c)[i].0 := Offers(c)[i].1])
  }

  /** One way to make a case simpler that does not hold yet: its first row alone, or a switch at its ordinary value. */
  ghost predicate Offered(c: Case, key: string, value: Json) {
    || (key == "rows" && key in c && c[key].List? && |c[key].items| > 1 && value == List([c[key].items[0]]))
    || (key == "lineage_matches" && value == Boolean(true) && (key !in c || c[key] !in {Boolean(true), Number(1.0)}))
    || (key == "cas_effect" && value == Text("ONE") && (key !in c || c[key] != Text("ONE")))
    || (key == "postcondition_matches" && value == Boolean(true)
        && (key !in c || c[key] !in {Boolean(true), Number(1.0)}))
  }

  lemma OffersExactly(c: Case, key: string, value: Json)
    ensures (key, value) in Offers(c) <==> Offered(c, key, value)
  {
    if key == "rows" && key in c && c[key].List? && |c[key].items| > 1 {
      assert c[key].items[..1] == [c[key].items[0]];
    }
  }

  lemma CandidatesExactly(c: Case)
    ensures forall key, value :: Offered(c, key, value) ==> c[key := value] in Candidates(c)
    ensures forall d :: d in Candidates(c) ==> exists key, value :: Offered(c, key, value) && d == c[key := value]
  {
    hide Offers, Offered;
    forall key, value | Offered(c, key, value) ensures c[key := value] in Candidates(c) {
      OffersExactly(c, key, value);
      var i :| 0 <= i < |Offers(c)| && Offers(c)[i] == (key, value);
      assert Candidates(c)[i] == c[key := value];
    }
    forall d | d in Candidates(c) ensures exists key, value :: Offered(c, key, value) && d == c[key := value] {
      var i :| 0 <= i < |Candidates(c)| && Candidates(c)[i] == d;
      OffersExactly(c, Offers(c)[i].0, Offers(c)[i].1);
      assert Offers(c)[i] == (Offers(c)[i].0, Offers(c)[i].1);
    }
  }

  function Failing(cs: seq<Case>, fails: Case -> bool): (r: seq<Case>)
    ensures forall c :: c in r <==> c in cs && fails(c)
  {
    if cs == [] then []
    else
      assert cs == [cs[0]] + cs[1..];
      (if fails(cs[0]) then [cs[0]] else []) + Failing(cs[1..], fails)
  }

  /** The first candidate whose serialisation is least. */
  function First(cs: seq<Case>, dump: Case -> string): (r: Case)
    requires cs != []
    ensures r in cs
  {
    if |cs| == 1 then cs[0]
    else
      assert cs == cs[..|cs| - 1] + [cs[|cs| - 1]];
      var best := First(cs[..|cs| - 1], dump);
      if TextAtMost(dump(best), dump(cs[|cs| - 1])) then best else cs[|cs| - 1]
  }

  /** How many simplifications are on offer. */
  function Size(c: Case): nat { |Offers(c)| }

  lemma CandidatesAreSmaller(c: Case, d: Case)
    requires d in Candidates(c)
    ensures Size(d) < Size(c)
  {
  }

  function Shrunk(c: Case, fails: Case -> bool, dump: Case -> string): Case
    decreases Size(c)
  {
    var failing := Failing(Candidates(c), fails);
    if failing == [] then c
    else
      CandidatesAreSmaller(c, First(failing, dump));
      Shrunk(First(failing, dump), fails, dump)
  }

  lemma {:induction false} FirstIsLeast(cs: seq<Case>, dump: Case -> string)
    requires cs != []
    ensures forall c :: c in cs ==> Precedes(dump(First(cs, dump)), dump(c))
  {
    hide Precedes, TextAtMost;
    var n := |cs| - 1;
    assert cs == cs[..n] + [cs[n]];
    if n > 0 {
      FirstIsLeast(cs[..n], dump);
      var best := First(cs[..n], dump);
      TextIsTotal(dump(best), dump(cs[n]));
      TextOrderExactly(dump(best), dump(cs[n]));
      TextOrderExactly(dump(cs[n]), dump(best));
      TextOrderExactly(dump(cs[n]), dump(cs[n]));
      TextIsTotal(dump(cs[n]), dump(cs[n]));
      if !TextAtMost(dump(best), dump(cs[n])) {
        forall c | c in cs[..n] ensures Precedes(dump(cs[n]), dump(c)) {
          TextOrderExactly(dump(best), dump(c));
          TextIsTransitive(dump(cs[n]), dump(best), dump(c));
          TextOrderExactly(dump(cs[n]), dump(c));
        }
      }
    } else {
      TextIsTotal(dump(cs[0]), dump(cs[0]));
      TextOrderExactly(dump(cs[0]), dump(cs[0]));
    }
  }

  /**
   Each step of shrinking takes, of the offered simplifications that still fail, one whose serialisation comes first; it
   stops when none fails.
   */
  lemma ShrinkingStepsExactly(c: Case, fails: Case -> bool, dump: Case -> string)
    ensures (forall key, value :: Offered(c, key, value) ==> !fails(c[key := value])) ==> Shrunk(c, fails, dump) == c
    ensures (exists key, value :: Offered(c, key, value) && fails(c[key := value])) ==>
      exists key, value ::
        && Offered(c, key, value) && fails(c[key := value])
        && Shrunk(c, fails, dump) == Shrunk(c[key := value], fails, dump)
        && forall k, v :: Offered(c, k, v) && fails(c[k := v]) ==> Precedes(dump(c[key := value]), dump(c[k := v]))
  {
    hide Offered, Candidates, Precedes, First;
    CandidatesExactly(c);
    var failing := Failing(Candidates(c), fails);
    if failing != [] {
      FirstIsLeast(failing, dump);
      var d := First(failing, dump);
      CandidatesAreSmaller(c, d);
      var key, value :| Offered(c, key, value) && d == c[key := value];
    }
  }

  function Sealed(c: Case, hash: Case -> string): Case { c["case_hash" := Text(hash(c - {"case_hash"}))] }

  ghost predicate IgnoresHash(fails: Case -> bool) {
    forall c: Case, hash: string :: fails(c["case_hash" := Text(hash)]) == fails(c)
  }

  /** The result is the case with at most these four simplifications applied. */
  ghost predicate Simplifies(original: Case, simpler: Case) {
    && (forall key :: key !in {"rows", "lineage_matches", "cas_effect", "postcondition_matches", "case_hash"} ==>
          Get(simpler, key) == Get(original, key))
    && (Get(simpler, "rows") == Get(original, "rows")
        || (Get(original, "rows").List? && |Get(original, "rows").items| > 1
            && Get(simpler, "rows") == List(Get(original, "rows").items[..1])))
    && (Get(simpler, "lineage_matches") in {Get(original, "lineage_matches"), Boolean(true)})
    && (Get(simpler, "cas_effect") in {Get(original, "cas_effect"), Text("ONE")})
    && (Get(simpler, "postcondition_matches") in {Get(original, "postcondition_matches"), Boolean(true)})
  }

  lemma SimplifiesOnce(c: Case, d: Case)
    requires d in Candidates(c)
    ensures Simplifies(c, d)
  {
  }

  lemma SimplifiesTwice(a: Case, b: Case, c: Case)
    requires Simplifies(a, b) && Simplifies(b, c)
    ensures Simplifies(a, c)
  {
  }

  lemma SimplifiesNothing(c: Case)
    ensures Simplifies(c, c)
  {
  }

  lemma {:induction false} ShrunkIsMinimal(c: Case, fails: Case -> bool, dump: Case -> string)
    ensures fails(c) ==> fails(Shrunk(c, fails, dump))
    ensures forall d :: d in Candidates(Shrunk(c, fails, dump)) ==> !fails(d)
    ensures forall key, value :: Offered(Shrunk(c, fails, dump), key, value) ==>
      !fails(Shrunk(c, fails, dump)[key := value])
    ensures Simplifies(c, Shrunk(c, fails, dump))
    decreases Size(c)
  {
    hide Candidates, Offers, Simplifies, TextAtMost, Offered;
    var failing := Failing(Candidates(c), fails);
    CandidatesExactly(c);
    if failing == [] {
      assert Simplifies(c, c) by { SimplifiesNothing(c); }
    } else {
      var d := First(failing, dump);
      CandidatesAreSmaller(c, d);
      ShrunkIsMinimal(d, fails, dump);
      SimplifiesOnce(c, d);
      SimplifiesTwice(c, d, Shrunk(d, fails, dump));
    }
  }

  lemma SealingKeepsOffers(c: Case, seal: Json)
    ensures Offers(c["case_hash" := seal]) == Offers(c)
  {
    assert forall key :: key != "case_hash" ==> Get(c["case_hash" := seal], key) == Get(c, key);
  }

  lemma SealingKeepsCandidates(c: Case, seal: Json, d: Case)
    requires d in Candidates(c["case_hash" := seal])
    ensures exists e :: e in Candidates(c) && d == e["case_hash" := seal]
  {
    hide Offers, Candidates;
    var sealed := c["case_hash" := seal];
    SealingKeepsOffers(c, seal);
    var i :| 0 <= i < |Candidates(sealed)| && Candidates(sealed)[i] == d;
    var e := Candidates(c)[i];
    assert e in Candidates(c);
    assert d == e["case_hash" := seal];
  }

  lemma SealedSimplifies(c: Case, d: Case, seal: Json)
    requires Simplifies(c, d)
    ensures Simplifies(c, d["case_hash" := seal])
  {
  }

  /**
   Shrinks a failing case: the loop ends because every step removes an offered simplification; the result still
   fails, none of its own simplifications does, and it differs from the original by simplifications alone.
   */
  method ShrinkCounterexample(c: Case, fails: Case -> bool, dump: Case -> string, hash: Case -> string)
    returns (r: Case)
    ensures r == Sealed(Shrunk(c, fails, dump), hash)
    ensures Simplifies(c, r)
    ensures IgnoresHash(fails) && fails(c) ==> fails(r)
    ensures IgnoresHash(fails) ==> forall key, value :: Offered(r, key, value) ==> !fails(r[key := value])
    ensures "case_hash" in r && r["case_hash"] == Text(hash(r - {"case_hash"}))
  {
    hide Candidates, Offers, Simplifies, TextAtMost, First, Size, Offered;
    var current := c;
    while true
      invariant Shrunk(current, fails, dump) == Shrunk(c, fails, dump)
      decreases Size(current)
    {
      var failing := Failing(Candidates(current), fails);
      if failing == [] {
        break;
      }
      CandidatesAreSmaller(current, First(failing, dump));
      current := First(failing, dump);
    }
    ShrunkIsMinimal(c, fails, dump);
    r := Sealed(current, hash);
    assert r - {"case_hash"} == current - {"case_hash"};
    SealedSimplifies(c, current, r["case_hash"]);
    if IgnoresHash(fails) {
      forall d | d in Candidates(r) ensures !fails(d) {
        SealingKeepsCandidates(current, r["case_hash"], d);
      }
      CandidatesExactly(r);
    }
  }
}
