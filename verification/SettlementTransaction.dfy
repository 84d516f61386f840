/**
 The compare-and-swap transaction of scripts/local/phase4al_offline_protocol_simulation.py, with a failure
 injected at any of its stages.
 */
module SettlementTransaction {
  import opened Support

  /** A settlement row; None is SQL NULL, and `rest` stands for the columns the protocol never names. */
  datatype Row = Row(settledAt: Option<string>, result: Option<string>, updatedAt: Option<string>, rest: string)

  /** The settlements table, whose tickers are unique. */
  type Table = map<string, Row>

  datatype Candidate = Candidate(
    ticker: string,
    proposed: Option<string>,
    result: Option<string>,
    updatedAt: Option<string>,
    lineageHash: string)

  datatype Stage =
    | BeforeTransaction | AfterInitialPrecondition | AfterTransactionStart | AfterInTransactionRevalidation
    | BeforeSimulatedMutation | AfterSimulatedMutation | BeforeRowCountVerification
    | BeforePostconditionVerification | ImmediatelyBeforeCommit

  datatype Reason =
    | PhaseAkNotReady | ReadinessExpired | NoReadyRows
    | InjectedFailure(stage: Stage)
    | SettlementMissing | TimestampPresent | ResultChanged | LineageChanged
    | RowCountMismatch | PostconditionMismatch | UnrelatedStateChanged

  datatype Outcome =
    | Committed
    | Refused(reason: Reason)
    | RolledBack(reason: Reason)
    | DuplicateCandidate

  datatype Report = Report(outcome: Outcome, affected: nat)

  /** What one simulation is given besides the database. */
  datatype Request = Request(
    lineage: (string, Row) -> string,
    ready: bool,
    now: int,
    earliestDeadline: int,
    candidates: seq<Candidate>,
    failure: Option<Stage>)

  predicate DistinctTickers(cs: seq<Candidate>) {
    forall i, j :: 0 <= i < j < |cs| ==> cs[i].ticker != cs[j].ticker
  }

  // ---- One statement at a time ----

  function RevalidationFault(lineage: (string, Row) -> string, t: Table, c: Candidate): Option<Reason> {
    if c.ticker !in t then Some(SettlementMissing)
    else
      var row := t[c.ticker];
      if row.settledAt != None && row.settledAt != Some("") then Some(TimestampPresent)
      else if row.result != c.result then Some(ResultChanged)
      else if lineage(c.ticker, row) != c.lineageHash then Some(LineageChanged)
      else None
  }

  function FirstFault(lineage: (string, Row) -> string, t: Table, cs: seq<Candidate>): Option<Reason> {
    if cs == [] then None
    else if RevalidationFault(lineage, t, cs[0]).Some? then RevalidationFault(lineage, t, cs[0])
    else FirstFault(lineage, t, cs[1..])
  }

  /** The UPDATE's WHERE clause: NULL timestamp, equal non-NULL result, identical updated_at. */
  predicate Hits(t: Table, c: Candidate) {
    && c.ticker in t
    && t[c.ticker].settledAt == None
    && c.result.Some? && t[c.ticker].result == c.result
    && t[c.ticker].updatedAt == c.updatedAt
  }

  function Swap(t: Table, c: Candidate): Table {
    if Hits(t, c) then t[c.ticker := t[c.ticker].(settledAt := c.proposed)] else t
  }

  function SwapAll(t: Table, cs: seq<Candidate>): Table
    decreases |cs|
  {
    if cs == [] then t else SwapAll(Swap(t, cs[0]), cs[1..])
  }

  function Affected(t: Table, cs: seq<Candidate>): nat
    decreases |cs|
  {
    if cs == [] then 0 else (if Hits(t, cs[0]) then 1 else 0) + Affected(Swap(t, cs[0]), cs[1..])
  }

  predicate Posted(t: Table, c: Candidate) { c.ticker in t && t[c.ticker].settledAt == c.proposed }

  function Tickers(cs: seq<Candidate>): set<string> { set c | c in cs :: c.ticker }

  /** The preservation snapshot: the table with the intended field of the candidates blanked out. */
  function Masked(t: Table, tickers: set<string>): Table {
    map k | k in t :: if k in tickers then t[k].(settledAt := Some("<INTENDED_FIELD>")) else t[k]
  }

  // ---- The transaction as the program runs it ----

  /** The stages whose injected failure strikes before revalidation, and before the mutation. */
  const EARLY_STAGES := {BeforeTransaction, AfterInitialPrecondition, AfterTransactionStart}
  const MIDDLE_STAGES := {AfterInTransactionRevalidation, BeforeSimulatedMutation}
  const MUTATED_STAGES := {AfterSimulatedMutation, BeforeRowCountVerification}

  /** The report of the protocol, check by check. */
  function Expected(t: Table, q: Request): Report {
    var cs := q.candidates;
    var after, affected := SwapAll(t, cs), Affected(t, cs);
    var fault := FirstFault(q.lineage, t, cs);
    if !DistinctTickers(cs) then Report(DuplicateCandidate, 0)
    else if !q.ready then Report(Refused(PhaseAkNotReady), 0)
    else if q.now >= q.earliestDeadline then Report(Refused(ReadinessExpired), 0)
    else if cs == [] then Report(Refused(NoReadyRows), 0)
    else if q.failure.Some? && q.failure.value in EARLY_STAGES then
      Report(RolledBack(InjectedFailure(q.failure.value)), 0)
    else if fault.Some? then Report(RolledBack(fault.value), 0)
    else if q.failure.Some? && q.failure.value in MIDDLE_STAGES then
      Report(RolledBack(InjectedFailure(q.failure.value)), 0)
    else if q.failure.Some? && q.failure.value in MUTATED_STAGES then
      Report(RolledBack(InjectedFailure(q.failure.value)), affected)
    else if affected != |cs| then Report(RolledBack(RowCountMismatch), affected)
    else if q.failure == Some(BeforePostconditionVerification) then
      Report(RolledBack(InjectedFailure(BeforePostconditionVerification)), affected)
    else if exists c :: c in cs && !Posted(after, c) then Report(RolledBack(PostconditionMismatch), affected)
    else if Masked(after, Tickers(cs)) != Masked(t, Tickers(cs)) then
      Report(RolledBack(UnrelatedStateChanged), affected)
    else if q.failure == Some(ImmediatelyBeforeCommit) then
      Report(RolledBack(InjectedFailure(ImmediatelyBeforeCommit)), affected)
    else Report(Committed, affected)
  }

  class SimulationDatabase {
    var settlements: Table
    var otherTables: map<string, string>
    var savepoint: Option<Table>

    constructor (settlements: Table, otherTables: map<string, string>)
      ensures this.settlements == settlements && this.otherTables == otherTables && savepoint == None
    {
      this.settlements, this.otherTables, savepoint := settlements, otherTables, None;
    }

    method Begin()
      requires savepoint == None
      modifies this`savepoint
      ensures savepoint == Some(settlements)
    {
      savepoint := Some(settlements);
    }

    method Update(c: Candidate) returns (rowCount: nat)
      modifies this`settlements
      ensures settlements == Swap(old(settlements), c)
      ensures rowCount == if Hits(old(settlements), c) then 1 else 0
    {
      if Hits(settlements, c) {
        settlements := settlements[c.ticker := settlements[c.ticker].(settledAt := c.proposed)];
        rowCount := 1;
      } else {
        rowCount := 0;
      }
    }

    method Commit()
      modifies this`savepoint
      ensures savepoint == None
    {
      savepoint := None;
    }

    method Rollback()
      modifies this`settlements, this`savepoint
      ensures savepoint == None
      ensures settlements == if old(savepoint).Some? then old(savepoint).value else old(settlements)
    {
      if savepoint.Some? {
        settlements := savepoint.value;
      }
      savepoint := None;
    }

    method Revalidate(lineage: (string, Row) -> string, cs: seq<Candidate>) returns (fault: Option<Reason>)
      ensures fault == FirstFault(lineage, settlements, cs)
    {
      var index := 0;
      assert cs[0..] == cs;
      while index < |cs|
        invariant 0 <= index <= |cs|
        invariant FirstFault(lineage, settlements, cs) == FirstFault(lineage, settlements, cs[index..])
      {
        var found := RevalidationFault(lineage, settlements, cs[index]);
        if found.Some? {
          return found;
        }
        index := index + 1;
      }
      fault := None;
    }

    method UpdateAll(cs: seq<Candidate>) returns (affected: nat)
      modifies this`settlements
      ensures settlements == SwapAll(old(settlements), cs)
      ensures affected == Affected(old(settlements), cs)
    {
      affected := 0;
      var index := 0;
      assert cs[0..] == cs;
      while index < |cs|
        invariant 0 <= index <= |cs|
        invariant SwapAll(settlements, cs[index..]) == SwapAll(old(settlements), cs)
        invariant affected + Affected(settlements, cs[index..]) == Affected(old(settlements), cs)
      {
        var rowCount := Update(cs[index]);
        affected := affected + rowCount;
        index := index + 1;
      }
      assert cs[index..] == [];
    }

    method VerifyPostconditions(cs: seq<Candidate>) returns (posted: bool)
      ensures posted <==>
        forall c :: c in cs ==> c.ticker in settlements && settlements[c.ticker].settledAt == c.proposed
    {
      var index := 0;
      while index < |cs|
        invariant 0 <= index <= |cs|
        invariant forall c :: c in cs[..index] ==> Posted(settlements, c)
      {
        if !Posted(settlements, cs[index]) {
          return false;
        }
        index := index + 1;
      }
      assert cs[..index] == cs;
      posted := true;
    }

    method Abort(reason: Reason, affected: nat) returns (report: Report)
      modifies this`settlements, this`savepoint
      ensures savepoint == None
      ensures settlements == if old(savepoint).Some? then old(savepoint).value else old(settlements)
      ensures report == Report(RolledBack(reason), affected)
    {
      Rollback();
      report := Report(RolledBack(reason), affected);
    }

    /** The whole protocol: it commits exactly under `Commits`, and otherwise leaves the database as it was. */
    method Simulate(q: Request) returns (report: Report)
      requires savepoint == None
      modifies this
      ensures savepoint == None && otherTables == old(otherTables)
      ensures report == Expected(old(settlements), q)
      ensures settlements ==
        if report.outcome.Committed? then SwapAll(old(settlements), q.candidates) else old(settlements)
    {
      hide FirstFault, SwapAll, Affected, Masked, Hits;
      var cs := q.candidates;
      if !DistinctTickers(cs) {
        return Report(DuplicateCandidate, 0);
      }
      var preservationBefore := Masked(settlements, Tickers(cs));
      if !q.ready {
        return Report(Refused(PhaseAkNotReady), 0);
      }
      if q.now >= q.earliestDeadline {
        return Report(Refused(ReadinessExpired), 0);
      }
      if cs == [] {
        return Report(Refused(NoReadyRows), 0);
      }
      if q.failure == Some(BeforeTransaction) || q.failure == Some(AfterInitialPrecondition) {
        report := Abort(InjectedFailure(q.failure.value), 0);
        return;
      }
      Begin();
      if q.failure == Some(AfterTransactionStart) {
        report := Abort(InjectedFailure(AfterTransactionStart), 0);
        return;
      }
      var fault := Revalidate(q.lineage, cs);
      if fault.Some? {
        report := Abort(fault.value, 0);
        return;
      }
      if q.failure == Some(AfterInTransactionRevalidation) || q.failure == Some(BeforeSimulatedMutation) {
        report := Abort(InjectedFailure(q.failure.value), 0);
        return;
      }
      var affected := UpdateAll(cs);
      if q.failure == Some(AfterSimulatedMutation) || q.failure == Some(BeforeRowCountVerification) {
        report := Abort(InjectedFailure(q.failure.value), affected);
        return;
      }
      if affected != |cs| {
        report := Abort(RowCountMismatch, affected);
        return;
      }
      if q.failure == Some(BeforePostconditionVerification) {
        report := Abort(InjectedFailure(BeforePostconditionVerification), affected);
        return;
      }
      var posted := VerifyPostconditions(cs);
      if !posted {
        report := Abort(PostconditionMismatch, affected);
        return;
      }
      if Masked(settlements, Tickers(cs)) != preservationBefore {
        report := Abort(UnrelatedStateChanged, affected);
        return;
      }
      if q.failure == Some(ImmediatelyBeforeCommit) {
        report := Abort(InjectedFailure(ImmediatelyBeforeCommit), affected);
        return;
      }
      Commit();
      report := Report(Committed, affected);
    }
  }

  // ---- What the swaps do together ----

  function Find(cs: seq<Candidate>, ticker: string): Option<Candidate> {
    if cs == [] then None else if cs[0].ticker == ticker then Some(cs[0]) else Find(cs[1..], ticker)
  }

  lemma {:induction false} FindIsMember(cs: seq<Candidate>, ticker: string)
    ensures Find(cs, ticker).Some? ==> Find(cs, ticker).value in cs && Find(cs, ticker).value.ticker == ticker
    ensures Find(cs, ticker).None? <==> ticker !in Tickers(cs)
  {
    if cs != [] {
      FindIsMember(cs[1..], ticker);
      assert forall c :: c in cs <==> c == cs[0] || c in cs[1..];
    }
  }

  /** With distinct tickers, each row is swapped by its own candidate alone. */
  lemma {:induction false} SwapAllByRow(t: Table, cs: seq<Candidate>, ticker: string)
    requires DistinctTickers(cs)
    ensures ticker in SwapAll(t, cs) <==> ticker in t
    ensures ticker in t ==>
      SwapAll(t, cs)[ticker] ==
      if Find(cs, ticker).Some? && Hits(t, Find(cs, ticker).value)
      then t[ticker].(settledAt := Find(cs, ticker).value.proposed) else t[ticker]
    decreases |cs|
  {
    if cs != [] {
      var next := Swap(t, cs[0]);
      SwapAllByRow(next, cs[1..], ticker);
      FindIsMember(cs[1..], ticker);
    }
  }

  lemma {:induction false} AffectedCountsHits(t: Table, cs: seq<Candidate>)
    requires DistinctTickers(cs)
    ensures Affected(t, cs) <= |cs|
    ensures Affected(t, cs) == |cs| <==> forall c :: c in cs ==> Hits(t, c)
    decreases |cs|
  {
    if cs != [] {
      var next := Swap(t, cs[0]);
      AffectedCountsHits(next, cs[1..]);
      assert forall c :: c in cs[1..] ==> (Hits(next, c) <==> Hits(t, c));
      assert forall c :: c in cs <==> c == cs[0] || c in cs[1..];
    }
  }

  /** The table in which every candidate's timestamp, and nothing else, has its proposed value. */
  function Settled(t: Table, cs: seq<Candidate>): Table {
    map k | k in t :: if Find(cs, k).Some? then t[k].(settledAt := Find(cs, k).value.proposed) else t[k]
  }

  /** When every candidate hits, the swaps settle exactly the candidates, and every later check passes. */
  lemma FullSwap(t: Table, cs: seq<Candidate>)
    requires DistinctTickers(cs) && forall c :: c in cs ==> Hits(t, c)
    ensures SwapAll(t, cs) == Settled(t, cs)
    ensures forall c :: c in cs ==> Posted(SwapAll(t, cs), c)
    ensures Masked(SwapAll(t, cs), Tickers(cs)) == Masked(t, Tickers(cs))
  {
    forall k
      ensures k in SwapAll(t, cs) <==> k in t
      ensures k in t ==> SwapAll(t, cs)[k] == Settled(t, cs)[k]
      ensures k in t && k !in Tickers(cs) ==> SwapAll(t, cs)[k] == t[k]
      ensures k in t ==> SwapAll(t, cs)[k].(settledAt := None) == t[k].(settledAt := None)
    {
      SwapAllByRow(t, cs, k);
      FindIsMember(cs, k);
    }
    forall c | c in cs
      ensures Posted(SwapAll(t, cs), c)
    {
      SwapAllByRow(t, cs, c.ticker);
      FindIsMember(cs, c.ticker);
    }
  }

  // ---- The protocol's promises ----

  /** The settlement is there without a timestamp, with the result and the lineage the candidate was made from. */
  ghost predicate Passes(lineage: (string, Row) -> string, t: Table, c: Candidate) {
    && c.ticker in t
    && (t[c.ticker].settledAt == None || t[c.ticker].settledAt == Some(""))
    && t[c.ticker].result == c.result && lineage(c.ticker, t[c.ticker]) == c.lineageHash
  }

  /** Why a candidate does not pass: of several reasons, the first in this order. */
  ghost predicate FailsFor(lineage: (string, Row) -> string, t: Table, c: Candidate, reason: Reason) {
    if c.ticker !in t then reason == SettlementMissing
    else if t[c.ticker].settledAt.Some? && t[c.ticker].settledAt.value != "" then reason == TimestampPresent
    else if t[c.ticker].result != c.result then reason == ResultChanged
    else lineage(c.ticker, t[c.ticker]) != c.lineageHash && reason == LineageChanged
  }

  /** The settlement has a NULL timestamp, and the candidate's update time and its result, which is not NULL. */
  ghost predicate Swappable(t: Table, c: Candidate) {
    && c.ticker in t && t[c.ticker].settledAt == None
    && t[c.ticker].result.Some? && t[c.ticker].result == c.result && t[c.ticker].updatedAt == c.updatedAt
  }

  lemma RevalidationExactly(lineage: (string, Row) -> string, t: Table, c: Candidate)
    ensures RevalidationFault(lineage, t, c).None? <==> Passes(lineage, t, c)
    ensures RevalidationFault(lineage, t, c).Some? ==>
      FailsFor(lineage, t, c, RevalidationFault(lineage, t, c).value)
    ensures Hits(t, c) <==> Swappable(t, c)
  {
  }

  /** The fault found is that of the first candidate that does not pass. */
  lemma {:induction false} FirstFaultPlace(lineage: (string, Row) -> string, t: Table, cs: seq<Candidate>)
    returns (k: nat)
    ensures k <= |cs| && forall j :: 0 <= j < k ==> Passes(lineage, t, cs[j])
    ensures k == |cs| <==> FirstFault(lineage, t, cs).None?
    ensures k < |cs| ==>
      FirstFault(lineage, t, cs).Some? && FailsFor(lineage, t, cs[k], FirstFault(lineage, t, cs).value)
      && !Passes(lineage, t, cs[k])
  {
    hide Passes, FailsFor, RevalidationFault;
    if cs == [] {
      k := 0;
    } else {
      RevalidationExactly(lineage, t, cs[0]);
      if RevalidationFault(lineage, t, cs[0]).Some? {
        k := 0;
      } else {
        k := FirstFaultPlace(lineage, t, cs[1..]);
        k := k + 1;
      }
    }
  }

  /** The candidates that can be swapped. */
  ghost function Swappables(t: Table, cs: seq<Candidate>): set<Candidate> { set c | c in cs && Swappable(t, c) }

  lemma NothingSwappable(t: Table, cs: seq<Candidate>)
    requires cs == []
    ensures Swappables(t, cs) == {}
  {
  }

  lemma HitsExactly(t: Table, c: Candidate)
    ensures Hits(t, c) <==> Swappable(t, c)
  {
  }

  lemma SwapSparesOthers(t: Table, c: Candidate, d: Candidate)
    requires c.ticker != d.ticker
    ensures Swappable(Swap(t, c), d) <==> Swappable(t, d)
  {
  }

  lemma SwappablesSplit(t: Table, cs: seq<Candidate>)
    requires cs != [] && DistinctTickers(cs)
    ensures |Swappables(t, cs)| == |Swappables(Swap(t, cs[0]), cs[1..])| + if Swappable(t, cs[0]) then 1 else 0
  {
    hide Swappable, Swap;
    var c, next, rest := cs[0], Swap(t, cs[0]), cs[1..];
    assert cs == [c] + rest;
    forall d | d in rest ensures d != c && (Swappable(next, d) <==> Swappable(t, d)) {
      var i :| 0 <= i < |rest| && rest[i] == d;
      assert cs[i + 1] == d;
      SwapSparesOthers(t, c, d);
    }
    assert Swappables(t, cs) == Swappables(next, rest) + if Swappable(t, c) then {c} else {};
  }

  /** With distinct tickers the count of changed rows is the number of candidates that could be swapped at the start. */
  lemma {:induction false} AffectedIsNumber(t: Table, cs: seq<Candidate>)
    requires DistinctTickers(cs)
    ensures Affected(t, cs) == |Swappables(t, cs)|
    decreases |cs|
  {
    hide Swappable, Swappables;
    if cs == [] {
      NothingSwappable(t, cs);
    } else {
      AffectedIsNumber(Swap(t, cs[0]), cs[1..]);
      SwappablesSplit(t, cs);
      HitsExactly(t, cs[0]);
    }
  }

  /** Every candidate's settlement has the proposed time, and nothing else in the table has changed. */
  ghost predicate OnlySettles(t: Table, after: Table, cs: seq<Candidate>) {
    && after.Keys == t.Keys
    && (forall c :: c in cs ==> c.ticker in t && after[c.ticker] == t[c.ticker].(settledAt := c.proposed))
    && (forall ticker :: ticker in t && (forall c :: c in cs ==> c.ticker != ticker) ==> after[ticker] == t[ticker])
  }

  lemma {:induction false} FindDistinct(cs: seq<Candidate>, c: Candidate)
    requires DistinctTickers(cs) && c in cs
    ensures Find(cs, c.ticker) == Some(c)
  {
    if cs[0] != c {
      assert c in cs[1..];
      FindDistinct(cs[1..], c);
    }
  }

  lemma SettledIsOnly(t: Table, cs: seq<Candidate>)
    requires DistinctTickers(cs) && forall c :: c in cs ==> c.ticker in t
    ensures OnlySettles(t, Settled(t, cs), cs)
  {
    forall c | c in cs ensures Settled(t, cs)[c.ticker] == t[c.ticker].(settledAt := c.proposed) {
      FindDistinct(cs, c);
    }
    forall ticker | ticker in t && (forall c :: c in cs ==> c.ticker != ticker)
      ensures Settled(t, cs)[ticker] == t[ticker]
    {
      FindIsMember(cs, ticker);
    }
  }

  /** Everything a commit needs. */
  ghost predicate Commits(t: Table, q: Request) {
    && DistinctTickers(q.candidates) && q.candidates != []
    && q.ready && q.now < q.earliestDeadline && q.failure.None?
    && forall c :: c in q.candidates ==> Swappable(t, c) && Passes(q.lineage, t, c)
  }

  lemma EveryStageStrikes(stage: Stage)
    ensures stage in EARLY_STAGES + MIDDLE_STAGES + MUTATED_STAGES
      || stage == BeforePostconditionVerification || stage == ImmediatelyBeforeCommit
  {
  }

  /**
   How a run ends, from the table and the request alone: the first candidate that does not pass names the reason of its
   rollback, and the checks after the row count play no part.
   */
  lemma EndsExactly(t: Table, q: Request) returns (k: nat, reason: Reason)
    ensures k <= |q.candidates| && forall j :: 0 <= j < k ==> Passes(q.lineage, t, q.candidates[j])
    ensures k < |q.candidates| ==> FailsFor(q.lineage, t, q.candidates[k], reason)
    ensures Expected(t, q).outcome ==
      if exists i, j :: 0 <= i < j < |q.candidates| && q.candidates[i].ticker == q.candidates[j].ticker then
        DuplicateCandidate
      else if !q.ready then Refused(PhaseAkNotReady)
      else if q.now >= q.earliestDeadline then Refused(ReadinessExpired)
      else if q.candidates == [] then Refused(NoReadyRows)
      else if q.failure in {Some(BeforeTransaction), Some(AfterInitialPrecondition), Some(AfterTransactionStart)} then
        RolledBack(InjectedFailure(q.failure.value))
      else if k < |q.candidates| then RolledBack(reason)
      else if q.failure in {Some(AfterInTransactionRevalidation), Some(BeforeSimulatedMutation),
                            Some(AfterSimulatedMutation), Some(BeforeRowCountVerification)} then
        RolledBack(InjectedFailure(q.failure.value))
      else if exists c :: c in q.candidates && !Swappable(t, c) then RolledBack(RowCountMismatch)
      else if q.failure.Some? then RolledBack(InjectedFailure(q.failure.value))
      else Committed
  {
    hide SwapAll, Affected, FirstFault, Masked, Posted, RevalidationFault, Passes, FailsFor, Swappable, Hits;
    var cs := q.candidates;
    k := FirstFaultPlace(q.lineage, t, cs);
    reason := if k < |cs| then FirstFault(q.lineage, t, cs).value else NoReadyRows;
    if q.failure.Some? {
      EveryStageStrikes(q.failure.value);
    }
    if DistinctTickers(cs) {
      AffectedCountsHits(t, cs);
      forall c | c in cs ensures Hits(t, c) <==> Swappable(t, c) {
        RevalidationExactly(q.lineage, t, c);
      }
      if forall c :: c in cs ==> Hits(t, c) {
        FullSwap(t, cs);
      }
    }
  }

  lemma {:induction false} FaultIsARevalidationFault(lineage: (string, Row) -> string, t: Table, cs: seq<Candidate>)
    ensures FirstFault(lineage, t, cs).Some? ==>
      FirstFault(lineage, t, cs).value in {SettlementMissing, TimestampPresent, ResultChanged, LineageChanged}
  {
    if cs != [] {
      FaultIsARevalidationFault(lineage, t, cs[1..]);
    }
  }

  lemma FailsOrPasses(lineage: (string, Row) -> string, t: Table, c: Candidate, reason: Reason)
    requires FailsFor(lineage, t, c, reason)
    ensures !Passes(lineage, t, c)
  {
  }

  lemma CommittedExactly(t: Table, q: Request)
    ensures Expected(t, q).outcome == Committed <==> Commits(t, q)
  {
    hide Expected, Passes, FailsFor, Swappable;
    var cs := q.candidates;
    var k, reason := EndsExactly(t, q);
    if k < |cs| {
      FailsOrPasses(q.lineage, t, cs[k], reason);
      assert cs[k] in cs;
    } else {
      forall c | c in cs ensures Passes(q.lineage, t, c) {
        var j :| 0 <= j < |cs| && cs[j] == c;
      }
    }
  }

  /**
   The protocol commits if and only if nothing stands in the way, and then settles exactly the candidates; a run that
   reached the row count reports as affected the number of candidates that could be swapped, any other none.
   */
  lemma CommitsExactly(t: Table, q: Request)
    ensures Expected(t, q).outcome == Committed <==> Commits(t, q)
    ensures Commits(t, q) ==>
      && SwapAll(t, q.candidates) == Settled(t, q.candidates)
      && OnlySettles(t, SwapAll(t, q.candidates), q.candidates)
      && forall c :: c in q.candidates ==> t[c.ticker].settledAt == None
    ensures Expected(t, q).affected == 0 || Expected(t, q).affected == |Swappables(t, q.candidates)|
    ensures Expected(t, q).outcome in {Committed, RolledBack(RowCountMismatch)} ==>
      Expected(t, q).affected == |Swappables(t, q.candidates)|
    ensures Expected(t, q).outcome.Committed? ==> Expected(t, q).affected == |q.candidates|
  {
    hide SwapAll, Affected, FirstFault, Masked, Settled, Posted, RevalidationFault, Swappables, OnlySettles;
    var cs := q.candidates;
    CommittedExactly(t, q);
    if DistinctTickers(cs) {
      AffectedIsNumber(t, cs);
      AffectedCountsHits(t, cs);
      if forall c :: c in cs ==> Hits(t, c) {
        FullSwap(t, cs);
        SettledIsOnly(t, cs);
      }
    }
    FaultIsARevalidationFault(q.lineage, t, cs);
  }

  /** The two checks after the row count never fail: no run ends in their rollbacks. */
  lemma LateChecksNeverFail(t: Table, q: Request)
    ensures Expected(t, q).outcome != RolledBack(PostconditionMismatch)
    ensures Expected(t, q).outcome != RolledBack(UnrelatedStateChanged)
  {
    hide SwapAll, Affected, Masked, Posted, Hits;
    var cs := q.candidates;
    FaultIsARevalidationFault(q.lineage, t, cs);
    if DistinctTickers(cs) && Affected(t, cs) == |cs| {
      AffectedCountsHits(t, cs);
      FullSwap(t, cs);
    }
  }

  /**
   A candidate over an empty-string timestamp, over a NULL result, or over a changed update time that the lineage
   hash does not betray, passes revalidation and is only caught by the row count.
   */
  lemma RevalidatedMissesRollBack(t: Table, q: Request)
    requires DistinctTickers(q.candidates) && q.candidates != []
    requires q.ready && q.now < q.earliestDeadline && q.failure.None?
    requires forall c :: c in q.candidates ==> Passes(q.lineage, t, c)
    ensures Expected(t, q).outcome == RolledBack(RowCountMismatch) <==>
      exists c :: c in q.candidates && c.ticker in t
        && (t[c.ticker].settledAt == Some("") || c.result.None? || t[c.ticker].updatedAt != c.updatedAt)
    ensures Expected(t, q).outcome == Committed || Expected(t, q).outcome == RolledBack(RowCountMismatch)
  {
    hide Expected, FailsFor;
    var k, reason := EndsExactly(t, q);
    if k < |q.candidates| {
      assert q.candidates[k] in q.candidates;
      FailsOrPasses(q.lineage, t, q.candidates[k], reason);
    }
    forall c | c in q.candidates
      ensures Swappable(t, c) <==>
        t[c.ticker].settledAt != Some("") && c.result.Some? && t[c.ticker].updatedAt == c.updatedAt
    {
    }
  }
}
