/**
 The run of the collector over an audit (scripts/local/phase4ag_exchange_timestamp_collector.py): which settlements it
 asks about, where it looks, and the pair of status and evidence it publishes.
 */
module EvidenceCollection {
  import opened Support
  import opened Lists
  import opened Text
  import opened TimestampAudit
  import opened ExchangeCollector

  /** One ticker of the collection status. */
  datatype StatusRow = StatusRow(
    ticker: string, settlementHash: Option<Digest>, result: Option<string>, kind: Option<SourceKind>,
    inspection: Inspection)

  datatype Evidence = Evidence(ticker: string, timestamp: string, identity: string)

  datatype Collection = Collection(rows: seq<StatusRow>, pairId: Digest, auditHash: Digest)

  datatype EvidenceFile = EvidenceFile(rows: seq<Evidence>, pairId: Digest, collectionHash: Digest)

  /** What one bounded request ends in. */
  datatype Fetch = Fetched(response: Response) | AuthorizationFailed | Unavailable

  /** What the collector reads besides the audit. */
  datatype World = World(
    parse: Parser, table: map<string, Row>, archives: map<string, seq<Response>>, offline: bool, fetch: string -> Fetch)

  // ---- The settlements asked about ----

  /** The audited rows of a ticker that lack a timestamp, of all rows and in their order. */
  function Captures(rows: seq<AuditRow>, ticker: string): (r: seq<AuditRow>)
    ensures forall row :: row in r <==>
      row in rows && row.classification == ResultPresentTimestampMissing && row.ticker == ticker
  {
    if rows == [] then []
    else
      var front, last := rows[..|rows| - 1], rows[|rows| - 1];
      assert rows == front + [last];
      Captures(front, ticker)
      + (if last.classification == ResultPresentTimestampMissing && last.ticker == ticker then [last] else [])
  }

  /** The tickers that lack a timestamp, in order of first appearance. */
  function Missing(rows: seq<AuditRow>): (r: seq<string>)
    ensures NoDuplicates(r)
    ensures forall ticker :: ticker in r <==> Captures(rows, ticker) != []
  {
    if rows == [] then []
    else
      var front, last := Missing(rows[..|rows| - 1]), rows[|rows| - 1];
      if last.classification == ResultPresentTimestampMissing && last.ticker !in front then front + [last.ticker]
      else front
  }

  // ---- One settlement ----

  function Archived(w: World, ticker: string): seq<Response> { if ticker in w.archives then w.archives[ticker] else [] }

  function HashesOf(captures: seq<AuditRow>): set<Option<Digest>> { set row | row in captures :: row.settlementHash }

  function InspectionOf(lineage: Lineage, w: World, captures: seq<AuditRow>, ticker: string): Inspection {
    if ticker !in w.table then Failed(CollectionLineageFailure)
    else if HashesOf(captures) != {Some(lineage(ticker, w.table[ticker]))} then Failed(CollectionLineageFailure)
    else if Archived(w, ticker) != [] then
      Inspected(w.parse, ticker, w.table[ticker].result, Archived(w, ticker), Archive)
    else if w.offline then Failed(SourceArchiveMissing)
    else match w.fetch(ticker)
      case Fetched(response) => Inspected(w.parse, ticker, w.table[ticker].result, [response], Api)
      case AuthorizationFailed => Failed(RequestNotAuthorized)
      case Unavailable => Failed(HttpSourceUnavailable)
  }

  function StatusRowOf(lineage: Lineage, w: World, captures: seq<AuditRow>, ticker: string): StatusRow {
    StatusRow(ticker,
      if ticker in w.table then Some(lineage(ticker, w.table[ticker])) else None,
      if ticker in w.table then w.table[ticker].result else None,
      if Archived(w, ticker) != [] then Some(Archive) else if w.offline then None else Some(Api),
      InspectionOf(lineage, w, captures, ticker))
  }

  function StatusRows(lineage: Lineage, w: World, rows: seq<AuditRow>): seq<StatusRow> {
    Map(Sort(Missing(rows), TextAtMost), ticker => StatusRowOf(lineage, w, Captures(rows, ticker), ticker))
  }

  // ---- The evidence ----

  predicate Successful(row: StatusRow) { Found(row.inspection.disposition) && row.inspection.chosen.Some? }

  function KindName(kind: Option<SourceKind>): string {
    match kind
    case None => "None"
    case Some(Archive) => "archive"
    case Some(Api) => "api"
  }

  function EvidenceOf(row: StatusRow): Evidence
    requires Successful(row)
  {
    var chosen := row.inspection.chosen.value;
    Evidence(row.ticker, chosen.normalized,
      "phase4ag:" + KindName(row.kind) + ":" + chosen.responseHash + ":" + chosen.field)
  }

  function EvidenceRows(rows: seq<StatusRow>): seq<Evidence> {
    if rows == [] then []
    else
      var last := rows[|rows| - 1];
      EvidenceRows(rows[..|rows| - 1]) + (if Successful(last) then [EvidenceOf(last)] else [])
  }

  predicate EvidenceAtMost(a: Evidence, b: Evidence) {
    TextsAtMost([a.ticker, a.timestamp, a.identity], [b.ticker, b.timestamp, b.identity])
  }

  method CollectEvidence(rows: seq<StatusRow>) returns (evidence: seq<Evidence>)
    ensures evidence == Sort(EvidenceRows(rows), EvidenceAtMost)
  {
    hide EvidenceAtMost;
    evidence := [];
    var i := 0;
    while i < |rows|
      invariant 0 <= i <= |rows|
      invariant evidence == EvidenceRows(rows[..i])
    {
      assert rows[..i + 1][..i] == rows[..i];
      if Successful(rows[i]) {
        evidence := evidence + [EvidenceOf(rows[i])];
      }
      i := i + 1;
    }
    assert rows[..i] == rows;
    evidence := Sort(evidence, EvidenceAtMost);
  }

  /** The identities and times of the evidence on a ticker. */
  function ArtifactsOf(rows: seq<Evidence>, ticker: string): (r: seq<(string, string)>)
    ensures forall artifact :: artifact in r <==>
      exists e :: e in rows && e.ticker == ticker && artifact == (e.identity, e.timestamp)
  {
    if rows == [] then []
    else
      assert rows == [rows[0]] + rows[1..];
      (if rows[0].ticker == ticker then [(rows[0].identity, rows[0].timestamp)] else [])
      + ArtifactsOf(rows[1..], ticker)
  }

  // ---- The run ----

  datatype CollectionFault = DuplicateAuditRow

  function KeysOf(rows: seq<AuditRow>): set<RowKey> { set row | row in rows :: KeyOf(row) }

  lemma DistinctPrefix(rows: seq<AuditRow>, n: nat)
    requires n <= |rows|
    ensures DistinctKeys(rows) ==> DistinctKeys(rows[..n])
  {
    hide KeyOf;
  }

  lemma DistinctKeysGrow(front: seq<AuditRow>, last: AuditRow)
    ensures DistinctKeys(front + [last]) <==> DistinctKeys(front) && KeyOf(last) !in KeysOf(front)
  {
    hide KeyOf;
    var rows := front + [last];
    if DistinctKeys(rows) {
      DistinctPrefix(rows, |front|);
      forall row | row in front ensures KeyOf(row) != KeyOf(last) {
        var i :| 0 <= i < |front| && front[i] == row;
        assert rows[i] == row && rows[|front|] == last;
      }
    }
    if DistinctKeys(front) && KeyOf(last) !in KeysOf(front) {
      forall i, j | 0 <= i < j < |rows| ensures KeyOf(rows[i]) != KeyOf(rows[j]) {
        assert rows[i] in front;
      }
    }
  }

  lemma NothingMissing()
    ensures Missing([]) == [] && KeysOf([]) == {} && DistinctKeys([])
  {
  }

  lemma OneMore(front: seq<AuditRow>, last: AuditRow)
    ensures forall ticker ::
      Captures(front + [last], ticker) ==
      Captures(front, ticker)
      + (if last.classification == ResultPresentTimestampMissing && last.ticker == ticker then [last] else [])
    ensures Missing(front + [last]) == Missing(front)
      + (if last.classification == ResultPresentTimestampMissing && last.ticker !in Missing(front)
         then [last.ticker] else [])
    ensures KeysOf(front + [last]) == KeysOf(front) + {KeyOf(last)}
  {
    hide KeyOf;
    assert (front + [last])[..|front|] == front;
  }

  /** Groups the rows that lack a timestamp by ticker, refusing a repeated key. */
  method Eligible(rows: seq<AuditRow>)
    returns (r: Result<map<string, seq<AuditRow>>, CollectionFault>, order: seq<string>)
    ensures r.Ok? <==> DistinctKeys(rows)
    ensures r.Ok? ==>
      && order == Missing(rows)
      && (forall ticker :: ticker in r.value <==> ticker in order)
      && (forall ticker :: ticker in r.value ==> r.value[ticker] == Captures(rows, ticker))
  {
    hide Captures, Missing, KeyOf, DistinctKeys;
    var grouped: map<string, seq<AuditRow>>, seen: set<RowKey> := map[], {};
    order := [];
    NothingMissing();
    var i := 0;
    while i < |rows|
      invariant 0 <= i <= |rows|
      invariant seen == KeysOf(rows[..i]) && DistinctKeys(rows[..i])
      invariant order == Missing(rows[..i])
      invariant forall ticker :: ticker in grouped <==> ticker in order
      invariant forall ticker :: ticker in grouped ==> grouped[ticker] == Captures(rows[..i], ticker)
    {
      var row := rows[i];
      assert rows[..i + 1] == rows[..i] + [row];
      DistinctKeysGrow(rows[..i], row);
      if KeyOf(row) in seen {
        DistinctPrefix(rows, i + 1);
        return Err(DuplicateAuditRow), [];
      }
      seen := seen + {KeyOf(row)};
      OneMore(rows[..i], row);
      if row.classification == ResultPresentTimestampMissing {
        if row.ticker !in grouped {
          order := order + [row.ticker];
        }
        grouped := grouped[row.ticker := (if row.ticker in grouped then grouped[row.ticker] else []) + [row]];
      }
      i := i + 1;
    }
    assert rows[..i] == rows;
    r := Ok(grouped);
  }

  method Collect(lineage: Lineage, w: World, rows: seq<AuditRow>)
    returns (r: Result<(seq<StatusRow>, seq<Evidence>), CollectionFault>)
    ensures r ==
      if DistinctKeys(rows) then
        var status := StatusRows(lineage, w, rows);
        Ok((status, Sort(EvidenceRows(status), EvidenceAtMost)))
      else Err(DuplicateAuditRow)
  {
    hide StatusRowOf, EvidenceAtMost, DistinctKeys, Captures, Missing, TextAtMost, EvidenceRows;
    var grouped, order := Eligible(rows);
    if grouped.Err? {
      return Err(DuplicateAuditRow);
    }
    SortOfDistinct(order, TextAtMost);
    var tickers := Sort(order, TextAtMost);
    var status: seq<StatusRow> := [];
    var i := 0;
    while i < |tickers|
      invariant 0 <= i <= |tickers| && |status| == i
      invariant forall k :: 0 <= k < i ==> status[k] == StatusRowOf(lineage, w, Captures(rows, tickers[k]), tickers[k])
    {
      assert tickers[i] in tickers;
      status := status + [StatusRowOf(lineage, w, grouped.value[tickers[i]], tickers[i])];
      i := i + 1;
    }
    assert status == StatusRows(lineage, w, rows);
    var evidence := CollectEvidence(status);
    r := Ok((status, evidence));
  }

  predicate OneRowPerTicker(rows: seq<StatusRow>) {
    forall i, j :: 0 <= i < j < |rows| ==> rows[i].ticker != rows[j].ticker
  }

  /** The status has exactly one row per ticker that some audited row lacks a timestamp for. */
  lemma StatusRowsExact(lineage: Lineage, w: World, rows: seq<AuditRow>)
    ensures OneRowPerTicker(StatusRows(lineage, w, rows))
    ensures forall s :: s in StatusRows(lineage, w, rows) <==>
      Captures(rows, s.ticker) != [] && s == StatusRowOf(lineage, w, Captures(rows, s.ticker), s.ticker)
  {
    hide InspectionOf, Captures;
    var tickers := Sort(Missing(rows), TextAtMost);
    SortOfDistinct(Missing(rows), TextAtMost);
    var status := StatusRows(lineage, w, rows);
    forall s: StatusRow |
      Captures(rows, s.ticker) != [] && s == StatusRowOf(lineage, w, Captures(rows, s.ticker), s.ticker)
      ensures s in status
    {
      assert s.ticker in tickers;
      var k :| 0 <= k < |tickers| && tickers[k] == s.ticker;
      assert status[k] == s;
    }
    forall s | s in status
      ensures Captures(rows, s.ticker) != [] && s == StatusRowOf(lineage, w, Captures(rows, s.ticker), s.ticker)
    {
      var k :| 0 <= k < |status| && status[k] == s;
      assert tickers[k] in tickers;
    }
  }

  /** Status rows are published by ticker, and evidence by ticker, time and identity. */
  lemma CollectionOrderExactly(lineage: Lineage, w: World, rows: seq<AuditRow>)
    ensures
      var status := StatusRows(lineage, w, rows);
      forall i, j :: 0 <= i < j < |status| ==> Precedes(status[i].ticker, status[j].ticker)
    ensures
      var unsorted := EvidenceRows(StatusRows(lineage, w, rows));
      var evidence := Sort(unsorted, EvidenceAtMost);
      && multiset(evidence) == multiset(unsorted)
      && forall i, j :: 0 <= i < j < |evidence| ==>
           KeysInOrder(
             [evidence[i].ticker, evidence[i].timestamp, evidence[i].identity],
             [evidence[j].ticker, evidence[j].timestamp, evidence[j].identity])
  {
    hide TextsAtMost, KeysInOrder, Sort, InspectionOf, Captures, Missing, EvidenceRows, Precedes, TextAtMost;
    SortByKeys(EvidenceRows(StatusRows(lineage, w, rows)), (e: Evidence) => [e.ticker, e.timestamp, e.identity],
      EvidenceAtMost);
    var tickers := Sort(Missing(rows), TextAtMost);
    SortTexts(Missing(rows));
  }

  /** The responses the collector has for a ticker: the archived ones, or the one fetched. */
  function ResponsesOf(w: World, ticker: string): seq<Response> {
    if Archived(w, ticker) != [] then Archived(w, ticker)
    else if !w.offline && w.fetch(ticker).Fetched? then [w.fetch(ticker).response]
    else []
  }

  /** Archived responses go before the network, which is asked only online. */
  lemma ResponsesExactly(w: World, ticker: string)
    ensures
      var archived := ticker in w.archives && w.archives[ticker] != [];
      && (archived ==> ResponsesOf(w, ticker) == w.archives[ticker])
      && (!archived ==> |ResponsesOf(w, ticker)| <= 1)
      && (forall r :: !archived ==> (r in ResponsesOf(w, ticker) <==> !w.offline && w.fetch(ticker) == Fetched(r)))
  {
  }

  /** Worlds of the same archives that both are offline, or have an archive, give the same responses of a ticker. */
  lemma ArchivesSuffice(w: World, v: World, ticker: string)
    requires w.archives == v.archives
    requires (w.offline && v.offline) || (ticker in w.archives && w.archives[ticker] != [])
    ensures ResponsesOf(w, ticker) == ResponsesOf(v, ticker)
  {
  }

  /** What the collector reports of a ticker: its lineage is checked first, then there must be responses to inspect. */
  lemma InspectionExactly(lineage: Lineage, w: World, captures: seq<AuditRow>, ticker: string)
    ensures
      var s := StatusRowOf(lineage, w, captures, ticker);
      var archived := ticker in w.archives && w.archives[ticker] != [];
      && s.ticker == ticker
      && s.kind == (if archived then Some(Archive) else if w.offline then None else Some(Api))
      && (ticker in w.table ==>
            s.settlementHash == Some(lineage(ticker, w.table[ticker])) && s.result == w.table[ticker].result)
      && (ticker !in w.table ==> s.settlementHash == None && s.result == None)
      && if ticker !in w.table || captures == []
            || (exists row :: row in captures && row.settlementHash != Some(lineage(ticker, w.table[ticker]))) then
           s.inspection.disposition == CollectionLineageFailure
         else if !archived && w.offline then s.inspection.disposition == SourceArchiveMissing
         else if !archived && w.fetch(ticker).AuthorizationFailed? then
           s.inspection.disposition == RequestNotAuthorized
         else if !archived && w.fetch(ticker).Unavailable? then s.inspection.disposition == HttpSourceUnavailable
         else
           s.inspection == Inspected(
             w.parse, ticker, w.table[ticker].result, ResponsesOf(w, ticker), if archived then Archive else Api)
  {
    hide Inspected;
    if ticker in w.table {
      var hash := Some(lineage(ticker, w.table[ticker]));
      if captures != [] {
        assert captures[0] in captures && captures[0].settlementHash in HashesOf(captures);
      }
      if row :| row in captures && row.settlementHash != hash {
        assert row.settlementHash in HashesOf(captures);
      }
    }
  }

  /** The evidence published for a success has its ticker and time, and an identity telling where these were read. */
  lemma EvidenceExactly(s: StatusRow)
    requires Successful(s)
    ensures EvidenceOf(s).ticker == s.ticker && EvidenceOf(s).timestamp == s.inspection.chosen.value.normalized
    ensures
      var chosen := s.inspection.chosen.value;
      EvidenceOf(s).identity ==
        (if s.kind == Some(Archive) then "phase4ag:archive:" else if s.kind == Some(Api) then "phase4ag:api:"
         else "phase4ag:None:")
        + chosen.responseHash + ":" + chosen.field
  {
    var chosen := s.inspection.chosen.value;
    assert forall x: string, y: string :: "phase4ag:" + x + ":" + y == ("phase4ag:" + x + ":") + y;
    assert "phase4ag:" + "archive" + ":" == "phase4ag:archive:";
    assert "phase4ag:" + "api" + ":" == "phase4ag:api:" && "phase4ag:" + "None" + ":" == "phase4ag:None:";
  }

  /** All responses speak of this market and this outcome, some state a time, and every time stated is this one. */
  ghost predicate Attested(w: World, ticker: string, time: string) {
    && ticker in w.table
    && (forall r :: r in ResponsesOf(w, ticker) ==> Sound(w.parse, ticker, w.table[ticker].result, r))
    && (exists r :: r in ResponsesOf(w, ticker) && r.market.Some? && r.market.value.stamps != [])
    && AllSay(w.parse, ResponsesOf(w, ticker), time)
  }

  /**
   A ticker's evidence is found exactly when its settlement still is the one that every capture was audited on and the
   responses all attest one time, which is then the time of the evidence.
   */
  lemma EvidenceFoundExactly(lineage: Lineage, w: World, captures: seq<AuditRow>, ticker: string)
    ensures
      var s := StatusRowOf(lineage, w, captures, ticker);
      && (Successful(s) <==>
            && ticker in w.table && HashesOf(captures) == {Some(lineage(ticker, w.table[ticker]))}
            && exists time: string :: Attested(w, ticker, time))
      && (Successful(s) ==> Attested(w, ticker, EvidenceOf(s).timestamp))
  {
    hide Inspected, Sound, AllSay;
    if ticker in w.table {
      var kind := if Archived(w, ticker) != [] then Archive else Api;
      FoundExactly(w.parse, ticker, w.table[ticker].result, ResponsesOf(w, ticker), kind);
      if time: string :| AllSay(w.parse, ResponsesOf(w, ticker), time) {
        assert Attested(w, ticker, time) <==>
          && (forall r :: r in ResponsesOf(w, ticker) ==> Sound(w.parse, ticker, w.table[ticker].result, r))
          && (exists r :: r in ResponsesOf(w, ticker) && r.market.Some? && r.market.value.stamps != []);
      }
    }
  }
}
