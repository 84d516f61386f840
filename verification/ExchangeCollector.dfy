/**
 The collector of exchange settlement timestamps (scripts/local/phase4ag_exchange_timestamp_collector.py): what it
 takes for exchange responses to count as evidence.
 */
module ExchangeCollector {
  import opened Support
  import opened Lists
  import opened Text
  import opened TimestampAudit

  /** A market object: its ticker, its first non-empty result field, and its non-empty timestamp fields in order. */
  datatype Market = Market(ticker: string, result: Option<string>, stamps: seq<(string, string)>)

  datatype Response = Response(hash: Digest, market: Option<Market>)

  datatype Parsed = Time(normalized: string) | TimezoneMissing | Malformed

  datatype SourceKind = Archive | Api

  datatype Finding = Finding(field: string, normalized: string, responseHash: Digest)

  datatype Disposition =
    | PayloadInvalid | MarketIdentityMismatch | ResultConflict | ExchangeTimezoneAmbiguous
    | ExchangeTimestampMissing | ExchangeTimestampConflict
    | CollectionLineageFailure | SourceArchiveMissing | RequestNotAuthorized | HttpSourceUnavailable
    | ArchivedEvidenceFound | DirectEvidenceFound

  datatype Inspection = Inspection(disposition: Disposition, chosen: Option<Finding>)

  function Failed(d: Disposition): Inspection { Inspection(d, None) }

  type Parser = string -> Parsed

  /** The first timestamp that does not parse decides. */
  function StampFault(parse: Parser, stamps: seq<(string, string)>): Option<Disposition> {
    if stamps == [] then None
    else
      var front := StampFault(parse, stamps[..|stamps| - 1]);
      if front.Some? then front
      else match parse(stamps[|stamps| - 1].1)
        case Time(_) => None
        case TimezoneMissing => Some(ExchangeTimezoneAmbiguous)
        case Malformed => Some(PayloadInvalid)
  }

  function ResponseFault(parse: Parser, ticker: string, expected: Option<string>, r: Response): Option<Disposition> {
    if r.market.None? then Some(PayloadInvalid)
    else if r.market.value.ticker != ticker then Some(MarketIdentityMismatch)
    else if BinaryOutcome(r.market.value.result) != BinaryOutcome(expected) then Some(ResultConflict)
    else StampFault(parse, r.market.value.stamps)
  }

  function FirstFault(parse: Parser, ticker: string, expected: Option<string>, rs: seq<Response>): Option<Disposition> {
    if rs == [] then None
    else
      var front := FirstFault(parse, ticker, expected, rs[..|rs| - 1]);
      if front.Some? then front else ResponseFault(parse, ticker, expected, rs[|rs| - 1])
  }

  function NormalizedOf(p: Parsed): string { if p.Time? then p.normalized else "" }

  function StampFindings(parse: Parser, hash: Digest, stamps: seq<(string, string)>): seq<Finding> {
    if stamps == [] then []
    else
      var last := stamps[|stamps| - 1];
      StampFindings(parse, hash, stamps[..|stamps| - 1])
      + [Finding("market." + last.0, NormalizedOf(parse(last.1)), hash)]
  }

  function Findings(parse: Parser, rs: seq<Response>): seq<Finding> {
    if rs == [] then []
    else
      var last := rs[|rs| - 1];
      Findings(parse, rs[..|rs| - 1])
      + (if last.market.None? then [] else StampFindings(parse, last.hash, last.market.value.stamps))
  }

  predicate AtMost(a: Finding, b: Finding) { TextsAtMost([a.field, a.responseHash], [b.field, b.responseHash]) }

  function TimesOf(fs: seq<Finding>): set<string> { set f | f in fs :: f.normalized }

  /** The verdict on responses of which none is faulty. */
  function Judged(kind: SourceKind, fs: seq<Finding>): Inspection {
    if fs == [] then Failed(ExchangeTimestampMissing)
    else if |TimesOf(fs)| != 1 then Failed(ExchangeTimestampConflict)
    else Inspection(if kind == Archive then ArchivedEvidenceFound else DirectEvidenceFound, Some(Sort(fs, AtMost)[0]))
  }

  function Inspected(
    parse: Parser, ticker: string, expected: Option<string>, rs: seq<Response>, kind: SourceKind): Inspection
  {
    var fault := FirstFault(parse, ticker, expected, rs);
    if fault.Some? then Failed(fault.value) else Judged(kind, Findings(parse, rs))
  }

  lemma {:induction false} StampFaultLasts(parse: Parser, stamps: seq<(string, string)>, n: nat)
    requires n <= |stamps| && StampFault(parse, stamps[..n]).Some?
    ensures StampFault(parse, stamps) == StampFault(parse, stamps[..n])
  {
    if n < |stamps| {
      assert stamps[..|stamps| - 1][..n] == stamps[..n];
      StampFaultLasts(parse, stamps[..|stamps| - 1], n);
    } else {
      assert stamps[..n] == stamps;
    }
  }

  /** Reads the timestamp fields of one market, stopping at the first that does not parse. */
  method ReadStamps(parse: Parser, hash: Digest, stamps: seq<(string, string)>)
    returns (fault: Option<Disposition>, findings: seq<Finding>)
    ensures fault == StampFault(parse, stamps)
    ensures fault.None? ==> findings == StampFindings(parse, hash, stamps)
  {
    findings := [];
    var j := 0;
    while j < |stamps|
      invariant 0 <= j <= |stamps|
      invariant StampFault(parse, stamps[..j]).None?
      invariant findings == StampFindings(parse, hash, stamps[..j])
    {
      assert stamps[..j + 1][..j] == stamps[..j];
      var parsed := parse(stamps[j].1);
      if !parsed.Time? {
        StampFaultLasts(parse, stamps, j + 1);
        return Some(if parsed.TimezoneMissing? then ExchangeTimezoneAmbiguous else PayloadInvalid), [];
      }
      findings := findings + [Finding("market." + stamps[j].0, parsed.normalized, hash)];
      j := j + 1;
    }
    assert stamps[..j] == stamps;
    fault := None;
  }

  lemma {:induction false} FaultLasts(
    parse: Parser, ticker: string, expected: Option<string>, rs: seq<Response>, n: nat)
    requires n <= |rs| && FirstFault(parse, ticker, expected, rs[..n]).Some?
    ensures FirstFault(parse, ticker, expected, rs) == FirstFault(parse, ticker, expected, rs[..n])
  {
    hide ResponseFault;
    if n < |rs| {
      assert rs[..|rs| - 1][..n] == rs[..n];
      FaultLasts(parse, ticker, expected, rs[..|rs| - 1], n);
    } else {
      assert rs[..n] == rs;
    }
  }

  method InspectExchangePayload(
    parse: Parser, ticker: string, expected: Option<string>, rs: seq<Response>, kind: SourceKind)
    returns (r: Inspection)
    ensures r == Inspected(parse, ticker, expected, rs, kind)
  {
    hide BinaryOutcome, StampFault, StampFindings, Judged;
    var findings: seq<Finding> := [];
    var i := 0;
    while i < |rs|
      invariant 0 <= i <= |rs|
      invariant FirstFault(parse, ticker, expected, rs[..i]).None?
      invariant findings == Findings(parse, rs[..i])
    {
      assert rs[..i + 1][..i] == rs[..i];
      var market := rs[i].market;
      var fault: Option<Disposition>;
      var found: seq<Finding> := [];
      if market.None? {
        fault := Some(PayloadInvalid);
      } else if market.value.ticker != ticker {
        fault := Some(MarketIdentityMismatch);
      } else if BinaryOutcome(market.value.result) != BinaryOutcome(expected) {
        fault := Some(ResultConflict);
      } else {
        fault, found := ReadStamps(parse, rs[i].hash, market.value.stamps);
      }
      if fault.Some? {
        FaultLasts(parse, ticker, expected, rs, i + 1);
        return Failed(fault.value);
      }
      findings := findings + found;
      i := i + 1;
    }
    assert rs[..i] == rs;
    r := Judged(kind, findings);
  }

  /** A response that speaks of exactly this market, with the same outcome, and timestamps that all parse. */
  ghost predicate Sound(parse: Parser, ticker: string, expected: Option<string>, r: Response) {
    && r.market.Some?
    && r.market.value.ticker == ticker
    && BinaryOutcome(r.market.value.result) == BinaryOutcome(expected)
    && forall stamp :: stamp in r.market.value.stamps ==> parse(stamp.1).Time?
  }

  /** Every timestamp in every response is this one time. */
  ghost predicate AllSay(parse: Parser, rs: seq<Response>, time: string) {
    forall r, stamp :: r in rs && r.market.Some? && stamp in r.market.value.stamps ==> parse(stamp.1) == Time(time)
  }

  predicate Found(d: Disposition) { d == ArchivedEvidenceFound || d == DirectEvidenceFound }

  lemma {:induction false} StampFaultExact(parse: Parser, stamps: seq<(string, string)>)
    ensures StampFault(parse, stamps).None? <==> forall stamp :: stamp in stamps ==> parse(stamp.1).Time?
    ensures StampFault(parse, stamps).Some? ==> !Found(StampFault(parse, stamps).value)
  {
    if stamps != [] {
      StampFaultExact(parse, stamps[..|stamps| - 1]);
      assert stamps == stamps[..|stamps| - 1] + [stamps[|stamps| - 1]];
    }
  }

  lemma {:induction false} FirstFaultExact(parse: Parser, ticker: string, expected: Option<string>, rs: seq<Response>)
    ensures FirstFault(parse, ticker, expected, rs).None? <==> forall r :: r in rs ==> Sound(parse, ticker, expected, r)
    ensures FirstFault(parse, ticker, expected, rs).Some? ==> !Found(FirstFault(parse, ticker, expected, rs).value)
  {
    hide BinaryOutcome, StampFault;
    if rs != [] {
      var last := rs[|rs| - 1];
      FirstFaultExact(parse, ticker, expected, rs[..|rs| - 1]);
      assert rs == rs[..|rs| - 1] + [last];
      if last.market.Some? {
        StampFaultExact(parse, last.market.value.stamps);
      }
      assert ResponseFault(parse, ticker, expected, last).None? <==> Sound(parse, ticker, expected, last);
      assert last in rs && forall r :: r in rs[..|rs| - 1] ==> r in rs;
    }
  }

  lemma {:induction false} StampFindingsExact(parse: Parser, hash: Digest, stamps: seq<(string, string)>)
    ensures |StampFindings(parse, hash, stamps)| == |stamps|
    ensures forall i :: 0 <= i < |stamps| ==>
      StampFindings(parse, hash, stamps)[i].normalized == NormalizedOf(parse(stamps[i].1))
  {
    if stamps != [] {
      StampFindingsExact(parse, hash, stamps[..|stamps| - 1]);
    }
  }

  /** The times found are the times of the stamps. */
  lemma {:induction false} FindingsExact(parse: Parser, rs: seq<Response>, time: string)
    ensures time in TimesOf(Findings(parse, rs)) <==>
      exists r, stamp ::
        r in rs && r.market.Some? && stamp in r.market.value.stamps && NormalizedOf(parse(stamp.1)) == time
  {
    hide NormalizedOf, StampFindings;
    if rs != [] {
      var front, last := rs[..|rs| - 1], rs[|rs| - 1];
      FindingsExact(parse, front, time);
      assert rs == front + [last];
      if last.market.Some? {
        var stamps := last.market.value.stamps;
        StampFindingsExact(parse, last.hash, stamps);
        var fs := StampFindings(parse, last.hash, stamps);
        assert TimesOf(Findings(parse, rs)) == TimesOf(Findings(parse, front)) + TimesOf(fs);
        assert time in TimesOf(fs) <==> exists stamp :: stamp in stamps && NormalizedOf(parse(stamp.1)) == time by {
          if time in TimesOf(fs) {
            var i :| 0 <= i < |fs| && fs[i].normalized == time;
            assert stamps[i] in stamps;
          }
          if stamp :| stamp in stamps && NormalizedOf(parse(stamp.1)) == time {
            var i :| 0 <= i < |stamps| && stamps[i] == stamp;
            assert fs[i] in fs;
          }
        }
      }
    }
  }

  /** Findings are accepted exactly when there are some and they share one time, which is then the chosen one. */
  lemma JudgedExactly(kind: SourceKind, fs: seq<Finding>)
    ensures
      var r := Judged(kind, fs);
      && (Found(r.disposition) <==> fs != [] && exists time: string :: TimesOf(fs) <= {time})
      && (Found(r.disposition) ==> r.chosen.Some? && TimesOf(fs) <= {r.chosen.value.normalized})
      && (!Found(r.disposition) ==> r.chosen.None?)
  {
    hide Sort, AtMost;
    if fs != [] {
      AtMostOne(TimesOf(fs));
      assert fs[0].normalized in TimesOf(fs);
      SortKeeps(fs, AtMost);
      var chosen := Sort(fs, AtMost)[0];
      assert chosen in multiset(Sort(fs, AtMost));
      assert chosen in fs && chosen.normalized in TimesOf(fs);
      if time: string :| TimesOf(fs) <= {time} {
        assert TimesOf(fs) == {time};
      }
      if |TimesOf(fs)| == 1 {
        assert TimesOf(fs) == {chosen.normalized};
      }
    }
  }

  /** The finding chosen is the one of the first field, and of several for it of the first response hash. */
  lemma ChosenIsFirst(kind: SourceKind, fs: seq<Finding>)
    requires Found(Judged(kind, fs).disposition)
    ensures
      var chosen := Judged(kind, fs).chosen;
      && (Judged(kind, fs).disposition == ArchivedEvidenceFound <==> kind == Archive)
      && chosen.Some? && chosen.value in fs
      && forall f :: f in fs ==>
           f == chosen.value || KeysInOrder([chosen.value.field, chosen.value.responseHash], [f.field, f.responseHash])
  {
    hide TextsAtMost, KeysInOrder, Sort, TimesOf;
    var sorted := Sort(fs, AtMost);
    SortByKeys(fs, (f: Finding) => [f.field, f.responseHash], AtMost);
    assert sorted[0] in multiset(sorted);
    forall f | f in fs
      ensures f == sorted[0] || KeysInOrder([sorted[0].field, sorted[0].responseHash], [f.field, f.responseHash])
    {
      assert f in multiset(sorted);
      var k :| 0 <= k < |sorted| && sorted[k] == f;
    }
  }

  /** Over sound responses: something is found exactly if a stamp exists, and all agree exactly if one time is found. */
  lemma SoundFindings(parse: Parser, ticker: string, expected: Option<string>, rs: seq<Response>)
    requires forall response :: response in rs ==> Sound(parse, ticker, expected, response)
    ensures Findings(parse, rs) != [] <==>
      exists response :: response in rs && response.market.Some? && response.market.value.stamps != []
    ensures forall time: string :: AllSay(parse, rs, time) <==> TimesOf(Findings(parse, rs)) <= {time}
  {
    hide BinaryOutcome, Findings;
    forall time: string
      ensures time in TimesOf(Findings(parse, rs)) <==>
        exists r, stamp :: r in rs && r.market.Some? && stamp in r.market.value.stamps && parse(stamp.1) == Time(time)
    {
      FindingsExact(parse, rs, time);
    }
    if Findings(parse, rs) != [] {
      assert Findings(parse, rs)[0].normalized in TimesOf(Findings(parse, rs));
    }
    if response :| response in rs && response.market.Some? && response.market.value.stamps != [] {
      var stamp := response.market.value.stamps[0];
      assert stamp in response.market.value.stamps;
      assert parse(stamp.1) == Time(parse(stamp.1).normalized);
      assert parse(stamp.1).normalized in TimesOf(Findings(parse, rs));
    }
    forall time: string ensures AllSay(parse, rs, time) <==> TimesOf(Findings(parse, rs)) <= {time} {
      if TimesOf(Findings(parse, rs)) <= {time} {
        forall r, stamp | r in rs && r.market.Some? && stamp in r.market.value.stamps
          ensures parse(stamp.1) == Time(time)
        {
          assert parse(stamp.1) == Time(parse(stamp.1).normalized);
          assert parse(stamp.1).normalized in TimesOf(Findings(parse, rs));
        }
      }
    }
  }

  /**
   Evidence is found exactly when every response is sound, at least one carries a timestamp, and all timestamps in all
   responses are one and the same time; that time is the one reported.
   */
  lemma FoundExactly(parse: Parser, ticker: string, expected: Option<string>, rs: seq<Response>, kind: SourceKind)
    ensures
      var r := Inspected(parse, ticker, expected, rs, kind);
      && (Found(r.disposition) <==>
            && (forall response :: response in rs ==> Sound(parse, ticker, expected, response))
            && (exists response :: response in rs && response.market.Some? && response.market.value.stamps != [])
            && (exists time: string :: AllSay(parse, rs, time)))
      && (Found(r.disposition) ==> r.chosen.Some? && AllSay(parse, rs, r.chosen.value.normalized))
      && (!Found(r.disposition) ==> r.chosen.None?)
  {
    hide BinaryOutcome, FirstFault, Findings, Judged, AllSay, TimesOf, Sound;
    FirstFaultExact(parse, ticker, expected, rs);
    if FirstFault(parse, ticker, expected, rs).None? {
      SoundFindings(parse, ticker, expected, rs);
      JudgedExactly(kind, Findings(parse, rs));
      if time: string :| TimesOf(Findings(parse, rs)) <= {time} {
        assert AllSay(parse, rs, time);
      }
      if time: string :| AllSay(parse, rs, time) {
        assert TimesOf(Findings(parse, rs)) <= {time};
      }
    }
  }

  /** Why a response is not sound: no market, another market, another outcome, or a first timestamp that is no time. */
  ghost predicate FaultyFor(parse: Parser, ticker: string, expected: Option<string>, r: Response, d: Disposition) {
    if r.market.None? then d == PayloadInvalid
    else if r.market.value.ticker != ticker then d == MarketIdentityMismatch
    else if BinaryOutcome(r.market.value.result) != BinaryOutcome(expected) then d == ResultConflict
    else
      exists n ::
        && 0 <= n < |r.market.value.stamps| && !parse(r.market.value.stamps[n].1).Time?
        && (forall j :: 0 <= j < n ==> parse(r.market.value.stamps[j].1).Time?)
        && d == if parse(r.market.value.stamps[n].1).TimezoneMissing? then ExchangeTimezoneAmbiguous else PayloadInvalid
  }

  lemma {:induction false} StampFaultPlace(parse: Parser, stamps: seq<(string, string)>) returns (n: nat)
    ensures n <= |stamps| && forall j :: 0 <= j < n ==> parse(stamps[j].1).Time?
    ensures n == |stamps| <==> StampFault(parse, stamps).None?
    ensures n < |stamps| ==>
      && !parse(stamps[n].1).Time?
      && StampFault(parse, stamps)
         == Some(if parse(stamps[n].1).TimezoneMissing? then ExchangeTimezoneAmbiguous else PayloadInvalid)
  {
    if stamps == [] {
      n := 0;
    } else {
      var front := stamps[..|stamps| - 1];
      n := StampFaultPlace(parse, front);
      if n == |front| && parse(stamps[n].1).Time? {
        n := n + 1;
      }
    }
  }

  lemma ResponseFaultExactly(parse: Parser, ticker: string, expected: Option<string>, r: Response)
    ensures ResponseFault(parse, ticker, expected, r).None? <==> Sound(parse, ticker, expected, r)
    ensures ResponseFault(parse, ticker, expected, r).Some? ==>
      FaultyFor(parse, ticker, expected, r, ResponseFault(parse, ticker, expected, r).value)
  {
    hide BinaryOutcome, StampFault;
    if r.market.Some? {
      var n := StampFaultPlace(parse, r.market.value.stamps);
      if n < |r.market.value.stamps| {
        assert r.market.value.stamps[n] in r.market.value.stamps;
      }
    }
  }

  lemma {:induction false} FirstFaultPlace(parse: Parser, ticker: string, expected: Option<string>, rs: seq<Response>)
    returns (k: nat)
    ensures k <= |rs| && forall j :: 0 <= j < k ==> Sound(parse, ticker, expected, rs[j])
    ensures k == |rs| <==> FirstFault(parse, ticker, expected, rs).None?
    ensures k < |rs| ==>
      && FirstFault(parse, ticker, expected, rs).Some?
      && FaultyFor(parse, ticker, expected, rs[k], FirstFault(parse, ticker, expected, rs).value)
  {
    hide ResponseFault, Sound, FaultyFor;
    if rs == [] {
      k := 0;
    } else {
      var front := rs[..|rs| - 1];
      k := FirstFaultPlace(parse, ticker, expected, front);
      ResponseFaultExactly(parse, ticker, expected, rs[|rs| - 1]);
      if k == |front| && ResponseFault(parse, ticker, expected, rs[k]).None? {
        k := k + 1;
      }
    }
  }

  /** What comes of a settlement's responses: the first that is not sound decides, and otherwise their timestamps. */
  lemma InspectedExactly(parse: Parser, ticker: string, expected: Option<string>, rs: seq<Response>, kind: SourceKind)
    returns (k: nat, fault: Disposition)
    ensures k <= |rs| && forall j :: 0 <= j < k ==> Sound(parse, ticker, expected, rs[j])
    ensures k < |rs| ==> FaultyFor(parse, ticker, expected, rs[k], fault)
    ensures Inspected(parse, ticker, expected, rs, kind).disposition ==
      if k < |rs| then fault
      else if forall r :: r in rs && r.market.Some? ==> r.market.value.stamps == [] then ExchangeTimestampMissing
      else if !exists time: string :: AllSay(parse, rs, time) then ExchangeTimestampConflict
      else if kind == Archive then ArchivedEvidenceFound
      else DirectEvidenceFound
  {
    hide BinaryOutcome, FirstFault, Findings, AllSay, TimesOf, Sound, FaultyFor, Sort, AtMost;
    k := FirstFaultPlace(parse, ticker, expected, rs);
    fault := if k < |rs| then FirstFault(parse, ticker, expected, rs).value else PayloadInvalid;
    if k == |rs| {
      SoundFindings(parse, ticker, expected, rs);
      JudgedExactly(kind, Findings(parse, rs));
      if time: string :| TimesOf(Findings(parse, rs)) <= {time} {
        assert AllSay(parse, rs, time);
      }
      if time: string :| AllSay(parse, rs, time) {
        assert TimesOf(Findings(parse, rs)) <= {time};
      }
    }
  }
}
