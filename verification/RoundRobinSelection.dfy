/** The round-robin choice of exact tickers across series (scripts/supported_weather_snapshot_forecast.py). */
module RoundRobinSelection {
  import opened Support
  import opened Lists
  import opened Text

  datatype Refusal = LacksActiveExactTickers

  function SeriesOf(ticker: string): string { FirstPart(ticker) }

  /** The series of a ticker is what stands before its first dash, or all of it. */
  lemma SeriesExactly(ticker: string)
    ensures '-' !in SeriesOf(ticker)
    ensures SeriesOf(ticker) == ticker || SeriesOf(ticker) + "-" <= ticker
  {
    FirstPartExactly(ticker);
  }

  function NonEmptyStripped(values: seq<string>): seq<string> {
    if values == [] then []
    else NonEmptyStripped(values[..|values| - 1]) + (var t := Strip(values[|values| - 1]); if t == "" then [] else [t])
  }

  /** The distinct non-empty tickers in order of first appearance. */
  function Tickers(values: seq<string>): seq<string> { Unique(NonEmptyStripped(values)) }

  /** The value is this ticker but for blanks around it. */
  ghost predicate Names(value: string, ticker: string) { ticker != "" && HasCore(value, ticker) }

  lemma NamesExactly(value: string, ticker: string)
    ensures Names(value, ticker) <==> Strip(value) == ticker && ticker != ""
  {
    hide HasCore, Strip;
    StripIsCore(value);
    if Names(value, ticker) {
      OneCore(value, ticker, Strip(value));
    }
  }

  /** One of the first values strips to this text. */
  ghost predicate StrippedBefore(values: seq<string>, n: nat, t: string) {
    exists p :: 0 <= p < n && p < |values| && Strip(values[p]) == t
  }

  lemma {:induction false} NonEmptyStrippedExactly(values: seq<string>)
    ensures forall t :: t in NonEmptyStripped(values) <==> t != "" && StrippedBefore(values, |values|, t)
  {
    hide Strip;
    if values != [] {
      var n := |values| - 1;
      NonEmptyStrippedExactly(values[..n]);
      forall t: string ensures StrippedBefore(values, n, t) <==> StrippedBefore(values[..n], n, t) {
        if p :| 0 <= p < n && Strip(values[p]) == t {
          assert Strip(values[..n][p]) == t;
        }
      }
      forall t: string
        ensures StrippedBefore(values, n + 1, t) <==> StrippedBefore(values, n, t) || Strip(values[n]) == t
      {
        assert Strip(values[n]) == t ==> StrippedBefore(values, n + 1, t);
      }
    }
  }

  lemma TickersGrow(values: seq<string>)
    requires values != []
    ensures
      var front, t := Tickers(values[..|values| - 1]), Strip(values[|values| - 1]);
      Tickers(values) == if t == "" || t in front then front else front + [t]
  {
    hide Strip;
    var n := |values| - 1;
    assert NonEmptyStripped(values[..n]) + [] == NonEmptyStripped(values[..n]);
  }

  lemma TickersAreStripped(values: seq<string>)
    ensures NoDuplicates(Tickers(values))
    ensures forall t :: t in Tickers(values) <==> t != "" && StrippedBefore(values, |values|, t)
  {
    hide Strip, NonEmptyStripped, StrippedBefore;
    NonEmptyStrippedExactly(values);
  }

  lemma StrippedBeforeMore(values: seq<string>, n: nat, m: nat, t: string)
    requires n <= m <= |values| && StrippedBefore(values[..m], n, t)
    ensures StrippedBefore(values, n, t)
  {
    hide Strip;
    var p :| 0 <= p < n && Strip(values[..m][p]) == t;
    assert Strip(values[p]) == t;
  }

  lemma {:induction false} TickersInOrder(values: seq<string>, i: nat, j: nat, q: nat)
    requires i < j < |Tickers(values)| && q < |values| && Strip(values[q]) == Tickers(values)[j]
    ensures StrippedBefore(values, q, Tickers(values)[i])
  {
    hide Strip, Tickers;
    var n := |values| - 1;
    var front := Tickers(values[..n]);
    TickersGrow(values);
    TickersAreStripped(values);
    TickersAreStripped(values[..n]);
    if q < n {
      assert Strip(values[..n][q]) == Tickers(values)[j] && Tickers(values)[j] in Tickers(values);
      assert StrippedBefore(values[..n], n, Tickers(values)[j]);
      TickersInOrder(values[..n], i, j, q);
      StrippedBeforeMore(values, q, n, front[i]);
    } else {
      assert front[i] in front;
      StrippedBeforeMore(values, n, n, front[i]);
    }
  }

  ghost predicate NamedBefore(values: seq<string>, n: nat, ticker: string) {
    exists p :: 0 <= p < n && p < |values| && Names(values[p], ticker)
  }

  /** The tickers are those that some value names, each once, in the order in which they are first named. */
  lemma TickersExactly(values: seq<string>)
    ensures NoDuplicates(Tickers(values))
    ensures forall t :: t in Tickers(values) <==> exists v :: v in values && Names(v, t)
    ensures forall i, j, q ::
      0 <= i < j < |Tickers(values)| && 0 <= q < |values| && Names(values[q], Tickers(values)[j]) ==>
      NamedBefore(values, q, Tickers(values)[i])
  {
    hide Names, Strip, NonEmptyStripped;
    var ts := Tickers(values);
    NonEmptyStrippedExactly(values);
    forall v: string, t: string ensures Names(v, t) <==> Strip(v) == t && t != "" {
      NamesExactly(v, t);
    }
    forall t: string ensures t in ts <==> exists v :: v in values && Names(v, t) {
      if t in ts {
        var p :| 0 <= p < |values| && Strip(values[p]) == t;
        assert Names(values[p], t);
      }
      if v :| v in values && Names(v, t) {
        var p :| 0 <= p < |values| && values[p] == v;
        assert StrippedBefore(values, |values|, t);
      }
    }
    forall i, j, q | 0 <= i < j < |ts| && 0 <= q < |values| && Names(values[q], ts[j])
      ensures NamedBefore(values, q, ts[i])
    {
      TickersInOrder(values, i, j, q);
      var p :| 0 <= p < q && Strip(values[p]) == ts[i];
      assert ts[i] in ts && Names(values[p], ts[i]);
    }
  }

  /** The tickers of one series, in order. */
  function Of(ts: seq<string>, series: string): seq<string> {
    if ts == [] then []
    else Of(ts[..|ts| - 1], series) + (if SeriesOf(ts[|ts| - 1]) == series then [ts[|ts| - 1]] else [])
  }

  function AllSeries(ts: seq<string>): (r: seq<string>)
    ensures |r| == |ts| && forall i :: 0 <= i < |ts| ==> r[i] == SeriesOf(ts[i])
  {
    seq(|ts|, i requires 0 <= i < |ts| => SeriesOf(ts[i]))
  }

  /** The series in ascending order. */
  function SeriesOrder(ts: seq<string>): seq<string> { Sort(Unique(AllSeries(ts)), TextAtMost) }

  lemma SeriesOrderExact(ts: seq<string>)
    ensures NoDuplicates(SeriesOrder(ts))
    ensures forall i, j :: 0 <= i < j < |SeriesOrder(ts)| ==> Precedes(SeriesOrder(ts)[i], SeriesOrder(ts)[j])
    ensures forall t :: t in ts ==> SeriesOf(t) in SeriesOrder(ts)
    ensures forall s :: s in SeriesOrder(ts) ==> exists t :: t in ts && SeriesOf(t) == s
  {
    hide Sort, AllSeries, TextAtMost, Precedes;
    SortOfDistinct(Unique(AllSeries(ts)), TextAtMost);
    SortTexts(Unique(AllSeries(ts)));
    assert |Unique(AllSeries(ts))| == |SeriesOrder(ts)|;
    forall t | t in ts ensures SeriesOf(t) in SeriesOrder(ts) {
      var i :| 0 <= i < |ts| && ts[i] == t;
      assert AllSeries(ts)[i] in AllSeries(ts);
    }
    forall s | s in SeriesOrder(ts) ensures exists t :: t in ts && SeriesOf(t) == s {
      var i :| 0 <= i < |AllSeries(ts)| && AllSeries(ts)[i] == s;
      assert ts[i] in ts;
    }
  }

  // ---- Rounds ----

  /** One round: the next ticker of every series that still has one. */
  function Round(order: seq<string>, ts: seq<string>, r: nat): seq<string> {
    if order == [] then []
    else
      var queue := Of(ts, order[|order| - 1]);
      Round(order[..|order| - 1], ts, r) + (if r < |queue| then [queue[r]] else [])
  }

  function Rounds(order: seq<string>, ts: seq<string>, r: nat): seq<string> {
    if r == 0 then [] else Rounds(order, ts, r - 1) + Round(order, ts, r - 1)
  }

  /** After r whole rounds and the first j series of the next. */
  function Progress(order: seq<string>, ts: seq<string>, r: nat, j: nat): seq<string>
    requires j <= |order|
  {
    Rounds(order, ts, r) + Round(order[..j], ts, r)
  }

  /** Every ticker, round after round. */
  function RoundRobin(ts: seq<string>): seq<string> { Rounds(SeriesOrder(ts), ts, |ts|) }

  function Least(a: nat, b: nat): nat { if a <= b then a else b }

  function AtLeastZero(limit: int): nat { if limit < 0 then 0 else limit }

  // ---- What a prefix of the rounds holds ----

  lemma {:induction false} OfConcat(a: seq<string>, b: seq<string>, series: string)
    ensures Of(a + b, series) == Of(a, series) + Of(b, series)
  {
    if b == [] {
      assert a + b == a && Of(a, series) + [] == Of(a, series);
    } else {
      var n := |b| - 1;
      assert (a + b)[..|a + b| - 1] == a + b[..n];
      OfConcat(a, b[..n], series);
      var last := if SeriesOf(b[n]) == series then [b[n]] else [];
      assert (Of(a, series) + Of(b[..n], series)) + last == Of(a, series) + (Of(b[..n], series) + last);
    }
  }

  lemma {:induction false} OfMembers(ts: seq<string>, series: string)
    ensures forall t :: t in Of(ts, series) <==> t in ts && SeriesOf(t) == series
    ensures Of(ts, series) == [] <==> forall t :: t in ts ==> SeriesOf(t) != series
    ensures |Of(ts, series)| <= |ts|
  {
    if ts != [] {
      OfMembers(ts[..|ts| - 1], series);
      assert ts == ts[..|ts| - 1] + [ts[|ts| - 1]];
    }
  }

  lemma OfNothing(series: string)
    ensures Of([], series) == []
  {
  }

  lemma OfOne(t: string, series: string)
    ensures Of([t], series) == if SeriesOf(t) == series then [t] else []
  {
    assert [t][..0] == [];
  }

  lemma {:induction false} RoundHolds(order: seq<string>, ts: seq<string>, r: nat, series: string)
    requires NoDuplicates(order)
    ensures Of(Round(order, ts, r), series)
         == (if series in order && r < |Of(ts, series)| then [Of(ts, series)[r]] else [])
  {
    hide Of;
    OfNothing(series);
    if order != [] {
      var n := |order| - 1;
      var queue := Of(ts, order[n]);
      assert order == order[..n] + [order[n]];
      RoundHolds(order[..n], ts, r, series);
      OfMembers(ts, order[n]);
      if r < |queue| {
        assert queue[r] in queue;
        OfConcat(Round(order[..n], ts, r), [queue[r]], series);
        OfOne(queue[r], series);
      } else {
        OfConcat(Round(order[..n], ts, r), [], series);
      }
    }
  }

  lemma {:induction false} RoundsHold(order: seq<string>, ts: seq<string>, r: nat, series: string)
    requires NoDuplicates(order)
    ensures Of(Rounds(order, ts, r), series)
         == (if series in order then Of(ts, series)[..Least(r, |Of(ts, series)|)] else [])
  {
    hide Of, Round;
    OfNothing(series);
    if r > 0 {
      RoundsHold(order, ts, r - 1, series);
      RoundHolds(order, ts, r - 1, series);
      OfConcat(Rounds(order, ts, r - 1), Round(order, ts, r - 1), series);
    }
  }

  /** How many tickers of a series are out after r whole rounds and the first j series of the next. */
  function Taken(order: seq<string>, ts: seq<string>, r: nat, j: nat, series: string): nat
    requires j <= |order|
  {
    if series !in order then 0
    else Least(if series in order[..j] then r + 1 else r, |Of(ts, series)|)
  }

  lemma ProgressHolds(order: seq<string>, ts: seq<string>, r: nat, j: nat, series: string)
    requires NoDuplicates(order) && j <= |order|
    ensures Taken(order, ts, r, j, series) <= |Of(ts, series)|
    ensures Of(Progress(order, ts, r, j), series) == Of(ts, series)[..Taken(order, ts, r, j, series)]
  {
    hide Of, Round, Rounds;
    RoundsHold(order, ts, r, series);
    RoundHolds(order[..j], ts, r, series);
    OfConcat(Rounds(order, ts, r), Round(order[..j], ts, r), series);
  }

  /** A list is as long as its series' parts together. */
  lemma {:induction false} LengthBySeries(ts: seq<string>, order: seq<string>)
    requires NoDuplicates(order)
    requires forall t :: t in ts ==> SeriesOf(t) in order
    ensures |ts| == Total(order, series => |Of(ts, series)|)
  {
    var f := series => |Of(ts, series)|;
    if ts == [] {
      TotalOfZeros(order, f);
    } else {
      var n := |ts| - 1;
      LengthBySeries(ts[..n], order);
      TotalPlusOne(order, series => |Of(ts[..n], series)|, f, SeriesOf(ts[n]));
    }
  }

  lemma LastIsNew(xs: seq<string>, x: string)
    requires NoDuplicates(xs + [x])
    ensures x !in xs
  {
    forall i | 0 <= i < |xs| ensures xs[i] != x {
      assert (xs + [x])[i] == xs[i] && (xs + [x])[|xs|] == x;
    }
  }

  lemma OfFront(ts: seq<string>, series: string)
    requires ts != []
    ensures
      var n := |ts| - 1;
      Of(ts, series) == Of(ts[..n], series) + (if SeriesOf(ts[n]) == series then [ts[n]] else [])
  {
    hide SeriesOf;
  }

  lemma FrontIsDuplicateFree(xs: seq<string>, ys: seq<string>)
    requires NoDuplicates(xs + ys)
    ensures NoDuplicates(xs)
  {
    forall i, j | 0 <= i < j < |xs| ensures xs[i] != xs[j] {
      assert (xs + ys)[i] == xs[i] && (xs + ys)[j] == xs[j];
    }
  }

  lemma {:induction false} DuplicateFreeBySeries(ts: seq<string>)
    requires forall series: string :: NoDuplicates(Of(ts, series))
    ensures NoDuplicates(ts)
  {
    hide SeriesOf, Of;
    if ts != [] {
      var n := |ts| - 1;
      forall series: string ensures NoDuplicates(Of(ts[..n], series)) {
        OfFront(ts, series);
        assert NoDuplicates(Of(ts, series));
        FrontIsDuplicateFree(Of(ts[..n], series), if SeriesOf(ts[n]) == series then [ts[n]] else []);
      }
      DuplicateFreeBySeries(ts[..n]);
      var series := SeriesOf(ts[n]);
      OfMembers(ts[..n], series);
      OfFront(ts, series);
      assert NoDuplicates(Of(ts, series));
      LastIsNew(Of(ts[..n], series), ts[n]);
    }
  }

  lemma {:induction false} SeriesPartDuplicateFree(ts: seq<string>, series: string)
    requires NoDuplicates(ts)
    ensures NoDuplicates(Of(ts, series))
  {
    if ts != [] {
      var n := |ts| - 1;
      SeriesPartDuplicateFree(ts[..n], series);
      OfMembers(ts[..n], series);
    }
  }

  /** A selection is fair to the series: prefixes of their queues, one apart at most unless the shorter ran out. */
  ghost predicate Fair(selected: seq<string>, ts: seq<string>) {
    && (forall series: string :: Of(selected, series) <= Of(ts, series))
    && (forall a: string, b: string :: |Of(selected, a)| > |Of(selected, b)| + 1 ==> Of(selected, b) == Of(ts, b))
  }

  lemma ProgressIsFair(ts: seq<string>, r: nat, j: nat)
    requires NoDuplicates(ts) && j <= |SeriesOrder(ts)|
    ensures Fair(Progress(SeriesOrder(ts), ts, r, j), ts)
    ensures NoDuplicates(Progress(SeriesOrder(ts), ts, r, j))
  {
    hide Of, Progress, SeriesOrder;
    var order := SeriesOrder(ts);
    SeriesOrderExact(ts);
    var p := Progress(order, ts, r, j);
    forall series: string
      ensures Of(p, series) == Of(ts, series)[..Taken(order, ts, r, j, series)]
      ensures NoDuplicates(Of(p, series))
      ensures series !in order ==> Of(ts, series) == []
    {
      ProgressHolds(order, ts, r, j, series);
      SeriesPartDuplicateFree(ts, series);
      OfMembers(ts, series);
    }
    DuplicateFreeBySeries(p);
  }

  lemma ProgressSeries(ts: seq<string>, r: nat, j: nat)
    requires j <= |SeriesOrder(ts)|
    ensures forall t :: t in Progress(SeriesOrder(ts), ts, r, j) ==> SeriesOf(t) in SeriesOrder(ts)
  {
    hide Of, Progress, SeriesOrder;
    var order := SeriesOrder(ts);
    SeriesOrderExact(ts);
    var p := Progress(order, ts, r, j);
    forall t | t in p ensures SeriesOf(t) in order {
      ProgressHolds(order, ts, r, j, SeriesOf(t));
      OfMembers(p, SeriesOf(t));
    }
  }

  lemma {:induction false} TotalBelow(keys: seq<string>, f: string -> nat, g: string -> nat, key: string)
    requires forall k :: k in keys ==> f(k) <= g(k)
    requires key in keys && f(key) < g(key)
    ensures Total(keys, f) < Total(keys, g)
  {
    TotalAtMost(keys[1..], f, g);
    if keys[0] != key {
      TotalBelow(keys[1..], f, g, key);
    }
  }

  /** Progress is complete exactly when every series is exhausted. */
  lemma ProgressLength(ts: seq<string>, r: nat, j: nat)
    requires j <= |SeriesOrder(ts)|
    ensures |Progress(SeriesOrder(ts), ts, r, j)| <= |ts|
    ensures |Progress(SeriesOrder(ts), ts, r, j)| == |ts|
       <==> forall series: string :: Taken(SeriesOrder(ts), ts, r, j, series) == |Of(ts, series)|
  {
    hide Of, Progress, SeriesOrder, Total, Taken;
    var order := SeriesOrder(ts);
    SeriesOrderExact(ts);
    var p := Progress(order, ts, r, j);
    ProgressSeries(ts, r, j);
    LengthBySeries(p, order);
    LengthBySeries(ts, order);
    var f, g := series => |Of(p, series)|, series => |Of(ts, series)|;
    forall series: string
      ensures f(series) == Taken(order, ts, r, j, series) <= g(series)
      ensures series !in order ==> g(series) == 0
    {
      ProgressHolds(order, ts, r, j, series);
      OfMembers(ts, series);
    }
    TotalAtMost(order, f, g);
    TotalSame(order, f, series => |Of(p, series)|);
    TotalSame(order, g, series => |Of(ts, series)|);
    if forall series: string :: Taken(order, ts, r, j, series) == |Of(ts, series)| {
      TotalSame(order, f, g);
    } else {
      var short: string :| Taken(order, ts, r, j, short) != |Of(ts, short)|;
      TotalBelow(order, f, g, short);
    }
  }

  lemma {:induction false} RoundsGrow(order: seq<string>, ts: seq<string>, r: nat, more: nat)
    requires r <= more
    ensures Rounds(order, ts, r) <= Rounds(order, ts, more)
  {
    if r < more {
      RoundsGrow(order, ts, r, more - 1);
    }
  }

  lemma {:induction false} RoundGrows(order: seq<string>, ts: seq<string>, r: nat, j: nat)
    requires j <= |order|
    ensures Round(order[..j], ts, r) <= Round(order, ts, r)
  {
    if j < |order| {
      var n := |order| - 1;
      RoundGrows(order[..n], ts, r, j);
      assert order[..n][..j] == order[..j];
    } else {
      assert order[..j] == order;
    }
  }

  lemma {:induction false} RoundsEnd(order: seq<string>, ts: seq<string>, r: nat)
    requires r >= |ts|
    ensures Round(order, ts, r) == []
  {
    if order != [] {
      OfMembers(ts, order[|order| - 1]);
      RoundsEnd(order[..|order| - 1], ts, r);
    }
  }

  lemma {:induction false} RoundsStop(order: seq<string>, ts: seq<string>, r: nat)
    requires r >= |ts|
    ensures Rounds(order, ts, r) == Rounds(order, ts, |ts|)
  {
    hide Round, Of;
    if r > |ts| {
      RoundsEnd(order, ts, r - 1);
      RoundsStop(order, ts, r - 1);
    }
  }

  /** Progress never leaves the round-robin order. */
  lemma ProgressIsPrefix(ts: seq<string>, r: nat, j: nat)
    requires j <= |SeriesOrder(ts)|
    ensures Progress(SeriesOrder(ts), ts, r, j) <= RoundRobin(ts)
  {
    hide Round, SeriesOrder;
    var order := SeriesOrder(ts);
    RoundGrows(order, ts, r, j);
    assert Progress(order, ts, r, j) <= Rounds(order, ts, r + 1);
    if r + 1 <= |ts| {
      RoundsGrow(order, ts, r + 1, |ts|);
    } else {
      RoundsStop(order, ts, r + 1);
    }
  }

  lemma EmptyRound(order: seq<string>, ts: seq<string>, r: nat)
    ensures Round(order[..0], ts, r) == []
  {
  }

  lemma RoundRobinLength(ts: seq<string>)
    requires NoDuplicates(ts)
    ensures |RoundRobin(ts)| == |ts|
  {
    hide SeriesOrder, Rounds, Round;
    var order := SeriesOrder(ts);
    EmptyRound(order, ts, |ts|);
    assert Progress(order, ts, |ts|, 0) == RoundRobin(ts);
    ProgressLength(ts, |ts|, 0);
    SeriesOrderExact(ts);
    forall series: string ensures Taken(order, ts, |ts|, 0, series) == |Of(ts, series)| {
      OfMembers(ts, series);
    }
  }

  // ---- The program's loops ----

  /** Every series of the list, and no other, has its queue. */
  ghost predicate Grouped(queues: map<string, seq<string>>, ts: seq<string>) {
    forall series: string ::
      && (series in queues <==> Of(ts, series) != [])
      && (series in queues ==> queues[series] == Of(ts, series))
  }

  lemma OfGrows(ts: seq<string>, i: nat, series: string)
    requires i < |ts|
    ensures Of(ts[..i + 1], series) == Of(ts[..i], series) + (if SeriesOf(ts[i]) == series then [ts[i]] else [])
  {
    assert ts[..i + 1][..i] == ts[..i];
  }

  method GroupBySeries(ts: seq<string>) returns (queues: map<string, seq<string>>)
    ensures Grouped(queues, ts)
  {
    hide FirstPart, Of;
    queues := map[];
    forall series: string ensures Of(ts[..0], series) == [] {
      OfNothing(series);
    }
    var i := 0;
    while i < |ts|
      invariant 0 <= i <= |ts|
      invariant Grouped(queues, ts[..i])
    {
      var series := SeriesOf(ts[i]);
      forall other: string
        ensures Of(ts[..i + 1], other) == Of(ts[..i], other) + (if series == other then [ts[i]] else [])
      {
        OfGrows(ts, i, other);
      }
      queues := queues[series := (if series in queues then queues[series] else []) + [ts[i]]];
      i := i + 1;
    }
    assert ts[..i] == ts;
  }

  /** Each queue holds what its series has left. */
  ghost predicate Left(queues: map<string, seq<string>>, ts: seq<string>, r: nat, j: nat)
    requires j <= |SeriesOrder(ts)|
  {
    && (forall series: string :: series in queues <==> series in SeriesOrder(ts))
    && (forall series: string :: series in queues ==>
          && Taken(SeriesOrder(ts), ts, r, j, series) <= |Of(ts, series)|
          && queues[series] == Of(ts, series)[Taken(SeriesOrder(ts), ts, r, j, series)..])
  }

  lemma LeftAtFirst(queues: map<string, seq<string>>, ts: seq<string>)
    requires Grouped(queues, ts)
    ensures Left(queues, ts, 0, 0)
  {
    hide SeriesOrder, Of;
    SeriesOrderExact(ts);
    forall series: string ensures series in queues <==> series in SeriesOrder(ts) {
      OfMembers(ts, series);
    }
  }

  function Served(queues: map<string, seq<string>>, series: string): map<string, seq<string>> {
    if series in queues && queues[series] != [] then queues[series := queues[series][1..]] else queues
  }

  /** Serving one more series of the current round. */
  lemma ProgressSteps(ts: seq<string>, r: nat, j: nat)
    requires j < |SeriesOrder(ts)|
    ensures
      var order := SeriesOrder(ts);
      var series := order[j];
      && Taken(order, ts, r, j, series) == Least(r, |Of(ts, series)|)
      && Progress(order, ts, r, j + 1)
         == Progress(order, ts, r, j) + (if r < |Of(ts, series)| then [Of(ts, series)[r]] else [])
      && (forall other: string :: Taken(order, ts, r, j + 1, other)
            == Taken(order, ts, r, j, other) + (if other == series && r < |Of(ts, series)| then 1 else 0))
  {
    hide SeriesOrder, Of;
    SeriesOrderExact(ts);
    var order := SeriesOrder(ts);
    assert order[..j + 1][..j] == order[..j];
    assert order[..j + 1] == order[..j] + [order[j]];
  }

  lemma LeftAfterServing(queues: map<string, seq<string>>, ts: seq<string>, r: nat, j: nat)
    requires j < |SeriesOrder(ts)| && Left(queues, ts, r, j)
    ensures SeriesOrder(ts)[j] in queues
    ensures Left(Served(queues, SeriesOrder(ts)[j]), ts, r, j + 1)
    ensures
      var queue := queues[SeriesOrder(ts)[j]];
      Progress(SeriesOrder(ts), ts, r, j + 1)
      == Progress(SeriesOrder(ts), ts, r, j) + (if queue == [] then [] else [queue[0]])
  {
    hide SeriesOrder, Of, Progress, Taken;
    ProgressSteps(ts, r, j);
  }

  /** A round in which every series was served is a whole round. */
  lemma ProgressTurns(ts: seq<string>, r: nat)
    ensures Progress(SeriesOrder(ts), ts, r, |SeriesOrder(ts)|) == Progress(SeriesOrder(ts), ts, r + 1, 0)
    ensures forall series: string :: Taken(SeriesOrder(ts), ts, r, |SeriesOrder(ts)|, series)
                                  == Taken(SeriesOrder(ts), ts, r + 1, 0, series)
  {
    hide SeriesOrder, Of;
    var order := SeriesOrder(ts);
    assert order[..|order|] == order;
    EmptyRound(order, ts, r + 1);
  }

  lemma LeftAfterRound(queues: map<string, seq<string>>, ts: seq<string>, r: nat)
    requires Left(queues, ts, r, |SeriesOrder(ts)|)
    ensures Left(queues, ts, r + 1, 0)
    ensures Progress(SeriesOrder(ts), ts, r, |SeriesOrder(ts)|) == Progress(SeriesOrder(ts), ts, r + 1, 0)
  {
    hide SeriesOrder, Of, Progress, Taken;
    ProgressTurns(ts, r);
  }

  lemma NothingLeft(queues: map<string, seq<string>>, ts: seq<string>, r: nat, j: nat)
    requires j <= |SeriesOrder(ts)| && Left(queues, ts, r, j)
    ensures (forall series: string :: series in queues ==> queues[series] == [])
       <==> |Progress(SeriesOrder(ts), ts, r, j)| == |ts|
  {
    hide SeriesOrder, Of, Progress;
    ProgressLength(ts, r, j);
    SeriesOrderExact(ts);
    forall series: string | series !in queues ensures Of(ts, series) == [] {
      OfMembers(ts, series);
    }
  }

  lemma QueuesAreOfTheOrder(queues: map<string, seq<string>>, ts: seq<string>, r: nat, j: nat)
    requires j <= |SeriesOrder(ts)| && Left(queues, ts, r, j)
    ensures forall series: string :: series in queues <==> series in SeriesOrder(ts)
  {
  }

  /** One pass over the series: each that has a ticker gives one, until the limit is met. */
  method ServeRound(
    queues: map<string, seq<string>>, selected: seq<string>, limit: nat, ts: seq<string>, ghost round: nat)
    returns (left: map<string, seq<string>>, more: seq<string>, ghost at: nat)
    requires Left(queues, ts, round, 0)
    requires selected == Progress(SeriesOrder(ts), ts, round, 0)
    requires |selected| < limit
    requires exists series :: series in queues && queues[series] != []
    ensures at <= |SeriesOrder(ts)| && Left(left, ts, round, at)
    ensures more == Progress(SeriesOrder(ts), ts, round, at)
    ensures |selected| < |more| <= limit
    ensures |more| < limit ==> at == |SeriesOrder(ts)|
  {
    hide Left, Progress, SeriesOrder, Of, Taken;
    var order := SeriesOrder(ts);
    left, more, at := queues, selected, 0;
    QueuesAreOfTheOrder(queues, ts, round, 0);
    var j := 0;
    while j < |order|
      invariant at <= j <= |order|
      invariant Left(left, ts, round, at) && more == Progress(order, ts, round, at)
      invariant |selected| <= |more| <= limit
      invariant |more| < limit ==> at == j
      invariant |more| == |selected| ==> left == queues && forall k :: 0 <= k < j ==> queues[order[k]] == []
    {
      if |more| < limit {
        LeftAfterServing(left, ts, round, j);
        if left[order[j]] != [] {
          more := more + [left[order[j]][0]];
          left := left[order[j] := left[order[j]][1..]];
        }
        at := j + 1;
      }
      j := j + 1;
    }
  }

  lemma ProgressStarts(ts: seq<string>)
    ensures Progress(SeriesOrder(ts), ts, 0, 0) == []
  {
  }

  method ExactTickers(payload: Option<seq<string>>, limit: int) returns (r: Result<seq<string>, Refusal>)
    ensures payload == None ==> r == Err(LacksActiveExactTickers)
    ensures payload.Some? ==>
      var ts := Tickers(payload.value);
      && r.Ok?
      && |r.value| == (if limit < 0 then 0 else if limit < |ts| then limit else |ts|)
      && r.value <= RoundRobin(ts)
      && NoDuplicates(r.value)
      && Fair(r.value, ts)
  {
    hide Of, Fair, Tickers, SeriesOrder, Progress, RoundRobin, Round, Rounds, FirstPart, Left, Grouped;
    if payload == None {
      return Err(LacksActiveExactTickers);
    }
    var unique := Tickers(payload.value);
    assert NoDuplicates(unique) by { TickersExactly(payload.value); }
    var queues := GroupBySeries(unique);
    LeftAtFirst(queues, unique);
    ProgressStarts(unique);
    var selected: seq<string> := [];
    ghost var round: nat, at: nat := 0, 0;
    while |selected| < AtLeastZero(limit) && exists series :: series in queues && queues[series] != []
      invariant at <= |SeriesOrder(unique)| && Left(queues, unique, round, at)
      invariant selected == Progress(SeriesOrder(unique), unique, round, at)
      invariant |selected| <= AtLeastZero(limit)
      invariant |selected| < AtLeastZero(limit) ==> at == 0
      decreases AtLeastZero(limit) - |selected|
    {
      queues, selected, at := ServeRound(queues, selected, AtLeastZero(limit), unique, round);
      if |selected| < AtLeastZero(limit) {
        LeftAfterRound(queues, unique, round);
        round, at := round + 1, 0;
      }
    }
    NothingLeft(queues, unique, round, at);
    ProgressIsFair(unique, round, at);
    ProgressIsPrefix(unique, round, at);
    ProgressLength(unique, round, at);
    r := Ok(selected);
  }
}
