/**
 The selection of near-money candidates under a cap per symbol and a cap per symbol and window
 (archive/workspace-reference/phase3bc_r3.py): greedy over a sorted list, proved optimal.
 */
module NearMoneySelection {
  import opened Support
  import opened Lists
  import opened Text

  datatype Window = ClosesAt(time: int) | TickerPart(part: string)

  /** The second of the dash-separated parts, or UNKNOWN when there is no dash. */
  function SecondPart(s: string): string {
    if s == "" then "UNKNOWN"
    else if s[0] == '-' then FirstPart(s[1..])
    else SecondPart(s[1..])
  }

  datatype Candidate = Candidate(
    ticker: string,
    symbol: string,
    distanceRatio: real,
    closeTime: Option<int>,
    liquidityScore: Option<real>,
    spread: Option<real>)
  {
    function Window(): Window {
      if closeTime.Some? then ClosesAt(closeTime.value) else TickerPart(SecondPart(ticker))
    }

    /** 1 for a candidate with a positive liquidity score, 0 for the others. */
    function LiquidityPriority(): nat {
      if liquidityScore.Some? && liquidityScore.value > 0.0 then 1 else 0
    }
  }

  // ---- The order ----

  const LAST_TIME: int := 253402300799
  const WIDEST_SPREAD: real := 999999.0

  function CloseOrLast(c: Candidate): int { if c.closeTime.Some? then c.closeTime.value else LAST_TIME }

  function ScoreOrZero(c: Candidate): real { if c.liquidityScore.Some? then c.liquidityScore.value else 0.0 }

  function SpreadOrWidest(c: Candidate): real { if c.spread.Some? then c.spread.value else WIDEST_SPREAD }

  /** Liquid candidates first, then the earliest, the nearest, the most liquid, the tightest, and by ticker. */
  predicate KeyAtMost(a: Candidate, b: Candidate) {
    if a.LiquidityPriority() != b.LiquidityPriority() then a.LiquidityPriority() > b.LiquidityPriority()
    else if CloseOrLast(a) != CloseOrLast(b) then CloseOrLast(a) < CloseOrLast(b)
    else if a.distanceRatio != b.distanceRatio then a.distanceRatio < b.distanceRatio
    else if ScoreOrZero(a) != ScoreOrZero(b) then ScoreOrZero(a) > ScoreOrZero(b)
    else if SpreadOrWidest(a) != SpreadOrWidest(b) then SpreadOrWidest(a) < SpreadOrWidest(b)
    else TextAtMost(a.ticker, b.ticker)
  }

  /** The stable sort by the key. */
  function Sorted(cs: seq<Candidate>): (r: seq<Candidate>)
    ensures |r| == |cs|
  {
    Sort(cs, KeyAtMost)
  }

  lemma KeysAreComparable()
    ensures Comparable(KeyAtMost)
  {
    forall a: Candidate, b: Candidate ensures KeyAtMost(a, b) || KeyAtMost(b, a) {
      TextIsTotal(a.ticker, b.ticker);
    }
  }

  ghost predicate IsLiquid(c: Candidate) { c.liquidityScore.Some? && c.liquidityScore.value > 0.0 }

  /**
   How one candidate may stand before another: a liquid one before the others; then by earlier close, undated ones as at
   the end of the year 9999; then by lesser distance, higher score, tighter spread, and ticker.
   */
  ghost predicate MayPrecede(a: Candidate, b: Candidate) {
    var closeA := if a.closeTime.Some? then a.closeTime.value else 253402300799;
    var closeB := if b.closeTime.Some? then b.closeTime.value else 253402300799;
    var scoreA := if a.liquidityScore.Some? then a.liquidityScore.value else 0.0;
    var scoreB := if b.liquidityScore.Some? then b.liquidityScore.value else 0.0;
    var spreadA := if a.spread.Some? then a.spread.value else 999999.0;
    var spreadB := if b.spread.Some? then b.spread.value else 999999.0;
    var sameClose := IsLiquid(a) == IsLiquid(b) && closeA == closeB;
    var sameDistance := sameClose && a.distanceRatio == b.distanceRatio;
    var sameScore := sameDistance && scoreA == scoreB;
    && (IsLiquid(b) ==> IsLiquid(a))
    && (IsLiquid(a) == IsLiquid(b) ==> closeA <= closeB)
    && (sameClose ==> a.distanceRatio <= b.distanceRatio)
    && (sameDistance ==> scoreA >= scoreB)
    && (sameScore ==> spreadA <= spreadB)
    && (sameScore && spreadA == spreadB ==> Precedes(a.ticker, b.ticker))
  }

  lemma KeyOrderExactly(a: Candidate, b: Candidate)
    ensures KeyAtMost(a, b) <==> MayPrecede(a, b)
  {
    hide Precedes, TextAtMost;
    TextOrderExactly(a.ticker, b.ticker);
  }

  lemma KeysAreTransitive()
    ensures Transitive(KeyAtMost)
  {
    hide TextAtMost;
    forall a: Candidate, b: Candidate, c: Candidate | KeyAtMost(a, b) && KeyAtMost(b, c) ensures KeyAtMost(a, c) {
      if TextAtMost(a.ticker, b.ticker) && TextAtMost(b.ticker, c.ticker) {
        TextIsTransitive(a.ticker, b.ticker, c.ticker);
      }
    }
  }

  /** The sorted list holds the same candidates, and each may stand before every later one. */
  lemma SortedIsOrdered(cs: seq<Candidate>)
    ensures multiset(Sorted(cs)) == multiset(cs)
    ensures forall i, j :: 0 <= i < j < |Sorted(cs)| ==> MayPrecede(Sorted(cs)[i], Sorted(cs)[j])
  {
    hide KeyAtMost, MayPrecede;
    KeysAreComparable();
    KeysAreTransitive();
    SortOrders(cs, KeyAtMost);
    SortKeeps(cs, KeyAtMost);
    forall i, j | 0 <= i < j < |Sorted(cs)| ensures MayPrecede(Sorted(cs)[i], Sorted(cs)[j]) {
      OrderedThroughout(Sorted(cs), KeyAtMost, i, j);
      KeyOrderExactly(Sorted(cs)[i], Sorted(cs)[j]);
    }
  }

  // ---- Selections ----

  /** A selection from a list marks the candidates it takes. */
  type Selection = seq<bool>

  datatype Group = Everything | Symbol(symbol: string) | SymbolWindow(symbol: string, window: Window)

  predicate In(c: Candidate, g: Group) {
    match g
    case Everything => true
    case Symbol(symbol) => c.symbol == symbol
    case SymbolWindow(symbol, window) => c.symbol == symbol && c.Window() == window
  }

  function Count(cs: seq<Candidate>, g: Group): nat {
    if cs == [] then 0 else Count(cs[..|cs| - 1], g) + (if In(cs[|cs| - 1], g) then 1 else 0)
  }

  /** How many of a group a selection takes. */
  function Load(cs: seq<Candidate>, x: Selection, g: Group): nat
    requires |x| == |cs|
  {
    if cs == [] then 0
    else Load(cs[..|cs| - 1], x[..|x| - 1], g) + (if x[|x| - 1] && In(cs[|cs| - 1], g) then 1 else 0)
  }

  function Min(a: nat, b: nat): nat { if a <= b then a else b }

  /** A limit below zero admits nothing. */
  function AtLeastZero(limit: int): nat { if limit < 0 then 0 else limit }

  datatype Caps = Caps(perSymbol: nat, perWindow: nat)

  ghost predicate Feasible(cs: seq<Candidate>, x: Selection, caps: Caps)
    requires |x| == |cs|
  {
    && (forall symbol: string :: Load(cs, x, Symbol(symbol)) <= caps.perSymbol)
    && (forall symbol: string, window: Window :: Load(cs, x, SymbolWindow(symbol, window)) <= caps.perWindow)
  }

  /** Takes each candidate in turn unless its symbol or its window is full. */
  function Greedy(cs: seq<Candidate>, caps: Caps): (x: Selection)
    ensures |x| == |cs|
  {
    if cs == [] then []
    else
      var before, c := cs[..|cs| - 1], cs[|cs| - 1];
      var x := Greedy(before, caps);
      x + [Load(before, x, Symbol(c.symbol)) < caps.perSymbol
           && Load(before, x, SymbolWindow(c.symbol, c.Window())) < caps.perWindow]
  }

  function Picked(cs: seq<Candidate>, x: Selection): seq<Candidate>
    requires |x| == |cs|
  {
    if cs == [] then []
    else Picked(cs[..|cs| - 1], x[..|x| - 1]) + (if x[|x| - 1] then [cs[|cs| - 1]] else [])
  }

  function SymbolsOf(cs: seq<Candidate>): (r: seq<string>)
    ensures NoDuplicates(r)
    ensures forall c :: c in cs ==> c.symbol in r
  {
    var r := Unique(seq(|cs|, i requires 0 <= i < |cs| => cs[i].symbol));
    assert forall c :: c in cs ==> exists i :: 0 <= i < |cs| && c == cs[i];
    assert forall i :: 0 <= i < |cs| ==> seq(|cs|, i requires 0 <= i < |cs| => cs[i].symbol)[i] == cs[i].symbol;
    r
  }

  function WindowsOf(cs: seq<Candidate>): (r: seq<Window>)
    ensures NoDuplicates(r)
    ensures forall c :: c in cs ==> c.Window() in r
  {
    var r := Unique(seq(|cs|, i requires 0 <= i < |cs| => cs[i].Window()));
    assert forall c :: c in cs ==> exists i :: 0 <= i < |cs| && c == cs[i];
    assert forall i :: 0 <= i < |cs| ==> seq(|cs|, i requires 0 <= i < |cs| => cs[i].Window())[i] == cs[i].Window();
    r
  }

  /** How many of a symbol can be taken: each window gives at most its cap, and all together at most the symbol's. */
  function SymbolRoom(cs: seq<Candidate>, caps: Caps, symbol: string): nat {
    Min(caps.perSymbol, Total(WindowsOf(cs), window => Min(caps.perWindow, Count(cs, SymbolWindow(symbol, window)))))
  }

  /** How many candidates can be taken. */
  function Capacity(cs: seq<Candidate>, caps: Caps): nat {
    Total(SymbolsOf(cs), symbol => SymbolRoom(cs, caps, symbol))
  }

  // ---- Loads ----

  lemma {:induction false} LoadAtMostCount(cs: seq<Candidate>, x: Selection, g: Group)
    requires |x| == |cs|
    ensures Load(cs, x, g) <= Count(cs, g)
  {
    if cs != [] {
      LoadAtMostCount(cs[..|cs| - 1], x[..|x| - 1], g);
    }
  }

  /** A symbol's load is spread over its windows. */
  lemma {:induction false} WindowsShareSymbol(cs: seq<Candidate>, x: Selection, symbol: string, windows: seq<Window>)
    requires |x| == |cs| && NoDuplicates(windows)
    requires forall c :: c in cs ==> c.Window() in windows
    ensures Total(windows, window => Load(cs, x, SymbolWindow(symbol, window))) == Load(cs, x, Symbol(symbol))
  {
    var f := window => Load(cs, x, SymbolWindow(symbol, window));
    if cs == [] {
      TotalOfZeros(windows, f);
    } else {
      var before, y, c := cs[..|cs| - 1], x[..|x| - 1], cs[|cs| - 1];
      WindowsShareSymbol(before, y, symbol, windows);
      var g := window => Load(before, y, SymbolWindow(symbol, window));
      if x[|x| - 1] && c.symbol == symbol {
        TotalPlusOne(windows, g, f, c.Window());
      } else {
        TotalSame(windows, g, f);
      }
    }
  }

  /** The whole load is spread over the symbols. */
  lemma {:induction false} SymbolsShareAll(cs: seq<Candidate>, x: Selection, symbols: seq<string>)
    requires |x| == |cs| && NoDuplicates(symbols)
    requires forall c :: c in cs ==> c.symbol in symbols
    ensures Total(symbols, symbol => Load(cs, x, Symbol(symbol))) == Load(cs, x, Everything)
  {
    var f := symbol => Load(cs, x, Symbol(symbol));
    if cs == [] {
      TotalOfZeros(symbols, f);
    } else {
      var before, y, c := cs[..|cs| - 1], x[..|x| - 1], cs[|cs| - 1];
      SymbolsShareAll(before, y, symbols);
      var g := symbol => Load(before, y, Symbol(symbol));
      if x[|x| - 1] {
        TotalPlusOne(symbols, g, f, c.symbol);
      } else {
        TotalSame(symbols, g, f);
      }
    }
  }

  lemma SymbolWithinRoom(cs: seq<Candidate>, x: Selection, caps: Caps, symbol: string)
    requires |x| == |cs| && Feasible(cs, x, caps)
    ensures Load(cs, x, Symbol(symbol)) <= SymbolRoom(cs, caps, symbol)
  {
    hide Load, Count, Total, WindowsOf;
    var windows := WindowsOf(cs);
    var loads := window => Load(cs, x, SymbolWindow(symbol, window));
    var rooms := window => Min(caps.perWindow, Count(cs, SymbolWindow(symbol, window)));
    WindowsShareSymbol(cs, x, symbol, windows);
    forall window | window in windows ensures loads(window) <= rooms(window) {
      LoadAtMostCount(cs, x, SymbolWindow(symbol, window));
    }
    TotalAtMost(windows, loads, rooms);
    TotalSame(windows, loads, window => Load(cs, x, SymbolWindow(symbol, window)));
    TotalSame(windows, rooms, window => Min(caps.perWindow, Count(cs, SymbolWindow(symbol, window))));
  }

  /** No selection within the caps takes more than the capacity. */
  lemma NoSelectionTakesMore(cs: seq<Candidate>, x: Selection, caps: Caps)
    requires |x| == |cs| && Feasible(cs, x, caps)
    ensures Load(cs, x, Everything) <= Capacity(cs, caps)
  {
    hide Load, Feasible, SymbolRoom, Total, SymbolsOf;
    var symbols := SymbolsOf(cs);
    var loads := symbol => Load(cs, x, Symbol(symbol));
    var rooms := symbol => SymbolRoom(cs, caps, symbol);
    SymbolsShareAll(cs, x, symbols);
    forall symbol | symbol in symbols ensures loads(symbol) <= rooms(symbol) {
      SymbolWithinRoom(cs, x, caps, symbol);
    }
    TotalAtMost(symbols, loads, rooms);
  }

  // ---- Greedy is optimal ----

  lemma {:induction false} GreedyIsFeasible(cs: seq<Candidate>, caps: Caps)
    ensures Feasible(cs, Greedy(cs, caps), caps)
  {
    if cs != [] {
      GreedyIsFeasible(cs[..|cs| - 1], caps);
      var x := Greedy(cs, caps);
      assert x[..|x| - 1] == Greedy(cs[..|cs| - 1], caps);
    }
  }

  /** A symbol that is not full is short only of windows that are full or exhausted. */
  lemma {:induction false} GreedyFillsWindows(cs: seq<Candidate>, caps: Caps, symbol: string, window: Window)
    requires Load(cs, Greedy(cs, caps), Symbol(symbol)) < caps.perSymbol
    ensures Load(cs, Greedy(cs, caps), SymbolWindow(symbol, window))
         == Min(caps.perWindow, Count(cs, SymbolWindow(symbol, window)))
  {
    if cs != [] {
      var x := Greedy(cs, caps);
      assert x[..|x| - 1] == Greedy(cs[..|cs| - 1], caps);
      GreedyFillsWindows(cs[..|cs| - 1], caps, symbol, window);
    }
  }

  lemma GreedyFillsSymbol(cs: seq<Candidate>, caps: Caps, symbol: string)
    ensures Load(cs, Greedy(cs, caps), Symbol(symbol)) == SymbolRoom(cs, caps, symbol)
  {
    hide Load, Count, Total, WindowsOf, Greedy;
    var x := Greedy(cs, caps);
    GreedyIsFeasible(cs, caps);
    SymbolWithinRoom(cs, x, caps, symbol);
    if Load(cs, x, Symbol(symbol)) < caps.perSymbol {
      var windows := WindowsOf(cs);
      var loads := window => Load(cs, x, SymbolWindow(symbol, window));
      var rooms := window => Min(caps.perWindow, Count(cs, SymbolWindow(symbol, window)));
      WindowsShareSymbol(cs, x, symbol, windows);
      forall window | window in windows ensures loads(window) == rooms(window) {
        GreedyFillsWindows(cs, caps, symbol, window);
      }
      TotalSame(windows, loads, rooms);
      TotalSame(windows, loads, window => Load(cs, x, SymbolWindow(symbol, window)));
      TotalSame(windows, rooms, window => Min(caps.perWindow, Count(cs, SymbolWindow(symbol, window))));
    }
  }

  /** Greedy takes as many candidates as can be taken: the sum over symbols of what their windows allow. */
  lemma GreedyReachesCapacity(cs: seq<Candidate>, caps: Caps)
    ensures Load(cs, Greedy(cs, caps), Everything) == Capacity(cs, caps)
  {
    hide Load, Feasible, SymbolRoom, Total, SymbolsOf, Greedy;
    var x := Greedy(cs, caps);
    var symbols := SymbolsOf(cs);
    var loads := symbol => Load(cs, x, Symbol(symbol));
    var rooms := symbol => SymbolRoom(cs, caps, symbol);
    SymbolsShareAll(cs, x, symbols);
    forall symbol | symbol in symbols ensures loads(symbol) == rooms(symbol) {
      GreedyFillsSymbol(cs, caps, symbol);
    }
    TotalSame(symbols, loads, rooms);
  }

  lemma FeasibleBefore(cs: seq<Candidate>, x: Selection, caps: Caps)
    requires |x| == |cs| > 0 && Feasible(cs, x, caps)
    ensures Feasible(cs[..|cs| - 1], x[..|x| - 1], caps)
  {
    forall symbol: string ensures Load(cs[..|cs| - 1], x[..|x| - 1], Symbol(symbol)) <= caps.perSymbol {
      assert Load(cs, x, Symbol(symbol)) <= caps.perSymbol;
    }
    forall symbol: string, window: Window
      ensures Load(cs[..|cs| - 1], x[..|x| - 1], SymbolWindow(symbol, window)) <= caps.perWindow
    {
      assert Load(cs, x, SymbolWindow(symbol, window)) <= caps.perWindow;
    }
  }

  /** Greedy takes at least as many as every other selection. */
  lemma GreedyStaysAhead(cs: seq<Candidate>, x: Selection, caps: Caps)
    requires |x| == |cs| && Feasible(cs, x, caps)
    ensures Load(cs, x, Everything) <= Load(cs, Greedy(cs, caps), Everything)
  {
    NoSelectionTakesMore(cs, x, caps);
    GreedyReachesCapacity(cs, caps);
  }

  lemma GreedyGrows(cs: seq<Candidate>, caps: Caps)
    requires cs != []
    ensures
      var before, c := cs[..|cs| - 1], cs[|cs| - 1];
      && Greedy(cs, caps)[..|cs| - 1] == Greedy(before, caps)
      && (Greedy(cs, caps)[|cs| - 1] <==>
            && Load(before, Greedy(before, caps), Symbol(c.symbol)) < caps.perSymbol
            && Load(before, Greedy(before, caps), SymbolWindow(c.symbol, c.Window())) < caps.perWindow)
  {
    hide Load;
  }

  /** Greedy is ahead of every other selection after every candidate, not only at the end. */
  lemma {:induction false} GreedyAheadOnEveryPrefix(cs: seq<Candidate>, x: Selection, caps: Caps, k: nat)
    requires |x| == |cs| && Feasible(cs, x, caps) && k <= |cs|
    ensures Load(cs[..k], x[..k], Everything) <= Load(cs[..k], Greedy(cs, caps)[..k], Everything)
  {
    hide Load, Greedy, Feasible;
    if k == |cs| {
      assert cs[..k] == cs && x[..k] == x && Greedy(cs, caps)[..k] == Greedy(cs, caps);
      GreedyStaysAhead(cs, x, caps);
    } else {
      var n := |cs| - 1;
      FeasibleBefore(cs, x, caps);
      GreedyGrows(cs, caps);
      GreedyAheadOnEveryPrefix(cs[..n], x[..n], caps, k);
      assert cs[..n][..k] == cs[..k] && x[..n][..k] == x[..k] && Greedy(cs, caps)[..n][..k] == Greedy(cs, caps)[..k];
    }
  }

  // ---- What greedy takes, stated at once ----

  /** The ticker's first dash is at i, and its next one at j, or j is its end. */
  ghost predicate Dashes(ticker: string, i: nat, j: nat) {
    && i < j <= |ticker| && ticker[i] == '-' && (j < |ticker| ==> ticker[j] == '-')
    && (forall k :: 0 <= k < i ==> ticker[k] != '-') && (forall k :: i < k < j ==> ticker[k] != '-')
  }

  /** The part of a ticker between its first dash and the next, or its end. */
  ghost predicate IsSecondPart(ticker: string, part: string) {
    if '-' !in ticker then part == "UNKNOWN"
    else exists i: nat, j: nat :: Dashes(ticker, i, j) && part == ticker[i + 1..j]
  }

  lemma {:induction false} FirstPartPlace(s: string) returns (j: nat)
    ensures j <= |s| && FirstPart(s) == s[..j] && (j < |s| ==> s[j] == '-')
    ensures forall k :: 0 <= k < j ==> s[k] != '-'
  {
    if s == "" || s[0] == '-' {
      j := 0;
    } else {
      j := FirstPartPlace(s[1..]);
      j := j + 1;
      assert s[..j] == [s[0]] + s[1..][..j - 1];
    }
  }

  lemma DashesFirst(s: string, j: nat)
    requires s != "" && s[0] == '-' && j <= |s| - 1 && (j < |s| - 1 ==> s[1..][j] == '-')
    requires forall k :: 0 <= k < j ==> s[1..][k] != '-'
    ensures Dashes(s, 0, j + 1) && s[1..][..j] == s[1..j + 1]
  {
    assert forall k :: 0 < k < |s| ==> s[k] == s[1..][k - 1];
  }

  lemma DashesShift(s: string, i: nat, j: nat)
    requires s != "" && s[0] != '-' && Dashes(s[1..], i, j)
    ensures Dashes(s, i + 1, j + 1) && s[i + 2..j + 1] == s[1..][i + 1..j]
  {
    assert forall k :: 0 < k < |s| ==> s[k] == s[1..][k - 1];
  }

  lemma {:induction false} SecondPartPlaces(s: string) returns (i: nat, j: nat)
    ensures if '-' in s then Dashes(s, i, j) && SecondPart(s) == s[i + 1..j] else SecondPart(s) == "UNKNOWN"
  {
    hide Dashes;
    if s == "" {
      i, j := 0, 0;
    } else if s[0] == '-' {
      j := FirstPartPlace(s[1..]);
      DashesFirst(s, j);
      i, j := 0, j + 1;
    } else {
      i, j := SecondPartPlaces(s[1..]);
      if '-' in s[1..] {
        DashesShift(s, i, j);
      }
      i, j := i + 1, j + 1;
    }
  }

  lemma SecondPartExactly(s: string)
    ensures IsSecondPart(s, SecondPart(s))
  {
    hide Dashes;
    var i, j := SecondPartPlaces(s);
  }

  lemma OneSecondPart(s: string, p: string, q: string)
    requires IsSecondPart(s, p) && IsSecondPart(s, q)
    ensures p == q
  {
  }

  /** Both close at one time, or neither has a close and both tickers have the same second part. */
  ghost predicate ShareWindow(a: Candidate, b: Candidate) {
    && a.closeTime == b.closeTime
    && (a.closeTime.None? ==> exists part :: IsSecondPart(a.ticker, part) && IsSecondPart(b.ticker, part))
  }

  lemma WindowsExactly(a: Candidate, b: Candidate)
    ensures a.Window() == b.Window() <==> ShareWindow(a, b)
  {
    hide IsSecondPart;
    SecondPartExactly(a.ticker);
    SecondPartExactly(b.ticker);
    if ShareWindow(a, b) && a.closeTime.None? {
      var part :| IsSecondPart(a.ticker, part) && IsSecondPart(b.ticker, part);
      OneSecondPart(a.ticker, part, SecondPart(a.ticker));
      OneSecondPart(b.ticker, part, SecondPart(b.ticker));
    }
  }

  /** The places before i, among those taken, that hold a candidate of i's symbol. */
  ghost function TakenOfSymbol(cs: seq<Candidate>, at: seq<nat>, i: nat): set<nat>
    requires i < |cs|
  {
    set j | j in at && j < i && cs[j].symbol == cs[i].symbol
  }

  ghost function TakenOfWindow(cs: seq<Candidate>, at: seq<nat>, i: nat): set<nat>
    requires i < |cs|
  {
    set j | j in at && j < i && cs[j].symbol == cs[i].symbol && ShareWindow(cs[j], cs[i])
  }

  ghost function TakenOf(cs: seq<Candidate>, at: seq<nat>, g: Group): set<nat> {
    set j | j in at && j < |cs| && In(cs[j], g)
  }

  lemma TakenGrows(cs: seq<Candidate>, at: seq<nat>, taken: bool, g: Group)
    requires cs != [] && forall j :: j in at ==> j < |cs| - 1
    ensures
      var n := |cs| - 1;
      |TakenOf(cs, if taken then at + [n] else at, g)|
      == |TakenOf(cs[..n], at, g)| + if taken && In(cs[n], g) then 1 else 0
  {
    var n := |cs| - 1;
    var more := if taken then at + [n] else at;
    assert TakenOf(cs, more, g) == TakenOf(cs[..n], at, g) + if taken && In(cs[n], g) then {n} else {};
  }

  lemma NobodyTaken(cs: seq<Candidate>)
    ensures forall g: Group :: TakenOf(cs, [], g) == {}
  {
  }

  /** A place is taken exactly when its symbol and its window are not full yet. */
  ghost predicate TakenWithin(cs: seq<Candidate>, caps: Caps, at: seq<nat>) {
    forall i :: 0 <= i < |cs| ==>
      (i in at <==> |TakenOfSymbol(cs, at, i)| < caps.perSymbol && |TakenOfWindow(cs, at, i)| < caps.perWindow)
  }

  lemma NothingWithin(cs: seq<Candidate>, caps: Caps)
    requires cs == []
    ensures TakenWithin(cs, caps, [])
  {
  }

  lemma PickedGrows(cs: seq<Candidate>, x: Selection)
    requires |x| == |cs| > 0
    ensures Picked(cs, x) == Picked(cs[..|cs| - 1], x[..|x| - 1]) + if x[|x| - 1] then [cs[|cs| - 1]] else []
  {
  }

  /** Taking or passing over the last candidate changes nothing about the places before; for the last all count. */
  lemma TakenBefore(cs: seq<Candidate>, before: seq<nat>, taken: bool)
    requires cs != [] && forall j :: j in before ==> j < |cs| - 1
    ensures
      var n := |cs| - 1;
      var at := if taken then before + [n] else before;
      && (forall i :: 0 <= i < n ==> TakenOfSymbol(cs, at, i) == TakenOfSymbol(cs[..n], before, i))
      && (forall i :: 0 <= i < n ==> TakenOfWindow(cs, at, i) == TakenOfWindow(cs[..n], before, i))
      && TakenOfSymbol(cs, at, n) == TakenOf(cs[..n], before, Symbol(cs[n].symbol))
      && TakenOfWindow(cs, at, n) == TakenOf(cs[..n], before, SymbolWindow(cs[n].symbol, cs[n].Window()))
  {
    hide ShareWindow, Candidate.Window;
    var n := |cs| - 1;
    forall j | 0 <= j < n ensures ShareWindow(cs[j], cs[n]) <==> cs[j].Window() == cs[n].Window() {
      WindowsExactly(cs[j], cs[n]);
    }
  }

  lemma LoadGrows(cs: seq<Candidate>, x: Selection, g: Group)
    requires |x| == |cs| > 0
    ensures Load(cs, x, g)
         == Load(cs[..|cs| - 1], x[..|x| - 1], g) + (if x[|x| - 1] && In(cs[|cs| - 1], g) then 1 else 0)
  {
  }

  lemma NothingTaken(cs: seq<Candidate>, caps: Caps)
    requires cs == []
    ensures Picked(cs, Greedy(cs, caps)) == []
    ensures forall g: Group :: Load(cs, Greedy(cs, caps), g) == 0
  {
  }

  /** These places, in ascending order, hold what the selection picks. */
  ghost predicate ArePlaces(cs: seq<Candidate>, x: Selection, at: seq<nat>)
    requires |x| == |cs|
  {
    && |at| == |Picked(cs, x)|
    && (forall k :: 0 <= k < |at| ==> at[k] < |cs| && Picked(cs, x)[k] == cs[at[k]])
    && (forall j, k :: 0 <= j < k < |at| ==> at[j] < at[k])
  }

  ghost predicate LoadsAre(cs: seq<Candidate>, x: Selection, at: seq<nat>)
    requires |x| == |cs|
  {
    forall g: Group :: |TakenOf(cs, at, g)| == Load(cs, x, g)
  }

  lemma PlacesGrow(cs: seq<Candidate>, x: Selection, before: seq<nat>)
    requires |x| == |cs| > 0 && ArePlaces(cs[..|cs| - 1], x[..|x| - 1], before)
    ensures ArePlaces(cs, x, if x[|x| - 1] then before + [|cs| - 1] else before)
  {
    hide Picked;
    PickedGrows(cs, x);
  }

  lemma LoadsGrow(cs: seq<Candidate>, x: Selection, before: seq<nat>)
    requires |x| == |cs| > 0 && LoadsAre(cs[..|cs| - 1], x[..|x| - 1], before)
    requires forall j :: j in before ==> j < |cs| - 1
    ensures LoadsAre(cs, x, if x[|x| - 1] then before + [|cs| - 1] else before)
  {
    hide Load, TakenOf;
    var n := |cs| - 1;
    forall g: Group ensures |TakenOf(cs, if x[n] then before + [n] else before, g)| == Load(cs, x, g) {
      LoadGrows(cs, x, g);
      TakenGrows(cs, before, x[n], g);
    }
  }

  lemma TakenWithinGrows(cs: seq<Candidate>, caps: Caps, before: seq<nat>, taken: bool)
    requires cs != [] && TakenWithin(cs[..|cs| - 1], caps, before)
    requires forall j :: j in before ==> j < |cs| - 1
    requires
      var n := |cs| - 1;
      taken <==>
        && |TakenOf(cs[..n], before, Symbol(cs[n].symbol))| < caps.perSymbol
        && |TakenOf(cs[..n], before, SymbolWindow(cs[n].symbol, cs[n].Window()))| < caps.perWindow
    ensures TakenWithin(cs, caps, if taken then before + [|cs| - 1] else before)
  {
    hide TakenOf, TakenOfSymbol, TakenOfWindow;
    TakenBefore(cs, before, taken);
  }

  /** Which places greedy takes, and how often it has taken of every group. */
  lemma {:induction false} GreedyPlaces(cs: seq<Candidate>, caps: Caps) returns (at: seq<nat>)
    ensures ArePlaces(cs, Greedy(cs, caps), at)
    ensures LoadsAre(cs, Greedy(cs, caps), at)
    ensures TakenWithin(cs, caps, at)
  {
    hide Load, Greedy, Picked, TakenOf, TakenOfSymbol, TakenOfWindow, TakenWithin;
    if cs == [] {
      at := [];
      NothingTaken(cs, caps);
      NobodyTaken(cs);
      NothingWithin(cs, caps);
    } else {
      var n := |cs| - 1;
      var before := GreedyPlaces(cs[..n], caps);
      GreedyGrows(cs, caps);
      var x := Greedy(cs, caps);
      at := if x[n] then before + [n] else before;
      PlacesGrow(cs, x, before);
      LoadsGrow(cs, x, before);
      TakenWithinGrows(cs, caps, before, x[n]);
    }
  }

  /**
   What is selected: in key order, each candidate that finds fewer than the limits already taken of its symbol and of
   its window. One passed over therefore has a full symbol or a full window, and whatever fills it may precede it.
   */
  lemma SelectionExactly(candidates: seq<Candidate>, perSymbolLimit: int, perWindowLimit: int) returns (at: seq<nat>)
    ensures
      var cs := Sorted(candidates);
      var selected := Picked(cs, Greedy(cs, Caps(AtLeastZero(perSymbolLimit), AtLeastZero(perWindowLimit))));
      && multiset(cs) == multiset(candidates) && (forall i, j :: 0 <= i < j < |cs| ==> MayPrecede(cs[i], cs[j]))
      && |at| == |selected| && (forall k :: 0 <= k < |at| ==> at[k] < |cs| && selected[k] == cs[at[k]])
      && (forall j, k :: 0 <= j < k < |at| ==> at[j] < at[k])
      && (forall i :: 0 <= i < |cs| ==>
            (i in at <==> |TakenOfSymbol(cs, at, i)| < perSymbolLimit && |TakenOfWindow(cs, at, i)| < perWindowLimit))
  {
    hide Sorted, MayPrecede, Picked, Greedy, TakenOfSymbol, TakenOfWindow, LoadsAre;
    SortedIsOrdered(candidates);
    at := GreedyPlaces(Sorted(candidates), Caps(AtLeastZero(perSymbolLimit), AtLeastZero(perWindowLimit)));
  }

  function Worth(x: Selection, weights: seq<real>): real
    requires |x| == |weights|
  {
    if x == [] then 0.0
    else Worth(x[..|x| - 1], weights[..|x| - 1]) + (if x[|x| - 1] then weights[|x| - 1] else 0.0)
  }

  ghost predicate NeverRising(weights: seq<real>) {
    && (forall i :: 0 <= i < |weights| - 1 ==> weights[i] >= weights[i + 1])
    && (forall i :: 0 <= i < |weights| ==> weights[i] >= 0.0)
  }

  function Scaled(worth: real, lead: int): real { worth * lead as real }

  lemma ScaledByZero(worth: real)
    ensures Scaled(worth, 0) == 0.0
  {
  }

  lemma ProductGrows(low: real, high: real, lead: real)
    requires low <= high && lead >= 0.0
    ensures low * lead <= high * lead
  {
  }

  /** The lead after one more candidate, when it is worth no more than the last and the lead was at least `won`. */
  lemma LeadGrows(worth: real, lastWorth: real, lead: int, taken: bool, otherTakes: bool, won: real)
    requires 0.0 <= worth <= lastWorth && lead >= 0 && won >= Scaled(lastWorth, lead)
    ensures won + (if taken then worth else 0.0) - (if otherTakes then worth else 0.0)
         >= Scaled(worth, lead + (if taken then 1 else 0) - (if otherTakes then 1 else 0))
  {
    ProductGrows(worth, lastWorth, lead as real);
    assert won >= worth * lead as real;
    if taken && !otherTakes {
      assert worth * (lead as real + 1.0) == worth * lead as real + worth;
    } else if otherTakes && !taken {
      assert worth * (lead as real - 1.0) == worth * lead as real - worth;
    }
  }

  lemma EmptyIsWorthless(x: Selection, weights: seq<real>)
    requires |x| == |weights| == 0
    ensures Worth(x, weights) == 0.0
  {
  }

  lemma WorthGrows(x: Selection, weights: seq<real>)
    requires |x| == |weights| > 0
    ensures Worth(x, weights)
         == Worth(x[..|x| - 1], weights[..|x| - 1]) + (if x[|x| - 1] then weights[|x| - 1] else 0.0)
  {
  }

  lemma {:induction false} GreedyLeadIsWorth(cs: seq<Candidate>, x: Selection, caps: Caps, weights: seq<real>)
    requires |x| == |cs| == |weights| > 0 && Feasible(cs, x, caps) && NeverRising(weights)
    ensures Worth(Greedy(cs, caps), weights) - Worth(x, weights)
         >= Scaled(weights[|weights| - 1], Load(cs, Greedy(cs, caps), Everything) - Load(cs, x, Everything))
    decreases |cs|
  {
    hide Feasible, Greedy, Load, Worth, Scaled;
    var n := |cs| - 1;
    var g := Greedy(cs, caps);
    var h := Greedy(cs[..n], caps);
    var gained, other := Worth(h, weights[..n]), Worth(x[..n], weights[..n]);
    var lead := Load(cs[..n], h, Everything) - Load(cs[..n], x[..n], Everything);
    FeasibleBefore(cs, x, caps);
    GreedyStaysAhead(cs[..n], x[..n], caps);
    if n == 0 {
      EmptyIsWorthless(x[..n], weights[..n]);
      EmptyIsWorthless(h, weights[..n]);
      assert Scaled(weights[n], 0) == 0.0 by { ScaledByZero(weights[n]); }
      LeadGrows(weights[n], weights[n], lead, g[n], x[n], 0.0);
    } else {
      GreedyLeadIsWorth(cs[..n], x[..n], caps, weights[..n]);
      LeadGrows(weights[n], weights[n - 1], lead, g[n], x[n], gained - other);
    }
    GreedyGrows(cs, caps);
    WorthGrows(g, weights);
    WorthGrows(x, weights);
    LoadGrows(cs, g, Everything);
    LoadGrows(cs, x, Everything);
  }

  lemma LastIsNotNegative(weights: seq<real>)
    requires NeverRising(weights) && weights != []
    ensures weights[|weights| - 1] >= 0.0
  {
  }

  lemma LeadIsGain(worth: real, lead: int, gain: real)
    requires worth >= 0.0 && lead >= 0 && gain >= Scaled(worth, lead)
    ensures gain >= 0.0
  {
    ProductGrows(0.0, worth, lead as real);
  }

  /** Whatever the candidates are worth, if worth never rises along the list, no selection is worth more. */
  lemma GreedyIsWorthMost(cs: seq<Candidate>, x: Selection, caps: Caps, weights: seq<real>)
    requires |x| == |cs| == |weights| && Feasible(cs, x, caps) && NeverRising(weights)
    ensures Worth(x, weights) <= Worth(Greedy(cs, caps), weights)
  {
    hide *;
    if cs == [] {
      EmptyIsWorthless(x, weights);
      EmptyIsWorthless(Greedy(cs, caps), weights);
    } else {
      GreedyLeadIsWorth(cs, x, caps, weights);
      GreedyStaysAhead(cs, x, caps);
      LastIsNotNegative(weights);
      var lead := Load(cs, Greedy(cs, caps), Everything) - Load(cs, x, Everything);
      LeadIsGain(weights[|weights| - 1], lead, Worth(Greedy(cs, caps), weights) - Worth(x, weights));
    }
  }

  // ---- Liquid candidates ----

  /** How many liquid candidates a selection takes. */
  function LiquidLoad(cs: seq<Candidate>, x: Selection): nat
    requires |x| == |cs|
  {
    if cs == [] then 0
    else LiquidLoad(cs[..|cs| - 1], x[..|x| - 1]) + (if x[|x| - 1] then cs[|cs| - 1].LiquidityPriority() else 0)
  }

  function Priorities(cs: seq<Candidate>): (r: seq<real>)
    ensures |r| == |cs| && forall i :: 0 <= i < |cs| ==> r[i] == cs[i].LiquidityPriority() as real
  {
    seq(|cs|, i requires 0 <= i < |cs| => cs[i].LiquidityPriority() as real)
  }

  lemma {:induction false} LiquidLoadIsWorth(cs: seq<Candidate>, x: Selection)
    requires |x| == |cs|
    ensures Worth(x, Priorities(cs)) == LiquidLoad(cs, x) as real
  {
    hide Priorities;
    if cs != [] {
      var n := |cs| - 1;
      LiquidLoadIsWorth(cs[..n], x[..n]);
      assert Priorities(cs)[..n] == Priorities(cs[..n]);
    }
  }

  /** On the sorted list, no selection within the caps takes more liquid candidates than greedy. */
  lemma MostLiquidTaken(candidates: seq<Candidate>, x: Selection, caps: Caps)
    requires |x| == |Sorted(candidates)| && Feasible(Sorted(candidates), x, caps)
    ensures LiquidLoad(Sorted(candidates), x) <= LiquidLoad(Sorted(candidates), Greedy(Sorted(candidates), caps))
  {
    hide Sorted, Feasible, Greedy, LiquidLoad, Worth;
    var cs := Sorted(candidates);
    SortedIsOrdered(candidates);
    forall i | 0 <= i < |cs| - 1 ensures Priorities(cs)[i] >= Priorities(cs)[i + 1] {
      assert MayPrecede(cs[i], cs[i + 1]);
    }
    GreedyIsWorthMost(cs, x, caps, Priorities(cs));
    LiquidLoadIsWorth(cs, x);
    LiquidLoadIsWorth(cs, Greedy(cs, caps));
  }

  // ---- The program's loop ----

  datatype Summary = Summary(
    selected: seq<Candidate>,
    nearMoneyCandidates: nat,
    liquidityHintCandidates: nat,
    liquidityFirstSelected: nat,
    perSymbolLiquidityFirst: map<string, nat>,
    skippedFarRows: nat,
    perSymbolCandidates: map<string, nat>,
    perSymbolSelected: map<string, nat>)

  function CountOf<K>(counts: map<K, nat>, key: K): nat { if key in counts then counts[key] else 0 }

  function LiquidIn(cs: seq<Candidate>): nat {
    if cs == [] then 0 else LiquidIn(cs[..|cs| - 1]) + cs[|cs| - 1].LiquidityPriority()
  }

  /** The liquid candidates of one symbol. */
  function LiquidOf(cs: seq<Candidate>, symbol: string): nat {
    if cs == [] then 0
    else
      var last := cs[|cs| - 1];
      LiquidOf(cs[..|cs| - 1], symbol) + (if last.symbol == symbol then last.LiquidityPriority() else 0)
  }

  /** The counter holds the true number of every symbol, and names no symbol without one. */
  ghost predicate Tallies(counts: map<string, nat>, number: string -> nat) {
    forall symbol: string ::
      CountOf(counts, symbol) == number(symbol) && (symbol in counts ==> counts[symbol] > 0)
  }

  lemma {:induction false} PickedLoads(cs: seq<Candidate>, x: Selection)
    requires |x| == |cs|
    ensures |Picked(cs, x)| == Load(cs, x, Everything)
    ensures LiquidIn(Picked(cs, x)) == LiquidLoad(cs, x)
  {
    if cs != [] {
      PickedLoads(cs[..|cs| - 1], x[..|x| - 1]);
      var before := Picked(cs[..|cs| - 1], x[..|x| - 1]);
      assert (before + [cs[|cs| - 1]])[..|before|] == before && before + [] == before;
    }
  }

  method TallySymbols(cs: seq<Candidate>) returns (counts: map<string, nat>)
    ensures Tallies(counts, symbol => Count(cs, Symbol(symbol)))
  {
    counts := map[];
    var j := 0;
    while j < |cs|
      invariant 0 <= j <= |cs|
      invariant Tallies(counts, symbol => Count(cs[..j], Symbol(symbol)))
    {
      assert cs[..j + 1][..j] == cs[..j];
      var symbol := cs[j].symbol;
      counts := counts[symbol := CountOf(counts, symbol) + 1];
      j := j + 1;
    }
    assert cs[..j] == cs;
  }

  method TallyLiquid(cs: seq<Candidate>) returns (counts: map<string, nat>)
    ensures Tallies(counts, symbol => LiquidOf(cs, symbol))
  {
    counts := map[];
    var j := 0;
    while j < |cs|
      invariant 0 <= j <= |cs|
      invariant Tallies(counts, symbol => LiquidOf(cs[..j], symbol))
    {
      assert cs[..j + 1][..j] == cs[..j];
      if cs[j].LiquidityPriority() > 0 {
        var symbol := cs[j].symbol;
        counts := counts[symbol := CountOf(counts, symbol) + 1];
      }
      j := j + 1;
    }
    assert cs[..j] == cs;
  }

  method CountLiquid(selected: seq<Candidate>) returns (liquid: nat)
    ensures liquid == LiquidIn(selected)
  {
    liquid := 0;
    var j := 0;
    while j < |selected|
      invariant 0 <= j <= |selected|
      invariant liquid == LiquidIn(selected[..j])
    {
      assert selected[..j + 1][..j] == selected[..j];
      liquid := liquid + selected[j].LiquidityPriority();
      j := j + 1;
    }
    assert selected[..j] == selected;
  }

  /** One turn of the loop: what taking or passing over the next candidate does to the picks and to every load. */
  lemma GreedyStep(cs: seq<Candidate>, i: nat, caps: Caps)
    requires i < |cs|
    ensures
      var before, after, c := cs[..i], cs[..i + 1], cs[i];
      var x, y := Greedy(before, caps), Greedy(after, caps);
      var taken :=
        Load(before, x, Symbol(c.symbol)) < caps.perSymbol
        && Load(before, x, SymbolWindow(c.symbol, c.Window())) < caps.perWindow;
      && Picked(after, y) == Picked(before, x) + (if taken then [c] else [])
      && (forall symbol: string :: Load(after, y, Symbol(symbol))
            == Load(before, x, Symbol(symbol)) + (if taken && c.symbol == symbol then 1 else 0))
      && (forall symbol: string, window: Window :: Load(after, y, SymbolWindow(symbol, window))
            == Load(before, x, SymbolWindow(symbol, window))
               + (if taken && c.symbol == symbol && c.Window() == window then 1 else 0))
  {
    hide Greedy, Load;
    var after := cs[..i + 1];
    assert after[..i] == cs[..i];
    GreedyGrows(after, caps);
    var y := Greedy(after, caps);
    forall symbol: string
      ensures Load(after, y, Symbol(symbol))
           == Load(cs[..i], y[..i], Symbol(symbol)) + (if y[i] && cs[i].symbol == symbol then 1 else 0)
    {
      LoadGrows(after, y, Symbol(symbol));
    }
    forall symbol: string, window: Window
      ensures Load(after, y, SymbolWindow(symbol, window))
           == Load(cs[..i], y[..i], SymbolWindow(symbol, window))
              + (if y[i] && cs[i].symbol == symbol && cs[i].Window() == window then 1 else 0)
    {
      LoadGrows(after, y, SymbolWindow(symbol, window));
    }
  }

  lemma {:induction false} LoadAtMostLength(cs: seq<Candidate>, x: Selection)
    requires |x| == |cs|
    ensures Load(cs, x, Everything) <= |cs|
  {
    if cs != [] {
      LoadAtMostLength(cs[..|cs| - 1], x[..|x| - 1]);
    }
  }

  method SelectNearMoney(candidates: seq<Candidate>, perSymbolLimit: int, perWindowLimit: int) returns (r: Summary)
    ensures
      var cs := Sorted(candidates);
      var x := Greedy(cs, Caps(AtLeastZero(perSymbolLimit), AtLeastZero(perWindowLimit)));
      && r.selected == Picked(cs, x)
      && r.nearMoneyCandidates == |candidates|
      && r.liquidityHintCandidates == LiquidIn(candidates)
      && r.liquidityFirstSelected == LiquidLoad(cs, x)
      && |r.selected| + r.skippedFarRows == |candidates|
      && Tallies(r.perSymbolCandidates, symbol => Count(candidates, Symbol(symbol)))
      && Tallies(r.perSymbolSelected, symbol => Load(cs, x, Symbol(symbol)))
      && Tallies(r.perSymbolLiquidityFirst, symbol => LiquidOf(r.selected, symbol))
  {
    hide KeyAtMost, Sorted, Load, Greedy, Picked, LiquidLoad, LiquidIn, LiquidOf, Count, In, TextAtMost;
    var cs := Sorted(candidates);
    ghost var caps := Caps(AtLeastZero(perSymbolLimit), AtLeastZero(perWindowLimit));
    var selected: seq<Candidate> := [];
    var perSymbol: map<string, nat> := map[];
    var perWindow: map<(string, Window), nat> := map[];
    var i := 0;
    NothingTaken(cs[..0], caps);
    while i < |cs|
      invariant 0 <= i <= |cs|
      invariant selected == Picked(cs[..i], Greedy(cs[..i], caps))
      invariant forall symbol: string ::
        CountOf(perSymbol, symbol) == Load(cs[..i], Greedy(cs[..i], caps), Symbol(symbol))
      invariant forall symbol: string :: symbol in perSymbol ==> perSymbol[symbol] > 0
      invariant forall symbol: string, window: Window ::
        CountOf(perWindow, (symbol, window)) == Load(cs[..i], Greedy(cs[..i], caps), SymbolWindow(symbol, window))
    {
      var c := cs[i];
      GreedyStep(cs, i, caps);
      i := i + 1;
      var symbolCount := CountOf(perSymbol, c.symbol);
      if symbolCount >= AtLeastZero(perSymbolLimit) {
        continue;
      }
      var windowCount := CountOf(perWindow, (c.symbol, c.Window()));
      if windowCount >= AtLeastZero(perWindowLimit) {
        continue;
      }
      selected := selected + [c];
      perSymbol := perSymbol[c.symbol := symbolCount + 1];
      perWindow := perWindow[(c.symbol, c.Window()) := windowCount + 1];
    }
    assert cs[..i] == cs;
    PickedLoads(cs, Greedy(cs, caps));
    LoadAtMostLength(cs, Greedy(cs, caps));
    var hinted := CountLiquid(candidates);
    var liquid := CountLiquid(selected);
    var perSymbolLiquid := TallyLiquid(selected);
    var perSymbolCandidates := TallySymbols(candidates);
    r := Summary(selected, |candidates|, hinted, liquid, perSymbolLiquid, |candidates| - |selected|,
      perSymbolCandidates, perSymbol);
  }
}
