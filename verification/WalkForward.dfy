/**
 The expanding-window comparison of models (scripts/crypto_distribution_walk_forward.py): every forecast is made from
 rows that had settled by its own time, and nothing later can reach it.
 */
module WalkForward {
  import opened Support
  import opened RealVectors
  import IntervalScoring
  import Lists

  /** What is known of a row when its forecast is made. */
  datatype Known = Known(
    forecastJd: real, symbol: string, horizonBand: string, forecastSigma: real, forecastDrift: real,
    marketImplied: real, features: seq<real>, terms: string)

  /** What becomes known of it at settlement. */
  datatype Settlement = Settlement(settlementJd: real, realizedLogMove: Option<real>, outcome: real)

  datatype Row = Row(known: Known, settlement: Settlement)

  datatype Level = SymbolHorizon | Symbol | Global

  datatype Mixture = Mixture(weight: real, mean1: real, sigma1: real, mean2: real, sigma2: real)

  /** The numerical routines, which see settled rows as history but of the row they forecast only what is known. */
  datatype Routines = Routines(
    sqrt: real -> real,
    normalPdf: (real, real, real) -> real,
    volatilityScale: (seq<Row>, real) -> real,
    studentDf: (seq<Row>, real) -> real,
    gaussian: (Known, real, real) -> real,
    studentT: (Known, real, real, real) -> real,
    gaussianMixture: (Known, Mixture, real) -> real)

  datatype Prediction = Prediction(
    known: Known, level: Level, trainN: nat, bias: real, scale: real, studentDf: real, mixture: Mixture,
    distribution: real, studentT: real, gaussianMixture: real)

  const MIN_SEGMENT_TRAIN: nat := 10
  const DRIFT_PRIOR_WEIGHT: real := 30.0
  const MAX_ABS_LOCATION_BIAS: real := 1.0
  const MIXTURE_PRIOR_WEIGHT: real := 10.0
  const PRIOR_EACH: real := 5.0
  const MIXTURE_ROUNDS: nat := 30

  // ---- Histories ----

  function Filter(rows: seq<Row>, keep: Row -> bool): seq<Row> {
    if rows == [] then []
    else Filter(rows[..|rows| - 1], keep) + (if keep(rows[|rows| - 1]) then [rows[|rows| - 1]] else [])
  }

  function SettledBy(time: real): Row -> bool { (row: Row) => row.settlement.settlementJd <= time }

  /** The rows that had settled when the forecast was made. */
  function SettledHistory(history: seq<Row>, known: Known): seq<Row> { Filter(history, SettledBy(known.forecastJd)) }

  function CalibrationHistory(history: seq<Row>, known: Known): (seq<Row>, Level) {
    var segment := Filter(history,
      (row: Row) => row.known.symbol == known.symbol && row.known.horizonBand == known.horizonBand);
    if |segment| >= MIN_SEGMENT_TRAIN then (segment, SymbolHorizon)
    else
      var symbol := Filter(history, (row: Row) => row.known.symbol == known.symbol);
      if |symbol| >= MIN_SEGMENT_TRAIN then (symbol, Symbol) else (history, Global)
  }

  // ---- Calibration ----

  function StandardizedResidual(row: Row): Option<real> {
    if row.known.forecastSigma <= 0.0 || row.settlement.realizedLogMove == None then None
    else Some((row.settlement.realizedLogMove.value - row.known.forecastDrift) / row.known.forecastSigma)
  }

  function Residuals(history: seq<Row>, shift: real): seq<real> {
    if history == [] then []
    else
      Residuals(history[..|history| - 1], shift)
      + (var r := StandardizedResidual(history[|history| - 1]); if r.Some? then [r.value - shift] else [])
  }

  function Clamp(low: real, high: real, v: real): real { if v < low then low else if v > high then high else v }

  /** The mean residual, shrunk towards zero and capped. */
  function LocationBias(history: seq<Row>): (r: real)
    ensures -MAX_ABS_LOCATION_BIAS <= r <= MAX_ABS_LOCATION_BIAS
  {
    var residuals := Residuals(history, 0.0);
    var n := |residuals| as real;
    if residuals == [] then 0.0
    else Clamp(-MAX_ABS_LOCATION_BIAS, MAX_ABS_LOCATION_BIAS, Sum(residuals) / n * (n / (n + DRIFT_PRIOR_WEIGHT)))
  }

  predicate AtMost(a: real, b: real) { a <= b }

  const TINY: real := 1e-300
  const SMALL: real := 1e-9

  ghost predicate DensityIsNotNegative(f: Routines) {
    forall x: real, mean: real, sigma: real :: f.normalPdf(x, mean, sigma) >= 0.0
  }

  lemma ShareIsAtMostOne(part: real, whole: real)
    requires 0.0 <= part <= whole && whole > 0.0
    ensures 0.0 <= part / whole <= 1.0
  {
  }

  /** How much the first component answers for a value. */
  function Responsibility(f: Routines, m: Mixture, value: real): (r: real)
    requires DensityIsNotNegative(f) && 0.0 <= m.weight <= 1.0
    ensures 0.0 <= r <= 1.0
  {
    var first := m.weight * f.normalPdf(value, m.mean1, m.sigma1);
    var second := (1.0 - m.weight) * f.normalPdf(value, m.mean2, m.sigma2);
    assert first >= 0.0 && second >= 0.0;
    ShareIsAtMostOne(first, Max(first + second, TINY));
    first / Max(first + second, TINY)
  }

  function Responsibilities(f: Routines, m: Mixture, values: seq<real>): (r: seq<real>)
    requires DensityIsNotNegative(f) && 0.0 <= m.weight <= 1.0
    ensures |r| == |values| && forall i :: 0 <= i < |r| ==> r[i] == Responsibility(f, m, values[i])
  {
    if values == [] then []
    else Responsibilities(f, m, values[..|values| - 1]) + [Responsibility(f, m, values[|values| - 1])]
  }

  /** The total of r[i] * values[i]. */
  function Dot(r: seq<real>, values: seq<real>): real
    requires |r| == |values|
  {
    if r == [] then 0.0 else Dot(r[..|r| - 1], values[..|r| - 1]) + r[|r| - 1] * values[|r| - 1]
  }

  function Complements(r: seq<real>): (s: seq<real>)
    ensures |s| == |r| && forall i :: 0 <= i < |s| ==> s[i] == 1.0 - r[i]
  {
    if r == [] then [] else Complements(r[..|r| - 1]) + [1.0 - r[|r| - 1]]
  }

  function SquaresFrom(values: seq<real>, mean: real): (s: seq<real>)
    ensures |s| == |values| && forall i :: 0 <= i < |s| ==> s[i] == (values[i] - mean) * (values[i] - mean)
  {
    if values == [] then []
    else
      var d := values[|values| - 1] - mean;
      SquaresFrom(values[..|values| - 1], mean) + [d * d]
  }

  function Weight(count: real, n: real): real
    requires 0.0 <= count <= n
  {
    (count + PRIOR_EACH) / (n + MIXTURE_PRIOR_WEIGHT)
  }

  function WeightedMean(r: seq<real>, values: seq<real>, count: real): real
    requires |r| == |values|
  {
    Dot(r, values) / Max(count, SMALL)
  }

  const MIN_SIGMA: real := 0.1
  const MAX_SIGMA: real := 3.0

  function Width(f: Routines, r: seq<real>, values: seq<real>, mean: real, count: real): (s: real)
    requires |r| == |values| && count >= 0.0
    ensures MIN_SIGMA <= s <= MAX_SIGMA
  {
    Clamp(MIN_SIGMA, MAX_SIGMA, f.sqrt((Dot(r, SquaresFrom(values, mean)) + PRIOR_EACH) / (count + PRIOR_EACH)))
  }

  /** The new mixture for the given responsibilities. */
  function Refit(f: Routines, values: seq<real>, r: seq<real>): Mixture
    requires |r| == |values| && 0.0 <= Sum(r) <= |values| as real
  {
    var n := |values| as real;
    var count1 := Sum(r);
    var count2 := n - count1;
    var others := Complements(r);
    var mean1 := WeightedMean(r, values, count1);
    var mean2 := WeightedMean(others, values, count2);
    Mixture(Weight(count1, n), mean1, Width(f, r, values, mean1, count1), mean2,
      Width(f, others, values, mean2, count2))
  }

  /** The weight lies between the prior's shares, and the widths are bounded. */
  ghost predicate Sane(m: Mixture, n: nat) {
    && Weight(0.0, n as real) <= m.weight <= Weight(n as real, n as real)
    && 0.0 < m.weight < 1.0
    && MIN_SIGMA <= m.sigma1 <= MAX_SIGMA
    && MIN_SIGMA <= m.sigma2 <= MAX_SIGMA
  }

  lemma {:induction false} ShareTotal(r: seq<real>)
    requires forall i :: 0 <= i < |r| ==> 0.0 <= r[i] <= 1.0
    ensures 0.0 <= Sum(r) <= |r| as real
  {
    if r != [] {
      ShareTotal(r[1..]);
    }
  }

  lemma QuotientGrows(a: real, b: real, c: real)
    requires a <= b && c > 0.0
    ensures a / c <= b / c
  {
  }

  lemma QuotientsAdd(a: real, b: real, c: real)
    requires a + b == c && c > 0.0
    ensures a / c + b / c == 1.0
  {
  }

  lemma PositiveFactor(x: real, y: real)
    requires x * y > 0.0 && y > 0.0
    ensures x > 0.0
  {
  }

  lemma ProperFraction(part: real, whole: real)
    requires 0.0 < part < whole
    ensures 0.0 < part / whole < 1.0 && part / whole * whole == part
  {
    var q := part / whole;
    assert q * whole == part;
    assert (1.0 - q) * whole == whole - part;
    PositiveFactor(q, whole);
    PositiveFactor(1.0 - q, whole);
  }

  lemma WeightBounds(count: real, n: real)
    requires 0.0 <= count <= n
    ensures 0.0 < Weight(count, n) < 1.0
    ensures Weight(0.0, n) <= Weight(count, n) <= Weight(n, n)
    ensures 1.0 - Weight(count, n) == Weight(n - count, n)
  {
    ProperFraction(count + PRIOR_EACH, n + MIXTURE_PRIOR_WEIGHT);
    QuotientGrows(PRIOR_EACH, count + PRIOR_EACH, n + MIXTURE_PRIOR_WEIGHT);
    QuotientGrows(count + PRIOR_EACH, n + PRIOR_EACH, n + MIXTURE_PRIOR_WEIGHT);
    QuotientsAdd(count + PRIOR_EACH, n - count + PRIOR_EACH, n + MIXTURE_PRIOR_WEIGHT);
  }

  lemma RefitIsSane(f: Routines, values: seq<real>, r: seq<real>)
    requires |r| == |values| && 0.0 <= Sum(r) <= |values| as real
    ensures Sane(Refit(f, values, r), |values|)
  {
    hide Complements, Sum, Weight, WeightedMean, Width;
    WeightBounds(Sum(r), |values| as real);
  }

  lemma EvenWeightIsSane(n: real)
    requires n >= 0.0
    ensures Weight(0.0, n) <= 0.5 <= Weight(n, n)
  {
    QuotientsAdd(0.5 * n + PRIOR_EACH, 0.5 * n + PRIOR_EACH, n + MIXTURE_PRIOR_WEIGHT);
    WeightBounds(0.5 * n, n);
  }

  /** The mixture after a number of rounds, starting from the quartiles. */
  function FitRounds(f: Routines, values: seq<real>, rounds: nat): (m: Mixture)
    requires DensityIsNotNegative(f) && |values| >= 4
    ensures Sane(m, |values|)
  {
    if rounds == 0 then
      var ordered := Lists.Sort(values, AtMost);
      EvenWeightIsSane(|values| as real);
      Mixture(0.5, ordered[|ordered| / 4], 1.0, ordered[3 * |ordered| / 4], 1.0)
    else
      var r := Responsibilities(f, FitRounds(f, values, rounds - 1), values);
      ShareTotal(r);
      RefitIsSane(f, values, r);
      Refit(f, values, r)
  }

  function Ordered(m: Mixture): Mixture {
    if m.mean1 > m.mean2 then Mixture(1.0 - m.weight, m.mean2, m.sigma2, m.mean1, m.sigma1) else m
  }

  function GaussianMixture(f: Routines, history: seq<Row>, bias: real): Mixture
    requires DensityIsNotNegative(f)
  {
    var values := Residuals(history, bias);
    if |values| < 4 then Mixture(0.5, 0.0, 1.0, 0.0, 1.0) else Ordered(FitRounds(f, values, MIXTURE_ROUNDS))
  }

  /** Whatever the rows, the fitted mixture is usable: its means are in order, its weight and widths bounded. */
  lemma MixtureIsUsable(f: Routines, history: seq<Row>, bias: real)
    requires DensityIsNotNegative(f)
    ensures
      var m := GaussianMixture(f, history, bias);
      m.mean1 <= m.mean2 && Sane(m, |Residuals(history, bias)|)
  {
    hide Residuals, FitRounds, Weight;
    var values := Residuals(history, bias);
    var n := |values| as real;
    if |values| >= 4 {
      var m := FitRounds(f, values, MIXTURE_ROUNDS);
      WeightBounds(0.0, n);
      WeightBounds(n, n);
    } else {
      EvenWeightIsSane(n);
    }
  }

  lemma SaneWeight(m: Mixture, n: nat)
    requires Sane(m, n)
    ensures 0.0 <= m.weight <= 1.0
  {
  }

  lemma FirstRound(f: Routines, values: seq<real>)
    requires DensityIsNotNegative(f) && |values| >= 4
    ensures
      var ordered := Lists.Sort(values, AtMost);
      FitRounds(f, values, 0) == Mixture(0.5, ordered[|ordered| / 4], 1.0, ordered[3 * |ordered| / 4], 1.0)
  {
  }

  lemma NextRound(f: Routines, values: seq<real>, round: nat)
    requires DensityIsNotNegative(f) && |values| >= 4
    ensures
      var r := Responsibilities(f, FitRounds(f, values, round), values);
      && 0.0 <= Sum(r) <= |values| as real
      && FitRounds(f, values, round + 1) == Refit(f, values, r)
  {
    hide Refit, Sum, Responsibility;
    ShareTotal(Responsibilities(f, FitRounds(f, values, round), values));
  }

  method FitMixture(f: Routines, history: seq<Row>, bias: real) returns (m: Mixture)
    requires DensityIsNotNegative(f)
    ensures m == GaussianMixture(f, history, bias)
  {
    hide Residuals, Lists.Sort, Sane, DensityIsNotNegative, Responsibility, Refit, TINY, Sum, FitRounds;
    var values := Residuals(history, bias);
    if |values| < 4 {
      return Mixture(0.5, 0.0, 1.0, 0.0, 1.0);
    }
    var ordered := Lists.Sort(values, AtMost);
    m := Mixture(0.5, ordered[|ordered| / 4], 1.0, ordered[3 * |ordered| / 4], 1.0);
    FirstRound(f, values);
    for round := 0 to MIXTURE_ROUNDS
      invariant m == FitRounds(f, values, round)
    {
      SaneWeight(m, |values|);
      var responsibilities: seq<real> := [];
      for i := 0 to |values|
        invariant responsibilities == Responsibilities(f, m, values[..i])
      {
        assert values[..i + 1][..i] == values[..i];
        responsibilities := responsibilities + [Responsibility(f, m, values[i])];
      }
      assert values[..|values|] == values;
      NextRound(f, values, round);
      m := Refit(f, values, responsibilities);
    }
    m := Ordered(m);
  }

  // ---- Predictions ----

  function Predict(f: Routines, calibration: seq<Row>, level: Level, known: Known): Prediction
    requires DensityIsNotNegative(f)
  {
    var bias := LocationBias(calibration);
    var scale := f.volatilityScale(calibration, bias);
    var df := f.studentDf(calibration, bias);
    var mixture := GaussianMixture(f, calibration, bias);
    Prediction(known, level, |calibration|, bias, scale, df, mixture,
      f.gaussian(known, scale, bias), f.studentT(known, scale, df, bias), f.gaussianMixture(known, mixture, bias))
  }

  /** The prediction for row i, from the settled rows before it. */
  function PredictionAt(f: Routines, rows: seq<Row>, i: nat): Prediction
    requires DensityIsNotNegative(f) && i < |rows|
  {
    var (calibration, level) := CalibrationHistory(SettledHistory(rows[..i], rows[i].known), rows[i].known);
    Predict(f, calibration, level, rows[i].known)
  }

  /** Where validation begins: the given fraction of the rows, at least one. */
  function Cut(n: nat, fraction: real): nat {
    var c := (n as real * fraction).Floor;
    if c < 1 then 1 else c
  }

  method Evaluate(f: Routines, rows: seq<Row>, fraction: real) returns (predictions: seq<Prediction>)
    requires DensityIsNotNegative(f)
    ensures |predictions| == if Cut(|rows|, fraction) <= |rows| then |rows| - Cut(|rows|, fraction) else 0
    ensures forall k :: 0 <= k < |predictions| ==> predictions[k] == PredictionAt(f, rows, Cut(|rows|, fraction) + k)
  {
    hide SettledHistory, CalibrationHistory, LocationBias, GaussianMixture, DensityIsNotNegative;
    predictions := [];
    var cut := Cut(|rows|, fraction);
    var index := cut;
    while index < |rows|
      invariant cut <= index
      invariant |predictions| == if cut <= |rows| then index - cut else 0
      invariant cut <= |rows| ==> index <= |rows|
      invariant forall k :: 0 <= k < |predictions| ==> predictions[k] == PredictionAt(f, rows, cut + k)
    {
      var known := rows[index].known;
      var history := SettledHistory(rows[..index], known);
      var calibrated := CalibrationHistory(history, known);
      var bias := LocationBias(calibrated.0);
      var scale := f.volatilityScale(calibrated.0, bias);
      var df := f.studentDf(calibrated.0, bias);
      var mixture := FitMixture(f, calibrated.0, bias);
      predictions := predictions + [
        Prediction(known, calibrated.1, |calibrated.0|, bias, scale, df, mixture,
          f.gaussian(known, scale, bias), f.studentT(known, scale, df, bias), f.gaussianMixture(known, mixture, bias))];
      index := index + 1;
    }
  }

  // ---- Which rows calibrate a prediction ----

  ghost predicate Ascending(at: seq<nat>) { forall j, k :: 0 <= j < k < |at| ==> at[j] < at[k] }

  ghost function RowsAt(rows: seq<Row>, at: seq<nat>): (r: seq<Row>)
    requires forall k :: 0 <= k < |at| ==> at[k] < |rows|
    ensures |r| == |at| && forall k :: 0 <= k < |r| ==> r[k] == rows[at[k]]
  {
    seq(|at|, k requires 0 <= k < |at| => rows[at[k]])
  }

  lemma AscendingAppend(at: seq<nat>, n: nat)
    requires Ascending(at) && forall k :: 0 <= k < |at| ==> at[k] < n
    ensures Ascending(at + [n]) && forall j :: j in at + [n] <==> j in at || j == n
  {
  }

  lemma RowsAtFront(rows: seq<Row>, at: seq<nat>)
    requires rows != [] && forall k :: 0 <= k < |at| ==> at[k] < |rows| - 1
    ensures RowsAt(rows, at) == RowsAt(rows[..|rows| - 1], at)
    ensures RowsAt(rows, at + [|rows| - 1]) == RowsAt(rows[..|rows| - 1], at) + [rows[|rows| - 1]]
  {
  }

  lemma AscendingNothing()
    ensures Ascending([])
  {
  }

  lemma {:induction false} FilterPlaces(rows: seq<Row>, keep: Row -> bool) returns (at: seq<nat>)
    ensures Ascending(at) && forall k :: 0 <= k < |at| ==> at[k] < |rows|
    ensures Filter(rows, keep) == RowsAt(rows, at)
    ensures forall j :: 0 <= j < |rows| ==> (j in at <==> keep(rows[j]))
  {
    hide Ascending, RowsAt;
    if rows == [] {
      at := [];
      assert Ascending(at) by { AscendingNothing(); }
    } else {
      var n := |rows| - 1;
      at := FilterPlaces(rows[..n], keep);
      RowsAtFront(rows, at);
      AscendingAppend(at, n);
      if keep(rows[n]) {
        at := at + [n];
      }
    }
  }

  /** A list that ascends holds as many numbers as are in it. */
  lemma {:induction false} AscendingCount(at: seq<nat>, numbers: set<nat>)
    requires Ascending(at) && forall j :: j in at <==> j in numbers
    ensures |at| == |numbers|
  {
    if at == [] {
      assert numbers == {};
    } else {
      var n := |at| - 1;
      assert at == at[..n] + [at[n]];
      assert forall k :: 0 <= k < n ==> at[..n][k] < at[n];
      AscendingCount(at[..n], numbers - {at[n]});
    }
  }

  /**
   The earlier rows settled when row i was forecast: all of them, those of its symbol, or those of its symbol and
   horizon band.
   */
  ghost function Earlier(rows: seq<Row>, i: nat, level: Level): set<nat>
    requires i < |rows|
  {
    set j: nat | j < i
      && rows[j].settlement.settlementJd <= rows[i].known.forecastJd
      && (level == Global || rows[j].known.symbol == rows[i].known.symbol)
      && (level == SymbolHorizon ==> rows[j].known.horizonBand == rows[i].known.horizonBand)
  }

  lemma PlacesCompose(rows: seq<Row>, outer: seq<nat>, inner: seq<nat>) returns (at: seq<nat>)
    requires Ascending(outer) && forall k :: 0 <= k < |outer| ==> outer[k] < |rows|
    requires Ascending(inner) && forall k :: 0 <= k < |inner| ==> inner[k] < |outer|
    ensures Ascending(at) && forall k :: 0 <= k < |at| ==> at[k] < |rows|
    ensures RowsAt(rows, at) == RowsAt(RowsAt(rows, outer), inner)
    ensures forall j :: j in at <==> exists k :: 0 <= k < |outer| && k in inner && outer[k] == j
  {
    at := seq(|inner|, k requires 0 <= k < |inner| => outer[inner[k]]);
    forall k | 0 <= k < |outer| && k in inner ensures outer[k] in at {
      var n :| 0 <= n < |inner| && inner[n] == k;
      assert at[n] == outer[k];
    }
  }

  /** The settled rows that a filter keeps, by their places. */
  lemma SettledPlaces(rows: seq<Row>, i: nat, level: Level, keep: Row -> bool) returns (at: seq<nat>)
    requires i < |rows|
    requires forall j :: 0 <= j < i && rows[j].settlement.settlementJd <= rows[i].known.forecastJd ==>
      (keep(rows[j]) <==> j in Earlier(rows, i, level))
    ensures Ascending(at) && forall k :: 0 <= k < |at| ==> at[k] < |rows|
    ensures Filter(SettledHistory(rows[..i], rows[i].known), keep) == RowsAt(rows, at)
    ensures forall j :: j in at <==> j in Earlier(rows, i, level)
    ensures |at| == |Earlier(rows, i, level)|
  {
    hide Filter;
    var known, history := rows[i].known, SettledHistory(rows[..i], rows[i].known);
    var outer := FilterPlaces(rows[..i], SettledBy(known.forecastJd));
    var inner := FilterPlaces(history, keep);
    at := PlacesCompose(rows[..i], outer, inner);
    assert RowsAt(rows, at) == RowsAt(rows[..i], at);
    forall j ensures j in at <==> j in Earlier(rows, i, level) {
      if j in Earlier(rows, i, level) {
        assert j in outer;
        var k :| 0 <= k < |outer| && outer[k] == j;
        assert history[k] == rows[j] && k in inner;
      }
      if j in at {
        var k :| 0 <= k < |outer| && k in inner && outer[k] == j;
        assert history[k] == rows[j] && j in outer;
      }
    }
    AscendingCount(at, Earlier(rows, i, level));
  }

  lemma {:induction false} FilterAll(rows: seq<Row>, keep: Row -> bool)
    requires forall row :: row in rows ==> keep(row)
    ensures Filter(rows, keep) == rows
  {
    if rows != [] {
      FilterAll(rows[..|rows| - 1], keep);
    }
  }

  /** The places of the calibration rows of row i, and the level they were chosen at. */
  ghost predicate Calibrates(rows: seq<Row>, i: nat, at: seq<nat>, level: Level)
    requires i < |rows|
  {
    && Ascending(at) && (forall j :: j in at <==> j in Earlier(rows, i, level)) && |at| == |Earlier(rows, i, level)|
    && level == (if |Earlier(rows, i, SymbolHorizon)| >= 10 then SymbolHorizon
                 else if |Earlier(rows, i, Symbol)| >= 10 then Symbol
                 else Global)
  }

  /**
   The calibration rows of row i are, in order, exactly the earlier rows settled by its forecast that share its symbol
   and band if there are ten of them, else those that share its symbol if there are ten, else all; the level says which.
   */
  lemma CalibrationExactly(rows: seq<Row>, i: nat) returns (at: seq<nat>)
    requires i < |rows|
    ensures forall k :: 0 <= k < |at| ==> at[k] < |rows|
    ensures
      var calibrated := CalibrationHistory(SettledHistory(rows[..i], rows[i].known), rows[i].known);
      calibrated.0 == RowsAt(rows, at) && Calibrates(rows, i, at, calibrated.1)
  {
    hide Filter;
    var known, history := rows[i].known, SettledHistory(rows[..i], rows[i].known);
    var segment := SettledPlaces(rows, i, SymbolHorizon,
      (row: Row) => row.known.symbol == known.symbol && row.known.horizonBand == known.horizonBand);
    var symbol := SettledPlaces(rows, i, Symbol, (row: Row) => row.known.symbol == known.symbol);
    var all := SettledPlaces(rows, i, Global, (row: Row) => true);
    FilterAll(history, (row: Row) => true);
    at := if |segment| >= 10 then segment else if |symbol| >= 10 then symbol else all;
  }

  // ---- What is fitted to them ----

  ghost predicate Usable(row: Row) { row.known.forecastSigma > 0.0 && row.settlement.realizedLogMove.Some? }

  /** The residual, shifted back and in units of the row's own sigma, is the realized move less the drift. */
  ghost predicate IsResidual(row: Row, residual: real, shift: real) {
    && Usable(row)
    && (residual + shift) * row.known.forecastSigma == row.settlement.realizedLogMove.value - row.known.forecastDrift
  }

  lemma NoResiduals(shift: real)
    ensures Residuals([], shift) == []
  {
  }

  lemma ResidualsGrow(history: seq<Row>, shift: real)
    requires history != []
    ensures
      var n := |history| - 1;
      var r := StandardizedResidual(history[n]);
      Residuals(history, shift) == Residuals(history[..n], shift) + if r.Some? then [r.value - shift] else []
  {
  }

  lemma StandardizedExactly(row: Row, shift: real)
    ensures StandardizedResidual(row).Some? <==> Usable(row)
    ensures Usable(row) ==> IsResidual(row, StandardizedResidual(row).value - shift, shift)
  {
    if Usable(row) {
      var move := row.settlement.realizedLogMove.value - row.known.forecastDrift;
      assert move / row.known.forecastSigma * row.known.forecastSigma == move;
    }
  }

  /** The residuals are, in order, those of exactly the usable rows. */
  lemma {:induction false} ResidualsExactly(history: seq<Row>, shift: real) returns (at: seq<nat>)
    ensures Ascending(at) && |at| == |Residuals(history, shift)|
    ensures forall k :: 0 <= k < |at| ==>
      at[k] < |history| && IsResidual(history[at[k]], Residuals(history, shift)[k], shift)
    ensures forall j :: 0 <= j < |history| ==> (j in at <==> Usable(history[j]))
  {
    hide Ascending, IsResidual, Usable, StandardizedResidual, Residuals;
    if history == [] {
      at := [];
      AscendingNothing();
      assert Residuals(history, shift) == [] by { NoResiduals(shift); }
    } else {
      var n := |history| - 1;
      at := ResidualsExactly(history[..n], shift);
      AscendingAppend(at, n);
      ResidualsGrow(history, shift);
      StandardizedExactly(history[n], shift);
      if Usable(history[n]) {
        at := at + [n];
      }
    }
  }

  lemma Signs(x: real, c: real)
    requires c > 0.0
    ensures x >= 0.0 <==> x * c >= 0.0
    ensures x <= 0.0 <==> x * c <= 0.0
  {
  }

  lemma SameProduct(x: real, y: real, c: real)
    requires c > 0.0 && x * c == y * c
    ensures x == y
  {
    assert (x - y) * c == 0.0;
  }

  lemma ShrunkMean(total: real, n: real)
    requires n > 0.0
    ensures total / n * (n / (n + 30.0)) == total / (n + 30.0)
    ensures total / (n + 30.0) * (n + 30.0) == total
    ensures total >= n + 30.0 <==> total / (n + 30.0) >= 1.0
    ensures total <= -(n + 30.0) <==> total / (n + 30.0) <= -1.0
  {
    var q := total / (n + 30.0);
    assert q * (n + 30.0) == total;
    assert total / n * n == total;
    assert (q - 1.0) * (n + 30.0) == total - (n + 30.0);
    assert (q + 1.0) * (n + 30.0) == total + (n + 30.0);
    Signs(q - 1.0, n + 30.0);
    Signs(q + 1.0, n + 30.0);
    var s := n / (n + 30.0);
    assert s * (n + 30.0) == n;
    assert total / n * s * (n + 30.0) == total / n * n;
    SameProduct(total / n * s, q, n + 30.0);
  }

  lemma NoTotal()
    ensures Sum([]) == 0.0
  {
  }

  /** The bias is the total residual over thirty more than their number, cut off at one. */
  lemma LocationBiasExactly(history: seq<Row>)
    ensures
      var total, weight := Sum(Residuals(history, 0.0)), |Residuals(history, 0.0)| as real + 30.0;
      && (total >= weight ==> LocationBias(history) == 1.0)
      && (total <= -weight ==> LocationBias(history) == -1.0)
      && (-weight <= total <= weight ==> LocationBias(history) * weight == total)
  {
    hide Residuals, Sum;
    var residuals := Residuals(history, 0.0);
    if residuals == [] {
      assert Sum([]) == 0.0 by { NoTotal(); }
    } else {
      ShrunkMean(Sum(residuals), |residuals| as real);
    }
  }

  ghost function Products(r: seq<real>, values: seq<real>): (p: seq<real>)
    requires |r| == |values|
    ensures |p| == |r| && forall i :: 0 <= i < |p| ==> p[i] == r[i] * values[i]
  {
    seq(|r|, i requires 0 <= i < |r| => r[i] * values[i])
  }

  lemma {:induction false} SumAppends(v: seq<real>, x: real)
    ensures Sum(v + [x]) == Sum(v) + x
  {
    if v != [] {
      SumAppends(v[1..], x);
      assert (v + [x])[1..] == v[1..] + [x];
    } else {
      assert ([] + [x])[1..] == [];
    }
  }

  lemma {:induction false} DotIsSum(r: seq<real>, values: seq<real>)
    requires |r| == |values|
    ensures Dot(r, values) == Sum(Products(r, values))
  {
    hide Sum;
    if r == [] {
      NoTotal();
    } else {
      var n := |r| - 1;
      DotIsSum(r[..n], values[..n]);
      SumAppends(Products(r[..n], values[..n]), r[n] * values[n]);
      var front := Products(r[..n], values[..n]);
      assert forall i :: 0 <= i < n ==> Products(r, values)[i] == front[i];
      assert Products(r, values)[n] == r[n] * values[n];
      assert |Products(r, values)| == n + 1 && |front| == n;
      assert Products(r, values) == front + [r[n] * values[n]];
    }
  }

  /** The first mixture: equal halves of unit width at the two quartiles. */
  ghost predicate AtQuartiles(values: seq<real>, m: Mixture)
    requires |values| >= 4
  {
    exists ordered: seq<real> ::
      && multiset(ordered) == multiset(values) && |ordered| == |values|
      && (forall i, j :: 0 <= i < j < |ordered| ==> ordered[i] <= ordered[j])
      && m == Mixture(0.5, ordered[|values| / 4], 1.0, ordered[3 * |values| / 4], 1.0)
  }

  ghost predicate IsShare(f: Routines, m: Mixture, value: real, share: real) {
    var first, second :=
      m.weight * f.normalPdf(value, m.mean1, m.sigma1), (1.0 - m.weight) * f.normalPdf(value, m.mean2, m.sigma2);
    share * (if first + second < 1e-300 then 1e-300 else first + second) == first
  }

  /** The shares that the first component takes of the values. */
  ghost predicate AreShares(f: Routines, m: Mixture, values: seq<real>, r: seq<real>) {
    |r| == |values| && forall i :: 0 <= i < |r| ==> IsShare(f, m, values[i], r[i])
  }

  /** Mean and width of a component that takes these shares, whose sum is count. */
  ghost predicate FitsShares(
    f: Routines, values: seq<real>, r: seq<real>, count: real, mean: real, sigma: real)
    requires |r| == |values| && count >= 0.0
  {
    && mean * (if count < 1e-9 then 1e-9 else count) == Sum(Products(r, values))
    && (var s := f.sqrt((Sum(Products(r, SquaresFrom(values, mean))) + 5.0) / (count + 5.0));
        sigma == if s < 0.1 then 0.1 else if s > 3.0 then 3.0 else s)
  }

  /** One round: the shares under the old mixture, and the mixture that fits them under a prior of five each. */
  ghost predicate Improves(f: Routines, values: seq<real>, m: Mixture, next: Mixture) {
    exists r: seq<real> ::
      && AreShares(f, m, values, r) && 0.0 <= Sum(r) <= |values| as real
      && next.weight * (|values| as real + 10.0) == Sum(r) + 5.0
      && FitsShares(f, values, r, Sum(r), next.mean1, next.sigma1)
      && FitsShares(f, values, Complements(r), |values| as real - Sum(r), next.mean2, next.sigma2)
  }

  lemma QuotientTimes(a: real, b: real)
    requires b > 0.0
    ensures a / b * b == a
  {
  }

  lemma ResponsibilityIsShare(f: Routines, m: Mixture, value: real)
    requires DensityIsNotNegative(f) && 0.0 <= m.weight <= 1.0
    ensures IsShare(f, m, value, Responsibility(f, m, value))
  {
    hide DensityIsNotNegative;
    var first, second :=
      m.weight * f.normalPdf(value, m.mean1, m.sigma1), (1.0 - m.weight) * f.normalPdf(value, m.mean2, m.sigma2);
    QuotientTimes(first, Max(first + second, TINY));
  }

  lemma SharesAreShares(f: Routines, m: Mixture, values: seq<real>)
    requires DensityIsNotNegative(f) && 0.0 <= m.weight <= 1.0
    ensures AreShares(f, m, values, Responsibilities(f, m, values))
  {
    hide DensityIsNotNegative, Responsibility, IsShare;
    forall i | 0 <= i < |values| ensures IsShare(f, m, values[i], Responsibility(f, m, values[i])) {
      ResponsibilityIsShare(f, m, values[i]);
    }
  }

  lemma ComponentFits(f: Routines, values: seq<real>, r: seq<real>, count: real)
    requires |r| == |values| && count >= 0.0
    ensures
      var mean := WeightedMean(r, values, count);
      FitsShares(f, values, r, count, mean, Width(f, r, values, mean, count))
  {
    hide SquaresFrom, Products, Dot, Sum;
    var mean := WeightedMean(r, values, count);
    DotIsSum(r, values);
    DotIsSum(r, SquaresFrom(values, mean));
    QuotientTimes(Dot(r, values), Max(count, SMALL));
  }

  lemma RefitFits(f: Routines, values: seq<real>, r: seq<real>)
    requires |r| == |values| && 0.0 <= Sum(r) <= |values| as real
    ensures
      var next := Refit(f, values, r);
      && next.weight * (|values| as real + 10.0) == Sum(r) + 5.0
      && FitsShares(f, values, r, Sum(r), next.mean1, next.sigma1)
      && FitsShares(f, values, Complements(r), |values| as real - Sum(r), next.mean2, next.sigma2)
  {
    hide Sum, Complements, FitsShares, WeightedMean, Width;
    ComponentFits(f, values, r, Sum(r));
    ComponentFits(f, values, Complements(r), |values| as real - Sum(r));
    QuotientTimes(Sum(r) + 5.0, |values| as real + 10.0);
  }

  lemma QuartilesExactly(f: Routines, values: seq<real>)
    requires DensityIsNotNegative(f) && |values| >= 4
    ensures AtQuartiles(values, FitRounds(f, values, 0))
  {
    hide FitRounds, DensityIsNotNegative;
    var ordered := Lists.Sort(values, AtMost);
    FirstRound(f, values);
    Lists.SortKeeps(values, AtMost);
    Lists.SortOrders(values, AtMost);
    forall i, j | 0 <= i < j < |ordered| ensures ordered[i] <= ordered[j] {
      Lists.OrderedThroughout(ordered, AtMost, i, j);
    }
  }

  lemma ImprovesBy(f: Routines, values: seq<real>, m: Mixture, r: seq<real>, next: Mixture)
    requires AreShares(f, m, values, r) && |r| == |values| && 0.0 <= Sum(r) <= |values| as real
    requires next.weight * (|values| as real + 10.0) == Sum(r) + 5.0
    requires FitsShares(f, values, r, Sum(r), next.mean1, next.sigma1)
    requires FitsShares(f, values, Complements(r), |values| as real - Sum(r), next.mean2, next.sigma2)
    ensures Improves(f, values, m, next)
  {
    hide AreShares, Sum, FitsShares, Complements;
  }

  lemma RoundImproves(f: Routines, values: seq<real>, round: nat)
    requires DensityIsNotNegative(f) && |values| >= 4
    ensures Improves(f, values, FitRounds(f, values, round), FitRounds(f, values, round + 1))
  {
    hide *;
    var m := FitRounds(f, values, round);
    SaneWeight(m, |values|);
    var r := Responsibilities(f, m, values);
    NextRound(f, values, round);
    SharesAreShares(f, m, values);
    RefitFits(f, values, r);
    ImprovesBy(f, values, m, r, Refit(f, values, r));
  }

  /**
   The fitted mixture: of fewer than four residuals the standard one; otherwise thirty rounds from the quartiles, with
   the components swapped if their means are out of order.
   */
  lemma MixtureExactly(f: Routines, history: seq<Row>, bias: real) returns (ms: seq<Mixture>)
    requires DensityIsNotNegative(f)
    ensures |Residuals(history, bias)| < 4 ==> GaussianMixture(f, history, bias) == Mixture(0.5, 0.0, 1.0, 0.0, 1.0)
    ensures |Residuals(history, bias)| >= 4 ==>
      var values, m := Residuals(history, bias), GaussianMixture(f, history, bias);
      && |ms| == 31 && AtQuartiles(values, ms[0])
      && (forall round :: 0 <= round < 30 ==> Improves(f, values, ms[round], ms[round + 1]))
      && (if ms[30].mean1 <= ms[30].mean2 then m == ms[30]
          else m == Mixture(1.0 - ms[30].weight, ms[30].mean2, ms[30].sigma2, ms[30].mean1, ms[30].sigma1))
  {
    hide Residuals, FitRounds, DensityIsNotNegative, Improves, AtQuartiles;
    var values := Residuals(history, bias);
    ms := [];
    if |values| >= 4 {
      ms := seq(31, round requires 0 <= round => FitRounds(f, values, round));
      QuartilesExactly(f, values);
      forall round | 0 <= round < 30 ensures Improves(f, values, ms[round], ms[round + 1]) {
        RoundImproves(f, values, round);
      }
    }
  }

  // ---- What a prediction is ----

  /** Validation begins at the given fraction of the rows, rounded down, but never before the second row. */
  lemma CutExactly(n: nat, fraction: real)
    ensures n as real * fraction < 1.0 ==> Cut(n, fraction) == 1
    ensures n as real * fraction >= 1.0 ==>
      Cut(n, fraction) as real <= n as real * fraction < Cut(n, fraction) as real + 1.0
  {
  }

  /** Every figure of a prediction comes from the calibration rows of its row and from what is known of it. */
  lemma PredictionExactly(f: Routines, rows: seq<Row>, i: nat) returns (at: seq<nat>)
    requires DensityIsNotNegative(f) && i < |rows|
    ensures Calibrates(rows, i, at, PredictionAt(f, rows, i).level) && forall k :: 0 <= k < |at| ==> at[k] < |rows|
    ensures
      var p, known, calibration := PredictionAt(f, rows, i), rows[i].known, RowsAt(rows, at);
      && p.known == known && p.trainN == |at|
      && p.bias == LocationBias(calibration)
      && p.scale == f.volatilityScale(calibration, p.bias) && p.studentDf == f.studentDf(calibration, p.bias)
      && p.mixture == GaussianMixture(f, calibration, p.bias)
      && p.distribution == f.gaussian(known, p.scale, p.bias)
      && p.studentT == f.studentT(known, p.scale, p.studentDf, p.bias)
      && p.gaussianMixture == f.gaussianMixture(known, p.mixture, p.bias)
  {
    hide CalibrationHistory, SettledHistory, LocationBias, GaussianMixture, DensityIsNotNegative, Calibrates;
    at := CalibrationExactly(rows, i);
  }

  // ---- No lookahead ----

  /** Two runs look the same up to a time: every row that has settled by then is the same in both. */
  ghost predicate SameSettledBy(a: seq<Row>, b: seq<Row>, time: real) {
    && |a| == |b|
    && forall j :: 0 <= j < |a| ==>
         && (a[j].settlement.settlementJd <= time <==> b[j].settlement.settlementJd <= time)
         && (a[j].settlement.settlementJd <= time ==> a[j] == b[j])
  }

  lemma {:induction false} SameSettledHistory(a: seq<Row>, b: seq<Row>, known: Known)
    requires SameSettledBy(a, b, known.forecastJd)
    ensures SettledHistory(a, known) == SettledHistory(b, known)
  {
    if a != [] {
      SameSettledHistory(a[..|a| - 1], b[..|b| - 1], known);
    }
  }

  /**
   No lookahead: if two runs have the same settlement times, know the same of row i, and agree on the earlier rows that
   had settled when row i was forecast, then they predict the same for row i, whatever else differs: its own outcome,
   every later row, and every earlier row that had not settled yet.
   */
  lemma NoLookahead(f: Routines, a: seq<Row>, b: seq<Row>, i: nat)
    requires DensityIsNotNegative(f)
    requires i < |a| && |a| == |b| && a[i].known == b[i].known
    requires SameSettledBy(a[..i], b[..i], a[i].known.forecastJd)
    ensures PredictionAt(f, a, i) == PredictionAt(f, b, i)
  {
    hide SettledHistory, CalibrationHistory, Predict;
    SameSettledHistory(a[..i], b[..i], a[i].known);
  }

  /** A row that settles after a forecast could as well be missing from the rows before it. */
  lemma {:induction false} UnsettledRowsAreIgnored(rows: seq<Row>, known: Known)
    ensures SettledHistory(Filter(rows, SettledBy(known.forecastJd)), known) == SettledHistory(rows, known)
    ensures forall row :: row in SettledHistory(rows, known) ==>
      row in rows && row.settlement.settlementJd <= known.forecastJd
  {
    if rows != [] {
      var n := |rows| - 1;
      UnsettledRowsAreIgnored(rows[..n], known);
      var front := SettledHistory(rows[..n], known);
      assert rows == rows[..n] + [rows[n]];
      assert (front + [rows[n]])[..|front|] == front && front + [] == front;
    }
  }

  // ---- Events ----

  /** A bucket of an event: its own terms, and its quoted mid price if the quote vector is complete there. */
  datatype EventBucket = EventBucket(terms: string, mid: Option<real>)

  datatype Event = Event(representative: Row, buckets: seq<EventBucket>, trueIndex: nat)

  /** An eligible event has buckets. */
  type CompleteEvent = e: Event | e.buckets != []
    witness Event(
      Row(Known(0.0, "", "", 0.0, 0.0, 0.0, [], ""), Settlement(0.0, None, 0.0)), [EventBucket("", None)], 0)

  datatype EventPrediction = EventPrediction(
    level: Level, trainN: nat, bias: real, scale: real, studentDf: real, mixture: Mixture,
    gaussian: seq<real>, studentT: seq<real>, gaussianMixture: seq<real>, marketImplied: Option<seq<real>>)

  function Representatives(events: seq<CompleteEvent>): (rows: seq<Row>)
    ensures |rows| == |events| && forall i :: 0 <= i < |rows| ==> rows[i] == events[i].representative
  {
    Lists.Map(events, (e: CompleteEvent) => e.representative)
  }

  /** A model is shown, for each bucket, what is known of the event's representative with the bucket's own terms. */
  function BucketProbabilities(known: Known, buckets: seq<EventBucket>, score: Known -> real): seq<real>
    requires buckets != []
  {
    IntervalScoring.Normalize(Lists.Map(buckets, (bucket: EventBucket) => score(known.(terms := bucket.terms))))
  }

  function MarketProbabilities(e: CompleteEvent, pointMarket: bool): Option<seq<real>> {
    if pointMarket && forall bucket :: bucket in e.buckets ==> bucket.mid.Some? then
      Some(IntervalScoring.Normalize(
        Lists.Map(e.buckets, (bucket: EventBucket) => if bucket.mid.Some? then bucket.mid.value else 0.0)))
    else None
  }

  function PredictEvent(
    f: Routines, calibration: seq<Row>, level: Level, e: CompleteEvent, pointMarket: bool): EventPrediction
    requires DensityIsNotNegative(f)
  {
    var bias := LocationBias(calibration);
    var scale := f.volatilityScale(calibration, bias);
    var df := f.studentDf(calibration, bias);
    var mixture := GaussianMixture(f, calibration, bias);
    EventPrediction(level, |calibration|, bias, scale, df, mixture,
      BucketProbabilities(e.representative.known, e.buckets, known => f.gaussian(known, scale, bias)),
      BucketProbabilities(e.representative.known, e.buckets, known => f.studentT(known, scale, df, bias)),
      BucketProbabilities(e.representative.known, e.buckets, known => f.gaussianMixture(known, mixture, bias)),
      MarketProbabilities(e, pointMarket))
  }

  /** The prediction for event i, from the representatives of the earlier events that had settled. */
  function EventPredictionAt(f: Routines, events: seq<CompleteEvent>, i: nat, pointMarket: bool): EventPrediction
    requires DensityIsNotNegative(f) && i < |events|
  {
    var known := events[i].representative.known;
    var calibrated := CalibrationHistory(SettledHistory(Representatives(events[..i]), known), known);
    PredictEvent(f, calibrated.0, calibrated.1, events[i], pointMarket)
  }

  lemma NothingSettled(known: Known)
    ensures SettledHistory(Representatives([]), known) == []
  {
  }

  lemma SettledGrows(events: seq<CompleteEvent>, j: nat, known: Known)
    requires j < |events|
    ensures SettledHistory(Representatives(events[..j + 1]), known)
         == SettledHistory(Representatives(events[..j]), known)
            + (if events[j].representative.settlement.settlementJd <= known.forecastJd then [events[j].representative]
               else [])
  {
    assert Representatives(events[..j + 1])[..j] == Representatives(events[..j]);
  }

  method EvaluateEvents(f: Routines, events: seq<CompleteEvent>, fraction: real, pointMarket: bool)
    returns (predictions: seq<EventPrediction>)
    requires DensityIsNotNegative(f)
    ensures |predictions| == if Cut(|events|, fraction) <= |events| then |events| - Cut(|events|, fraction) else 0
    ensures forall k :: 0 <= k < |predictions| ==>
      predictions[k] == EventPredictionAt(f, events, Cut(|events|, fraction) + k, pointMarket)
  {
    hide CalibrationHistory, PredictEvent, DensityIsNotNegative, Filter;
    predictions := [];
    var cut := Cut(|events|, fraction);
    var index := cut;
    while index < |events|
      invariant cut <= index
      invariant |predictions| == if cut <= |events| then index - cut else 0
      invariant cut <= |events| ==> index <= |events|
      invariant forall k :: 0 <= k < |predictions| ==>
        predictions[k] == EventPredictionAt(f, events, cut + k, pointMarket)
    {
      var known := events[index].representative.known;
      var history: seq<Row> := [];
      NothingSettled(known);
      var j := 0;
      while j < index
        invariant 0 <= j <= index
        invariant history == SettledHistory(Representatives(events[..j]), known)
      {
        SettledGrows(events, j, known);
        var prior := events[j].representative;
        if prior.settlement.settlementJd <= known.forecastJd {
          history := history + [prior];
        }
        j := j + 1;
      }
      var calibrated := CalibrationHistory(history, known);
      predictions := predictions + [PredictEvent(f, calibrated.0, calibrated.1, events[index], pointMarket)];
      index := index + 1;
    }
  }

  /** Each bucket's score is of what is known of the event with the bucket's own terms, and the shares add up to one. */
  ghost predicate ScoresBuckets(known: Known, buckets: seq<EventBucket>, score: Known -> real, p: seq<real>) {
    exists scores: seq<real> ::
      && |scores| == |buckets| > 0 && p == IntervalScoring.Normalize(scores)
      && forall j :: 0 <= j < |scores| ==> scores[j] == score(known.(terms := buckets[j].terms))
  }

  /** The market's shares are there exactly if point markets are wanted and every bucket has a mid price. */
  ghost predicate QuotesBuckets(buckets: seq<EventBucket>, pointMarket: bool, p: Option<seq<real>>) {
    && (p.Some? <==> pointMarket && forall j :: 0 <= j < |buckets| ==> buckets[j].mid.Some?)
    && (p.Some? ==>
          exists mids: seq<real> ::
            && |mids| == |buckets| > 0 && p.value == IntervalScoring.Normalize(mids)
            && forall j :: 0 <= j < |mids| ==> buckets[j].mid == Some(mids[j]))
  }

  lemma BucketsAreScored(known: Known, buckets: seq<EventBucket>, score: Known -> real)
    requires buckets != []
    ensures ScoresBuckets(known, buckets, score, BucketProbabilities(known, buckets, score))
  {
    hide IntervalScoring.Normalize;
    var scores := Lists.Map(buckets, (bucket: EventBucket) => score(known.(terms := bucket.terms)));
    assert BucketProbabilities(known, buckets, score) == IntervalScoring.Normalize(scores);
  }

  lemma BucketsAreQuoted(e: CompleteEvent, pointMarket: bool)
    ensures QuotesBuckets(e.buckets, pointMarket, MarketProbabilities(e, pointMarket))
  {
    hide IntervalScoring.Normalize;
    var mids := Lists.Map(e.buckets, (bucket: EventBucket) => if bucket.mid.Some? then bucket.mid.value else 0.0);
    assert forall j :: 0 <= j < |e.buckets| ==> e.buckets[j] in e.buckets;
  }

  /** Every figure of an event's prediction comes from the representatives that calibrate it and from its buckets. */
  lemma EventPredictionExactly(f: Routines, events: seq<CompleteEvent>, i: nat, pointMarket: bool)
    returns (at: seq<nat>)
    requires DensityIsNotNegative(f) && i < |events|
    ensures Calibrates(Representatives(events), i, at, EventPredictionAt(f, events, i, pointMarket).level)
    ensures forall k :: 0 <= k < |at| ==> at[k] < |events|
    ensures
      var p, known := EventPredictionAt(f, events, i, pointMarket), events[i].representative.known;
      var buckets, calibration := events[i].buckets, RowsAt(Representatives(events), at);
      && p.trainN == |at|
      && p.bias == LocationBias(calibration)
      && p.scale == f.volatilityScale(calibration, p.bias) && p.studentDf == f.studentDf(calibration, p.bias)
      && p.mixture == GaussianMixture(f, calibration, p.bias)
      && ScoresBuckets(known, buckets, k => f.gaussian(k, p.scale, p.bias), p.gaussian)
      && ScoresBuckets(known, buckets, k => f.studentT(k, p.scale, p.studentDf, p.bias), p.studentT)
      && ScoresBuckets(known, buckets, k => f.gaussianMixture(k, p.mixture, p.bias), p.gaussianMixture)
      && QuotesBuckets(buckets, pointMarket, p.marketImplied)
  {
    hide CalibrationHistory, SettledHistory, LocationBias, GaussianMixture, DensityIsNotNegative, Calibrates,
      BucketProbabilities, MarketProbabilities, ScoresBuckets, QuotesBuckets;
    var rows, e := Representatives(events), events[i];
    assert rows[..i] == Representatives(events[..i]);
    at := CalibrationExactly(rows, i);
    var p, known := EventPredictionAt(f, events, i, pointMarket), e.representative.known;
    BucketsAreScored(known, e.buckets, k => f.gaussian(k, p.scale, p.bias));
    BucketsAreScored(known, e.buckets, k => f.studentT(k, p.scale, p.studentDf, p.bias));
    BucketsAreScored(known, e.buckets, k => f.gaussianMixture(k, p.mixture, p.bias));
    BucketsAreQuoted(e, pointMarket);
  }

  /** A prediction reads of an event only its representative's known part and its buckets. */
  lemma SamePrediction(
    f: Routines, calibration: seq<Row>, level: Level, a: CompleteEvent, b: CompleteEvent, pointMarket: bool)
    requires DensityIsNotNegative(f) && a.representative.known == b.representative.known && a.buckets == b.buckets
    ensures PredictEvent(f, calibration, level, a, pointMarket) == PredictEvent(f, calibration, level, b, pointMarket)
  {
    hide GaussianMixture, DensityIsNotNegative, BucketProbabilities, LocationBias;
  }

  /**
   No lookahead for events: two runs that know the same of event i and its buckets, and agree on the representatives
   of earlier events settled by then, give it the same bucket probabilities, whatever the buckets' outcomes are.
   */
  lemma EventNoLookahead(f: Routines, a: seq<CompleteEvent>, b: seq<CompleteEvent>, i: nat, pointMarket: bool)
    requires DensityIsNotNegative(f) && i < |a| && |a| == |b|
    requires a[i].representative.known == b[i].representative.known && a[i].buckets == b[i].buckets
    requires SameSettledBy(Representatives(a[..i]), Representatives(b[..i]), a[i].representative.known.forecastJd)
    ensures EventPredictionAt(f, a, i, pointMarket) == EventPredictionAt(f, b, i, pointMarket)
  {
    hide SettledHistory, CalibrationHistory, GaussianMixture, Representatives, SameSettledBy;
    var known := a[i].representative.known;
    SameSettledHistory(Representatives(a[..i]), Representatives(b[..i]), known);
    var calibrated := CalibrationHistory(SettledHistory(Representatives(a[..i]), known), known);
    SamePrediction(f, calibrated.0, calibrated.1, a[i], b[i], pointMarket);
  }
}
