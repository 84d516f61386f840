/**
 Score bounds of a market known only through bid/ask intervals
 (`_market_probability_bounds`, `_interval_score_bounds`, `_normalize` and `_multiclass_scores`
 in scripts/crypto_event_multiclass_walk_forward.py).
 */
module IntervalScoring {
  import opened Support
  import opened RealVectors
  import opened SimplexProjection

  const LOSS_FLOOR := 0.001
  const SIMPLEX_SLACK := 0.000000001

  // ---- Bounds ----

  datatype Quote = Quote(bid: Option<real>, ask: Option<real>) {
    function Lower(): (l: real)
      ensures 0.0 <= l <= 1.0
    {
      Max(0.0, Min(1.0, if bid.Some? then bid.value else 0.0))
    }

    function Upper(): (u: real)
      ensures 0.0 <= u <= 1.0
    {
      Max(0.0, Min(1.0, if ask.Some? then ask.value else 1.0))
    }

    /** The quote leaves this probability open; a bid above one or an ask below zero still leaves the nearest end. */
    ghost predicate Allows(p: real) {
      && 0.0 <= p <= 1.0
      && (bid.None? || bid.value <= p || (p == 1.0 && bid.value >= 1.0))
      && (ask.None? || p <= ask.value || (p == 0.0 && ask.value <= 0.0))
    }
  }

  /** One probability per bucket, each allowed by the bucket's own bid and ask. */
  ghost predicate Meets(quotes: seq<Quote>, y: seq<real>) {
    |y| == |quotes| && forall i :: 0 <= i < |y| ==> quotes[i].Allows(y[i])
  }

  function Lowers(quotes: seq<Quote>): (l: seq<real>)
    ensures |l| == |quotes| && forall i :: 0 <= i < |l| ==> l[i] == quotes[i].Lower()
  {
    seq(|quotes|, i requires 0 <= i < |quotes| => quotes[i].Lower())
  }

  function Uppers(quotes: seq<Quote>): (u: seq<real>)
    ensures |u| == |quotes| && forall i :: 0 <= i < |u| ==> u[i] == quotes[i].Upper()
  {
    seq(|quotes|, i requires 0 <= i < |quotes| => quotes[i].Upper())
  }

  /** The clamped bounds hold exactly the probabilities that the bids and asks allow. */
  lemma BoundsAreTheQuotes(quotes: seq<Quote>, y: seq<real>)
    ensures Meets(quotes, y) <==> InBox(y, Lowers(quotes), Uppers(quotes))
  {
    if |y| == |quotes| {
      forall i | 0 <= i < |y|
        ensures quotes[i].Allows(y[i]) <==> Lowers(quotes)[i] <= y[i] <= Uppers(quotes)[i]
      {
      }
    }
  }

  /** The program's feasibility test, with its slack on both sums. */
  predicate SimplexFeasible(lower: seq<real>, upper: seq<real>)
    requires |lower| == |upper|
  {
    && (forall i :: 0 <= i < |lower| ==> lower[i] <= upper[i])
    && Sum(lower) <= 1.0 + SIMPLEX_SLACK
    && Sum(upper) >= 1.0 - SIMPLEX_SLACK
  }

  /** The test passes exactly when some vector that the quotes allow sums to one up to 1e-9. */
  lemma SimplexFeasibleExactly(quotes: seq<Quote>)
    ensures SimplexFeasible(Lowers(quotes), Uppers(quotes)) <==>
      exists y: seq<real> :: Meets(quotes, y) && 1.0 - 0.000000001 <= Sum(y) <= 1.0 + 0.000000001
  {
    hide Sum, Fill, Meets;
    var lower, upper := Lowers(quotes), Uppers(quotes);
    if SimplexFeasible(lower, upper) {
      SumMonotone(lower, upper);
      var y := Fill(lower, upper, Max(Sum(lower), Min(Sum(upper), 1.0)));
      BoundsAreTheQuotes(quotes, y);
    }
    if y: seq<real> :| Meets(quotes, y) && 1.0 - 0.000000001 <= Sum(y) <= 1.0 + 0.000000001 {
      BoundsAreTheQuotes(quotes, y);
      SumMonotone(lower, y);
      SumMonotone(y, upper);
    }
  }

  function TightLower(lower: seq<real>, upper: seq<real>): (t: seq<real>)
    requires |lower| == |upper|
    ensures |t| == |lower|
    ensures forall i :: 0 <= i < |t| ==> t[i] == Max(lower[i], 1.0 - (Sum(upper) - upper[i]))
  {
    seq(|lower|, i requires 0 <= i < |lower| => Max(lower[i], 1.0 - (Sum(upper) - upper[i])))
  }

  function TightUpper(lower: seq<real>, upper: seq<real>): (t: seq<real>)
    requires |lower| == |upper|
    ensures |t| == |lower|
    ensures forall i :: 0 <= i < |t| ==> t[i] == Min(upper[i], 1.0 - (Sum(lower) - lower[i]))
  {
    seq(|lower|, i requires 0 <= i < |lower| => Min(upper[i], 1.0 - (Sum(lower) - lower[i])))
  }

  /** Tightening drops no probability vector of the box and admits no new one. */
  lemma TighteningKeepsPolytope(lower: seq<real>, upper: seq<real>, y: seq<real>)
    requires |lower| == |upper|
    ensures Feasible(y, lower, upper) <==> Feasible(y, TightLower(lower, upper), TightUpper(lower, upper))
  {
    hide Sum, TightLower, TightUpper;
    if Feasible(y, lower, upper) {
      forall i | 0 <= i < |y|
        ensures TightLower(lower, upper)[i] <= y[i] <= TightUpper(lower, upper)[i]
      {
        SumUpdate(y, i, upper[i]);
        SumMonotone(y[i := upper[i]], upper);
        SumUpdate(y, i, lower[i]);
        SumMonotone(lower, y[i := lower[i]]);
      }
    }
  }

  /** A coordinate may take any value the other coordinates can complete to one. */
  lemma PinnedCoordinate(lower: seq<real>, upper: seq<real>, i: nat, x: real) returns (y: seq<real>)
    requires |lower| == |upper| && InBox(lower, lower, upper) && i < |lower|
    requires Sum(lower) <= 1.0 <= Sum(upper)
    requires x == TightLower(lower, upper)[i] || x == TightUpper(lower, upper)[i]
    ensures Feasible(y, lower, upper) && y[i] == x
  {
    hide Sum, Fill, TightLower, TightUpper;
    SumUpdate(lower, i, x);
    SumUpdate(upper, i, x);
    SumUpdate(lower, i, upper[i]);
    SumMonotone(lower[i := upper[i]], upper);
    SumMonotone(lower[i := x], upper[i := x]);
    y := Fill(lower[i := x], upper[i := x], 1.0);
    assert lower[i := x][i] <= y[i] <= upper[i := x][i];
    forall j | 0 <= j < |y|
      ensures lower[j] <= y[j] <= upper[j]
    {
      assert lower[i := x][j] <= y[j] <= upper[i := x][j];
    }
  }

  /** Every tightened bound is the coordinate of some probability vector of the box. */
  lemma TightBoundsAreAttained(lower: seq<real>, upper: seq<real>, i: nat) returns (low: seq<real>, high: seq<real>)
    requires |lower| == |upper| && InBox(lower, lower, upper)
    requires Sum(lower) <= 1.0 <= Sum(upper) && i < |lower|
    ensures Feasible(low, lower, upper) && low[i] == TightLower(lower, upper)[i]
    ensures Feasible(high, lower, upper) && high[i] == TightUpper(lower, upper)[i]
  {
    low := PinnedCoordinate(lower, upper, i, TightLower(lower, upper)[i]);
    high := PinnedCoordinate(lower, upper, i, TightUpper(lower, upper)[i]);
  }

  // ---- Scores ----

  /** The outcome as a vector: one for the bucket that came true. */
  function Target(n: nat, truth: nat): (t: seq<real>)
    requires truth < n
    ensures |t| == n && forall i :: 0 <= i < n ==> t[i] == if i == truth then 1.0 else 0.0
  {
    seq(n, i => if i == truth then 1.0 else 0.0)
  }

  function Brier(p: seq<real>, truth: nat): real
    requires truth < |p|
  {
    SquaredDistance(p, Target(|p|, truth))
  }

  /** Minus the logarithm of a probability floored at 0.001. */
  function FlooredLoss(log: real -> real, p: real): real {
    -log(Max(p, LOSS_FLOOR))
  }

  ghost predicate NeverFalls(log: real -> real) {
    forall a, b :: 0.0 < a <= b ==> log(a) <= log(b)
  }

  datatype ScoreBounds = ScoreBounds(
    optimisticBrier: real,
    pessimisticBrier: real,
    optimisticLogLoss: real,
    pessimisticLogLoss: real)

  function WorstSquare(lower: real, upper: real, t: real): real {
    Max((lower - t) * (lower - t), (upper - t) * (upper - t))
  }

  function WorstSquares(lower: seq<real>, upper: seq<real>, t: seq<real>): (w: seq<real>)
    requires |lower| == |upper| == |t|
    ensures |w| == |t| && forall i :: 0 <= i < |w| ==> w[i] == WorstSquare(lower[i], upper[i], t[i])
  {
    seq(|t|, i requires 0 <= i < |t| => WorstSquare(lower[i], upper[i], t[i]))
  }

  function OptimisticBrier(lower: seq<real>, upper: seq<real>, truth: nat): real
    requires truth < |lower| == |upper|
  {
    Brier(Projection(Target(|lower|, truth), TightLower(lower, upper), TightUpper(lower, upper)), truth)
  }

  function PessimisticBrier(lower: seq<real>, upper: seq<real>, truth: nat): real
    requires truth < |lower| == |upper|
  {
    Min(2.0, Sum(WorstSquares(TightLower(lower, upper), TightUpper(lower, upper), Target(|lower|, truth))))
  }

  function BoundScores(log: real -> real, lower: seq<real>, upper: seq<real>, truth: nat): ScoreBounds
    requires truth < |lower| == |upper|
  {
    ScoreBounds(
      OptimisticBrier(lower, upper, truth),
      PessimisticBrier(lower, upper, truth),
      FlooredLoss(log, TightUpper(lower, upper)[truth]),
      FlooredLoss(log, TightLower(lower, upper)[truth]))
  }

  /** The squared distance of one entry from the outcome. */
  function Deviation(p: seq<real>, truth: nat, i: nat): real
    requires i < |p|
  {
    var missed := p[i] - (if i == truth then 1.0 else 0.0);
    missed * missed
  }

  method IntervalScoreBounds(log: real -> real, lower: seq<real>, upper: seq<real>, truth: nat)
    returns (scores: ScoreBounds)
    requires truth < |lower| == |upper|
    ensures scores == BoundScores(log, lower, upper, truth)
  {
    hide Sum, Projection, SquaredDistance, TightLower, TightUpper;
    var tightLower, tightUpper := [], [];
    for index := 0 to |lower|
      invariant tightLower == TightLower(lower, upper)[..index]
      invariant tightUpper == TightUpper(lower, upper)[..index]
    {
      var otherUpper := Sum(upper) - upper[index];
      var otherLower := Sum(lower) - lower[index];
      tightLower := tightLower + [Max(lower[index], 1.0 - otherUpper)];
      tightUpper := tightUpper + [Min(upper[index], 1.0 - otherLower)];
    }
    assert tightLower == TightLower(lower, upper) && tightUpper == TightUpper(lower, upper);
    var target := Target(|lower|, truth);
    var point := BoundedSimplexProjection(target, tightLower, tightUpper);
    var optimisticBrier := SquaredDistance(point, target);
    var pessimisticBrier := Min(2.0, Sum(WorstSquares(tightLower, tightUpper, target)));
    scores := ScoreBounds(optimisticBrier, pessimisticBrier,
      FlooredLoss(log, tightUpper[truth]), FlooredLoss(log, tightLower[truth]));
  }

  ghost predicate UnitBox(lower: seq<real>, upper: seq<real>) {
    |lower| == |upper| && forall i :: 0 <= i < |lower| ==> 0.0 <= lower[i] && upper[i] <= 1.0
  }

  /** How far below the true minimum the optimistic Brier score may be: n * 16 / 2^101. */
  function BrierTolerance(n: nat): real { 4.0 * Resolution(n, 4.0) }

  /** The tolerance in figures: the hundred halvings leave n * 16 / 2^101. */
  lemma ToleranceExactly(n: nat)
    ensures BrierTolerance(n) == n as real * (16.0 / 2535301200456458802993406410752.0)
  {
    HundredDoublings(1);
    assert Power2(1) == 2;
    assert Power2(ROUNDS + 1) == 2535301200456458802993406410752;
    hide Power2;
  }

  lemma ResolutionGrows(n: nat, a: real, b: real)
    requires a <= b
    ensures Resolution(n, a) <= Resolution(n, b)
  {
    var p := Power2(ROUNDS + 1) as real;
    assert a / p <= b / p;
  }

  /** Inside the unit box every multiplier is within two of zero. */
  lemma MultipliersAreSmall(lower: seq<real>, upper: seq<real>, truth: nat)
    requires truth < |lower| && UnitBox(lower, upper) && InBox(lower, lower, upper)
    ensures LowestMultiplier(Target(|lower|, truth), upper) >= -2.0
    ensures HighestMultiplier(Target(|lower|, truth), lower) <= 2.0
  {
    var target := Target(|lower|, truth);
    var gaps := seq(|target|, i requires 0 <= i < |target| => target[i] - upper[i]);
    var rises := seq(|target|, i requires 0 <= i < |target| => target[i] - lower[i]);
    assert forall x :: x in gaps ==> x >= -1.0;
    assert forall x :: x in rises ==> x <= 1.0;
  }

  lemma TightBoxOfFeasible(lower: seq<real>, upper: seq<real>, y: seq<real>)
    requires UnitBox(lower, upper) && Feasible(y, lower, upper)
    ensures
      var l, u := TightLower(lower, upper), TightUpper(lower, upper);
      && UnitBox(l, u) && InBox(l, l, u) && Feasible(y, l, u) && Sum(l) <= 1.0 <= Sum(u)
  {
    hide Sum, TightLower, TightUpper;
    TighteningKeepsPolytope(lower, upper, y);
    SumMonotone(TightLower(lower, upper), y);
    SumMonotone(y, TightUpper(lower, upper));
  }

  /** The projection of the outcome misses a unit sum by no more than the tolerance, with a small multiplier. */
  lemma OptimisticPoint(lower: seq<real>, upper: seq<real>, truth: nat)
    requires truth < |lower| && UnitBox(lower, upper) && InBox(lower, lower, upper)
    requires Sum(lower) <= 1.0 <= Sum(upper)
    ensures
      var target := Target(|lower|, truth);
      var p := Projection(target, lower, upper);
      && InBox(p, lower, upper)
      && Abs(Multiplier(target, lower, upper)) <= 2.0
      && Abs(Sum(p) - 1.0) <= Resolution(|lower|, 4.0)
  {
    hide Sum, Projection, Multiplier, LowestMultiplier, HighestMultiplier, Resolution;
    var target := Target(|lower|, truth);
    ProjectionIsNearlyFeasible(target, lower, upper);
    MultipliersAreSmall(lower, upper, truth);
    ResolutionGrows(|lower|, FirstBracket(target, lower, upper).Width(), 4.0);
  }

  lemma SmallProduct(a: real, b: real, c: real)
    requires 0.0 <= a <= 2.0 && 0.0 <= b <= c
    ensures 2.0 * (a * b) <= 4.0 * c
  {
    assert a * b <= 2.0 * b;
  }

  /** No probability vector of the box scores better than the optimistic Brier score, up to the tolerance. */
  lemma OptimisticBrierIsLowest(lower: seq<real>, upper: seq<real>, truth: nat, y: seq<real>)
    requires truth < |lower| && UnitBox(lower, upper) && Feasible(y, lower, upper)
    ensures OptimisticBrier(lower, upper, truth) <= Brier(y, truth) + BrierTolerance(|lower|)
  {
    hide Sum, Projection, Multiplier, Resolution, SquaredDistance, TightLower, TightUpper;
    var l, u, target := TightLower(lower, upper), TightUpper(lower, upper), Target(|lower|, truth);
    TightBoxOfFeasible(lower, upper, y);
    OptimisticPoint(l, u, truth);
    ProjectionIsNearest(target, l, u, y);
    SmallProduct(Abs(Multiplier(target, l, u)), Abs(Sum(Projection(target, l, u)) - 1.0), Resolution(|lower|, 4.0));
  }

  /** Moving one coordinate inside the unit interval changes its square by at most twice the move. */
  lemma SquareMoves(y: real, p: real, t: real)
    requires 0.0 <= y <= 1.0 && 0.0 <= p <= 1.0 && 0.0 <= t <= 1.0
    ensures (y - t) * (y - t) <= (p - t) * (p - t) + 2.0 * Abs(y - p)
  {
    var d, m := y - p, y + p - 2.0 * t;
    assert (y - t) * (y - t) - (p - t) * (p - t) == d * m;
    assert -2.0 <= m <= 2.0;
    assert d * m <= 2.0 * Abs(d);
  }

  lemma DistanceSplits(y: seq<real>, t: seq<real>)
    requires |y| == |t| > 0
    ensures SquaredDistance(y, t) == (y[0] - t[0]) * (y[0] - t[0]) + SquaredDistance(y[1..], t[1..])
    ensures Sum(y) == y[0] + Sum(y[1..])
  {
    assert Squares(y, t)[1..] == Squares(y[1..], t[1..]);
  }

  /** Moving every coordinate the same way changes the squared distance by at most twice the change of the sum. */
  lemma {:induction false} DistanceMoves(y: seq<real>, p: seq<real>, t: seq<real>, up: bool)
    requires |y| == |p| == |t|
    requires forall i :: 0 <= i < |y| ==> 0.0 <= y[i] <= 1.0 && 0.0 <= p[i] <= 1.0 && 0.0 <= t[i] <= 1.0
    requires forall i :: 0 <= i < |y| ==> if up then p[i] <= y[i] else y[i] <= p[i]
    ensures SquaredDistance(y, t) <= SquaredDistance(p, t) + 2.0 * (if up then Sum(y) - Sum(p) else Sum(p) - Sum(y))
  {
    if y == [] {
      assert y == p;
    } else {
      hide SquaredDistance, Sum;
      DistanceMoves(y[1..], p[1..], t[1..], up);
      SquareMoves(y[0], p[0], t[0]);
      DistanceSplits(y, t);
      DistanceSplits(p, t);
    }
  }

  /** Some probability vector of the box scores within the tolerance of the optimistic Brier score. */
  lemma OptimisticBrierIsReached(lower: seq<real>, upper: seq<real>, truth: nat, witness_: seq<real>)
    returns (y: seq<real>)
    requires truth < |lower| && UnitBox(lower, upper) && Feasible(witness_, lower, upper)
    ensures Feasible(y, lower, upper)
    ensures Brier(y, truth) <= OptimisticBrier(lower, upper, truth) + BrierTolerance(|lower|)
  {
    hide Sum, Projection, Multiplier, Resolution, SquaredDistance, TightLower, TightUpper, Fill;
    var l, u, target := TightLower(lower, upper), TightUpper(lower, upper), Target(|lower|, truth);
    TightBoxOfFeasible(lower, upper, witness_);
    OptimisticPoint(l, u, truth);
    var p := Projection(target, l, u);
    if Sum(p) <= 1.0 {
      y := Fill(p, u, 1.0);
      DistanceMoves(y, p, target, true);
    } else {
      y := Fill(l, p, 1.0);
      DistanceMoves(y, p, target, false);
    }
    assert Feasible(y, l, u);
    TighteningKeepsPolytope(lower, upper, y);
  }

  lemma SquareBelowWorst(y: real, lower: real, upper: real, t: real)
    requires lower <= y <= upper
    ensures (y - t) * (y - t) <= WorstSquare(lower, upper, t)
  {
    if y <= t {
      SignedProduct(y - lower, 2.0 * t - y - lower);
      assert (lower - t) * (lower - t) - (y - t) * (y - t) == (y - lower) * (2.0 * t - y - lower);
    } else {
      SignedProduct(upper - y, upper + y - 2.0 * t);
      assert (upper - t) * (upper - t) - (y - t) * (y - t) == (upper - y) * (upper + y - 2.0 * t);
    }
  }

  /** A probability vector never scores more than two. */
  lemma BrierAtMostTwo(y: seq<real>, truth: nat)
    requires truth < |y| && Sum(y) == 1.0
    requires forall i :: 0 <= i < |y| ==> 0.0 <= y[i] <= 1.0
    ensures Brier(y, truth) <= 2.0
  {
    hide Sum, Squares;
    var squares := Squares(y, Target(|y|, truth));
    var cap := y[truth := 1.0 - y[truth]];
    forall i | 0 <= i < |y|
      ensures squares[i] <= cap[i]
    {
      SignedProduct(y[i], 1.0 - y[i]);
    }
    SumMonotone(squares, cap);
    SumUpdate(y, truth, 1.0 - y[truth]);
  }

  /** The pessimistic Brier score, cap included, is above that of every probability vector of the box. */
  lemma PessimisticBrierIsAbove(lower: seq<real>, upper: seq<real>, truth: nat, y: seq<real>)
    requires truth < |lower| && UnitBox(lower, upper) && Feasible(y, lower, upper)
    ensures Brier(y, truth) <= PessimisticBrier(lower, upper, truth)
  {
    hide Sum, Squares, WorstSquare, WorstSquares, TightLower, TightUpper;
    var l, u, target := TightLower(lower, upper), TightUpper(lower, upper), Target(|lower|, truth);
    TightBoxOfFeasible(lower, upper, y);
    forall i | 0 <= i < |y|
      ensures Squares(y, target)[i] <= WorstSquares(l, u, target)[i]
    {
      SquareBelowWorst(y[i], l[i], u[i], target[i]);
    }
    SumMonotone(Squares(y, target), WorstSquares(l, u, target));
    BrierAtMostTwo(y, truth);
  }

  lemma DeviationAtEnds(low: seq<real>, high: seq<real>, truth: nat, i: nat, t: real)
    requires i < |low| && i < |high| && t == if i == truth then 1.0 else 0.0
    ensures WorstSquare(low[i], high[i], t) == Max(Deviation(low, truth, i), Deviation(high, truth, i))
  {
  }

  lemma DeviationInside(z: seq<real>, truth: nat, i: nat, l: real, u: real, t: real)
    requires i < |z| && t == (if i == truth then 1.0 else 0.0) && l <= z[i] <= u
    ensures Deviation(z, truth, i) <= WorstSquare(l, u, t)
  {
    hide WorstSquare;
    SquareBelowWorst(z[i], l, u, t);
  }

  lemma FeasibleLength(lower: seq<real>, upper: seq<real>)
    ensures forall y :: Feasible(y, lower, upper) ==> |y| == |lower|
  {
  }

  /** A vector of the box whose square in one coordinate is the largest there, and is the one the score adds up. */
  lemma WorstVector(lower: seq<real>, upper: seq<real>, truth: nat, i: nat) returns (y: seq<real>)
    requires i < |lower| && |lower| == |upper| && truth < |lower| && InBox(lower, lower, upper)
    requires Sum(lower) <= 1.0 <= Sum(upper)
    ensures Feasible(y, lower, upper)
    ensures Deviation(y, truth, i)
         == WorstSquares(TightLower(lower, upper), TightUpper(lower, upper), Target(|lower|, truth))[i]
    ensures forall z :: Feasible(z, lower, upper) ==> Deviation(z, truth, i) <= Deviation(y, truth, i)
  {
    hide Sum, TightLower, TightUpper, Deviation, WorstSquare;
    var l, u, target := TightLower(lower, upper), TightUpper(lower, upper), Target(|lower|, truth);
    var low, high := TightBoundsAreAttained(lower, upper, i);
    DeviationAtEnds(low, high, truth, i, target[i]);
    y := if Deviation(low, truth, i) < Deviation(high, truth, i) then high else low;
    forall z | Feasible(z, lower, upper)
      ensures Deviation(z, truth, i) <= Deviation(y, truth, i)
    {
      TighteningKeepsPolytope(lower, upper, z);
      DeviationInside(z, truth, i, l[i], u[i], target[i]);
    }
  }

  /**
   The pessimistic Brier score is the sum, capped at two, of the largest squares that the coordinates reach, each in
   some probability vector of the box.
   */
  lemma PessimisticBrierExactly(lower: seq<real>, upper: seq<real>, truth: nat)
    returns (worst: seq<seq<real>>, largest: seq<real>)
    requires truth < |lower| && |lower| == |upper| && InBox(lower, lower, upper)
    requires Sum(lower) <= 1.0 <= Sum(upper)
    ensures |worst| == |largest| == |lower|
    ensures forall i :: 0 <= i < |lower| ==> Feasible(worst[i], lower, upper)
    ensures forall i :: 0 <= i < |lower| ==> i < |worst[i]| && largest[i] == Deviation(worst[i], truth, i)
    ensures forall i, y :: 0 <= i < |lower| && Feasible(y, lower, upper) ==> Deviation(y, truth, i) <= largest[i]
    ensures PessimisticBrier(lower, upper, truth) == if Sum(largest) > 2.0 then 2.0 else Sum(largest)
  {
    hide Sum, TightLower, TightUpper, Deviation, Feasible, WorstSquare;
    var l, u, target := TightLower(lower, upper), TightUpper(lower, upper), Target(|lower|, truth);
    worst, largest := [], [];
    for i := 0 to |lower|
      invariant |worst| == |largest| == i
      invariant forall j :: 0 <= j < i ==> Feasible(worst[j], lower, upper) && |worst[j]| == |lower|
      invariant forall j :: 0 <= j < i ==> largest[j] == Deviation(worst[j], truth, j) == WorstSquares(l, u, target)[j]
      invariant forall j, y :: 0 <= j < i && Feasible(y, lower, upper) ==>
        |y| == |lower| && Deviation(y, truth, j) <= largest[j]
    {
      var y := WorstVector(lower, upper, truth, i);
      FeasibleLength(lower, upper);
      worst, largest := worst + [y], largest + [Deviation(y, truth, i)];
    }
    assert largest == WorstSquares(l, u, target);
  }

  /** The floored losses of the tightened bounds enclose the loss of every probability vector of the box. */
  lemma LossBoundsEnclose(log: real -> real, lower: seq<real>, upper: seq<real>, truth: nat, y: seq<real>)
    requires truth < |lower| && UnitBox(lower, upper) && Feasible(y, lower, upper) && NeverFalls(log)
    ensures
      var scores := BoundScores(log, lower, upper, truth);
      scores.optimisticLogLoss <= -log(Max(y[truth], 0.001)) <= scores.pessimisticLogLoss
  {
    hide Sum, OptimisticBrier, PessimisticBrier, TightLower, TightUpper;
    TightBoxOfFeasible(lower, upper, y);
  }

  /** Both floored losses are those of some probability vector of the box. */
  lemma LossBoundsAreReached(log: real -> real, lower: seq<real>, upper: seq<real>, truth: nat)
    returns (best: seq<real>, worst: seq<real>)
    requires truth < |lower| && InBox(lower, lower, upper) && Sum(lower) <= 1.0 <= Sum(upper)
    ensures Feasible(best, lower, upper) && Feasible(worst, lower, upper)
    ensures -log(Max(best[truth], 0.001)) == BoundScores(log, lower, upper, truth).optimisticLogLoss
    ensures -log(Max(worst[truth], 0.001)) == BoundScores(log, lower, upper, truth).pessimisticLogLoss
  {
    hide Sum, OptimisticBrier, PessimisticBrier, TightLower, TightUpper;
    worst, best := TightBoundsAreAttained(lower, upper, truth);
  }

  lemma PairSum(v: seq<real>)
    requires |v| == 2
    ensures Sum(v) == v[0] + v[1]
  {
    assert Sum(v[1..]) == v[1];
  }

  lemma SquareFrom(x: real, target: real, d: real)
    requires d == x - target
    ensures (x - target) * (x - target) == d * d
  {
  }

  lemma BrierIsSum(p: seq<real>, truth: nat)
    requires truth < |p|
    ensures Brier(p, truth) == Sum(Squares(p, Target(|p|, truth)))
  {
  }

  lemma PairScores(y: seq<real>)
    requires |y| == 2
    ensures Sum(y) == y[0] + y[1]
    ensures Brier(y, 0) == (y[0] - 1.0) * (y[0] - 1.0) + y[1] * y[1]
  {
    hide *;
    var target := Target(2, 0);
    PairSum(y);
    BrierIsSum(y, 0);
    PairSum(Squares(y, target));
    SquareFrom(y[0], target[0], y[0] - 1.0);
    SquareFrom(y[1], target[1], y[1]);
  }

  lemma SquareBelow(a: real, b: real)
    requires 0.0 <= a <= b
    ensures a * a <= b * b
  {
  }

  /** A concrete pair of buckets, 0.2 to 0.4 and 0.6 to 0.8, of which the first came true. */
  lemma TwoBucketScores(log: real -> real)
    ensures
      var scores := BoundScores(log, [0.2, 0.6], [0.4, 0.8], 0);
      && 0.72 - 0.000000001 < scores.optimisticBrier < 0.72 + 0.000000001
      && scores.pessimisticBrier == 1.28
      && scores.optimisticLogLoss == -log(0.4) && scores.pessimisticLogLoss == -log(0.2)
  {
    hide Brier, OptimisticBrier, BrierTolerance, Sum, WorstSquares, Projection;
    var lower, upper, best := [0.2, 0.6], [0.4, 0.8], [0.4, 0.6];
    PairScores(lower);
    PairScores(upper);
    PairScores(best);
    ToleranceExactly(2);
    assert TightLower(lower, upper) == lower && TightUpper(lower, upper) == upper;
    var worst := WorstSquares(lower, upper, Target(2, 0));
    PairScores(worst);
    OptimisticBrierIsLowest(lower, upper, 0, best);
    var y := OptimisticBrierIsReached(lower, upper, 0, best);
    PairScores(y);
    SquareBelow(0.6, 1.0 - y[0]);
    SquareBelow(0.6, y[1]);
  }

  // ---- Model vectors ----

  function Positives(values: seq<real>): (p: seq<real>)
    ensures |p| == |values| && forall i :: 0 <= i < |p| ==> p[i] == Max(0.0, values[i])
  {
    seq(|values|, i requires 0 <= i < |values| => Max(0.0, values[i]))
  }

  function Normalize(values: seq<real>): (p: seq<real>)
    requires values != []
    ensures |p| == |values|
  {
    var total := Sum(Positives(values));
    if total <= 0.0 then seq(|values|, _ => 1.0 / |values| as real)
    else seq(|values|, i requires 0 <= i < |values| => Max(0.0, values[i]) / total)
  }

  lemma Quotient(a: real, total: real)
    requires a >= 0.0 && total > 0.0
    ensures a / total == (1.0 / total) * a && (a / total) * total == a && a / total >= 0.0
  {
  }

  lemma {:induction false} NothingPositive(zeros: seq<real>)
    requires forall i :: 0 <= i < |zeros| ==> zeros[i] == 0.0
    ensures Sum(zeros) == 0.0
  {
    if zeros != [] {
      NothingPositive(zeros[1..]);
    }
  }

  lemma {:induction false} SumOfOnes(ones: seq<real>)
    requires forall i :: 0 <= i < |ones| ==> ones[i] == 1.0
    ensures Sum(ones) == |ones| as real
  {
    if ones != [] {
      SumOfOnes(ones[1..]);
    }
  }

  /**
   A normalised vector is a probability vector: a positive total leaves the positive parts in proportion, and if
   nothing is positive all shares are equal.
   */
  lemma NormalizeIsDistribution(values: seq<real>)
    requires values != []
    ensures Sum(Normalize(values)) == 1.0
    ensures forall i :: 0 <= i < |values| ==> Normalize(values)[i] >= 0.0
    ensures Sum(Positives(values)) > 0.0 ==>
      forall i :: 0 <= i < |values| ==> Normalize(values)[i] * Sum(Positives(values)) == Positives(values)[i]
    ensures (forall i :: 0 <= i < |values| ==> values[i] <= 0.0) ==>
      forall i :: 0 <= i < |values| ==> Normalize(values)[i] == 1.0 / |values| as real
  {
    hide Sum;
    if forall i :: 0 <= i < |values| ==> values[i] <= 0.0 {
      NothingPositive(Positives(values));
    }
    var total := Sum(Positives(values));
    if total <= 0.0 {
      var ones := seq(|values|, _ => 1.0);
      var share := 1.0 / |values| as real;
      SumOfOnes(ones);
      SumScaled(ones, Normalize(values), share);
    } else {
      var share := 1.0 / total;
      forall i | 0 <= i < |values|
        ensures Normalize(values)[i] == share * Positives(values)[i]
        ensures Normalize(values)[i] * total == Positives(values)[i] && Normalize(values)[i] >= 0.0
      {
        Quotient(Positives(values)[i], total);
      }
      SumScaled(Positives(values), Normalize(values), share);
    }
  }
}
