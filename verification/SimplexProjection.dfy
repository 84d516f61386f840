/**
 The bisection that projects a target onto a box cut by the plane of vectors summing to one
 (`_bounded_simplex_projection` in scripts/crypto_event_multiclass_walk_forward.py).
 */
module SimplexProjection {
  import opened RealVectors

  const ROUNDS: nat := 100

  function Clip(x: real, lower: real, upper: real): real { Min(upper, Max(lower, x)) }

  /** The candidate vector of one multiplier: the target shifted down by it, then clipped to the box. */
  function Shifted(target: seq<real>, lower: seq<real>, upper: seq<real>, multiplier: real): (y: seq<real>)
    requires |target| == |lower| == |upper|
    ensures |y| == |target|
  {
    if target == [] then []
    else [Clip(target[0] - multiplier, lower[0], upper[0])] + Shifted(target[1..], lower[1..], upper[1..], multiplier)
  }

  lemma {:induction false} ShiftedAt(target: seq<real>, lower: seq<real>, upper: seq<real>, multiplier: real, i: nat)
    requires i < |target| == |lower| == |upper|
    ensures Shifted(target, lower, upper, multiplier)[i] == Clip(target[i] - multiplier, lower[i], upper[i])
  {
    if i > 0 {
      ShiftedAt(target[1..], lower[1..], upper[1..], multiplier, i - 1);
    }
  }

  function LowestMultiplier(target: seq<real>, upper: seq<real>): real
    requires |target| == |upper| > 0
  {
    Least(seq(|target|, i requires 0 <= i < |target| => target[i] - upper[i])) - 1.0
  }

  function HighestMultiplier(target: seq<real>, lower: seq<real>): real
    requires |target| == |lower| > 0
  {
    Greatest(seq(|target|, i requires 0 <= i < |target| => target[i] - lower[i])) + 1.0
  }

  /** The sum of the candidate vector, as a function of the multiplier. */
  function SumOfShift(target: seq<real>, lower: seq<real>, upper: seq<real>): real -> real
    requires |target| == |lower| == |upper|
  {
    multiplier => Sum(Shifted(target, lower, upper, multiplier))
  }

  datatype Bracket = Bracket(low: real, high: real) {
    function Midpoint(): real { (low + high) / 2.0 }

    function Width(): real { high - low }
  }

  function Halve(f: real -> real, bracket: Bracket): Bracket {
    if f(bracket.Midpoint()) > 1.0 then Bracket(bracket.Midpoint(), bracket.high)
    else Bracket(bracket.low, bracket.Midpoint())
  }

  /** The bracket left after the given number of halvings. */
  function Bisect(f: real -> real, bracket: Bracket, rounds: nat): Bracket
    decreases rounds
  {
    if rounds == 0 then bracket else Bisect(f, Halve(f, bracket), rounds - 1)
  }

  function FirstBracket(target: seq<real>, lower: seq<real>, upper: seq<real>): Bracket
    requires |target| == |lower| == |upper| > 0
  {
    Bracket(LowestMultiplier(target, upper), HighestMultiplier(target, lower))
  }

  function Multiplier(target: seq<real>, lower: seq<real>, upper: seq<real>): real
    requires |target| == |lower| == |upper| > 0
  {
    Bisect(SumOfShift(target, lower, upper), FirstBracket(target, lower, upper), ROUNDS).Midpoint()
  }

  function Projection(target: seq<real>, lower: seq<real>, upper: seq<real>): (y: seq<real>)
    requires |target| == |lower| == |upper| > 0
    ensures |y| == |target|
  {
    Shifted(target, lower, upper, Multiplier(target, lower, upper))
  }

  function Resolution(n: nat, width: real): real {
    n as real * (width / Power2(ROUNDS + 1) as real)
  }

  /** How far the sum of the projection may be from one: entries times first bracket width over 2^101. */
  function SumTolerance(target: seq<real>, lower: seq<real>, upper: seq<real>): real
    requires |target| == |lower| == |upper| > 0
  {
    Resolution(|target|, FirstBracket(target, lower, upper).Width())
  }

  lemma BisectSteps(f: real -> real, bracket: Bracket, rounds: nat)
    ensures Bisect(f, bracket, 0) == bracket
    ensures Bisect(f, bracket, rounds + 1) == Bisect(f, Halve(f, bracket), rounds)
  {
  }

  method BoundedSimplexProjection(target: seq<real>, lower: seq<real>, upper: seq<real>) returns (point: seq<real>)
    requires |target| == |lower| == |upper| > 0
    ensures point == Projection(target, lower, upper)
  {
    hide Bisect, Shifted, Sum, LowestMultiplier, HighestMultiplier;
    ghost var f := SumOfShift(target, lower, upper);
    var lowLambda := LowestMultiplier(target, upper);
    var highLambda := HighestMultiplier(target, lower);
    for round := 0 to ROUNDS
      invariant Bisect(f, Bracket(lowLambda, highLambda), ROUNDS - round)
             == Bisect(f, FirstBracket(target, lower, upper), ROUNDS)
    {
      BisectSteps(f, Bracket(lowLambda, highLambda), ROUNDS - round - 1);
      var midpoint := (lowLambda + highLambda) / 2.0;
      if Sum(Shifted(target, lower, upper, midpoint)) > 1.0 {
        lowLambda := midpoint;
      } else {
        highLambda := midpoint;
      }
    }
    BisectSteps(f, Bracket(lowLambda, highLambda), 0);
    point := Shifted(target, lower, upper, (lowLambda + highLambda) / 2.0);
  }

  /** Raising the multiplier lowers the sum, by at most the raise once per entry. */
  lemma ShiftedSumFalls(target: seq<real>, lower: seq<real>, upper: seq<real>, a: real, b: real)
    requires |target| == |lower| == |upper| && a <= b
    ensures Sum(Shifted(target, lower, upper, b)) <= Sum(Shifted(target, lower, upper, a))
    ensures Sum(Shifted(target, lower, upper, a)) <= Sum(Shifted(target, lower, upper, b)) + Repeated(|target|, b - a)
  {
    var ya, yb := Shifted(target, lower, upper, a), Shifted(target, lower, upper, b);
    forall i | 0 <= i < |target|
      ensures yb[i] <= ya[i] <= yb[i] + (b - a)
    {
      ShiftedAt(target, lower, upper, a, i);
      ShiftedAt(target, lower, upper, b, i);
    }
    SumMonotone(yb, ya);
    SumAtMost(ya, yb, b - a);
  }

  ghost predicate Brackets(f: real -> real, bracket: Bracket) {
    bracket.low <= bracket.high && f(bracket.low) >= 1.0 >= f(bracket.high)
  }

  /** f(low) >= 1 >= f(high) survives every halving, and the bracket never leaves its start. */
  lemma {:induction false} BisectKeepsBracket(f: real -> real, bracket: Bracket, rounds: nat)
    requires Brackets(f, bracket)
    ensures
      var last := Bisect(f, bracket, rounds);
      && Brackets(f, last)
      && bracket.low <= last.low <= last.high <= bracket.high
      && last.Width() == Halved(bracket.Width(), rounds)
    decreases rounds
  {
    if rounds > 0 {
      BisectKeepsBracket(f, Halve(f, bracket), rounds - 1);
      assert Halve(f, bracket).Width() == bracket.Width() / 2.0;
    }
  }

  /** The middle of a bracket has a sum within half the bracket, once per entry, of one. */
  lemma MiddleSum(target: seq<real>, lower: seq<real>, upper: seq<real>, low: real, middle: real, high: real)
    requires |target| == |lower| == |upper|
    requires low <= middle <= high && middle - low == high - middle
    requires Sum(Shifted(target, lower, upper, low)) >= 1.0 >= Sum(Shifted(target, lower, upper, high))
    ensures Abs(Sum(Shifted(target, lower, upper, middle)) - 1.0) <= Repeated(|target|, high - middle)
  {
    ShiftedSumFalls(target, lower, upper, low, middle);
    ShiftedSumFalls(target, lower, upper, middle, high);
  }

  /** The starting multipliers clip every entry to its upper, then to its lower, bound. */
  lemma StartingBracket(target: seq<real>, lower: seq<real>, upper: seq<real>)
    requires |target| > 0 && |target| == |lower| && InBox(lower, lower, upper)
    ensures LowestMultiplier(target, upper) <= HighestMultiplier(target, lower)
    ensures Shifted(target, lower, upper, LowestMultiplier(target, upper)) == upper
    ensures Shifted(target, lower, upper, HighestMultiplier(target, lower)) == lower
  {
    var gaps := seq(|target|, i requires 0 <= i < |target| => target[i] - upper[i]);
    var rises := seq(|target|, i requires 0 <= i < |target| => target[i] - lower[i]);
    assert gaps[0] == target[0] - upper[0] && rises[0] == target[0] - lower[0];
    forall i | 0 <= i < |target|
      ensures Shifted(target, lower, upper, LowestMultiplier(target, upper))[i] == upper[i]
      ensures Shifted(target, lower, upper, HighestMultiplier(target, lower))[i] == lower[i]
    {
      assert gaps[i] == target[i] - upper[i] && rises[i] == target[i] - lower[i];
      ShiftedAt(target, lower, upper, LowestMultiplier(target, upper), i);
      ShiftedAt(target, lower, upper, HighestMultiplier(target, lower), i);
    }
  }

  lemma LastBracket(target: seq<real>, lower: seq<real>, upper: seq<real>)
    requires |target| > 0 && |target| == |lower| && InBox(lower, lower, upper)
    requires Sum(lower) <= 1.0 <= Sum(upper)
    ensures
      var first := FirstBracket(target, lower, upper);
      var last := Bisect(SumOfShift(target, lower, upper), first, ROUNDS);
      && first.low <= last.low <= last.Midpoint() <= last.high <= first.high
      && last.Midpoint() - last.low == last.high - last.Midpoint() == Halved(first.Width(), ROUNDS) / 2.0
      && Sum(Shifted(target, lower, upper, last.low)) >= 1.0 >= Sum(Shifted(target, lower, upper, last.high))
  {
    hide Shifted, Sum, LowestMultiplier, HighestMultiplier, Bisect, Halved;
    var f := SumOfShift(target, lower, upper);
    var first := FirstBracket(target, lower, upper);
    StartingBracket(target, lower, upper);
    assert Brackets(f, first);
    BisectKeepsBracket(f, first, ROUNDS);
    var last := Bisect(f, first, ROUNDS);
    assert f(last.low) == Sum(Shifted(target, lower, upper, last.low));
    assert f(last.high) == Sum(Shifted(target, lower, upper, last.high));
  }

  lemma ShiftedInBox(target: seq<real>, lower: seq<real>, upper: seq<real>, multiplier: real)
    requires |target| == |lower| && InBox(lower, lower, upper)
    ensures InBox(Shifted(target, lower, upper, multiplier), lower, upper)
  {
    forall i | 0 <= i < |target|
      ensures lower[i] <= Shifted(target, lower, upper, multiplier)[i] <= upper[i]
    {
      ShiftedAt(target, lower, upper, multiplier, i);
    }
  }

  lemma LastHalfBracket(n: nat, width: real)
    ensures Repeated(n, Halved(width, ROUNDS) / 2.0) == Resolution(n, width)
  {
    hide Power2, Halved, Repeated;
    var p := Power2(ROUNDS) as real;
    HalvedIsQuotient(width, ROUNDS);
    PowerDoubles(ROUNDS);
    assert Power2(ROUNDS + 1) as real == 2.0 * p;
    assert (width / p) / 2.0 == width / (2.0 * p);
    RepeatedIsProduct(n, Halved(width, ROUNDS) / 2.0);
  }

  /** The projection lies in the box and sums to one up to the bisection's resolution. */
  lemma ProjectionIsNearlyFeasible(target: seq<real>, lower: seq<real>, upper: seq<real>)
    requires |target| > 0 && |target| == |lower| && InBox(lower, lower, upper)
    requires Sum(lower) <= 1.0 <= Sum(upper)
    ensures InBox(Projection(target, lower, upper), lower, upper)
    ensures Abs(Sum(Projection(target, lower, upper)) - 1.0) <= SumTolerance(target, lower, upper)
    ensures LowestMultiplier(target, upper) <= Multiplier(target, lower, upper) <= HighestMultiplier(target, lower)
  {
    hide Shifted, Sum, LowestMultiplier, HighestMultiplier, Bisect, Halved, Repeated, Resolution, SumOfShift;
    var first := FirstBracket(target, lower, upper);
    var last := Bisect(SumOfShift(target, lower, upper), first, ROUNDS);
    LastBracket(target, lower, upper);
    MiddleSum(target, lower, upper, last.low, last.Midpoint(), last.high);
    LastHalfBracket(|target|, first.Width());
    ShiftedInBox(target, lower, upper, last.Midpoint());
  }

  /** One coordinate's share of the Lagrangian of the projection problem. */
  function Cost(x: real, t: real, multiplier: real): real {
    (x - t) * (x - t) + 2.0 * multiplier * x
  }

  lemma SignedProduct(a: real, b: real)
    requires a >= 0.0 && b >= 0.0
    ensures a * b >= 0.0
  {
  }

  lemma CostDifference(y: real, p: real, t: real, multiplier: real)
    ensures Cost(y, t, multiplier) - Cost(p, t, multiplier) == (y - p) * (y + p - 2.0 * (t - multiplier))
  {
  }

  /** Clipping the shifted target minimises that share on its interval. */
  lemma ClipIsCheapest(t: real, multiplier: real, lower: real, upper: real, y: real)
    requires lower <= y <= upper
    ensures Cost(Clip(t - multiplier, lower, upper), t, multiplier) <= Cost(y, t, multiplier)
  {
    var c := t - multiplier;
    var p := Clip(c, lower, upper);
    if c < lower {
      SignedProduct(y - p, y + p - 2.0 * c);
    } else if c > upper {
      SignedProduct(p - y, 2.0 * c - y - p);
    } else {
      SignedProduct(Abs(y - p), Abs(y - p));
    }
    CostDifference(y, p, t, multiplier);
  }

  function Costs(y: seq<real>, t: seq<real>, multiplier: real): (c: seq<real>)
    requires |y| == |t|
    ensures |c| == |y| && forall i :: 0 <= i < |c| ==> c[i] == Cost(y[i], t[i], multiplier)
  {
    if y == [] then [] else [Cost(y[0], t[0], multiplier)] + Costs(y[1..], t[1..], multiplier)
  }

  lemma CostsAddUp(y: seq<real>, t: seq<real>, multiplier: real)
    requires |y| == |t|
    ensures Sum(Costs(y, t, multiplier)) == SquaredDistance(y, t) + 2.0 * multiplier * Sum(y)
  {
    hide Sum, Squares, Costs;
    var slope := 2.0 * multiplier;
    var weighted := seq(|y|, i requires 0 <= i < |y| => slope * y[i]);
    SumScaled(y, weighted, slope);
    SumOfSums(Squares(y, t), weighted, Costs(y, t, multiplier));
  }

  /** Each candidate vector minimises the Lagrangian of its multiplier over the box. */
  lemma ShiftedMinimisesLagrangian(
    target: seq<real>, lower: seq<real>, upper: seq<real>, multiplier: real, y: seq<real>)
    requires |target| == |lower| && InBox(y, lower, upper)
    ensures
      var p := Shifted(target, lower, upper, multiplier);
      SquaredDistance(p, target) + 2.0 * multiplier * Sum(p) <= SquaredDistance(y, target) + 2.0 * multiplier * Sum(y)
  {
    hide Cost, Shifted, Costs, SquaredDistance, Sum;
    var p := Shifted(target, lower, upper, multiplier);
    forall i | 0 <= i < |p|
      ensures Costs(p, target, multiplier)[i] <= Costs(y, target, multiplier)[i]
    {
      ShiftedAt(target, lower, upper, multiplier, i);
      ClipIsCheapest(target[i], multiplier, lower[i], upper[i], y[i]);
    }
    SumMonotone(Costs(p, target, multiplier), Costs(y, target, multiplier));
    CostsAddUp(p, target, multiplier);
    CostsAddUp(y, target, multiplier);
  }

  lemma MultiplierTimesGap(multiplier: real, s: real, total: real)
    requires total == 1.0
    ensures 2.0 * multiplier * total - 2.0 * multiplier * s <= 2.0 * (Abs(multiplier) * Abs(s - 1.0))
  {
    assert multiplier * total - multiplier * s == multiplier * (1.0 - s);
  }

  /** No feasible point is nearer to the target than the projection, but for the rounding of its sum. */
  lemma ProjectionIsNearest(target: seq<real>, lower: seq<real>, upper: seq<real>, y: seq<real>)
    requires |target| > 0 && |target| == |lower| && Feasible(y, lower, upper)
    ensures
      var p := Projection(target, lower, upper);
      SquaredDistance(p, target)
      <= SquaredDistance(y, target) + 2.0 * (Abs(Multiplier(target, lower, upper)) * Abs(Sum(p) - 1.0))
  {
    hide Shifted, SquaredDistance, Sum, Multiplier;
    var multiplier := Multiplier(target, lower, upper);
    ShiftedMinimisesLagrangian(target, lower, upper, multiplier, y);
    MultiplierTimesGap(multiplier, Sum(Projection(target, lower, upper)), Sum(y));
  }
}
