/** Finite real vectors: sums, squared distances, and boxes cut by a hyperplane. */
module RealVectors {
  function Sum(v: seq<real>): real {
    if v == [] then 0.0 else v[0] + Sum(v[1..])
  }

  function Squares(a: seq<real>, b: seq<real>): (s: seq<real>)
    requires |a| == |b|
    ensures |s| == |a| && forall i :: 0 <= i < |s| ==> s[i] == (a[i] - b[i]) * (a[i] - b[i])
  {
    if a == [] then [] else [(a[0] - b[0]) * (a[0] - b[0])] + Squares(a[1..], b[1..])
  }

  function SquaredDistance(a: seq<real>, b: seq<real>): real
    requires |a| == |b|
  {
    Sum(Squares(a, b))
  }

  function Least(v: seq<real>): (m: real)
    requires v != []
    ensures m in v && forall i :: 0 <= i < |v| ==> m <= v[i]
  {
    if |v| == 1 then v[0] else var m := Least(v[1..]); if v[0] < m then v[0] else m
  }

  function Greatest(v: seq<real>): (m: real)
    requires v != []
    ensures m in v && forall i :: 0 <= i < |v| ==> v[i] <= m
  {
    if |v| == 1 then v[0] else var m := Greatest(v[1..]); if v[0] > m then v[0] else m
  }

  function Abs(x: real): real { if x < 0.0 then -x else x }

  function Max(a: real, b: real): real { if a < b then b else a }

  function Min(a: real, b: real): real { if b < a then b else a }

  function Power2(n: nat): (p: nat)
    ensures p >= 1
  {
    if n == 0 then 1 else 2 * Power2(n - 1)
  }

  lemma PowerDoubles(n: nat)
    ensures Power2(n + 1) == 2 * Power2(n)
  {
  }

  lemma FiveDoublings(n: nat)
    ensures Power2(n + 5) == 32 * Power2(n)
  {
    PowerDoubles(n + 4);
    PowerDoubles(n + 3);
    PowerDoubles(n + 2);
    PowerDoubles(n + 1);
    PowerDoubles(n);
  }

  lemma TwentyFiveDoublings(n: nat)
    ensures Power2(n + 25) == 33554432 * Power2(n)
  {
    hide Power2;
    FiveDoublings(n + 20);
    FiveDoublings(n + 15);
    FiveDoublings(n + 10);
    FiveDoublings(n + 5);
    FiveDoublings(n);
  }

  lemma HundredDoublings(n: nat)
    ensures Power2(n + 100) == 1267650600228229401496703205376 * Power2(n)
  {
    hide Power2;
    TwentyFiveDoublings(n + 75);
    TwentyFiveDoublings(n + 50);
    TwentyFiveDoublings(n + 25);
    TwentyFiveDoublings(n);
  }

  ghost predicate InBox(y: seq<real>, lower: seq<real>, upper: seq<real>) {
    && |y| == |lower| == |upper|
    && forall i :: 0 <= i < |y| ==> lower[i] <= y[i] <= upper[i]
  }

  /** The probability vectors inside the box. */
  ghost predicate Feasible(y: seq<real>, lower: seq<real>, upper: seq<real>) {
    InBox(y, lower, upper) && Sum(y) == 1.0
  }

  /** n copies of d added up; linear stand-in for the product in proofs. */
  function Repeated(n: nat, d: real): real {
    if n == 0 then 0.0 else d + Repeated(n - 1, d)
  }

  /** w halved n times. */
  function Halved(w: real, n: nat): real
    decreases n
  {
    if n == 0 then w else Halved(w / 2.0, n - 1)
  }

  lemma {:induction false} RepeatedIsProduct(n: nat, d: real)
    ensures Repeated(n, d) == n as real * d
  {
    if n > 0 {
      RepeatedIsProduct(n - 1, d);
      assert n as real == (n - 1) as real + 1.0;
      assert n as real * d == (n - 1) as real * d + d;
    }
  }

  lemma {:induction false} HalvedIsQuotient(w: real, n: nat)
    ensures Halved(w, n) == w / Power2(n) as real
    decreases n
  {
    if n > 0 {
      HalvedIsQuotient(w / 2.0, n - 1);
      var p := Power2(n - 1) as real;
      assert Power2(n) as real == 2.0 * p;
      assert (w / 2.0) / p == w / (2.0 * p);
    }
  }

  lemma {:induction false} SumAtMost(a: seq<real>, b: seq<real>, d: real)
    requires |a| == |b|
    requires forall i :: 0 <= i < |a| ==> a[i] <= b[i] + d
    ensures Sum(a) <= Sum(b) + Repeated(|a|, d)
  {
    if a == [] {
    } else {
      SumAtMost(a[1..], b[1..], d);
    }
  }

  lemma SumMonotone(a: seq<real>, b: seq<real>)
    requires |a| == |b|
    requires forall i :: 0 <= i < |a| ==> a[i] <= b[i]
    ensures Sum(a) <= Sum(b)
  {
    SumAtMost(a, b, 0.0);
    RepeatedIsProduct(|a|, 0.0);
  }

  lemma {:induction false} SumUpdate(v: seq<real>, i: nat, x: real)
    requires i < |v|
    ensures Sum(v[i := x]) == Sum(v) - v[i] + x
  {
    if i == 0 {
      assert v[i := x][1..] == v[1..];
    } else {
      SumUpdate(v[1..], i - 1, x);
      assert v[i := x][1..] == v[1..][i - 1 := x];
    }
  }

  lemma {:induction false} SumOfSums(a: seq<real>, b: seq<real>, c: seq<real>)
    requires |a| == |b| == |c|
    requires forall i :: 0 <= i < |a| ==> c[i] == a[i] + b[i]
    ensures Sum(c) == Sum(a) + Sum(b)
  {
    if a != [] {
      SumOfSums(a[1..], b[1..], c[1..]);
    }
  }

  lemma {:induction false} SumScaled(a: seq<real>, b: seq<real>, k: real)
    requires |a| == |b|
    requires forall i :: 0 <= i < |a| ==> b[i] == k * a[i]
    ensures Sum(b) == k * Sum(a)
  {
    if a == [] {
    } else {
      SumScaled(a[1..], b[1..], k);
      assert k * Sum(a) == k * a[0] + k * Sum(a[1..]);
    }
  }

  /** A point of the box whose entries sum to a prescribed total. */
  ghost function Fill(lower: seq<real>, upper: seq<real>, total: real): (y: seq<real>)
    requires InBox(lower, lower, upper) && Sum(lower) <= total <= Sum(upper)
    ensures InBox(y, lower, upper) && Sum(y) == total
  {
    if lower == [] then []
    else
      SumMonotone(lower[1..], upper[1..]);
      var first := Max(lower[0], total - Sum(upper[1..]));
      [first] + Fill(lower[1..], upper[1..], total - first)
  }
}
