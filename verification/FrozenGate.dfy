/**
 The gate that lets a model pass only when it beats the market at the market's best
 (`_interval_frozen_gate` in scripts/crypto_event_multiclass_walk_forward.py).
 */
module FrozenGate {
  import opened Support
  import opened RealVectors
  import opened IntervalScoring

  const MIN_POLICY_COHORT_N := 10
  const MIN_MARKET_BRIER_ADVANTAGE := 0.005

  /** One predicted event: its quotes, the bucket that came true, and the model's vector if it was scored. */
  datatype Row = Row(gatePassed: bool, quotes: seq<Quote>, truth: nat, model: Option<seq<real>>) {
    predicate Valid() {
      truth < |quotes| && (model.Some? ==> |model.value| == |quotes|)
    }

    predicate Eligible() {
      gatePassed && SimplexFeasible(Lowers(quotes), Uppers(quotes)) && model.Some?
    }

    predicate IsContest() { Valid() && Eligible() }
  }

  type Contest = r: Row | r.IsContest() witness Row(true, [Quote(Some(1.0), Some(1.0))], 0, Some([1.0]))

  function EligibleRows(rows: seq<Row>): (eligible: seq<Contest>)
    requires forall i :: 0 <= i < |rows| ==> rows[i].Valid()
  {
    if rows == [] then []
    else if rows[0].Eligible() then [rows[0]] + EligibleRows(rows[1..])
    else EligibleRows(rows[1..])
  }

  function ModelBrier(c: Contest): real { Brier(c.model.value, c.truth) }

  function ModelLoss(log: real -> real, c: Contest): real { FlooredLoss(log, c.model.value[c.truth]) }

  function MarketScores(log: real -> real, c: Contest): ScoreBounds {
    BoundScores(log, Lowers(c.quotes), Uppers(c.quotes), c.truth)
  }

  function ModelBriers(contests: seq<Contest>): (s: seq<real>)
    ensures |s| == |contests| && forall i :: 0 <= i < |s| ==> s[i] == ModelBrier(contests[i])
  {
    seq(|contests|, i requires 0 <= i < |contests| => ModelBrier(contests[i]))
  }

  function ModelLosses(log: real -> real, contests: seq<Contest>): (s: seq<real>)
    ensures |s| == |contests|
    ensures forall i :: 0 <= i < |s| ==> s[i] == -log(Max(contests[i].model.value[contests[i].truth], 0.001))
  {
    seq(|contests|, i requires 0 <= i < |contests| => ModelLoss(log, contests[i]))
  }

  function MarketBriers(log: real -> real, contests: seq<Contest>): (s: seq<real>)
    ensures |s| == |contests| && forall i :: 0 <= i < |s| ==> s[i] == MarketScores(log, contests[i]).optimisticBrier
  {
    seq(|contests|, i requires 0 <= i < |contests| => MarketScores(log, contests[i]).optimisticBrier)
  }

  function MarketLosses(log: real -> real, contests: seq<Contest>): (s: seq<real>)
    ensures |s| == |contests| && forall i :: 0 <= i < |s| ==> s[i] == MarketScores(log, contests[i]).optimisticLogLoss
  {
    seq(|contests|, i requires 0 <= i < |contests| => MarketScores(log, contests[i]).optimisticLogLoss)
  }

  function Mean(v: seq<real>): real
    requires v != []
  {
    Sum(v) / |v| as real
  }

  /** Market's best Brier score minus the model's, averaged. */
  function BrierAdvantage(log: real -> real, contests: seq<Contest>): real
    requires contests != []
  {
    Mean(MarketBriers(log, contests)) - Mean(ModelBriers(contests))
  }

  function LossAdvantage(log: real -> real, contests: seq<Contest>): real
    requires contests != []
  {
    Mean(MarketLosses(log, contests)) - Mean(ModelLosses(log, contests))
  }

  datatype Gate = Gate(
    passed: bool,
    eligibleEvents: nat,
    cohort: bool,
    brier: bool,
    logLoss: bool,
    brierAdvantage: Option<real>,
    lossAdvantage: Option<real>)

  function IntervalFrozenGate(log: real -> real, rows: seq<Row>): Gate
    requires forall i :: 0 <= i < |rows| ==> rows[i].Valid()
  {
    var eligible := EligibleRows(rows);
    if eligible == [] then Gate(false, 0, false, false, false, None, None)
    else
      var count := |eligible|;
      var brierAdvantage := BrierAdvantage(log, eligible);
      var lossAdvantage := LossAdvantage(log, eligible);
      var cohort := count >= MIN_POLICY_COHORT_N;
      var brier := brierAdvantage >= MIN_MARKET_BRIER_ADVANTAGE;
      var logLoss := lossAdvantage > 0.0;
      Gate(cohort && brier && logLoss, count, cohort, brier, logLoss, Some(brierAdvantage), Some(lossAdvantage))
  }

  // ---- What the gate compares ----

  /** Some vector that the quotes allow sums to one, up to 1e-9. */
  ghost predicate Plausible(quotes: seq<Quote>) {
    exists y: seq<real> :: Meets(quotes, y) && 1.0 - 0.000000001 <= Sum(y) <= 1.0 + 0.000000001
  }

  lemma {:induction false} EligibleGrows(front: seq<Row>, last: Row)
    requires last.Valid() && forall i :: 0 <= i < |front| ==> front[i].Valid()
    ensures EligibleRows(front + [last]) == EligibleRows(front) + if last.Eligible() then [last] else []
  {
    hide Row.Eligible;
    if front == [] {
    } else {
      EligibleGrows(front[1..], last);
      assert (front + [last])[1..] == front[1..] + [last];
    }
  }

  /** The gate counts, in order, exactly the informative rows with a model vector and plausible quotes. */
  lemma {:induction false} EligibleExactly(rows: seq<Row>) returns (at: seq<nat>)
    requires forall i :: 0 <= i < |rows| ==> rows[i].Valid()
    ensures |at| == |EligibleRows(rows)|
    ensures forall k :: 0 <= k < |at| ==> at[k] < |rows| && EligibleRows(rows)[k] == rows[at[k]]
    ensures forall j, k :: 0 <= j < k < |at| ==> at[j] < at[k]
    ensures forall i :: 0 <= i < |rows| ==>
      (i in at <==> rows[i].gatePassed && rows[i].model.Some? && Plausible(rows[i].quotes))
  {
    hide SimplexFeasible, Sum, Meets;
    if rows == [] {
      at := [];
    } else {
      var front, last := rows[..|rows| - 1], rows[|rows| - 1];
      at := EligibleExactly(front);
      EligibleGrows(front, last);
      SimplexFeasibleExactly(last.quotes);
      assert rows == front + [last];
      if last.Eligible() {
        at := at + [|front|];
      }
    }
  }

  lemma MeanTimesCount(v: seq<real>)
    requires v != []
    ensures Mean(v) * |v| as real == Sum(v)
  {
    hide Sum;
  }

  lemma Scaled(a: real, b: real, bound: real, count: real)
    requires count > 0.0
    ensures a - b >= bound <==> a * count - b * count >= bound * count
    ensures a - b > bound <==> a * count - b * count > bound * count
  {
    var gap := a - b - bound;
    assert a * count - b * count - bound * count == gap * count;
  }

  /**
   The gate passes exactly with ten or more eligible events over which the market's best Brier scores exceed the model's
   by at least 0.005 each, and its best losses exceed the model's at all, both on average.
   */
  lemma GateExactly(log: real -> real, rows: seq<Row>)
    requires forall i :: 0 <= i < |rows| ==> rows[i].Valid()
    ensures
      var count, gate := |EligibleRows(rows)|, IntervalFrozenGate(log, rows);
      && gate.eligibleEvents == count
      && (gate.cohort <==> count >= 10)
      && (gate.passed <==> gate.cohort && gate.brier && gate.logLoss)
    ensures
      var gate := IntervalFrozenGate(log, rows);
      EligibleRows(rows) == [] ==>
        !gate.brier && !gate.logLoss && gate.brierAdvantage == gate.lossAdvantage == None
    ensures
      var contests, gate := EligibleRows(rows), IntervalFrozenGate(log, rows);
      var count := |contests| as real;
      var lead := Sum(MarketBriers(log, contests)) - Sum(ModelBriers(contests));
      contests != [] ==>
        && gate.brierAdvantage.Some? && gate.brierAdvantage.value * count == lead
        && (gate.brier <==> lead >= 0.005 * count)
    ensures
      var contests, gate := EligibleRows(rows), IntervalFrozenGate(log, rows);
      var count := |contests| as real;
      var lead := Sum(MarketLosses(log, contests)) - Sum(ModelLosses(log, contests));
      contests != [] ==>
        && gate.lossAdvantage.Some? && gate.lossAdvantage.value * count == lead
        && (gate.logLoss <==> lead > 0.0)
  {
    hide Mean, Sum, EligibleRows, MarketBriers, MarketLosses, ModelBriers, ModelLosses;
    var contests := EligibleRows(rows);
    if contests != [] {
      var count := |contests| as real;
      MeanTimesCount(MarketBriers(log, contests));
      MeanTimesCount(ModelBriers(contests));
      MeanTimesCount(MarketLosses(log, contests));
      MeanTimesCount(ModelLosses(log, contests));
      Scaled(Mean(MarketBriers(log, contests)), Mean(ModelBriers(contests)), 0.005, count);
      Scaled(Mean(MarketLosses(log, contests)), Mean(ModelLosses(log, contests)), 0.0, count);
    }
  }

  // ---- What a pass means ----

  /** A probability vector that the event's bids and asks allow. */
  ghost predicate Possible(c: Contest, y: seq<real>) {
    Meets(c.quotes, y) && Sum(y) == 1.0
  }

  lemma PossibleIsFeasible(c: Contest, y: seq<real>)
    ensures Possible(c, y) <==> Feasible(y, Lowers(c.quotes), Uppers(c.quotes))
  {
    hide Sum, Meets;
    BoundsAreTheQuotes(c.quotes, y);
  }

  ghost predicate Believable(c: Contest) { exists y :: Possible(c, y) }

  /** One probability vector per event, each inside that event's bid/ask box. */
  ghost predicate Beliefs(contests: seq<Contest>, ys: seq<seq<real>>) {
    |ys| == |contests| && forall i :: 0 <= i < |ys| ==> Possible(contests[i], ys[i])
  }

  function BeliefBriers(contests: seq<Contest>, ys: seq<seq<real>>): (s: seq<real>)
    requires |ys| == |contests| && forall i :: 0 <= i < |ys| ==> contests[i].truth < |ys[i]|
    ensures |s| == |ys| && forall i :: 0 <= i < |s| ==> s[i] == Brier(ys[i], contests[i].truth)
  {
    seq(|ys|, i requires 0 <= i < |ys| => Brier(ys[i], contests[i].truth))
  }

  function BeliefLosses(log: real -> real, contests: seq<Contest>, ys: seq<seq<real>>): (s: seq<real>)
    requires |ys| == |contests| && forall i :: 0 <= i < |ys| ==> contests[i].truth < |ys[i]|
    ensures |s| == |ys| && forall i :: 0 <= i < |s| ==> s[i] == -log(Max(ys[i][contests[i].truth], 0.001))
  {
    seq(|ys|, i requires 0 <= i < |ys| => FlooredLoss(log, ys[i][contests[i].truth]))
  }

  function Tolerance(c: Contest): real { BrierTolerance(|c.quotes|) }

  function Tolerances(contests: seq<Contest>): (s: seq<real>)
    ensures |s| == |contests| && forall i :: 0 <= i < |s| ==> s[i] == Tolerance(contests[i])
  {
    seq(|contests|, i requires 0 <= i < |contests| => Tolerance(contests[i]))
  }

  /** Whatever the market believed inside its quotes, it scores no better than its optimistic bounds. */
  lemma BeliefsScoreNoBetter(log: real -> real, contests: seq<Contest>, ys: seq<seq<real>>)
    requires NeverFalls(log) && contests != [] && Beliefs(contests, ys)
    ensures Sum(MarketBriers(log, contests)) <= Sum(BeliefBriers(contests, ys)) + Sum(Tolerances(contests))
    ensures Sum(MarketLosses(log, contests)) <= Sum(BeliefLosses(log, contests, ys))
  {
    hide Brier, BrierTolerance, OptimisticBrier, PessimisticBrier, FlooredLoss, TightLower, TightUpper, Sum,
      Feasible, Quote.Allows;
    var briers, slack := BeliefBriers(contests, ys), Tolerances(contests);
    var both := seq(|ys|, i requires 0 <= i < |ys| => briers[i] + slack[i]);
    forall i | 0 <= i < |ys|
      ensures MarketScores(log, contests[i]).optimisticBrier <= both[i]
      ensures MarketScores(log, contests[i]).optimisticLogLoss <= -log(Max(ys[i][contests[i].truth], 0.001))
    {
      var c := contests[i];
      PossibleIsFeasible(c, ys[i]);
      OptimisticBrierIsLowest(Lowers(c.quotes), Uppers(c.quotes), c.truth, ys[i]);
      LossBoundsEnclose(log, Lowers(c.quotes), Uppers(c.quotes), c.truth, ys[i]);
    }
    SumMonotone(MarketBriers(log, contests), both);
    SumOfSums(briers, slack, both);
    SumMonotone(MarketLosses(log, contests), BeliefLosses(log, contests, ys));
  }

  /**
   Soundness: a passing gate means ten or more eligible events over which, whatever probabilities the market held inside
   its quotes, the model's Brier scores are better by 0.005 on average (less the projection's resolution) and its losses
   are strictly lower on average.
   */
  lemma PassedGateBeatsEveryBelief(log: real -> real, rows: seq<Row>, ys: seq<seq<real>>)
    requires NeverFalls(log) && forall i :: 0 <= i < |rows| ==> rows[i].Valid()
    requires IntervalFrozenGate(log, rows).passed
    requires Beliefs(EligibleRows(rows), ys)
    ensures
      var contests := EligibleRows(rows);
      && |contests| >= 10
      && Sum(BeliefBriers(contests, ys)) - Sum(ModelBriers(contests))
         >= 0.005 * |contests| as real - Sum(Tolerances(contests))
      && Sum(BeliefLosses(log, contests, ys)) > Sum(ModelLosses(log, contests))
  {
    hide IntervalFrozenGate, Brier, BrierTolerance, FlooredLoss, Sum, EligibleRows, MarketScores, MarketBriers,
      MarketLosses, ModelBriers, ModelLosses, BeliefBriers, BeliefLosses, Possible;
    GateExactly(log, rows);
    BeliefsScoreNoBetter(log, EligibleRows(rows), ys);
  }

  // ---- What a failure means ----

  /** A belief inside the quotes that scores within the tolerance of the optimistic Brier score. */
  lemma ReachBest(c: Contest) returns (y: seq<real>)
    requires Believable(c)
    ensures Possible(c, y)
    ensures Brier(y, c.truth) <= OptimisticBrier(Lowers(c.quotes), Uppers(c.quotes), c.truth) + Tolerance(c)
  {
    hide Possible, Brier, OptimisticBrier, BrierTolerance, Feasible;
    var w :| Possible(c, w);
    PossibleIsFeasible(c, w);
    y := OptimisticBrierIsReached(Lowers(c.quotes), Uppers(c.quotes), c.truth, w);
    PossibleIsFeasible(c, y);
  }

  lemma {:induction false} ReachBestEverywhere(contests: seq<Contest>) returns (ys: seq<seq<real>>)
    requires forall i :: 0 <= i < |contests| ==> Believable(contests[i])
    ensures Beliefs(contests, ys)
    ensures forall i :: 0 <= i < |ys| ==>
      Brier(ys[i], contests[i].truth)
      <= OptimisticBrier(Lowers(contests[i].quotes), Uppers(contests[i].quotes), contests[i].truth)
         + Tolerance(contests[i])
  {
    hide Brier, OptimisticBrier, BrierTolerance, Possible;
    if contests == [] {
      ys := [];
    } else {
      var y := ReachBest(contests[0]);
      var rest := ReachBestEverywhere(contests[1..]);
      ys := [y] + rest;
    }
  }

  /**
   Completeness: when the gate's Brier check fails although every eligible event admits some belief, there
   are beliefs inside the quotes against which the model really lacks the advantage, up to the resolution.
   */
  lemma FailedBrierCheckHasBeliefs(log: real -> real, rows: seq<Row>) returns (ys: seq<seq<real>>)
    requires forall i :: 0 <= i < |rows| ==> rows[i].Valid()
    requires EligibleRows(rows) != [] && !IntervalFrozenGate(log, rows).brier
    requires forall i :: 0 <= i < |EligibleRows(rows)| ==> Believable(EligibleRows(rows)[i])
    ensures
      var contests := EligibleRows(rows);
      && Beliefs(contests, ys)
      && Sum(BeliefBriers(contests, ys)) - Sum(ModelBriers(contests))
         < 0.005 * |contests| as real + Sum(Tolerances(contests))
  {
    hide IntervalFrozenGate, Brier, BrierTolerance, OptimisticBrier, PessimisticBrier, FlooredLoss, TightLower,
      TightUpper, Sum;
    hide EligibleRows;
    var contests := EligibleRows(rows);
    ys := ReachBestEverywhere(contests);
    var best, slack := MarketBriers(log, contests), Tolerances(contests);
    var both := seq(|ys|, i requires 0 <= i < |ys| => best[i] + slack[i]);
    GateExactly(log, rows);
    SumMonotone(BeliefBriers(contests, ys), both);
    SumOfSums(best, slack, both);
  }

  /** Every choice of one belief per event loses more than the model, on average. */
  ghost predicate ModelLosesLeast(log: real -> real, contests: seq<Contest>)
    requires contests != []
  {
    forall ys: seq<seq<real>> :: Beliefs(contests, ys) ==>
      Sum(BeliefLosses(log, contests, ys)) > Sum(ModelLosses(log, contests))
  }

  /** A belief inside the quotes whose loss is the optimistic one. */
  lemma ReachBestLoss(log: real -> real, c: Contest) returns (y: seq<real>)
    requires Believable(c)
    ensures Possible(c, y)
    ensures -log(Max(y[c.truth], 0.001)) == MarketScores(log, c).optimisticLogLoss
  {
    hide OptimisticBrier, PessimisticBrier, FlooredLoss, TightLower, TightUpper, Sum, Possible;
    var w :| Possible(c, w);
    PossibleIsFeasible(c, w);
    SumMonotone(Lowers(c.quotes), w);
    SumMonotone(w, Uppers(c.quotes));
    var best, worst := LossBoundsAreReached(log, Lowers(c.quotes), Uppers(c.quotes), c.truth);
    PossibleIsFeasible(c, best);
    y := best;
  }

  lemma {:induction false} ReachBestLossEverywhere(log: real -> real, contests: seq<Contest>)
    returns (ys: seq<seq<real>>)
    requires forall i :: 0 <= i < |contests| ==> Believable(contests[i])
    ensures Beliefs(contests, ys)
    ensures forall i :: 0 <= i < |ys| ==>
      -log(Max(ys[i][contests[i].truth], 0.001)) == MarketScores(log, contests[i]).optimisticLogLoss
  {
    hide FlooredLoss, MarketScores, Possible;
    if contests == [] {
      ys := [];
    } else {
      var y := ReachBestLoss(log, contests[0]);
      var rest := ReachBestLossEverywhere(log, contests[1..]);
      ys := [y] + rest;
    }
  }

  /**
   The log-loss check is exact: when every eligible event admits some belief, it passes if and only if the model's mean
   loss is strictly below that of every choice of beliefs inside the quotes.
   */
  lemma LogLossCheckExact(log: real -> real, rows: seq<Row>)
    requires NeverFalls(log) && forall i :: 0 <= i < |rows| ==> rows[i].Valid()
    requires EligibleRows(rows) != []
    requires forall i :: 0 <= i < |EligibleRows(rows)| ==> Believable(EligibleRows(rows)[i])
    ensures IntervalFrozenGate(log, rows).logLoss <==> ModelLosesLeast(log, EligibleRows(rows))
  {
    hide IntervalFrozenGate, Brier, BrierTolerance, FlooredLoss, Sum, EligibleRows, MarketScores, MarketBriers,
      MarketLosses, ModelBriers, ModelLosses, BeliefBriers, BeliefLosses, Believable;
    var contests := EligibleRows(rows);
    var ys := ReachBestLossEverywhere(log, contests);
    assert BeliefLosses(log, contests, ys) == MarketLosses(log, contests);
    GateExactly(log, rows);
    forall zs: seq<seq<real>> | Beliefs(contests, zs)
      ensures Sum(MarketLosses(log, contests)) <= Sum(BeliefLosses(log, contests, zs))
    {
      BeliefsScoreNoBetter(log, contests, zs);
    }
  }

  /** Completeness: a model with ten eligible events that clears every belief by more than the resolution passes. */
  lemma ClearMeritPasses(log: real -> real, rows: seq<Row>)
    requires NeverFalls(log) && forall i :: 0 <= i < |rows| ==> rows[i].Valid()
    requires |EligibleRows(rows)| >= 10
    requires forall i :: 0 <= i < |EligibleRows(rows)| ==> Believable(EligibleRows(rows)[i])
    requires ModelLosesLeast(log, EligibleRows(rows))
    requires forall ys: seq<seq<real>> :: Beliefs(EligibleRows(rows), ys) ==>
      Sum(BeliefBriers(EligibleRows(rows), ys)) - Sum(ModelBriers(EligibleRows(rows)))
      >= 0.005 * |EligibleRows(rows)| as real + Sum(Tolerances(EligibleRows(rows)))
    ensures IntervalFrozenGate(log, rows).passed
  {
    hide IntervalFrozenGate, Brier, BrierTolerance, FlooredLoss, Sum, EligibleRows, MarketScores, MarketBriers,
      MarketLosses, ModelBriers, ModelLosses, BeliefBriers, BeliefLosses, Possible, ModelLosesLeast, Believable;
    GateExactly(log, rows);
    LogLossCheckExact(log, rows);
    if !IntervalFrozenGate(log, rows).brier {
      var ys := FailedBrierCheckHasBeliefs(log, rows);
    }
  }

  /** A model whose every vector lies inside the quotes it is compared with never passes. */
  lemma ModelInsideTheQuotesNeverPasses(log: real -> real, rows: seq<Row>)
    requires NeverFalls(log) && forall i :: 0 <= i < |rows| ==> rows[i].Valid()
    requires forall i :: 0 <= i < |EligibleRows(rows)| ==>
      Possible(EligibleRows(rows)[i], EligibleRows(rows)[i].model.value)
    ensures !IntervalFrozenGate(log, rows).passed
  {
    hide IntervalFrozenGate, Brier, BrierTolerance, FlooredLoss, Sum, EligibleRows, MarketScores, MarketBriers,
      MarketLosses, ModelBriers, ModelLosses, BeliefBriers, BeliefLosses;
    var contests := EligibleRows(rows);
    var ys := seq(|contests|, i requires 0 <= i < |contests| => contests[i].model.value);
    assert BeliefLosses(log, contests, ys) == ModelLosses(log, contests);
    if IntervalFrozenGate(log, rows).passed {
      PassedGateBeatsEveryBelief(log, rows, ys);
    }
  }

  // ---- A pass that happens ----

  lemma {:induction false} AllEligible(rows: seq<Contest>)
    ensures EligibleRows(rows) == rows
  {
    hide Row.Eligible;
    if rows != [] {
      AllEligible(rows[1..]);
    }
  }

  /** A market quoted at one half on both sides, and a model that gave the true bucket 0.9. */
  function SureRow(): Row {
    var half := Quote(Some(0.5), Some(0.5));
    Row(true, [half, half], 0, Some([0.9, 0.1]))
  }

  lemma SureRowScores(log: real -> real)
    ensures SureRow().IsContest()
    ensures ModelBrier(SureRow()) == 0.02 && ModelLoss(log, SureRow()) == -log(0.9)
    ensures MarketScores(log, SureRow()).optimisticBrier > 0.49
    ensures MarketScores(log, SureRow()).optimisticLogLoss == -log(0.5)
  {
    hide Brier, OptimisticBrier, PessimisticBrier, BrierTolerance, Sum, TightLower, TightUpper;
    var halves, model := [0.5, 0.5], [0.9, 0.1];
    assert Lowers(SureRow().quotes) == halves == Uppers(SureRow().quotes);
    PairScores(halves);
    PairScores(model);
    ToleranceExactly(2);
    var y := OptimisticBrierIsReached(halves, halves, 0, halves);
    assert y == halves;
    var best, worst := LossBoundsAreReached(log, halves, halves, 0);
  }

  /** The gate can pass: ten such events pass it under every log that tells 0.9 from 0.5. */
  lemma TenSureEventsPass(log: real -> real, rows: seq<Row>)
    requires log(0.5) < log(0.9)
    requires |rows| == 10 && forall i :: 0 <= i < 10 ==> rows[i] == SureRow() && rows[i].Valid()
    ensures IntervalFrozenGate(log, rows).passed
  {
    hide IntervalFrozenGate, Row.Eligible, SureRow, ModelBrier, ModelLoss, MarketScores, Sum, Repeated;
    SureRowScores(log);
    var contests: seq<Contest> := rows;
    AllEligible(contests);
    GateExactly(log, rows);
    SumAtMost(ModelBriers(contests), MarketBriers(log, contests), -0.47);
    RepeatedIsProduct(10, -0.47);
    SumAtMost(ModelLosses(log, contests), MarketLosses(log, contests), log(0.5) - log(0.9));
    RepeatedIsProduct(10, log(0.5) - log(0.9));
  }
}
