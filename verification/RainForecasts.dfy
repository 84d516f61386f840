/**
 Monthly rain forecasts and their prequential scoring (scripts/cliaus_historical_monthly_harvest.py,
 scripts/cliaus_walk_forward_identity_audit.py): no forecast sees the rain it forecasts.
 */
module RainForecasts {
  import opened Support
  import opened Lists

  // ---- Monthly samples ----

  type Month = m: nat | 1 <= m <= 12 witness 1

  datatype Date = Date(year: int, month: Month, day: nat)

  datatype Reading = Reading(date: Date, amount: real)

  datatype Sample = Sample(
    key: int, cutoffDay: int, trainingMonths: nat, monthToDate: real, predictedRemaining: real, predictedTotal: real,
    actualTotal: real)

  datatype Past = Past(month: int, remaining: real)

  datatype Refusal = DivisionByZero

  /** Year and month as one number, in calendar order. */
  function KeyOf(d: Date): int { d.year * 12 + d.month - 1 }

  function CalendarMonth(key: int): int { key % 12 + 1 }

  predicate Before(a: Date, b: Date) { KeyOf(a) < KeyOf(b) || (KeyOf(a) == KeyOf(b) && a.day < b.day) }

  ghost predicate Earlier(a: Date, b: Date) {
    a.year < b.year || (a.year == b.year && (a.month < b.month || (a.month == b.month && a.day < b.day)))
  }

  lemma CalendarExactly(a: Date, b: Date)
    ensures KeyOf(a) == KeyOf(b) <==> a.year == b.year && a.month == b.month
    ensures KeyOf(a) < KeyOf(b) <==> a.year < b.year || (a.year == b.year && a.month < b.month)
    ensures Before(a, b) <==> Earlier(a, b)
    ensures CalendarMonth(KeyOf(a)) == a.month
  {
  }

  function DaysIn(rows: seq<Reading>, key: int): set<nat> {
    set reading | reading in rows && KeyOf(reading.date) == key :: reading.date.day
  }

  /** A month counts when it has readings for at least 27 days, all of them past. */
  predicate IsComplete(rows: seq<Reading>, key: int, today: Date) {
    && |DaysIn(rows, key)| >= 27
    && forall reading :: reading in rows && KeyOf(reading.date) == key ==> Before(reading.date, today)
  }

  function Keys(rows: seq<Reading>): seq<int> {
    if rows == [] then [] else Keys(rows[..|rows| - 1]) + [KeyOf(rows[|rows| - 1].date)]
  }

  predicate AtMost(a: int, b: int) { a <= b }

  function CompleteKeys(rows: seq<Reading>, ks: seq<int>, today: Date): seq<int> {
    if ks == [] then []
    else
      CompleteKeys(rows, ks[..|ks| - 1], today)
      + (if IsComplete(rows, ks[|ks| - 1], today) then [ks[|ks| - 1]] else [])
  }

  /** The complete months in calendar order. */
  function MonthOrder(rows: seq<Reading>, today: Date): seq<int> {
    Sort(CompleteKeys(rows, Unique(Keys(rows)), today), AtMost)
  }

  /** The rain of one month up to a day. */
  function RainUntil(rows: seq<Reading>, key: int, cutoffDay: int): real {
    if rows == [] then 0.0
    else
      var last := rows[|rows| - 1];
      RainUntil(rows[..|rows| - 1], key, cutoffDay)
      + (if KeyOf(last.date) == key && last.date.day <= cutoffDay then last.amount else 0.0)
  }

  /** The rain of one whole month. */
  function Rain(rows: seq<Reading>, key: int): real {
    if rows == [] then 0.0
    else Rain(rows[..|rows| - 1], key) + (if KeyOf(rows[|rows| - 1].date) == key then rows[|rows| - 1].amount else 0.0)
  }

  function TotalRemaining(history: seq<Past>): real {
    if history == [] then 0.0 else TotalRemaining(history[..|history| - 1]) + history[|history| - 1].remaining
  }

  function SameMonth(history: seq<Past>, month: int): seq<Past> {
    if history == [] then []
    else
      SameMonth(history[..|history| - 1], month)
      + (if history[|history| - 1].month == month then [history[|history| - 1]] else [])
  }

  /** The global mean, drawn towards the calendar month's own mean as its years accumulate. */
  function PredictRemaining(history: seq<Past>, month: int): real
    requires history != []
  {
    var global := TotalRemaining(history) / |history| as real;
    var same := SameMonth(history, month);
    var seasonal := if same == [] then global else TotalRemaining(same) / |same| as real;
    var weight := |same| as real / (|same| as real + 4.0);
    weight * seasonal + (1.0 - weight) * global
  }

  function PastOf(rows: seq<Reading>, key: int, cutoffDay: int): Past {
    Past(CalendarMonth(key), Rain(rows, key) - RainUntil(rows, key, cutoffDay))
  }

  function History(rows: seq<Reading>, keys: seq<int>, cutoffDay: int): (r: seq<Past>)
    ensures |r| == |keys|
  {
    if keys == [] then []
    else History(rows, keys[..|keys| - 1], cutoffDay) + [PastOf(rows, keys[|keys| - 1], cutoffDay)]
  }

  // Rain, totals and selections of a list are those of its parts, and those of one element are given outright.

  lemma {:induction false} RainAdds(a: seq<Reading>, b: seq<Reading>, key: int, cutoffDay: int)
    ensures Rain(a + b, key) == Rain(a, key) + Rain(b, key)
    ensures RainUntil(a + b, key, cutoffDay) == RainUntil(a, key, cutoffDay) + RainUntil(b, key, cutoffDay)
  {
    if b == [] {
      assert a + b == a;
    } else {
      var n := |b| - 1;
      assert (a + b)[..|a + b| - 1] == a + b[..n];
      RainAdds(a, b[..n], key, cutoffDay);
    }
  }

  lemma RainOfOne(reading: Reading, d: Date, cutoffDay: int)
    ensures
      var amount := if reading.date.year == d.year && reading.date.month == d.month then reading.amount else 0.0;
      && Rain([reading], KeyOf(d)) == amount
      && RainUntil([reading], KeyOf(d), cutoffDay) == if reading.date.day <= cutoffDay then amount else 0.0
  {
    assert [reading][..0] == [];
  }

  lemma {:induction false} HistoryAdds(a: seq<Past>, b: seq<Past>, month: int)
    ensures TotalRemaining(a + b) == TotalRemaining(a) + TotalRemaining(b)
    ensures SameMonth(a + b, month) == SameMonth(a, month) + SameMonth(b, month)
  {
    if b == [] {
      assert a + b == a;
    } else {
      var n := |b| - 1;
      assert (a + b)[..|a + b| - 1] == a + b[..n];
      HistoryAdds(a, b[..n], month);
      var last := if b[n].month == month then [b[n]] else [];
      assert (SameMonth(a, month) + SameMonth(b[..n], month)) + last == SameMonth(a, month) + SameMonth(b, month);
    }
  }

  lemma HistoryOfOne(past: Past, month: int)
    ensures TotalRemaining([past]) == past.remaining
    ensures SameMonth([past], month) == if past.month == month then [past] else []
  {
    assert [past][..0] == [];
  }

  lemma NothingRemains(history: seq<Past>)
    requires history == []
    ensures TotalRemaining(history) == 0.0
  {
  }

  lemma Weighted(weight: real, n: real, a: real, b: real)
    requires weight * (n + 4.0) == n
    ensures (weight * a + (1.0 - weight) * b) * (n + 4.0) == n * a + 4.0 * b
  {
    assert (weight * a + (1.0 - weight) * b) * (n + 4.0) == weight * (n + 4.0) * a + (n + 4.0 - weight * (n + 4.0)) * b;
  }

  /** The forecast counts the calendar month's own years once each and the global mean four times. */
  lemma PredictExactly(history: seq<Past>, month: int)
    requires history != []
    ensures
      var same := SameMonth(history, month);
      PredictRemaining(history, month) * (|same| as real + 4.0)
      == TotalRemaining(same) + 4.0 * (TotalRemaining(history) / |history| as real)
  {
    hide TotalRemaining, SameMonth;
    var global := TotalRemaining(history) / |history| as real;
    var same := SameMonth(history, month);
    var n := |same| as real;
    var weight := n / (n + 4.0);
    assert weight * (n + 4.0) == n;
    var seasonal := if same == [] then global else TotalRemaining(same) / n;
    Weighted(weight, n, seasonal, global);
    if same == [] {
      NothingRemains(same);
    }
  }

  lemma {:induction false} HistoryAt(rows: seq<Reading>, keys: seq<int>, cutoffDay: int, i: nat)
    requires i < |keys|
    ensures History(rows, keys, cutoffDay)[i]
         == Past(keys[i] % 12 + 1, Rain(rows, keys[i]) - RainUntil(rows, keys[i], cutoffDay))
  {
    hide Rain, RainUntil;
    if i < |keys| - 1 {
      HistoryAt(rows, keys[..|keys| - 1], cutoffDay, i);
    }
  }

  /** The sample of month i, forecast from the months before it and its own days up to the cutoff. */
  function SampleAt(rows: seq<Reading>, keys: seq<int>, cutoffDay: int, i: nat): Sample
    requires 0 < i < |keys|
  {
    var mtd := RainUntil(rows, keys[i], cutoffDay);
    var predicted := PredictRemaining(History(rows, keys[..i], cutoffDay), CalendarMonth(keys[i]));
    Sample(keys[i], cutoffDay, i, mtd, predicted, mtd + predicted, Rain(rows, keys[i]))
  }

  method ExpandingSamples(rows: seq<Reading>, today: Date, cutoffDay: int, minimumTrainingMonths: int)
    returns (r: Result<seq<Sample>, Refusal>)
    ensures
      var keys := MonthOrder(rows, today);
      r == Err(DivisionByZero) <==> minimumTrainingMonths <= 0 && keys != []
    ensures
      var keys := MonthOrder(rows, today);
      r.Ok? ==>
        && |r.value| == (if keys != [] && minimumTrainingMonths <= |keys| then |keys| - minimumTrainingMonths else 0)
        && forall s :: 0 <= s < |r.value| ==>
             && 0 < minimumTrainingMonths + s < |keys|
             && r.value[s] == SampleAt(rows, keys, cutoffDay, minimumTrainingMonths + s)
  {
    hide MonthOrder, RainUntil, Rain, PredictRemaining;
    var keys := MonthOrder(rows, today);
    var history: seq<Past> := [];
    var samples: seq<Sample> := [];
    var i := 0;
    while i < |keys|
      invariant 0 <= i <= |keys|
      invariant i > 0 ==> minimumTrainingMonths > 0
      invariant history == History(rows, keys[..i], cutoffDay)
      invariant |samples| == if i > 0 && minimumTrainingMonths <= i then i - minimumTrainingMonths else 0
      invariant forall s :: 0 <= s < |samples| ==>
        && 0 < minimumTrainingMonths + s < |keys|
        && samples[s] == SampleAt(rows, keys, cutoffDay, minimumTrainingMonths + s)
    {
      assert keys[..i + 1][..i] == keys[..i];
      var key := keys[i];
      var mtd := RainUntil(rows, key, cutoffDay);
      var actual := Rain(rows, key);
      if |history| >= minimumTrainingMonths {
        if history == [] {
          return Err(DivisionByZero);
        }
        var predicted := PredictRemaining(history, CalendarMonth(key));
        samples := samples + [Sample(key, cutoffDay, |history|, mtd, predicted, mtd + predicted, actual)];
      }
      history := history + [Past(CalendarMonth(key), actual - mtd)];
      i := i + 1;
    }
    r := Ok(samples);
  }

  /** The same dates, and the same rain before a month and in it up to the cutoff. */
  ghost predicate SameRainUntil(a: seq<Reading>, b: seq<Reading>, key: int, cutoffDay: int) {
    && |a| == |b|
    && forall i :: 0 <= i < |a| ==>
         && a[i].date == b[i].date
         && (KeyOf(a[i].date) < key || (KeyOf(a[i].date) == key && a[i].date.day <= cutoffDay) ==>
               a[i].amount == b[i].amount)
  }

  lemma {:induction false} SameDatesSameKeys(a: seq<Reading>, b: seq<Reading>)
    requires |a| == |b| && forall i :: 0 <= i < |a| ==> a[i].date == b[i].date
    ensures Keys(a) == Keys(b)
  {
    if a != [] {
      SameDatesSameKeys(a[..|a| - 1], b[..|b| - 1]);
    }
  }

  lemma DaysFollowDates(a: seq<Reading>, b: seq<Reading>, key: int)
    requires |a| == |b| && forall i :: 0 <= i < |a| ==> a[i].date == b[i].date
    ensures DaysIn(a, key) <= DaysIn(b, key)
  {
    forall day | day in DaysIn(a, key) ensures day in DaysIn(b, key) {
      var i :| 0 <= i < |a| && KeyOf(a[i].date) == key && a[i].date.day == day;
      assert b[i] in b;
    }
  }

  lemma AllBefore(a: seq<Reading>, b: seq<Reading>, key: int, today: Date)
    requires |a| == |b| && forall i :: 0 <= i < |a| ==> a[i].date == b[i].date
    requires forall reading :: reading in a && KeyOf(reading.date) == key ==> Before(reading.date, today)
    ensures forall reading :: reading in b && KeyOf(reading.date) == key ==> Before(reading.date, today)
  {
    forall reading | reading in b && KeyOf(reading.date) == key ensures Before(reading.date, today) {
      var i :| 0 <= i < |b| && b[i] == reading;
      assert a[i] in a;
    }
  }

  lemma SameDatesSameCompleteness(a: seq<Reading>, b: seq<Reading>, key: int, today: Date)
    requires |a| == |b| && forall i :: 0 <= i < |a| ==> a[i].date == b[i].date
    ensures IsComplete(a, key, today) == IsComplete(b, key, today)
  {
    DaysFollowDates(a, b, key);
    DaysFollowDates(b, a, key);
    assert DaysIn(a, key) == DaysIn(b, key);
    if IsComplete(a, key, today) {
      AllBefore(a, b, key, today);
    } else if IsComplete(b, key, today) {
      AllBefore(b, a, key, today);
    }
  }

  lemma {:induction false} SameDatesSameMonths(a: seq<Reading>, b: seq<Reading>, ks: seq<int>, today: Date)
    requires |a| == |b| && forall i :: 0 <= i < |a| ==> a[i].date == b[i].date
    ensures CompleteKeys(a, ks, today) == CompleteKeys(b, ks, today)
  {
    hide IsComplete;
    if ks != [] {
      SameDatesSameMonths(a, b, ks[..|ks| - 1], today);
      SameDatesSameCompleteness(a, b, ks[|ks| - 1], today);
    }
  }

  lemma {:induction false} SameRain(a: seq<Reading>, b: seq<Reading>, key: int, cutoffDay: int, month: int)
    requires SameRainUntil(a, b, key, cutoffDay)
    ensures RainUntil(a, key, cutoffDay) == RainUntil(b, key, cutoffDay)
    ensures month < key ==>
      Rain(a, month) == Rain(b, month) && RainUntil(a, month, cutoffDay) == RainUntil(b, month, cutoffDay)
  {
    if a != [] {
      SameRain(a[..|a| - 1], b[..|b| - 1], key, cutoffDay, month);
    }
  }

  lemma {:induction false} SameHistory(a: seq<Reading>, b: seq<Reading>, keys: seq<int>, key: int, cutoffDay: int)
    requires SameRainUntil(a, b, key, cutoffDay)
    requires forall k :: k in keys ==> k < key
    ensures History(a, keys, cutoffDay) == History(b, keys, cutoffDay)
  {
    hide SameRainUntil, Rain, RainUntil;
    if keys != [] {
      var n := |keys| - 1;
      assert keys[n] in keys && forall k :: k in keys[..n] ==> k in keys;
      SameHistory(a, b, keys[..n], key, cutoffDay);
      SameRain(a, b, key, cutoffDay, keys[n]);
    }
  }

  ghost predicate Rising(ks: seq<int>) { forall i, j :: 0 <= i < j < |ks| ==> ks[i] < ks[j] }

  lemma {:induction false} DistinctAndOrderedRises(ks: seq<int>)
    requires NoDuplicates(ks) && Ordered(ks, AtMost)
    ensures Rising(ks)
  {
    if |ks| > 1 {
      var n := |ks| - 1;
      DistinctAndOrderedRises(ks[..n]);
      assert AtMost(ks[n - 1], ks[n]) && ks[n - 1] != ks[n];
      assert forall i :: 0 <= i < n - 1 ==> ks[..n][i] < ks[..n][n - 1];
    }
  }

  lemma {:induction false} CompleteKeysExact(rows: seq<Reading>, ks: seq<int>, today: Date)
    requires NoDuplicates(ks)
    ensures NoDuplicates(CompleteKeys(rows, ks, today))
    ensures forall k :: k in CompleteKeys(rows, ks, today) <==> k in ks && IsComplete(rows, k, today)
  {
    hide IsComplete;
    if ks != [] {
      var n := |ks| - 1;
      CompleteKeysExact(rows, ks[..n], today);
      assert ks == ks[..n] + [ks[n]];
      assert ks[n] !in ks[..n];
    }
  }

  lemma {:induction false} KeysExact(rows: seq<Reading>)
    ensures forall k :: k in Keys(rows) <==> exists reading :: reading in rows && KeyOf(reading.date) == k
  {
    if rows != [] {
      var n := |rows| - 1;
      KeysExact(rows[..n]);
      assert rows == rows[..n] + [rows[n]];
    }
  }

  lemma SomeDay(days: set<nat>)
    requires |days| >= 27
    ensures exists day :: day in days
  {
    assert days != {};
  }

  lemma MonthsAreComplete(rows: seq<Reading>, today: Date)
    ensures Rising(MonthOrder(rows, today))
    ensures forall k :: k in MonthOrder(rows, today) <==> IsComplete(rows, k, today)
  {
    hide Sort, CompleteKeys, Keys, Rising;
    CompleteKeysExact(rows, Unique(Keys(rows)), today);
    var ks := CompleteKeys(rows, Unique(Keys(rows)), today);
    SortOfDistinct(ks, AtMost);
    SortOrders(ks, AtMost);
    DistinctAndOrderedRises(Sort(ks, AtMost));
    KeysExact(rows);
    forall k | IsComplete(rows, k, today) ensures k in Keys(rows) {
      var day :| day in DaysIn(rows, k) by { SomeDay(DaysIn(rows, k)); }
    }
  }

  /** The readings of the month of a date. */
  ghost function OfMonth(rows: seq<Reading>, d: Date): set<Reading> {
    set reading | reading in rows && reading.date.year == d.year && reading.date.month == d.month
  }

  /** The month of a date has readings for at least 27 days, all of them past. */
  ghost predicate HasPassed(rows: seq<Reading>, d: Date, today: Date) {
    && |set reading | reading in OfMonth(rows, d) :: reading.date.day| >= 27
    && forall reading :: reading in OfMonth(rows, d) ==> Earlier(reading.date, today)
  }

  lemma CompleteExactly(rows: seq<Reading>, d: Date, today: Date)
    ensures IsComplete(rows, KeyOf(d), today) <==> HasPassed(rows, d, today)
  {
    hide KeyOf, Before, Earlier;
    forall reading: Reading
      ensures KeyOf(reading.date) == KeyOf(d) <==> reading.date.year == d.year && reading.date.month == d.month
      ensures Before(reading.date, today) <==> Earlier(reading.date, today)
    {
      CalendarExactly(reading.date, d);
      CalendarExactly(reading.date, today);
    }
    assert DaysIn(rows, KeyOf(d)) == set reading | reading in OfMonth(rows, d) :: reading.date.day;
  }

  /** The months are exactly those that have passed with enough readings, each once, in calendar order. */
  lemma MonthOrderExact(rows: seq<Reading>, today: Date)
    ensures Rising(MonthOrder(rows, today))
    ensures forall k :: k in MonthOrder(rows, today) <==> exists d: Date :: KeyOf(d) == k && HasPassed(rows, d, today)
  {
    hide MonthOrder, Rising, HasPassed;
    MonthsAreComplete(rows, today);
    forall d: Date ensures IsComplete(rows, KeyOf(d), today) <==> HasPassed(rows, d, today) {
      CompleteExactly(rows, d, today);
    }
    forall k | k in MonthOrder(rows, today) ensures exists d: Date :: KeyOf(d) == k && HasPassed(rows, d, today) {
      var day :| day in DaysIn(rows, k) by { SomeDay(DaysIn(rows, k)); }
      var reading :| reading in rows && KeyOf(reading.date) == k;
      assert HasPassed(rows, reading.date, today);
    }
  }

  /**
   No leak in the monthly forecasts: if two records have the same dates, the same rain in all months before a sample's
   month and the same rain in its month up to the cutoff day, the forecast is the same, whatever fell later.
   */
  lemma ForecastIgnoresLaterRain(a: seq<Reading>, b: seq<Reading>, today: Date, cutoffDay: int, i: nat)
    requires 0 < i < |MonthOrder(a, today)|
    requires SameRainUntil(a, b, MonthOrder(a, today)[i], cutoffDay)
    ensures MonthOrder(b, today) == MonthOrder(a, today)
    ensures SampleAt(b, MonthOrder(a, today), cutoffDay, i)
         == SampleAt(a, MonthOrder(a, today), cutoffDay, i).(actualTotal := Rain(b, MonthOrder(a, today)[i]))
  {
    hide Sort, CompleteKeys, Rain, RainUntil, History, PredictRemaining, IsComplete;
    SameDatesSameKeys(a, b);
    SameDatesSameMonths(a, b, Unique(Keys(a)), today);
    MonthsAreComplete(a, today);
    var keys := MonthOrder(a, today);
    SameRain(a, b, keys[i], cutoffDay, 0);
    assert forall k :: k in keys[..i] ==> k < keys[i];
    SameHistory(a, b, keys[..i], keys[i], cutoffDay);
  }

  // ---- Prequential scores ----

  datatype Forecast = Forecast(predicted: real, actual: real)

  /** The numerical routines: spread of the residuals, clipped normal tail, and the isotonic correction. */
  datatype Routines = Routines(
    sigma: seq<real> -> real,
    rawProbability: (real, real, real, real) -> real,
    isotonic: (real, seq<(real, real)>) -> real,
    logLoss: (real, real) -> real)

  datatype Score = Score(
    month: nat, threshold: nat, rawProbability: real, probability: real, outcome: real, brier: real, rawBrier: real,
    logLoss: real, inside80: bool)

  const THRESHOLDS: nat := 7
  const MIN_PRIOR: nat := 12

  function Residuals(samples: seq<Forecast>): (r: seq<real>)
    ensures |r| == |samples|
  {
    if samples == [] then []
    else Residuals(samples[..|samples| - 1]) + [samples[|samples| - 1].actual - samples[|samples| - 1].predicted]
  }

  function Total(xs: seq<real>): real { if xs == [] then 0.0 else Total(xs[..|xs| - 1]) + xs[|xs| - 1] }

  function Mean(xs: seq<real>): real { if xs == [] then 0.0 else Total(xs) / |xs| as real }

  function Outcome(sample: Forecast, threshold: nat): real { if sample.actual > threshold as real then 1.0 else 0.0 }

  /** The uncorrected probability of a sample, from the residuals of the samples before it. */
  function Raw(f: Routines, before: seq<Forecast>, predicted: real, threshold: nat): real {
    f.rawProbability(threshold as real, predicted, Mean(Residuals(before)), f.sigma(Residuals(before)))
  }

  /** What the correction of one threshold is fitted on: earlier raw probabilities with their outcomes. */
  function Prior(f: Routines, before: seq<Forecast>, threshold: nat): (r: seq<(real, real)>)
    ensures |r| == |before|
  {
    if before == [] then []
    else
      var n := |before| - 1;
      Prior(f, before[..n], threshold)
      + [(Raw(f, before[..n], before[n].predicted, threshold), Outcome(before[n], threshold))]
  }

  function Probability(f: Routines, before: seq<Forecast>, predicted: real, threshold: nat): real {
    var raw := Raw(f, before, predicted, threshold);
    if |before| >= MIN_PRIOR then f.isotonic(raw, Prior(f, before, threshold)) else raw
  }

  function Square(x: real): real { x * x }

  const HALF_WIDTH_80: real := 1.281552

  predicate Inside80(f: Routines, before: seq<Forecast>, sample: Forecast) {
    var miss := sample.actual - sample.predicted - Mean(Residuals(before));
    var width := HALF_WIDTH_80 * f.sigma(Residuals(before));
    -width <= miss <= width
  }

  function ScoreAt(f: Routines, samples: seq<Forecast>, k: nat, threshold: nat): Score
    requires k < |samples|
  {
    var before, sample := samples[..k], samples[k];
    var raw := Raw(f, before, sample.predicted, threshold);
    var p := Probability(f, before, sample.predicted, threshold);
    var outcome := Outcome(sample, threshold);
    Score(k, threshold, raw, p, outcome, Square(p - outcome), Square(raw - outcome), f.logLoss(outcome, p),
      Inside80(f, before, sample))
  }

  /** The scores of one sample, threshold by threshold. */
  function SampleScores(f: Routines, samples: seq<Forecast>, k: nat, thresholds: nat): (r: seq<Score>)
    requires k < |samples|
    ensures |r| == thresholds
  {
    if thresholds == 0 then []
    else SampleScores(f, samples, k, thresholds - 1) + [ScoreAt(f, samples, k, thresholds)]
  }

  function AllScores(f: Routines, samples: seq<Forecast>, n: nat): seq<Score>
    requires n <= |samples|
  {
    if n == 0 then [] else AllScores(f, samples, n - 1) + SampleScores(f, samples, n - 1, THRESHOLDS)
  }

  function Recorded(history: map<nat, seq<(real, real)>>, t: nat): seq<(real, real)> {
    if t in history then history[t] else []
  }

  /** What is recorded for each threshold is its prior over the samples so far. */
  ghost predicate Records(f: Routines, history: map<nat, seq<(real, real)>>, before: seq<Forecast>, from: nat, to: nat)
  {
    forall t: nat :: from <= t < to ==> Recorded(history, t) == Prior(f, before, t)
  }

  /** A score over the running quantities of the loop. */
  lemma ScoreIs(f: Routines, samples: seq<Forecast>, k: nat, t: nat)
    requires k < |samples|
    ensures
      var before, sample := samples[..k], samples[k];
      var bias, sigma := Mean(Residuals(before)), f.sigma(Residuals(before));
      var raw := f.rawProbability(t as real, sample.predicted, bias, sigma);
      var outcome := if sample.actual > t as real then 1.0 else 0.0;
      var p := if |Prior(f, before, t)| >= MIN_PRIOR then f.isotonic(raw, Prior(f, before, t)) else raw;
      var miss := sample.actual - sample.predicted - bias;
      ScoreAt(f, samples, k, t)
      == Score(k, t, raw, p, outcome, Square(p - outcome), Square(raw - outcome), f.logLoss(outcome, p),
           -(HALF_WIDTH_80 * sigma) <= miss <= HALF_WIDTH_80 * sigma)
  {
    hide Prior, Residuals, Mean, Square;
  }

  /** A score spelled out: the correction needs twelve samples, and the interval is 1.281552 deviations wide. */
  lemma ScoreExactly(f: Routines, samples: seq<Forecast>, k: nat, t: nat)
    requires k < |samples|
    ensures
      var before, sample := samples[..k], samples[k];
      var bias, sigma := Mean(Residuals(before)), f.sigma(Residuals(before));
      var raw := f.rawProbability(t as real, sample.predicted, bias, sigma);
      var outcome := if sample.actual > t as real then 1.0 else 0.0;
      var p := if k >= 12 then f.isotonic(raw, Prior(f, before, t)) else raw;
      var miss := sample.actual - sample.predicted - bias;
      ScoreAt(f, samples, k, t)
      == Score(k, t, raw, p, outcome, (p - outcome) * (p - outcome), (raw - outcome) * (raw - outcome),
           f.logLoss(outcome, p), -(1.281552 * sigma) <= miss <= 1.281552 * sigma)
  {
    hide Prior, Residuals, Mean;
  }

  lemma {:induction false} ResidualAt(samples: seq<Forecast>, i: nat)
    requires i < |samples|
    ensures Residuals(samples)[i] == samples[i].actual - samples[i].predicted
  {
    if i < |samples| - 1 {
      ResidualAt(samples[..|samples| - 1], i);
    }
  }

  lemma {:induction false} TotalAdds(xs: seq<real>, ys: seq<real>)
    ensures Total(xs + ys) == Total(xs) + Total(ys)
  {
    if ys == [] {
      assert xs + ys == xs;
    } else {
      assert (xs + ys)[..|xs + ys| - 1] == xs + ys[..|ys| - 1];
      TotalAdds(xs, ys[..|ys| - 1]);
    }
  }

  lemma MeanExactly(xs: seq<real>, x: real)
    ensures Mean(xs) * |xs| as real == Total(xs) && Mean([]) == 0.0
    ensures Total([x]) == x
  {
    assert [x][..0] == [];
  }

  /** Each earlier sample is recorded with the probability it was given at the time and its own outcome. */
  lemma {:induction false} PriorAt(f: Routines, before: seq<Forecast>, threshold: nat, i: nat)
    requires i < |before|
    ensures
      var earlier := Residuals(before[..i]);
      Prior(f, before, threshold)[i]
      == (f.rawProbability(threshold as real, before[i].predicted, Mean(earlier), f.sigma(earlier)),
          if before[i].actual > threshold as real then 1.0 else 0.0)
  {
    hide Residuals, Mean;
    var n := |before| - 1;
    if i < n {
      assert before[..n][..i] == before[..i];
      PriorAt(f, before[..n], threshold, i);
    }
  }

  lemma PriorGrows(f: Routines, samples: seq<Forecast>, k: nat, t: nat)
    requires k < |samples|
    ensures
      var before, sample := samples[..k], samples[k];
      var bias, sigma := Mean(Residuals(before)), f.sigma(Residuals(before));
      Prior(f, samples[..k + 1], t)
      == Prior(f, before, t)
         + [(f.rawProbability(t as real, sample.predicted, bias, sigma),
             if sample.actual > t as real then 1.0 else 0.0)]
  {
    assert samples[..k + 1][..k] == samples[..k];
  }

  /** Scores one sample against every threshold, recording each raw probability once its score is taken. */
  method ScoreSample(
    f: Routines, ghost samples: seq<Forecast>, k: nat, sample: Forecast, residuals: seq<real>,
    history: map<nat, seq<(real, real)>>)
    returns (scores: seq<Score>, recorded: map<nat, seq<(real, real)>>)
    requires k < |samples| && sample == samples[k] && residuals == Residuals(samples[..k])
    requires Records(f, history, samples[..k], 1, THRESHOLDS + 1)
    ensures scores == SampleScores(f, samples, k, THRESHOLDS)
    ensures Records(f, recorded, samples[..k + 1], 1, THRESHOLDS + 1)
  {
    hide Raw, Prior, Residuals, Inside80, Probability, ScoreAt;
    ghost var before := samples[..k];
    scores, recorded := [], history;
    var bias := Mean(residuals);
    var sigma := f.sigma(residuals);
    var t := 1;
    while t <= THRESHOLDS
      invariant 1 <= t <= THRESHOLDS + 1
      invariant scores == SampleScores(f, samples, k, t - 1)
      invariant Records(f, recorded, samples[..k + 1], 1, t)
      invariant Records(f, recorded, before, t, THRESHOLDS + 1)
    {
      var raw := f.rawProbability(t as real, sample.predicted, bias, sigma);
      var outcome := if sample.actual > t as real then 1.0 else 0.0;
      var prior := Recorded(recorded, t);
      var p := if |prior| >= MIN_PRIOR then f.isotonic(raw, prior) else raw;
      var miss := sample.actual - sample.predicted - bias;
      var inside := -(HALF_WIDTH_80 * sigma) <= miss <= HALF_WIDTH_80 * sigma;
      ScoreIs(f, samples, k, t);
      scores := scores + [
        Score(k, t, raw, p, outcome, Square(p - outcome), Square(raw - outcome), f.logLoss(outcome, p), inside)];
      PriorGrows(f, samples, k, t);
      recorded := recorded[t := prior + [(raw, outcome)]];
      t := t + 1;
    }
  }

  lemma EmptyPast(f: Routines, before: seq<Forecast>)
    requires before == []
    ensures Residuals(before) == []
    ensures Records(f, map[], before, 1, THRESHOLDS + 1)
  {
  }

  lemma ResidualsGrow(samples: seq<Forecast>, k: nat)
    requires k < |samples|
    ensures Residuals(samples[..k + 1]) == Residuals(samples[..k]) + [samples[k].actual - samples[k].predicted]
  {
    assert samples[..k + 1][..k] == samples[..k];
  }

  method ScoreSamples(f: Routines, samples: seq<Forecast>) returns (rows: seq<Score>)
    ensures rows == AllScores(f, samples, |samples|)
  {
    hide Prior, Residuals, SampleScores, Records;
    var residuals: seq<real> := [];
    var history: map<nat, seq<(real, real)>> := map[];
    rows := [];
    var k := 0;
    EmptyPast(f, samples[..0]);
    while k < |samples|
      invariant 0 <= k <= |samples|
      invariant rows == AllScores(f, samples, k)
      invariant residuals == Residuals(samples[..k])
      invariant Records(f, history, samples[..k], 1, THRESHOLDS + 1)
    {
      var scores;
      scores, history := ScoreSample(f, samples, k, samples[k], residuals, history);
      rows := rows + scores;
      ResidualsGrow(samples, k);
      residuals := residuals + [samples[k].actual - samples[k].predicted];
      k := k + 1;
    }
  }

  /**
   Prequential: the probabilities of a sample depend on earlier samples and its own prediction alone. Its own outcome
   and everything after it only enter the marks it is given.
   */
  lemma ProbabilitiesIgnoreOutcome(f: Routines, a: seq<Forecast>, b: seq<Forecast>, k: nat, threshold: nat)
    requires k < |a| && k < |b| && a[..k] == b[..k] && a[k].predicted == b[k].predicted
    ensures ScoreAt(f, a, k, threshold).probability == ScoreAt(f, b, k, threshold).probability
    ensures ScoreAt(f, a, k, threshold).rawProbability == ScoreAt(f, b, k, threshold).rawProbability
  {
    hide Probability, Raw;
  }

  lemma {:induction false} ScoreCount(f: Routines, samples: seq<Forecast>, n: nat)
    requires n <= |samples|
    ensures |AllScores(f, samples, n)| == n * THRESHOLDS
  {
    hide ScoreAt;
    if n > 0 {
      ScoreCount(f, samples, n - 1);
    }
  }

  lemma {:induction false} ScoreOf(f: Routines, samples: seq<Forecast>, k: nat, thresholds: nat, threshold: nat)
    requires k < |samples| && 1 <= threshold <= thresholds
    ensures SampleScores(f, samples, k, thresholds)[threshold - 1] == ScoreAt(f, samples, k, threshold)
  {
    hide ScoreAt;
    if threshold < thresholds {
      ScoreOf(f, samples, k, thresholds - 1, threshold);
    }
  }

  /** Each sample has one row per threshold, in order. */
  lemma {:induction false} RowOf(f: Routines, samples: seq<Forecast>, n: nat, k: nat, threshold: nat)
    requires k < n <= |samples| && 1 <= threshold <= 7
    ensures |AllScores(f, samples, n)| == n * 7
    ensures AllScores(f, samples, n)[k * 7 + threshold - 1] == ScoreAt(f, samples, k, threshold)
  {
    hide ScoreAt;
    ScoreCount(f, samples, n - 1);
    if k < n - 1 {
      RowOf(f, samples, n - 1, k, threshold);
    } else {
      ScoreOf(f, samples, k, THRESHOLDS, threshold);
    }
  }
}
