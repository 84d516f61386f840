/**
 Outcome buckets of an event and the check that they cover the real line
 (scripts/crypto_event_multiclass_walk_forward.py).
 */
module BucketCoverage {
  import opened Support
  import opened Lists

  datatype Bucket = Range(low: real, high: real) | Below(high: real) | Above(low: real)
  {
    function Lower(): Option<real> { if this.Below? then None else Some(low) }

    function Upper(): Option<real> { if this.Above? then None else Some(high) }

    predicate Contains(value: real) {
      match this
      case Range(low, high) => low <= value <= high
      case Below(high) => value < high
      case Above(low) => value > low
    }
  }

  datatype Strike = Between | Less | Greater | OtherStrike

  datatype Market = Market(strike: Strike, floor: Option<real>, cap: Option<real>)

  /** The bucket of a market, if its strike fields describe one. */
  function IntervalOf(m: Market): Option<Bucket> {
    if m.strike == Between && m.floor.Some? && m.cap.Some? then Some(Range(m.floor.value, m.cap.value))
    else if m.strike == Less && m.cap.Some? then Some(Below(m.cap.value))
    else if m.strike == Greater && m.floor.Some? then Some(Above(m.floor.value))
    else None
  }

  /** The market's strike fields describe this bucket. */
  ghost predicate Describes(m: Market, bucket: Bucket) {
    match bucket
    case Range(low, high) => m == Market(Between, Some(low), Some(high))
    case Below(high) => m.strike == Less && m.cap == Some(high)
    case Above(low) => m.strike == Greater && m.floor == Some(low)
  }

  lemma IntervalExactly(m: Market, bucket: Bucket)
    ensures IntervalOf(m) == Some(bucket) <==> Describes(m, bucket)
  {
  }

  datatype Reason = NoBuckets | LowerTailMissing | UpperTailMissing | BucketGapOrOverlap

  const TOLERANCE: real := 0.011

  predicate Near(a: real, b: real) { -TOLERANCE <= a - b <= TOLERANCE }

  /** Whether two neighbours meet; a missing bound at the join is not compared. */
  predicate Meets(left: Bucket, right: Bucket) {
    left.Upper().None? || right.Lower().None? || Near(left.Upper().value, right.Lower().value)
  }

  function Gaps(buckets: seq<Bucket>): seq<Reason> {
    if |buckets| < 2 then []
    else
      Gaps(buckets[..|buckets| - 1])
      + (if Meets(buckets[|buckets| - 2], buckets[|buckets| - 1]) then [] else [BucketGapOrOverlap])
  }

  function Reasons(buckets: seq<Bucket>): seq<Reason> {
    if buckets == [] then [NoBuckets]
    else
      (if buckets[0].Lower().None? then [] else [LowerTailMissing])
      + (if buckets[|buckets| - 1].Upper().None? then [] else [UpperTailMissing])
      + Gaps(buckets)
  }

  lemma NothingToMeet(buckets: seq<Bucket>)
    requires |buckets| <= 1
    ensures Gaps(buckets) == []
  {
  }

  lemma GapsGrow(buckets: seq<Bucket>, i: nat)
    requires 1 <= i < |buckets|
    ensures Gaps(buckets[..i + 1])
         == Gaps(buckets[..i]) + (if Meets(buckets[i - 1], buckets[i]) then [] else [BucketGapOrOverlap])
  {
    hide Meets;
    assert buckets[..i + 1][..i] == buckets[..i];
  }

  method CoverageReasons(buckets: seq<Bucket>) returns (reasons: seq<Reason>)
    ensures reasons == Reasons(buckets)
  {
    hide Near, Gaps;
    if buckets == [] {
      return [NoBuckets];
    }
    reasons := [];
    if buckets[0].Lower().Some? {
      reasons := reasons + [LowerTailMissing];
    }
    if buckets[|buckets| - 1].Upper().Some? {
      reasons := reasons + [UpperTailMissing];
    }
    ghost var tails := reasons;
    assert Gaps(buckets[..1]) == [] by { NothingToMeet(buckets[..1]); }
    var i := 1;
    while i < |buckets|
      invariant 1 <= i <= |buckets|
      invariant reasons == tails + Gaps(buckets[..i])
    {
      var left, right := buckets[i - 1], buckets[i];
      GapsGrow(buckets, i);
      if left.Upper().Some? && right.Lower().Some? && !Near(left.Upper().value, right.Lower().value) {
        reasons := reasons + [BucketGapOrOverlap];
      }
      i := i + 1;
    }
    assert buckets[..|buckets|] == buckets;
  }

  /** Where one bucket ends and the next begins, if both do, is at most 0.011 apart. */
  ghost predicate Joined(left: Bucket, right: Bucket) {
    left.Above? || right.Below? || -0.011 <= left.high - right.low <= 0.011
  }

  ghost predicate JoinedAt(buckets: seq<Bucket>, i: nat)
    requires i + 1 < |buckets|
  {
    Joined(buckets[i], buckets[i + 1])
  }

  lemma {:induction false} NoGapsExact(buckets: seq<Bucket>)
    ensures Gaps(buckets) == [] <==> forall i :: 0 <= i < |buckets| - 1 ==> JoinedAt(buckets, i)
  {
    if |buckets| >= 2 {
      var n := |buckets| - 1;
      var front := buckets[..n];
      NoGapsExact(front);
      assert Meets(buckets[n - 1], buckets[n]) <==> JoinedAt(buckets, n - 1);
      assert forall i :: 0 <= i < n - 1 ==> JoinedAt(front, i) == JoinedAt(buckets, i);
    }
  }

  /** No reason is given exactly when both tails are open and all neighbours meet. */
  lemma NoReasonsExact(buckets: seq<Bucket>)
    ensures Reasons(buckets) == []
       <==> && buckets != [] && buckets[0].Below? && buckets[|buckets| - 1].Above?
            && forall i :: 0 <= i < |buckets| - 1 ==> JoinedAt(buckets, i)
  {
    hide Gaps;
    NoGapsExact(buckets);
  }

  lemma {:induction false} GapsAreGaps(buckets: seq<Bucket>)
    ensures forall reason :: reason in Gaps(buckets) ==> reason == BucketGapOrOverlap
  {
    if |buckets| >= 2 {
      GapsAreGaps(buckets[..|buckets| - 1]);
    }
  }

  /** Each reason is given exactly when it applies. */
  lemma ReasonsExactly(buckets: seq<Bucket>)
    ensures NoBuckets in Reasons(buckets) <==> buckets == []
    ensures LowerTailMissing in Reasons(buckets) <==> buckets != [] && !buckets[0].Below?
    ensures UpperTailMissing in Reasons(buckets) <==> buckets != [] && !buckets[|buckets| - 1].Above?
    ensures BucketGapOrOverlap in Reasons(buckets) <==> exists i :: 0 <= i < |buckets| - 1 && !JoinedAt(buckets, i)
  {
    hide Gaps;
    NoGapsExact(buckets);
    GapsAreGaps(buckets);
    if buckets != [] {
      var gaps := Gaps(buckets);
      assert gaps != [] ==> gaps[0] in gaps;
    }
  }

  ghost predicate Bound(buckets: seq<Bucket>, b: real) {
    exists bucket :: bucket in buckets && (bucket.Lower() == Some(b) || bucket.Upper() == Some(b))
  }

  ghost predicate NearABound(buckets: seq<Bucket>, value: real) {
    exists b: real :: Bound(buckets, b) && -0.011 <= value - b <= 0.011
  }

  ghost predicate Covered(buckets: seq<Bucket>, value: real) {
    (exists bucket :: bucket in buckets && bucket.Contains(value)) || NearABound(buckets, value)
  }

  /** The value lies at or past the bucket's upper end. */
  predicate Past(bucket: Bucket, value: real) {
    match bucket
    case Range(_, high) => value > high
    case Below(high) => value >= high
    case Above(_) => false
  }

  lemma CoveredAtBound(buckets: seq<Bucket>, bucket: Bucket, b: real, value: real)
    requires bucket in buckets && (bucket.Lower() == Some(b) || bucket.Upper() == Some(b))
    requires Near(value, b)
    ensures Covered(buckets, value)
  {
    assert Bound(buckets, b);
  }

  /** A value past one bucket and not past the next is in the next, or in the small gap between them. */
  lemma CoveredAtJoin(buckets: seq<Bucket>, i: nat, value: real)
    requires i + 1 < |buckets| && JoinedAt(buckets, i)
    requires Past(buckets[i], value) && !Past(buckets[i + 1], value)
    ensures Covered(buckets, value)
  {
    var left, right := buckets[i], buckets[i + 1];
    if !right.Contains(value) {
      CoveredAtBound(buckets, right, right.Lower().value, value);
    } else {
      assert right in buckets;
    }
  }

  lemma AboveIsNeverPast(bucket: Bucket, value: real)
    requires bucket.Above?
    ensures !Past(bucket, value)
  {
  }

  lemma FirstCovers(buckets: seq<Bucket>, value: real)
    requires buckets != [] && buckets[0].Below? && !Past(buckets[0], value)
    ensures Covered(buckets, value)
  {
    assert buckets[0] in buckets && buckets[0].Contains(value);
  }

  /** If no reason is given, every real value is in some bucket or within the tolerance of a bucket's end. */
  lemma EveryValueIsCovered(buckets: seq<Bucket>, value: real)
    requires Reasons(buckets) == []
    ensures Covered(buckets, value)
  {
    hide Reasons, Covered, Meets, Past;
    NoReasonsExact(buckets);
    if Past(buckets[0], value) {
      var i := 0;
      while Past(buckets[i + 1], value)
        invariant 0 <= i < |buckets| - 1
        invariant Past(buckets[i], value)
        decreases |buckets| - i
      {
        AboveIsNeverPast(buckets[|buckets| - 1], value);
        i := i + 1;
      }
      CoveredAtJoin(buckets, i, value);
    } else {
      FirstCovers(buckets, value);
    }
  }

  // ---- The buckets of an event ----

  /** Lowest first; a bucket with no lower end sorts before all others. */
  predicate LowerAtMost(a: Bucket, b: Bucket) {
    a.Lower().None? || (b.Lower().Some? && a.Lower().value <= b.Lower().value)
  }

  ghost predicate StartsNoLater(a: Bucket, b: Bucket) { a.Below? || (!b.Below? && a.low <= b.low) }

  ghost predicate Ascending(buckets: seq<Bucket>) {
    forall i, j :: 0 <= i < j < |buckets| ==> StartsNoLater(buckets[i], buckets[j])
  }

  function ParsedBuckets(markets: seq<Market>): seq<Bucket> {
    if markets == [] then []
    else
      var interval := IntervalOf(markets[|markets| - 1]);
      ParsedBuckets(markets[..|markets| - 1]) + (if interval.Some? then [interval.value] else [])
  }

  /** The buckets of the markets that describe one, lowest first. */
  function EventBuckets(markets: seq<Market>): seq<Bucket> { Sort(ParsedBuckets(markets), LowerAtMost) }

  method BuildBuckets(markets: seq<Market>) returns (buckets: seq<Bucket>, unparseable: nat)
    ensures buckets == EventBuckets(markets)
    ensures unparseable == CountWhere(markets, (m: Market) => IntervalOf(m).None?)
  {
    buckets, unparseable := [], 0;
    var i := 0;
    assert markets[0..] == markets;
    while i < |markets|
      invariant 0 <= i <= |markets|
      invariant buckets == ParsedBuckets(markets[..i])
      invariant unparseable + CountWhere(markets[i..], (m: Market) => IntervalOf(m).None?)
             == CountWhere(markets, (m: Market) => IntervalOf(m).None?)
    {
      assert markets[..i + 1][..i] == markets[..i];
      assert markets[i..][0] == markets[i] && markets[i..][1..] == markets[i + 1..];
      var interval := IntervalOf(markets[i]);
      if interval.None? {
        unparseable := unparseable + 1;
      } else {
        buckets := buckets + [interval.value];
      }
      i := i + 1;
    }
    assert markets[..i] == markets;
    buckets := Sort(buckets, LowerAtMost);
  }

  lemma {:induction false} OrderedIsAscending(buckets: seq<Bucket>)
    requires Ordered(buckets, LowerAtMost)
    ensures Ascending(buckets)
  {
    if |buckets| > 1 {
      var n := |buckets| - 1;
      OrderedIsAscending(buckets[..n]);
      assert LowerAtMost(buckets[n - 1], buckets[n]);
      forall i | 0 <= i < n ensures LowerAtMost(buckets[i], buckets[n]) {
        assert i < n - 1 ==> LowerAtMost(buckets[..n][i], buckets[..n][n - 1]);
      }
    }
  }

  lemma {:induction false} ParsedBucketsExact(markets: seq<Market>)
    ensures forall bucket :: bucket in ParsedBuckets(markets) <==>
      exists m :: m in markets && IntervalOf(m) == Some(bucket)
  {
    hide IntervalOf;
    if markets != [] {
      var n := |markets| - 1;
      ParsedBucketsExact(markets[..n]);
      assert markets == markets[..n] + [markets[n]];
      assert markets[n] in markets;
    }
  }

  /** The buckets of an event are exactly those its markets describe, in ascending order. */
  lemma EventBucketsExact(markets: seq<Market>)
    ensures Ascending(EventBuckets(markets))
    ensures forall bucket :: bucket in EventBuckets(markets) <==> exists m :: m in markets && Describes(m, bucket)
  {
    hide IntervalOf, ParsedBuckets, Sort;
    var parsed := ParsedBuckets(markets);
    ParsedBucketsExact(markets);
    SortOrders(parsed, LowerAtMost);
    SortKeeps(parsed, LowerAtMost);
    OrderedIsAscending(EventBuckets(markets));
    assert forall bucket :: bucket in EventBuckets(markets) <==> bucket in multiset(EventBuckets(markets));
    assert forall bucket :: bucket in parsed <==> bucket in multiset(parsed);
    forall m: Market, bucket: Bucket ensures IntervalOf(m) == Some(bucket) <==> Describes(m, bucket) {
      IntervalExactly(m, bucket);
    }
  }

  /** The market resolves yes at this value: it lies between the strikes, below the cap or above the floor. */
  ghost predicate ResolvesYes(m: Market, value: real) {
    || (m.strike == Between && m.floor.Some? && m.cap.Some? && m.floor.value <= value <= m.cap.value)
    || (m.strike == Less && m.cap.Some? && value < m.cap.value)
    || (m.strike == Greater && m.floor.Some? && m.floor.value < value)
  }

  ghost predicate HasStrike(m: Market, strike: real) {
    || (m.strike == Between && m.floor.Some? && m.cap.Some? && (m.floor.value == strike || m.cap.value == strike))
    || (m.strike == Less && m.cap == Some(strike))
    || (m.strike == Greater && m.floor == Some(strike))
  }

  /** The value is within 0.011 of a strike of the market. */
  ghost predicate NearAStrike(m: Market, value: real) {
    exists strike: real :: HasStrike(m, strike) && -0.011 <= value - strike <= 0.011
  }

  lemma ContainsExactly(m: Market, bucket: Bucket, value: real)
    requires Describes(m, bucket)
    ensures bucket.Contains(value) <==> ResolvesYes(m, value)
  {
  }

  /** An event whose buckets give no reason has, for every real value, a market that resolves yes or a strike nearby. */
  lemma EveryValueHasItsMarket(markets: seq<Market>, value: real)
    requires Reasons(EventBuckets(markets)) == []
    ensures exists m :: m in markets && (ResolvesYes(m, value) || NearAStrike(m, value))
  {
    hide EventBuckets, Reasons;
    EveryValueIsCovered(EventBuckets(markets), value);
    EventBucketsExact(markets);
    if bucket :| bucket in EventBuckets(markets) && bucket.Contains(value) {
      var m :| m in markets && Describes(m, bucket);
      ContainsExactly(m, bucket, value);
    } else {
      var b: real :| Bound(EventBuckets(markets), b) && -0.011 <= value - b <= 0.011;
      var bucket :| bucket in EventBuckets(markets) && (bucket.Lower() == Some(b) || bucket.Upper() == Some(b));
      var m :| m in markets && Describes(m, bucket);
      assert HasStrike(m, b);
    }
  }

  // ---- Overlap ----

  /** A value in two buckets lies within the tolerance of a bucket's end. */
  ghost predicate OverlapsOnlyAtBounds(buckets: seq<Bucket>) {
    forall value: real, i, j ::
      0 <= i < j < |buckets| && buckets[i].Contains(value) && buckets[j].Contains(value) ==> NearABound(buckets, value)
  }

  ghost predicate OneOpenTailEach(buckets: seq<Bucket>) {
    && (forall i, j :: 0 <= i < j < |buckets| ==> !(buckets[i].Below? && buckets[j].Below?))
    && (forall i, j :: 0 <= i < j < |buckets| ==> !(buckets[i].Above? && buckets[j].Above?))
  }

  function LowestBound(buckets: seq<Bucket>): (r: real)
    requires buckets != []
    ensures forall bucket :: bucket in buckets ==>
      (bucket.Lower().Some? ==> r <= bucket.Lower().value) && (bucket.Upper().Some? ==> r <= bucket.Upper().value)
  {
    var b := buckets[|buckets| - 1];
    var here := match b
      case Below(high) => high
      case Above(low) => low
      case Range(low, high) => if low < high then low else high;
    assert buckets == buckets[..|buckets| - 1] + [b];
    if |buckets| == 1 then here
    else
      var rest := LowestBound(buckets[..|buckets| - 1]);
      if here < rest then here else rest
  }

  function HighestBound(buckets: seq<Bucket>): (r: real)
    requires buckets != []
    ensures forall bucket :: bucket in buckets ==>
      (bucket.Lower().Some? ==> r >= bucket.Lower().value) && (bucket.Upper().Some? ==> r >= bucket.Upper().value)
  {
    var b := buckets[|buckets| - 1];
    var here := match b
      case Below(high) => high
      case Above(low) => low
      case Range(low, high) => if low > high then low else high;
    assert buckets == buckets[..|buckets| - 1] + [b];
    if |buckets| == 1 then here
    else
      var rest := HighestBound(buckets[..|buckets| - 1]);
      if here > rest then here else rest
  }

  lemma FarFromBounds(buckets: seq<Bucket>, value: real)
    requires buckets != []
    requires value <= LowestBound(buckets) - 1.0 || value >= HighestBound(buckets) + 1.0
    ensures !NearABound(buckets, value)
  {
    hide LowestBound, HighestBound;
  }

  lemma NearBoundOf(buckets: seq<Bucket>, bucket: Bucket, value: real)
    requires bucket in buckets && bucket.Lower().Some? && Near(value, bucket.Lower().value)
    ensures NearABound(buckets, value)
  {
    assert Bound(buckets, bucket.Lower().value);
  }

  lemma OverlapIsAtLower(buckets: seq<Bucket>, value: real, i: nat, j: nat)
    requires Ascending(buckets) && Reasons(buckets) == [] && OneOpenTailEach(buckets)
    requires i < j < |buckets| && buckets[i].Contains(value) && buckets[j].Contains(value)
    ensures NearABound(buckets, value)
  {
    hide Reasons, NearABound;
    NoReasonsExact(buckets);
    var left, next, right := buckets[i], buckets[i + 1], buckets[j];
    var last := buckets[|buckets| - 1];
    assert !left.Above?;
    assert !next.Below? && !right.Below?;
    assert JoinedAt(buckets, i) && (i + 1 < j ==> StartsNoLater(next, right));
    NearBoundOf(buckets, right, value);
  }

  /**
   The check compares only neighbouring bounds that both exist, so it does not see a second bucket open below or open
   above. Sorted buckets that pass it overlap only within the tolerance of their ends exactly when there is no such
   second bucket.
   */
  lemma OverlapsOnlyAtBoundsExact(buckets: seq<Bucket>)
    requires Ascending(buckets) && Reasons(buckets) == []
    ensures OverlapsOnlyAtBounds(buckets) <==> OneOpenTailEach(buckets)
  {
    hide Reasons, NearABound, LowestBound, HighestBound, Ascending;
    if OneOpenTailEach(buckets) {
      forall value: real, i, j
        | 0 <= i < j < |buckets| && buckets[i].Contains(value) && buckets[j].Contains(value)
        ensures NearABound(buckets, value)
      {
        OverlapIsAtLower(buckets, value, i, j);
      }
    } else {
      NoReasonsExact(buckets);
      var low, high := LowestBound(buckets) - 1.0, HighestBound(buckets) + 1.0;
      FarFromBounds(buckets, low);
      FarFromBounds(buckets, high);
      var i, j :| 0 <= i < j < |buckets|
        && ((buckets[i].Below? && buckets[j].Below?) || (buckets[i].Above? && buckets[j].Above?));
      assert buckets[i] in buckets && buckets[j] in buckets;
      var value := if buckets[i].Below? then low else high;
      assert buckets[i].Contains(value) && buckets[j].Contains(value);
    }
  }

  /** Two buckets open below pass the check and share a value far from every end. */
  lemma SecondOpenTailPasses()
    ensures Reasons([Below(1.0), Below(5.0), Above(5.0)]) == []
    ensures Below(1.0).Contains(0.0) && Below(5.0).Contains(0.0)
    ensures !NearABound([Below(1.0), Below(5.0), Above(5.0)], 0.0)
  {
    NoReasonsExact([Below(1.0), Below(5.0), Above(5.0)]);
    FarFromBounds([Below(1.0), Below(5.0), Above(5.0)], 0.0);
  }
}
