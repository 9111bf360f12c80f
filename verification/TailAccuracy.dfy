/** How far the trivial share and the conditional tail percentile, both read from built breakpoints
    (calibration.rs), can be from the counts in the sample they replace. */
module TailAccuracy {
  import opened Counting
  import opened Fractions
  import opened Interpolation
  import opened Lookup
  import opened Ordering
  import opened Quantiles

  // ---- the trivial share ----

  lemma TrivialCases(q: seq<real>)
    requires IsScale(q)
    ensures q[0] > TRIVIALITY_THRESHOLD ==> TrivialCount(q) == 0 && TrivialShare(q) == 0.0
    ensures q[|q| - 1] <= TRIVIALITY_THRESHOLD ==> TrivialShare(q) == 1.0
    ensures q[0] <= TRIVIALITY_THRESHOLD < q[|q| - 1] ==> 1 <= TrivialCount(q) < |q|
  {
    TrivialPrefix(q);
    TrivialShareRange(q);
  }

  /** The documented meaning of the trivial share is the corpus fraction at or below the threshold. Read off the
      breakpoints it is within one step of the interval between the two sample ranks of the threshold, and so within
      one sample and one step of that fraction. */
  lemma TrivialShareAccurate(sorted: seq<real>, points: nat)
    requires points >= 2 && |sorted| >= 2 && NonDecreasing(sorted)
    ensures var q, c := QuantileBreakpoints(sorted, points), AtMost(sorted, TRIVIALITY_THRESHOLD);
      && IsScale(q)
      && OneStep(TrivialShare(q), c as real, (|sorted| - 1) as real, (points - 1) as real)
      && Within(TrivialShare(q), c as real / |sorted| as real, Tolerance(|sorted|, points))
  {
    var q, n, c := QuantileBreakpoints(sorted, points), |sorted|, AtMost(sorted, TRIVIALITY_THRESHOLD);
    BreakpointsFormScale(sorted, points);
    TrivialCases(q);
    CountAtEnds(sorted, TRIVIALITY_THRESHOLD);
    if sorted[0] <= TRIVIALITY_THRESHOLD < sorted[n - 1] {
      RanksAround(sorted, points, TRIVIALITY_THRESHOLD);
      var hi := TrivialCount(q);
      RankBelow(hi - 1, points, n, c as real);
      RankAbove(hi, points, n, c as real - 1.0);
      StepArithmetic((hi - 1) as real, (hi - 1) as real, hi as real, Last(q), c as real, (n - 1) as real);
    } else {
      StepAtEnds(c as real, (n - 1) as real, (points - 1) as real);
    }
    OneStepMeansTolerance(TrivialShare(q), c, n, points);
  }

  /** The trivial share of a half trivial sample of two is 0: only the first breakpoint is trivial. */
  lemma TrivialShareExample(sorted: seq<real>)
    requires sorted == [0.0, 1.0]
    ensures NonDecreasing(sorted) && IsScale(QuantileBreakpoints(sorted, 1001))
    ensures TrivialShare(QuantileBreakpoints(sorted, 1001)) == 0.0
    ensures AtMost(sorted, TRIVIALITY_THRESHOLD) as real / |sorted| as real == 0.5
  {
    var q := QuantileBreakpoints(sorted, 1001);
    BreakpointsFormScale(sorted, 1001);
    SecondBreakpointIsPositive(sorted);
    SplitIsCount(q, Leq(TRIVIALITY_THRESHOLD), 1);
    TrivialShareRange(q);
    SplitIsCount(sorted, Leq(TRIVIALITY_THRESHOLD), 1);
  }

  lemma SecondBreakpointIsPositive(sorted: seq<real>)
    requires sorted == [0.0, 1.0]
    ensures QuantileBreakpoints(sorted, 1001)[1] > 0.0
  {
    BreakpointAt(sorted, 1001, 1);
    assert Rank(1, 1001, 2) == 0.001;
    AtSegment(sorted, 0, 0.001);
  }

  // ---- the conditional percentile ----

  /** Samples above the triviality threshold. */
  function Positives(sample: seq<real>): nat { |sample| - Count(sample, Leq(TRIVIALITY_THRESHOLD)) }

  /** Those of them that are at most v. */
  function PositivesUpTo(sample: seq<real>, v: real): nat {
    if v <= TRIVIALITY_THRESHOLD then 0
    else
      CountMonotone(sample, Leq(TRIVIALITY_THRESHOLD), Leq(v));
      Count(sample, Leq(v)) - Count(sample, Leq(TRIVIALITY_THRESHOLD))
  }

  lemma PositivesAreCounts(sample: seq<real>, v: real)
    requires v > TRIVIALITY_THRESHOLD
    ensures Count(sample, Leq(TRIVIALITY_THRESHOLD)) <= Count(sample, Leq(v))
    ensures PositivesUpTo(sample, v) == Count(sample, Leq(v)) - Count(sample, Leq(TRIVIALITY_THRESHOLD))
  {
    CountMonotone(sample, Leq(TRIVIALITY_THRESHOLD), Leq(v));
  }

  /** Samples per breakpoint step. */
  function StepSize(n: nat, points: nat): real
    requires n >= 2 && points >= 2
  {
    (n - 1) as real / (points - 1) as real
  }

  /** A share t of total samples is rank samples, up to one sample and a step below, one sample and two steps above. */
  ghost predicate NearRank(t: real, rank: nat, total: nat, d: real) {
    rank as real - 1.0 - d < t * total as real < rank as real + 1.0 + 2.0 * d
  }

  /** Comparing a share of the steps with a share of the samples is comparing in samples. */
  lemma ShareInSamples(i: real, last: real, c: real, m: real, d: real)
    requires last > 0.0 && m > 0.0 && d * last == m
    ensures i / last < c / m <==> i * d < c
    ensures i / last > c / m <==> i * d > c
  {
    Quotient(i, last);
    Quotient(c, m);
    SameProduct(i / last, d, last, i, m);
    SmallerFactor(i / last, c / m, m, i * d, c);
    SmallerFactor(c / m, i / last, m, c, i * d);
  }

  lemma SameProduct(a: real, d: real, last: real, i: real, m: real)
    requires a * last == i && d * last == m
    ensures a * m == i * d
  {
    Reorder(a, last, d);
    Reorder(a, d, last);
  }

  /** Index lo as a share of the steps is below c as a share of the samples, and the next index above c - 1. */
  ghost predicate AroundRank(lo: real, last: real, c: real, m: real)
    requires last > 0.0 && m > 0.0
  {
    lo / last < c / m && (lo + 1.0) / last > (c - 1.0) / m
  }

  /** The breakpoints around v have shares around the rank share of v. */
  lemma SharesAround(sorted: seq<real>, points: nat, v: real)
    requires points >= 2 && |sorted| >= 2 && NonDecreasing(sorted)
    requires sorted[0] <= v < sorted[|sorted| - 1]
    ensures var hi, c := Count(QuantileBreakpoints(sorted, points), Leq(v)), AtMost(sorted, v) as real;
      1 <= hi < points && AroundRank((hi - 1) as real, (points - 1) as real, c, (|sorted| - 1) as real)
  {
    RanksAround(sorted, points, v);
    var hi, c := Count(QuantileBreakpoints(sorted, points), Leq(v)), AtMost(sorted, v) as real;
    RankBelow(hi - 1, points, |sorted|, c);
    RankAbove(hi, points, |sorted|, c - 1.0);
    assert (hi - 1) as real + 1.0 == hi as real;
  }

  /** The trivial samples in the same way; there may be none. */
  lemma TailShares(sorted: seq<real>, points: nat)
    requires points >= 2 && |sorted| >= 2 && NonDecreasing(sorted) && sorted[|sorted| - 1] > TRIVIALITY_THRESHOLD
    ensures var k, c := TailStart(QuantileBreakpoints(sorted, points)), AtMost(sorted, TRIVIALITY_THRESHOLD) as real;
      (k == 0 && c == 0.0) || AroundRank(k as real, (points - 1) as real, c, (|sorted| - 1) as real)
  {
    var q := QuantileBreakpoints(sorted, points);
    BreakpointsFormScale(sorted, points);
    TrivialCases(q);
    CountAtEnds(sorted, TRIVIALITY_THRESHOLD);
    if sorted[0] <= TRIVIALITY_THRESHOLD { SharesAround(sorted, points, TRIVIALITY_THRESHOLD); }
  }

  // ---- arithmetic ----

  lemma NextProduct(d: real, lo: real, hi: real, before: real, after: real)
    requires hi == lo + 1.0 && lo * d == before && hi * d == after
    ensures after == before + d
  {}

  /** Steps around a rank, in samples. */
  lemma AroundInSamples(lo: real, last: real, c: real, m: real, d: real)
    requires last > 0.0 && m > 0.0 && d * last == m && AroundRank(lo, last, c, m)
    ensures c - 1.0 - d < lo * d < c
  {
    ShareInSamples(lo, last, c, m, d);
    ShareInSamples(lo + 1.0, last, c - 1.0, m, d);
    NextProduct(d, lo, lo + 1.0, lo * d, (lo + 1.0) * d);
  }

  /** An index between lo and the next one, in samples. */
  lemma IndexInSamples(index: real, lo: real, last: real, c: real, m: real, d: real)
    requires last > 0.0 && m > 0.0 && d > 0.0 && d * last == m && AroundRank(lo, last, c, m) && lo <= index < lo + 1.0
    ensures c - 1.0 - d < index * d < c + d
  {
    AroundInSamples(lo, last, c, m, d);
    ProductBetween(index, lo, d, lo * d, index * d);
  }

  lemma ProductBetween(index: real, lo: real, d: real, before: real, product: real)
    requires lo <= index < lo + 1.0 && d > 0.0 && lo * d == before && index * d == product
    ensures before <= product < before + d
  {
    SmallerFactor(lo, index, d, before, product);
    SmallerFactor(index, lo + 1.0, d, product, before + d);
  }

  /** The tail start, in samples. */
  lemma StartInSamples(k: real, last: real, c: real, m: real, d: real)
    requires last > 0.0 && m > 0.0 && d > 0.0 && d * last == m
    requires (k == 0.0 && c == 0.0) || AroundRank(k, last, c, m)
    ensures c - 1.0 - d < k * d <= c
  {
    if k == 0.0 && c == 0.0 {
      assert k * d == 0.0;
    } else {
      AroundInSamples(k, last, c, m, d);
    }
  }

  lemma PartOf(t: real, e: real, te: real)
    requires 0.0 <= t <= 1.0 && t * e == te
    ensures e >= 0.0 ==> 0.0 <= te <= e
    ensures e < 0.0 ==> e <= te <= 0.0
  {
    if e > 0.0 {
      SmallerFactor(0.0, t, e, 0.0, te);
      SmallerFactor(t, 1.0, e, te, e);
    } else if e < 0.0 {
      SmallerFactor(0.0, t, -e, 0.0, -te);
      SmallerFactor(t, 1.0, -e, -te, -e);
    }
  }

  lemma TimesSum(t: real, a: real, b: real, whole: real, ta: real, tb: real)
    requires a + b == whole && t * a == ta && t * b == tb
    ensures t * whole == ta + tb
  {}

  /** A share t of the way from the tail start to the end of the sample, all in samples. */
  lemma TailArithmetic(t: real, x: real, start: real, rest: real, over: real, total: real, c: real, c0: real, d: real,
                       whole: real)
    requires 0.0 <= t <= 1.0 && t * rest == x - start && over == 1.0 - c0 + start && rest + over == total
    requires c - 1.0 - d < x < c + d && c0 - 1.0 - d < start <= c0 && whole == t * total && d > 0.0
    ensures c - c0 - 1.0 - d < whole < c - c0 + 1.0 + 2.0 * d
  {
    PartOf(t, over, t * over);
    TimesSum(t, rest, over, total, x - start, t * over);
    SumBounds(whole, t * over, x, start, over, c, c0, d);
  }

  lemma SumBounds(whole: real, part: real, x: real, start: real, over: real, c: real, c0: real, d: real)
    requires whole == x - start + part && over == 1.0 - c0 + start && d > 0.0
    requires (over >= 0.0 && 0.0 <= part <= over) || (over < 0.0 && over <= part <= 0.0)
    requires c - 1.0 - d < x < c + d && c0 - 1.0 - d < start <= c0
    ensures c - c0 - 1.0 - d < whole < c - c0 + 1.0 + 2.0 * d
  {}

  /** From shares of steps to samples: t is the conditional percentile of index x with the tail starting at k. */
  lemma TailBound(t: real, x: real, lo: real, k: real, last: real, c: real, c0: real, m: real, d: real, total: real)
    requires last > k && m > 0.0 && d > 0.0 && d * last == m && 0.0 <= t <= 1.0 && total == m + 1.0 - c0
    requires last > 0.0 && t == (x - k) / (last - k)
    requires lo <= x < lo + 1.0 && AroundRank(lo, last, c, m)
    requires (k == 0.0 && c0 == 0.0) || AroundRank(k, last, c0, m)
    ensures c - c0 - 1.0 - d < t * total < c - c0 + 1.0 + 2.0 * d
  {
    IndexInSamples(x, lo, last, c, m, d);
    StartInSamples(k, last, c0, m, d);
    RestInSamples(t, x, k, last, m, d, x * d, k * d, m - k * d);
    TailArithmetic(t, x * d, k * d, m - k * d, 1.0 - c0 + k * d, total, c, c0, d, t * total);
  }

  lemma RestInSamples(t: real, x: real, k: real, last: real, m: real, d: real, xd: real, kd: real, rest: real)
    requires d * last == m && last > k && t == (x - k) / (last - k) && x * d == xd && k * d == kd && rest == m - kd
    ensures t * rest == xd - kd
  {
    Quotient(x - k, last - k);
    DifferenceTimes(last, k, d, m, kd);
    DifferenceTimes(x, k, d, xd, kd);
    ShareTimes(t, last - k, d, x - k, rest, xd - kd);
  }

  lemma DifferenceTimes(x: real, y: real, d: real, xd: real, yd: real)
    requires x * d == xd && y * d == yd
    ensures (x - y) * d == xd - yd
  {}

  lemma ShareTimes(t: real, n: real, d: real, tn: real, nd: real, tnd: real)
    requires t * n == tn && n * d == nd && tn * d == tnd
    ensures t * nd == tnd
  {
    Reorder(t, n, d);
  }

  // ---- the bound ----

  /** The conditional percentile as a share of the tail's indices. */
  lemma TailShare(q: seq<real>, v: real) returns (t: real)
    requires IsScale(q) && v > TRIVIALITY_THRESHOLD && q[|q| - 1] > TRIVIALITY_THRESHOLD
    ensures ConditionalTail(q, v) == Some(t) && 0.0 <= t <= 1.0
    ensures TailStart(q) as real < Last(q)
    ensures t == (Index(q, v) - TailStart(q) as real) / (Last(q) - TailStart(q) as real)
  {
    TrivialPrefix(q);
    TailCases(q, v);
    TailIndex(q, v);
    t := TailPercentile(q, v);
    TailPercentileMonotone(q, v, v);
    PercentileIsIndexShare(TailVector(q), v);
    assert Last(TailVector(q)) == Last(q) - TailStart(q) as real;
  }

  /** t is a share of the tail that starts at k, for an index x next to lo; lo and k lie around the ranks c and c0. */
  ghost predicate NumbersFit(t: real, x: real, lo: real, k: real, points: nat, c: nat, c0: nat, n: nat)
    requires points >= 2 && n >= 2
  {
    && 0.0 <= t <= 1.0 && k < (points - 1) as real && t == (x - k) / ((points - 1) as real - k)
    && lo <= x < lo + 1.0 && AroundRank(lo, (points - 1) as real, c as real, (n - 1) as real)
    && ((k == 0.0 && c0 == 0) || AroundRank(k, (points - 1) as real, c0 as real, (n - 1) as real))
  }

  /** Where a value strictly inside sits, as plain numbers. */
  lemma TailNumbers(sorted: seq<real>, points: nat, v: real) returns (t: real, x: real, lo: real, k: real)
    requires points >= 2 && |sorted| >= 2 && NonDecreasing(sorted)
    requires sorted[0] < v < sorted[|sorted| - 1] && v > TRIVIALITY_THRESHOLD
    ensures IsScale(QuantileBreakpoints(sorted, points))
      && ConditionalTail(QuantileBreakpoints(sorted, points), v) == Some(t)
    ensures NumbersFit(t, x, lo, k, points, AtMost(sorted, v), AtMost(sorted, TRIVIALITY_THRESHOLD), |sorted|)
  {
    var q := QuantileBreakpoints(sorted, points);
    BreakpointsFormScale(sorted, points);
    SharesAround(sorted, points, v);
    TailShares(sorted, points);
    IndexAround(q, v, Count(q, Leq(v)));
    t := TailShare(q, v);
    x, lo, k := Index(q, v), (Count(q, Leq(v)) - 1) as real, TailStart(q) as real;
  }

  lemma NumbersAreNear(t: real, x: real, lo: real, k: real, points: nat, c: nat, c0: nat, n: nat)
    requires points >= 2 && n >= 2 && c0 <= c && c0 <= n && NumbersFit(t, x, lo, k, points, c, c0, n)
    ensures NearRank(t, c - c0, n - c0, StepSize(n, points))
  {
    StepSizeIsStep(n, points);
    NumbersAreNearBy(t, x, lo, k, (points - 1) as real, c, c0, n, (n - 1) as real, StepSize(n, points));
  }

  lemma NumbersAreNearBy(t: real, x: real, lo: real, k: real, last: real, c: nat, c0: nat, n: nat, m: real, d: real)
    requires c0 <= c && c0 <= n && m == n as real - 1.0 && m > 0.0 && last > 0.0 && d > 0.0 && d * last == m
    requires 0.0 <= t <= 1.0 && k < last && t == (x - k) / (last - k)
    requires lo <= x < lo + 1.0 && AroundRank(lo, last, c as real, m)
    requires (k == 0.0 && c0 == 0) || AroundRank(k, last, c0 as real, m)
    ensures NearRank(t, c - c0, n - c0, d)
  {
    TailBound(t, x, lo, k, last, c as real, c0 as real, m, d, (n - c0) as real);
  }

  lemma TailInside(sorted: seq<real>, points: nat, v: real) returns (t: real)
    requires points >= 2 && |sorted| >= 2 && NonDecreasing(sorted)
    requires sorted[0] < v < sorted[|sorted| - 1] && v > TRIVIALITY_THRESHOLD
    ensures IsScale(QuantileBreakpoints(sorted, points))
      && ConditionalTail(QuantileBreakpoints(sorted, points), v) == Some(t)
    ensures NearRank(t, PositivesUpTo(sorted, v), Positives(sorted), StepSize(|sorted|, points))
  {
    var x, lo, k;
    t, x, lo, k := TailNumbers(sorted, points, v);
    NumbersRank(sorted, points, v, t, x, lo, k);
  }

  lemma NumbersRank(sorted: seq<real>, points: nat, v: real, t: real, x: real, lo: real, k: real)
    requires points >= 2 && |sorted| >= 2 && v > TRIVIALITY_THRESHOLD
    requires NumbersFit(t, x, lo, k, points, AtMost(sorted, v), AtMost(sorted, TRIVIALITY_THRESHOLD), |sorted|)
    ensures NearRank(t, PositivesUpTo(sorted, v), Positives(sorted), StepSize(|sorted|, points))
  {
    PositivesAreCounts(sorted, v);
    NumbersAreNear(t, x, lo, k, points, AtMost(sorted, v), AtMost(sorted, TRIVIALITY_THRESHOLD), |sorted|);
  }

  lemma StepSizeIsStep(n: nat, points: nat)
    requires n >= 2 && points >= 2
    ensures StepSize(n, points) > 0.0 && StepSize(n, points) * (points - 1) as real == (n - 1) as real
  {
    Quotient((n - 1) as real, (points - 1) as real);
  }

  ghost predicate EndCase(sorted: seq<real>, v: real, t: real)
    requires sorted != []
  {
    if v == sorted[0] && v > TRIVIALITY_THRESHOLD then t == 0.0 && PositivesUpTo(sorted, v) == AtMost(sorted, v)
    else (t == 0.0 && PositivesUpTo(sorted, v) == 0) || (t == 1.0 && PositivesUpTo(sorted, v) == Positives(sorted))
  }

  /** What the conditional percentile of a value at either end of the sample is, and how many samples it stands for. */
  lemma TailAtEnds(sorted: seq<real>, points: nat, v: real) returns (t: real)
    requires points >= 2 && |sorted| >= 2 && NonDecreasing(sorted) && sorted[|sorted| - 1] > TRIVIALITY_THRESHOLD
    requires v <= TRIVIALITY_THRESHOLD || v <= sorted[0] || v >= sorted[|sorted| - 1]
    ensures IsScale(QuantileBreakpoints(sorted, points))
      && ConditionalTail(QuantileBreakpoints(sorted, points), v) == Some(t)
    ensures EndCase(sorted, v, t)
  {
    var q := QuantileBreakpoints(sorted, points);
    BreakpointsFormScale(sorted, points);
    TrivialPrefix(q);
    TailMonotone(q, v, v);
    TailEnds(q, v);
    CountAtEnds(sorted, v);
    CountAtEnds(sorted, TRIVIALITY_THRESHOLD);
    t := ConditionalTail(q, v).value;
  }

  /** At the ends the conditional percentile is 0 or 1. */
  lemma EndsAreNear(t: real, rank: nat, total: nat, n: nat, points: nat)
    requires n >= 2 && points >= 2
    ensures t == 0.0 ==> (NearRank(t, rank, total, StepSize(n, points))
                          <==> (rank as real - 1.0) / (n - 1) as real < 1.0 / (points - 1) as real)
    ensures t == 1.0 && rank == total ==> NearRank(t, rank, total, StepSize(n, points))
    ensures t == 0.0 && rank == 0 ==> NearRank(t, rank, total, StepSize(n, points))
  {
    StepSizeIsStep(n, points);
    ShareInSamples(1.0, (points - 1) as real, rank as real - 1.0, (n - 1) as real, StepSize(n, points));
  }

  /** t ranks v among the positive samples, up to one sample and two breakpoint steps. */
  ghost predicate RanksAmongPositives(sorted: seq<real>, points: nat, v: real, t: real)
    requires points >= 2 && |sorted| >= 2
  {
    NearRank(t, PositivesUpTo(sorted, v), Positives(sorted), StepSize(|sorted|, points))
  }

  lemma EndCaseRanksIff(sorted: seq<real>, points: nat, v: real, t: real)
    requires points >= 2 && |sorted| >= 2 && EndCase(sorted, v, t)
    ensures RanksAmongPositives(sorted, points, v, t) <==> (v > TRIVIALITY_THRESHOLD ==> MinimumFits(sorted, points, v))
  {
    EndsAreNear(t, PositivesUpTo(sorted, v), Positives(sorted), |sorted|, points);
  }

  lemma EndsRankIff(sorted: seq<real>, points: nat, v: real) returns (t: real)
    requires points >= 2 && |sorted| >= 2 && NonDecreasing(sorted) && sorted[|sorted| - 1] > TRIVIALITY_THRESHOLD
    requires v <= TRIVIALITY_THRESHOLD || v <= sorted[0] || v >= sorted[|sorted| - 1]
    ensures IsScale(QuantileBreakpoints(sorted, points))
      && ConditionalTail(QuantileBreakpoints(sorted, points), v) == Some(t)
    ensures RanksAmongPositives(sorted, points, v, t) <==> (v > TRIVIALITY_THRESHOLD ==> MinimumFits(sorted, points, v))
  {
    t := TailAtEnds(sorted, points, v);
    EndCaseRanksIff(sorted, points, v, t);
  }

  /** The conditional percentile read from built breakpoints ranks v among the positive samples, for every value except
      a positive sample minimum; there it does exactly when the samples equal to the minimum span less than one step. */
  lemma TailAccurateIff(sorted: seq<real>, points: nat, v: real) returns (t: real)
    requires points >= 2 && |sorted| >= 2 && NonDecreasing(sorted) && sorted[|sorted| - 1] > TRIVIALITY_THRESHOLD
    ensures IsScale(QuantileBreakpoints(sorted, points))
      && ConditionalTail(QuantileBreakpoints(sorted, points), v) == Some(t)
    ensures RanksAmongPositives(sorted, points, v, t) <==> (v > TRIVIALITY_THRESHOLD ==> MinimumFits(sorted, points, v))
  {
    if sorted[0] < v < sorted[|sorted| - 1] && v > TRIVIALITY_THRESHOLD {
      t := TailInside(sorted, points, v);
    } else {
      t := EndsRankIff(sorted, points, v);
    }
  }
}
