/** The error of the approximate merge of calibration.rs: how far a percentile read from blended breakpoints
    can be from the exact rank in the two samples put together. */
module MergeAccuracy {
  import opened Blend
  import opened Counting
  import opened Fractions
  import opened Interpolation
  import opened Lookup
  import opened Quantiles

  /** The share of a sample at or below v. */
  function RankShare(sample: seq<real>, v: real): real
    requires sample != []
  {
    Count(sample, Leq(v)) as real / |sample| as real
  }

  function Distance(x: real, y: real): real { if x <= y then y - x else x - y }

  function Larger(x: real, y: real): real { if x <= y then y else x }

  /** The share of the pooled sample is the weighted mean of the two shares. */
  lemma PooledShareIsMean(s: seq<real>, t: seq<real>, v: real)
    requires s != [] && t != []
    ensures RankShare(s + t, v) == Mean(RankShare(s, v), |s| as real, RankShare(t, v), |t| as real)
  {
    CountOfConcat(s, t, Leq(v));
    MeanOfShares(Count(s, Leq(v)) as real, |s| as real, Count(t, Leq(v)) as real, |t| as real);
  }

  lemma MeanOfShares(a: real, n: real, b: real, m: real)
    requires n > 0.0 && m > 0.0
    ensures Mean(a / n, n, b / m, m) == (a + b) / (n + m)
  {
    Quotient(a, n);
    Quotient(b, m);
    Quotient(a + b, n + m);
    MeanIs((a + b) / (n + m), a / n, n, b / m, m);
  }

  lemma PooledShareBetween(s: seq<real>, t: seq<real>, v: real)
    requires s != [] && t != []
    ensures var a, b, p := RankShare(s, v), RankShare(t, v), RankShare(s + t, v);
            a <= p <= b || b <= p <= a
  {
    PooledShareIsMean(s, t, v);
    var a, b := RankShare(s, v), RankShare(t, v);
    if a <= b {
      MeanAbove(a, |s| as real, b, |t| as real, a);
      MeanBelow(a, |s| as real, b, |t| as real, b);
    } else {
      MeanAbove(a, |s| as real, b, |t| as real, b);
      MeanBelow(a, |s| as real, b, |t| as real, a);
    }
  }

  // ---- percentiles without the minimum short-circuit ----

  /** Where v sits on the curve; the start for a value below it. */
  function UpperAt(q: seq<real>, v: real): (x: real)
    requires IsScale(q)
    ensures 0.0 <= x <= Last(q)
  {
    if v < q[0] then 0.0 else UpperIndex(q, v)
  }

  lemma UpperAtBounds(q: seq<real>, v: real, x: real)
    requires IsScale(q) && 0.0 <= x <= Last(q)
    ensures x > UpperAt(q, v) ==> At(q, x) > v
    ensures 0.0 < x <= UpperAt(q, v) ==> At(q, x) <= v
  {
    if v < q[0] {
      AtStaysInside(q, x);
    } else {
      UpperIndexInvertsCurve(q, v, x);
    }
  }

  lemma EndShares(sorted: seq<real>, points: nat, v: real)
    requires points >= 2 && |sorted| >= 2 && NonDecreasing(sorted)
    requires v < sorted[0] || v >= sorted[|sorted| - 1]
    ensures var q := QuantileBreakpoints(sorted, points);
      IsScale(q) && OneStep(UpperAt(q, v) / Last(q), AtMost(sorted, v) as real, (|sorted| - 1) as real, Last(q))
  {
    var q, m := QuantileBreakpoints(sorted, points), (|sorted| - 1) as real;
    BreakpointsFormScale(sorted, points);
    CountAtEnds(sorted, v);
    QuotientIs(0.0, 0.0, Last(q));
    QuotientIs(1.0, Last(q), Last(q));
    StepAtEnds(AtMost(sorted, v) as real, m, Last(q));
  }

  /** Read without the short-circuit, every value is within the tolerance of the share of its own sample. */
  lemma UpperShareNear(sorted: seq<real>, points: nat, v: real)
    requires points >= 2 && |sorted| >= 2 && NonDecreasing(sorted)
    ensures var q := QuantileBreakpoints(sorted, points);
      IsScale(q) && Within(UpperAt(q, v) / Last(q), RankShare(sorted, v), Tolerance(|sorted|, points))
  {
    var q := QuantileBreakpoints(sorted, points);
    BreakpointsFormScale(sorted, points);
    if sorted[0] <= v < sorted[|sorted| - 1] {
      UpperIndexAccurate(sorted, points, v);
    } else {
      EndShares(sorted, points, v);
    }
    OneStepMeansTolerance(UpperAt(q, v) / Last(q), AtMost(sorted, v), |sorted|, points);
  }

  /** Above the smallest blended breakpoint the blend puts v between where the two vectors put it. */
  lemma BlendIndexBetween(base: seq<real>, wb: nat, add: seq<real>, wa: nat, v: real)
    requires IsScale(base) && IsScale(add) && |base| == |add| && wb + wa <= U64_MAX
    requires v > BlendQuantiles(base, wb, add, wa)[0]
    ensures IsScale(BlendQuantiles(base, wb, add, wa))
    ensures var x, b, a := Index(BlendQuantiles(base, wb, add, wa), v), UpperAt(base, v), UpperAt(add, v);
      b <= x <= a || a <= x <= b
  {
    var b, a := UpperAt(base, v), UpperAt(add, v);
    BlendIsScale(base, wb, add, wa);
    BlendIndexAtLeast(base, wb, add, wa, v, if b <= a then b else a);
    BlendIndexAtMost(base, wb, add, wa, v, if b <= a then a else b);
  }

  lemma BlendIndexAtLeast(base: seq<real>, wb: nat, add: seq<real>, wa: nat, v: real, x: real)
    requires IsScale(base) && IsScale(add) && |base| == |add| && wb + wa <= U64_MAX
    requires IsScale(BlendQuantiles(base, wb, add, wa)) && v > BlendQuantiles(base, wb, add, wa)[0]
    requires 0.0 <= x <= UpperAt(base, v) && x <= UpperAt(add, v)
    ensures x <= Index(BlendQuantiles(base, wb, add, wa), v)
  {
    if x > 0.0 {
      UpperAtBounds(base, v, x);
      UpperAtBounds(add, v, x);
      BlendOfCurves(base, wb, add, wa, x);
      MeanBelow(At(base, x), wb as real, At(add, x), wa as real, v);
      LookupInvertsCurve(BlendQuantiles(base, wb, add, wa), v, x);
    }
  }

  lemma BlendIndexAtMost(base: seq<real>, wb: nat, add: seq<real>, wa: nat, v: real, y: real)
    requires IsScale(base) && IsScale(add) && |base| == |add| && wb + wa <= U64_MAX
    requires IsScale(BlendQuantiles(base, wb, add, wa)) && v > BlendQuantiles(base, wb, add, wa)[0]
    requires UpperAt(base, v) <= y && UpperAt(add, v) <= y
    ensures Index(BlendQuantiles(base, wb, add, wa), v) <= y
  {
    var q := BlendQuantiles(base, wb, add, wa);
    var x := Index(q, v);
    if x > y {
      UpperAtBounds(base, v, x);
      UpperAtBounds(add, v, x);
      BlendOfCurves(base, wb, add, wa, x);
      MeanStrictlyAbove(At(base, x), wb as real, At(add, x), wa as real, v);
      LookupInvertsCurve(q, v, x);
    }
  }

  lemma MeanStrictlyAbove(b: real, wb: real, a: real, wa: real, v: real)
    requires wb >= 0.0 && wa >= 0.0 && b > v && a > v
    ensures Mean(b, wb, a, wa) > v
  {
    MeanAbove(b, wb, a, wa, v);
  }

  lemma BlendShareBetween(base: seq<real>, wb: nat, add: seq<real>, wa: nat, v: real)
    requires IsScale(base) && IsScale(add) && |base| == |add| && wb + wa <= U64_MAX
    requires v > BlendQuantiles(base, wb, add, wa)[0]
    ensures IsScale(BlendQuantiles(base, wb, add, wa))
    ensures var p := Percentile(BlendQuantiles(base, wb, add, wa), v).p;
            var b, a := UpperAt(base, v) / Last(base), UpperAt(add, v) / Last(add);
      b <= p <= a || a <= p <= b
  {
    var q := BlendQuantiles(base, wb, add, wa);
    BlendIndexBetween(base, wb, add, wa, v);
    PercentileIsIndexShare(q, v);
    IndexShareBetween(Index(q, v), UpperAt(base, v), UpperAt(add, v), Last(q));
  }

  // ---- the error ----

  lemma SpreadBound(p: real, pa: real, pb: real, r: real, a: real, b: real, da: real, db: real)
    requires pa <= p <= pb || pb <= p <= pa
    requires a <= r <= b || b <= r <= a
    requires Within(pa, a, da) && Within(pb, b, db)
    ensures Within(p, r, Distance(a, b) + Larger(da, db))
  {}

  /** How far the two samples disagree about v, plus one sample and one step. */
  function MergeError(s: seq<real>, t: seq<real>, points: nat, v: real): (e: real)
    requires |s| >= 2 && |t| >= 2 && points >= 2
    ensures e > 0.0
  {
    Quotient(1.0, (|s| - 1) as real);
    Quotient(1.0, (points - 1) as real);
    Distance(RankShare(s, v), RankShare(t, v)) + Larger(Tolerance(|s|, points), Tolerance(|t|, points))
  }

  lemma IndexShareBetween(x: real, a: real, b: real, last: real)
    requires last > 0.0 && (a <= x <= b || b <= x <= a)
    ensures a / last <= x / last <= b / last || b / last <= x / last <= a / last
  {
    QuotientOrder(a, x, last);
    QuotientOrder(x, a, last);
    QuotientOrder(b, x, last);
    QuotientOrder(x, b, last);
  }

  /** The vector blended from the breakpoints of two samples. */
  function BlendOf(s: seq<real>, wb: nat, t: seq<real>, wa: nat, points: nat): seq<real>
    requires points >= 2
  {
    BlendQuantiles(QuantileBreakpoints(s, points), wb, QuantileBreakpoints(t, points), wa)
  }

  lemma BlendOfIsScale(s: seq<real>, wb: nat, t: seq<real>, wa: nat, points: nat)
    requires points >= 2 && s != [] && NonDecreasing(s) && t != [] && NonDecreasing(t)
    ensures IsScale(BlendOf(s, wb, t, wa, points))
    ensures wb + wa <= U64_MAX ==> BlendOf(s, wb, t, wa, points)[0] == Mean(s[0], wb as real, t[0], wa as real)
  {
    BreakpointsFormScale(s, points);
    BreakpointsFormScale(t, points);
    BlendIsScale(QuantileBreakpoints(s, points), wb, QuantileBreakpoints(t, points), wa);
    if wb + wa <= U64_MAX { BlendAt(QuantileBreakpoints(s, points), wb, QuantileBreakpoints(t, points), wa, 0); }
  }

  lemma AboveMinimumIsAccurate(s: seq<real>, t: seq<real>, points: nat, wb: nat, wa: nat, v: real)
    requires points >= 2 && wb + wa <= U64_MAX && |s| >= 2 && NonDecreasing(s) && |t| >= 2 && NonDecreasing(t)
    requires v > BlendOf(s, wb, t, wa, points)[0]
    ensures IsScale(BlendOf(s, wb, t, wa, points))
    ensures Within(Percentile(BlendOf(s, wb, t, wa, points), v).p, RankShare(s + t, v), MergeError(s, t, points, v))
  {
    var qs, qt, q := QuantileBreakpoints(s, points), QuantileBreakpoints(t, points), BlendOf(s, wb, t, wa, points);
    UpperShareNear(s, points, v);
    UpperShareNear(t, points, v);
    BlendShareBetween(qs, wb, qt, wa, v);
    PooledShareBetween(s, t, v);
    SpreadBound(Percentile(q, v).p, UpperAt(qs, v) / Last(qs), UpperAt(qt, v) / Last(qt),
                RankShare(s + t, v), RankShare(s, v), RankShare(t, v), Tolerance(|s|, points), Tolerance(|t|, points));
  }

  lemma RankShareRange(s: seq<real>, v: real)
    requires s != []
    ensures 0.0 <= RankShare(s, v) <= 1.0
  {
    Quotient(Count(s, Leq(v)) as real, |s| as real);
  }

  /** How wrong the approximate merge is, for every value and all weights that do not saturate. Above the smallest
      blended breakpoint, which is the weighted mean of the two sample minima, the blended percentile misses the exact
      rank in the pooled sample by less than the two samples disagree about it, plus one sample and one step: the merge
      is accurate where the distributions agree. At or below it `value <= q[0]` answers 0, and that is so exactly when
      the exact rank itself is below the bound. */
  lemma MergeErrorIff(s: seq<real>, t: seq<real>, points: nat, wb: nat, wa: nat, v: real)
    requires points >= 2 && wb + wa <= U64_MAX && |s| >= 2 && NonDecreasing(s) && |t| >= 2 && NonDecreasing(t)
    ensures var q, rank, e := BlendOf(s, wb, t, wa, points), RankShare(s + t, v), MergeError(s, t, points, v);
      && IsScale(q)
      && (Within(Percentile(q, v).p, rank, e) <==> (v > Mean(s[0], wb as real, t[0], wa as real) || rank < e))
  {
    var q := BlendOf(s, wb, t, wa, points);
    BlendOfIsScale(s, wb, t, wa, points);
    RankShareRange(s + t, v);
    if v > q[0] {
      AboveMinimumIsAccurate(s, t, points, wb, wa, v);
    } else {
      EndValues(q, v);
    }
  }

  /** Whatever the value, the merge never ranks it higher than the bound allows. */
  lemma MergeRanksNoHigher(s: seq<real>, t: seq<real>, points: nat, wb: nat, wa: nat, v: real)
    requires points >= 2 && wb + wa <= U64_MAX && |s| >= 2 && NonDecreasing(s) && |t| >= 2 && NonDecreasing(t)
    ensures IsScale(BlendOf(s, wb, t, wa, points))
    ensures Percentile(BlendOf(s, wb, t, wa, points), v).p - RankShare(s + t, v) < MergeError(s, t, points, v)
  {
    var q := BlendOf(s, wb, t, wa, points);
    BlendOfIsScale(s, wb, t, wa, points);
    RankShareRange(s + t, v);
    if v > q[0] {
      AboveMinimumIsAccurate(s, t, points, wb, wa, v);
    } else {
      EndValues(q, v);
    }
  }

  /** A percentile read from built breakpoints is within the tolerance of the share of its own sample. */
  lemma BuiltPercentileNearShare(sorted: seq<real>, points: nat, v: real)
    requires points >= 2 && |sorted| >= 2 && NonDecreasing(sorted) && MinimumFits(sorted, points, v)
    ensures IsScale(QuantileBreakpoints(sorted, points))
    ensures Within(Percentile(QuantileBreakpoints(sorted, points), v).p, RankShare(sorted, v),
      Tolerance(|sorted|, points))
  {
    BreakpointsFormScale(sorted, points);
    AccurateIff(sorted, points, v);
    OneStepMeansTolerance(Percentile(QuantileBreakpoints(sorted, points), v).p, AtMost(sorted, v), |sorted|, points);
  }

  /** If both samples' own percentiles of v are accurate, so is the blended one. */
  lemma MergeErrorBounded(s: seq<real>, t: seq<real>, points: nat, wb: nat, wa: nat, v: real)
    requires points >= 2 && wb + wa <= U64_MAX
    requires |s| >= 2 && NonDecreasing(s) && MinimumFits(s, points, v)
    requires |t| >= 2 && NonDecreasing(t) && MinimumFits(t, points, v)
    ensures IsScale(BlendOf(s, wb, t, wa, points))
    ensures Within(Percentile(BlendOf(s, wb, t, wa, points), v).p, RankShare(s + t, v), MergeError(s, t, points, v))
  {
    var qs, qt := QuantileBreakpoints(s, points), QuantileBreakpoints(t, points);
    BuiltPercentileNearShare(s, points, v);
    BuiltPercentileNearShare(t, points, v);
    BlendBracketsPercentile(qs, wb, qt, wa, v);
    PooledShareBetween(s, t, v);
    SpreadBound(Percentile(BlendOf(s, wb, t, wa, points), v).p, Percentile(qs, v).p, Percentile(qt, v).p,
                RankShare(s + t, v), RankShare(s, v), RankShare(t, v), Tolerance(|s|, points), Tolerance(|t|, points));
  }

  ghost predicate AccurateFor(s: seq<real>, t: seq<real>, points: nat, wb: nat, wa: nat, v: real)
    requires points >= 2 && |s| >= 2 && NonDecreasing(s) && |t| >= 2 && NonDecreasing(t)
  {
    BlendOfIsScale(s, wb, t, wa, points);
    Within(Percentile(BlendOf(s, wb, t, wa, points), v).p, RankShare(s + t, v), MergeError(s, t, points, v))
  }

  /** Two samples merge accurately at v under all weights exactly when both read v accurately by themselves, or the
      exact rank is below the bound anyway. */
  lemma MergeErrorForAllWeightsIff(s: seq<real>, t: seq<real>, points: nat, v: real)
    requires points >= 2 && |s| >= 2 && NonDecreasing(s) && |t| >= 2 && NonDecreasing(t)
    ensures (forall wb: nat, wa: nat :: wb + wa <= U64_MAX ==> AccurateFor(s, t, points, wb, wa, v))
       <==> ((MinimumFits(s, points, v) && MinimumFits(t, points, v))
         || RankShare(s + t, v) < MergeError(s, t, points, v))
  {
    if MinimumFits(s, points, v) && MinimumFits(t, points, v) {
      forall wb: nat, wa: nat | wb + wa <= U64_MAX ensures AccurateFor(s, t, points, wb, wa, v) {
        MergeErrorBounded(s, t, points, wb, wa, v);
      }
    } else if RankShare(s + t, v) < MergeError(s, t, points, v) {
      forall wb: nat, wa: nat | wb + wa <= U64_MAX ensures AccurateFor(s, t, points, wb, wa, v) {
        MergeErrorIff(s, t, points, wb, wa, v);
      }
    } else {
      var wb: nat, wa: nat := if MinimumFits(s, points, v) then 0 else 1, if MinimumFits(s, points, v) then 1 else 0;
      MeanZeroWeights(s[0], t[0], 1.0);
      MergeErrorIff(s, t, points, wb, wa, v);
      assert !AccurateFor(s, t, points, wb, wa, v);
    }
  }

  /** Two samples that agree completely: their common minimum, two thirds of each, reads 0 under all weights. */
  lemma SharedMinimumIsInaccurate(s: seq<real>, wb: nat, wa: nat)
    requires s == [0.0, 0.0, 1.0] && wb + wa <= U64_MAX
    ensures NonDecreasing(s) && Distance(RankShare(s, 0.0), RankShare(s, 0.0)) == 0.0
    ensures !AccurateFor(s, s, 1001, wb, wa, 0.0)
  {
    PlateauSample(s);
    CountOfConcat(s, s, Leq(0.0));
    MeanOfEqual(0.0, wb as real, 0.0, wa as real, 0.0);
    MergeErrorIff(s, s, 1001, wb, wa, 0.0);
  }
}
