/** The builder of calibration.rs: a sorted sample reduced to a fixed number of
    breakpoints, and how far a lookup in them can be from the rank count they replace. */
module Quantiles {
  import opened Counting
  import opened Fractions
  import opened Interpolation
  import opened Lookup

  function Ceil(x: real): int { -((-x).Floor) }

  /** The sample rank of breakpoint i out of points, for n samples. */
  function Rank(i: nat, points: nat, n: nat): (rank: real)
    requires points >= 2 && i < points && n >= 1
    ensures 0.0 <= rank <= (n - 1) as real
  {
    RankInRange(i as real, (points - 1) as real, (n - 1) as real);
    i as real / (points - 1) as real * (n - 1) as real
  }

  lemma RankInRange(i: real, last: real, m: real)
    requires 0.0 <= i <= last && last > 0.0 && m >= 0.0
    ensures 0.0 <= i / last * m <= m
    ensures i == 0.0 ==> i / last * m == 0.0
    ensures i == last ==> i / last * m == m
  {
    Quotient(i, last);
    if i == 0.0 { QuotientIs(0.0, i, last); }
    if i == last { QuotientIs(1.0, i, last); }
    if m > 0.0 {
      ScaleOrder(0.0, i / last, m);
      ScaleOrder(i / last, 1.0, m);
    }
  }

  /** Linear interpolation of the sample at a rank, by floor and ceiling. */
  function Breakpoint(sorted: seq<real>, rank: real): real
    requires sorted != [] && 0.0 <= rank <= (|sorted| - 1) as real
  {
    CeilInRange(rank, |sorted| - 1);
    var lo, hi := rank.Floor, Ceil(rank);
    if lo == hi then sorted[lo] else Lerp(sorted[lo], sorted[hi], rank - lo as real)
  }

  lemma CeilInRange(x: real, m: int)
    requires 0.0 <= x <= m as real
    ensures x.Floor <= Ceil(x) <= m
    ensures Ceil(x) == if x.Floor as real == x then x.Floor else x.Floor + 1
  {
    var f := x.Floor;
    if f as real == x {
      assert (-x).Floor == -f;
    } else {
      assert (-x).Floor == -(f + 1);
    }
  }

  lemma BreakpointIsOnCurve(sorted: seq<real>, rank: real)
    requires sorted != [] && 0.0 <= rank <= (|sorted| - 1) as real
    ensures Breakpoint(sorted, rank) == At(sorted, rank)
  {
    CeilInRange(rank, |sorted| - 1);
  }

  function QuantileBreakpoints(sorted: seq<real>, points: nat): (q: seq<real>)
    requires points >= 2
    ensures |q| == points
  {
    var n := |sorted|;
    if n == 0 then seq(points, _ => 0.0)
    else if n == 1 then seq(points, _ => sorted[0])
    else seq(points, i requires 0 <= i < points => Breakpoint(sorted, Rank(i, points, n)))
  }

  lemma BreakpointAt(sorted: seq<real>, points: nat, i: nat)
    requires points >= 2 && i < points && sorted != []
    ensures QuantileBreakpoints(sorted, points)[i] == At(sorted, Rank(i, points, |sorted|))
  {
    BreakpointIsOnCurve(sorted, Rank(i, points, |sorted|));
  }

  lemma RankMonotone(i: nat, j: nat, points: nat, n: nat)
    requires points >= 2 && i <= j < points && n >= 1
    ensures Rank(i, points, n) <= Rank(j, points, n)
  {
    QuotientOrder(i as real, j as real, (points - 1) as real);
    if n > 1 {
      ScaleOrder(i as real / (points - 1) as real, j as real / (points - 1) as real, (n - 1) as real);
    }
  }

  /** Building a non-empty sample gives a valid scale that starts at its minimum, ends at its maximum and
      never leaves that range. */
  lemma BreakpointsFormScale(sorted: seq<real>, points: nat)
    requires points >= 2 && sorted != [] && NonDecreasing(sorted)
    ensures var q := QuantileBreakpoints(sorted, points);
      && |q| == points && IsScale(q)
      && q[0] == sorted[0] && q[points - 1] == sorted[|sorted| - 1]
      && forall i :: 0 <= i < points ==> sorted[0] <= q[i] <= sorted[|sorted| - 1]
  {
    var q, n := QuantileBreakpoints(sorted, points), |sorted|;
    forall i, j | 0 <= i <= j < points ensures q[i] <= q[j] {
      BreakpointAt(sorted, points, i);
      BreakpointAt(sorted, points, j);
      RankMonotone(i, j, points, n);
      if n >= 2 { AtMonotone(sorted, Rank(i, points, n), Rank(j, points, n)); }
    }
    EndRanks(points, n);
    BreakpointAt(sorted, points, 0);
    BreakpointAt(sorted, points, points - 1);
    AtIndex(sorted, 0);
    AtIndex(sorted, n - 1);
  }

  lemma EndRanks(points: nat, n: nat)
    requires points >= 2 && n >= 1
    ensures Rank(0, points, n) == 0.0 && Rank(points - 1, points, n) == (n - 1) as real
  {
    RankInRange(0.0, (points - 1) as real, (n - 1) as real);
    RankInRange((points - 1) as real, (points - 1) as real, (n - 1) as real);
  }

  // ---- accuracy of a lookup in built breakpoints ----

  /** Samples at or below v. */
  function AtMost(sorted: seq<real>, v: real): nat { Count(sorted, Leq(v)) }

  /** p is less than one step of 1/last outside the interval from (c-1)/m to c/m. */
  ghost predicate OneStep(p: real, c: real, m: real, last: real)
    requires m > 0.0 && last > 0.0
  {
    (c - 1.0) / m - 1.0 / last < p < c / m + 1.0 / last
  }

  /** The lookup in the built breakpoints is within one step of the interval between the two sample ranks of v. */
  ghost predicate WithinOneStep(sorted: seq<real>, points: nat, v: real)
    requires points >= 2 && |sorted| >= 2 && NonDecreasing(sorted)
  {
    BreakpointsFormScale(sorted, points);
    OneStep(Percentile(QuantileBreakpoints(sorted, points), v).p,
            AtMost(sorted, v) as real, (|sorted| - 1) as real, (points - 1) as real)
  }

  /** The breakpoints around v have sample ranks around the rank count of v. */
  lemma RanksAround(sorted: seq<real>, points: nat, v: real)
    requires points >= 2 && |sorted| >= 2 && NonDecreasing(sorted)
    requires sorted[0] <= v < sorted[|sorted| - 1]
    ensures var q, n, c := QuantileBreakpoints(sorted, points), |sorted|, AtMost(sorted, v);
      var hi := Count(q, Leq(v));
      1 <= hi < points && Rank(hi - 1, points, n) < c as real && Rank(hi, points, n) > c as real - 1.0
  {
    var q, n, c := QuantileBreakpoints(sorted, points), |sorted|, AtMost(sorted, v);
    BreakpointsFormScale(sorted, points);
    Straddle(q, v);
    Straddle(sorted, v);
    var hi := Count(q, Leq(v));
    BreakpointAt(sorted, points, hi - 1);
    BreakpointAt(sorted, points, hi);
    AtIndex(sorted, c);
    AtIndex(sorted, c - 1);
    if Rank(hi - 1, points, n) >= c as real { AtMonotone(sorted, c as real, Rank(hi - 1, points, n)); }
    if Rank(hi, points, n) <= (c - 1) as real { AtMonotone(sorted, Rank(hi, points, n), (c - 1) as real); }
  }

  lemma RankBelow(i: nat, points: nat, n: nat, c: real)
    requires points >= 2 && i < points && n >= 2 && Rank(i, points, n) < c
    ensures i as real / (points - 1) as real < c / (n - 1) as real
  {
    QuotientAbove(i as real / (points - 1) as real, c, (n - 1) as real);
  }

  lemma RankAbove(i: nat, points: nat, n: nat, c: real)
    requires points >= 2 && i < points && n >= 2 && Rank(i, points, n) > c
    ensures i as real / (points - 1) as real > c / (n - 1) as real
  {
    QuotientAbove(i as real / (points - 1) as real, c, (n - 1) as real);
  }

  lemma StepArithmetic(index: real, lo: real, hi: real, last: real, c: real, m: real)
    requires last > 0.0 && m > 0.0 && lo + 1.0 == hi && lo <= index < hi
    requires lo / last < c / m && hi / last > (c - 1.0) / m
    ensures OneStep(index / last, c, m, last)
  {
    QuotientOrder(lo, index, last);
    QuotientOrder(index, hi, last);
    assert lo / last + 1.0 / last == hi / last;
  }

  lemma IndexAround(q: seq<real>, v: real, hi: nat)
    requires IsScale(q) && q[0] <= v < q[|q| - 1] && hi == Count(q, Leq(v))
    ensures hi as real - 1.0 <= UpperIndex(q, v) < hi as real
  {
    PositionAt(q, v, hi);
    Straddle(q, v);
    FractionInside(q[hi - 1], q[hi], v);
  }

  /** The upper index of a value inside the sample, the minimum included, as a share. */
  lemma UpperIndexAccurate(sorted: seq<real>, points: nat, v: real)
    requires points >= 2 && |sorted| >= 2 && NonDecreasing(sorted)
    requires sorted[0] <= v < sorted[|sorted| - 1]
    ensures var q := QuantileBreakpoints(sorted, points);
      && IsScale(q) && q[0] <= v
      && OneStep(UpperIndex(q, v) / Last(q), AtMost(sorted, v) as real, (|sorted| - 1) as real, Last(q))
  {
    var q := QuantileBreakpoints(sorted, points);
    BreakpointsFormScale(sorted, points);
    RanksAround(sorted, points, v);
    var hi := Count(q, Leq(v));
    IndexAround(q, v, hi);
    var n, c := |sorted|, AtMost(sorted, v) as real;
    RankBelow(hi - 1, points, n, c);
    RankAbove(hi, points, n, c - 1.0);
    StepArithmetic(UpperIndex(q, v), (hi - 1) as real, hi as real, Last(q), c, (n - 1) as real);
  }

  lemma AccurateInside(sorted: seq<real>, points: nat, v: real)
    requires points >= 2 && |sorted| >= 2 && NonDecreasing(sorted)
    requires sorted[0] < v < sorted[|sorted| - 1]
    ensures WithinOneStep(sorted, points, v)
  {
    BreakpointsFormScale(sorted, points);
    UpperIndexAccurate(sorted, points, v);
    PercentileIsIndexShare(QuantileBreakpoints(sorted, points), v);
  }

  lemma StepAtEnds(c: real, m: real, last: real)
    requires m > 0.0 && last > 0.0
    ensures c >= 0.0 ==> (OneStep(0.0, c, m, last) <==> (c - 1.0) / m < 1.0 / last)
    ensures c == 0.0 ==> OneStep(0.0, c, m, last)
    ensures c == m + 1.0 ==> OneStep(1.0, c, m, last)
  {
    Quotient(1.0, last);
    Quotient(c, m);
    Quotient(c - 1.0, m);
  }

  lemma CountAtEnds(sorted: seq<real>, v: real)
    requires sorted != [] && NonDecreasing(sorted)
    ensures v < sorted[0] ==> AtMost(sorted, v) == 0
    ensures v == sorted[0] ==> AtMost(sorted, v) >= 1
    ensures v >= sorted[|sorted| - 1] ==> AtMost(sorted, v) == |sorted|
  {
    var last := |sorted| - 1;
    assert SplitsAt(sorted, Leq(v), AtMost(sorted, v)) by { LeqIsDownClosed(v); CountSplits(sorted, Leq(v)); }
    assert Leq(v)(sorted[0]) == (sorted[0] <= v) && Leq(v)(sorted[last]) == (sorted[last] <= v);
  }

  /** If v is the sample minimum, the samples equal to it span less than one breakpoint step. */
  ghost predicate MinimumFits(sorted: seq<real>, points: nat, v: real)
    requires points >= 2 && |sorted| >= 2
  {
    v == sorted[0] ==> (AtMost(sorted, v) as real - 1.0) / (|sorted| - 1) as real < 1.0 / (points - 1) as real
  }

  /** The one-step bound holds for every value except the sample minimum, and there it holds exactly when the
      samples equal to the minimum span less than one step: `value <= q[0]` answers 0 for the whole plateau. */
  lemma AccurateIff(sorted: seq<real>, points: nat, v: real)
    requires points >= 2 && |sorted| >= 2 && NonDecreasing(sorted)
    ensures WithinOneStep(sorted, points, v) <==> MinimumFits(sorted, points, v)
  {
    var q := QuantileBreakpoints(sorted, points);
    BreakpointsFormScale(sorted, points);
    CountAtEnds(sorted, v);
    var c, m, last := AtMost(sorted, v), (|sorted| - 1) as real, (points - 1) as real;
    if sorted[0] < v < sorted[|sorted| - 1] {
      AccurateInside(sorted, points, v);
    } else {
      EndValues(q, v);
      StepAtEnds(c as real, m, last);
    }
  }

  lemma EndValues(q: seq<real>, v: real)
    requires IsScale(q)
    ensures v <= q[0] ==> Percentile(q, v).p == 0.0
    ensures v > q[0] && v >= q[|q| - 1] ==> Percentile(q, v).p == 1.0
  {}

  // ---- against the share of the sample ----

  /** One sample and one step: how far a percentile that is within one step of the interval between its sample ranks
      can be from the plain share of the sample. */
  function Tolerance(n: nat, points: nat): real
    requires n >= 2 && points >= 2
  {
    1.0 / (n - 1) as real + 1.0 / (points - 1) as real
  }

  ghost predicate Within(x: real, y: real, d: real) { x - y < d && y - x < d }

  /** The share of samples at or below v lies between the ranks before and after them. */
  lemma ShareBetweenRanks(c: real, m: real, n: real)
    requires m > 0.0 && n == m + 1.0 && 0.0 <= c <= n
    ensures (c - 1.0) / m <= c / n <= c / m && c / m == (c - 1.0) / m + 1.0 / m
  {
    var r := c / n;
    Quotient(c, n);
    TimesNext(r, m, n);
    QuotientAbove(r, c - 1.0, m);
    QuotientAbove(r, c, m);
  }

  lemma OneStepMeansTolerance(p: real, c: nat, n: nat, points: nat)
    requires n >= 2 && points >= 2 && c <= n
    requires OneStep(p, c as real, (n - 1) as real, (points - 1) as real)
    ensures Within(p, c as real / n as real, Tolerance(n, points))
  {
    ShareBetweenRanks(c as real, (n - 1) as real, n as real);
  }

  lemma PlateauSample(sorted: seq<real>)
    requires sorted == [0.0, 0.0, 1.0]
    ensures NonDecreasing(sorted) && AtMost(sorted, 0.0) == 2
  {
    assert SplitsAt(sorted, Leq(0.0), 2);
    SplitIsCount(sorted, Leq(0.0), 2);
  }

  /** A minimum shared by two samples is out of bounds as soon as one sample rank is worth a breakpoint step. */
  lemma MinimumPlateauIsInaccurate(sorted: seq<real>, points: nat)
    requires |sorted| >= 2 && NonDecreasing(sorted) && AtMost(sorted, sorted[0]) >= 2
    requires |sorted| <= points
    ensures !WithinOneStep(sorted, points, sorted[0])
  {
    var c, m, last := AtMost(sorted, sorted[0]) as real, (|sorted| - 1) as real, (points - 1) as real;
    QuotientOrder(1.0, c - 1.0, m);
    SharesOfOne(m, last);
    AccurateIff(sorted, points, sorted[0]);
  }

  lemma SharesOfOne(m: real, last: real)
    requires 0.0 < m <= last
    ensures 1.0 / last <= 1.0 / m
  {
    Quotient(1.0, m);
    Quotient(1.0, last);
    SmallerShare(1.0 / m, 1.0 / last, m, last);
  }

  lemma SmallerShare(r: real, s: real, m: real, last: real)
    requires 0.0 < m <= last && r * m == 1.0 && s * last == 1.0 && s > 0.0
    ensures s <= r
  {
    ScaleMonotone(m, last, s);
    ScaleOrder(s, r, m);
  }

  lemma PlateauExample(sorted: seq<real>)
    requires sorted == [0.0, 0.0, 1.0]
    ensures NonDecreasing(sorted) && !WithinOneStep(sorted, 1001, sorted[0])
  {
    PlateauSample(sorted);
    MinimumPlateauIsInaccurate(sorted, 1001);
  }
}
