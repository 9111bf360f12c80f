/** Weighted blending of breakpoint vectors (calibration.rs), what it does to
    percentiles, and exactly when repeated blending is associative. */
module Blend {
  import opened Fractions
  import opened Interpolation
  import opened Lookup
  import opened Ordering

  const U64_MAX: nat := 0xFFFF_FFFF_FFFF_FFFF

  function SaturatingAdd(x: nat, y: nat, max: nat): nat {
    if x + y > max then max else x + y
  }

  /** Adding with a ceiling: the sum where it fits, otherwise the ceiling. */
  lemma SaturatingAddIsSmaller(x: nat, y: nat, max: nat)
    ensures SaturatingAdd(x, y, max) <= x + y && SaturatingAdd(x, y, max) <= max
    ensures SaturatingAdd(x, y, max) == x + y || SaturatingAdd(x, y, max) == max
  {}

  function BlendQuantiles(base: seq<real>, wb: nat, add: seq<real>, wa: nat): (q: seq<real>)
    ensures |q| == |base|
  {
    var total := SaturatingAdd(wb, wa, U64_MAX);
    if total == 0 || |base| != |add| then base
    else seq(|base|, i requires 0 <= i < |base| => (base[i] * wb as real + add[i] * wa as real) / total as real)
  }

  // ---- one breakpoint ----

  /** One blended breakpoint when the weights do not saturate; no weight at all keeps the base. */
  function Mean(b: real, wb: real, a: real, wa: real): real
    requires wb >= 0.0 && wa >= 0.0
  {
    if wb + wa == 0.0 then b else (b * wb + a * wa) / (wb + wa)
  }

  lemma MeanTotal(b: real, wb: real, a: real, wa: real)
    requires wb >= 0.0 && wa >= 0.0
    ensures Mean(b, wb, a, wa) * (wb + wa) == b * wb + a * wa
  {
    if wb + wa == 0.0 {
      assert wb == 0.0 && wa == 0.0;
    } else {
      Quotient(b * wb + a * wa, wb + wa);
    }
  }

  lemma MeanIs(m: real, b: real, wb: real, a: real, wa: real)
    requires wb >= 0.0 && wa >= 0.0 && wb + wa > 0.0
    requires m * (wb + wa) == b * wb + a * wa
    ensures Mean(b, wb, a, wa) == m
  {
    QuotientIs(m, b * wb + a * wa, wb + wa);
  }

  lemma MeanZeroWeights(b: real, a: real, w: real)
    requires w >= 0.0
    ensures Mean(b, w, a, 0.0) == b
    ensures w > 0.0 ==> Mean(b, 0.0, a, w) == a
  {
    if w > 0.0 {
      MeanIs(b, b, w, a, 0.0);
      MeanIs(a, b, 0.0, a, w);
    }
  }

  /** A mean of two values that are at least v is at least v, and meets v only where every weighted value does. */
  lemma MeanAbove(b: real, wb: real, a: real, wa: real, v: real)
    requires wb >= 0.0 && wa >= 0.0 && b >= v && a >= v
    ensures Mean(b, wb, a, wa) >= v
    ensures Mean(b, wb, a, wa) == v ==> (wb > 0.0 ==> b == v) && (wa > 0.0 ==> a == v)
  {
    var m := Mean(b, wb, a, wa);
    if wb + wa > 0.0 {
      MeanTotal(b, wb, a, wa);
      WeightedExcess(m, b, wb, a, wa, v);
      Nonneg(b - v, wb);
      Nonneg(a - v, wa);
      var p, r := (b - v) * wb, (a - v) * wa;
      ExcessSign(m - v, wb + wa, p, r);
      if m == v {
        assert p == 0.0 && r == 0.0;
        assert wb > 0.0 ==> b - v == 0.0;
        assert wa > 0.0 ==> a - v == 0.0;
      }
    }
  }

  lemma WeightedExcess(m: real, b: real, wb: real, a: real, wa: real, v: real)
    requires m * (wb + wa) == b * wb + a * wa
    ensures (m - v) * (wb + wa) == (b - v) * wb + (a - v) * wa
  {
    Distribute(b, v, wb);
    Distribute(a, v, wa);
    Distribute(m, v, wb + wa);
    assert v * (wb + wa) == v * wb + v * wa;
  }

  lemma Nonneg(x: real, w: real)
    requires x >= 0.0 && w >= 0.0
    ensures x * w >= 0.0 && (x * w == 0.0 && w > 0.0 ==> x == 0.0)
  {
    if w > 0.0 { ScaleOrder(0.0, x, w); }
  }

  lemma ExcessSign(e: real, w: real, p: real, r: real)
    requires w > 0.0 && p >= 0.0 && r >= 0.0 && e * w == p + r
    ensures e >= 0.0 && (e == 0.0 ==> p == 0.0 && r == 0.0)
  {
    ScaleOrder(e, 0.0, w);
    assert 0.0 * w == 0.0;
  }

  lemma MeanNegates(b: real, wb: real, a: real, wa: real)
    requires wb >= 0.0 && wa >= 0.0
    ensures Mean(-b, wb, -a, wa) == -Mean(b, wb, a, wa)
  {
    if wb + wa > 0.0 {
      MeanTotal(b, wb, a, wa);
      MeanIs(-Mean(b, wb, a, wa), -b, wb, -a, wa);
    }
  }

  lemma MeanBelow(b: real, wb: real, a: real, wa: real, v: real)
    requires wb >= 0.0 && wa >= 0.0 && b <= v && a <= v
    ensures Mean(b, wb, a, wa) <= v
  {
    MeanNegates(b, wb, a, wa);
    MeanAbove(-b, wb, -a, wa, -v);
  }

  // ---- whole vectors ----

  lemma BlendAt(base: seq<real>, wb: nat, add: seq<real>, wa: nat, i: nat)
    requires |base| == |add| && i < |base| && wb + wa <= U64_MAX
    ensures BlendQuantiles(base, wb, add, wa)[i] == Mean(base[i], wb as real, add[i], wa as real)
  {
    assert (wb + wa) as real == wb as real + wa as real;
  }

  /** Every blended breakpoint lies between the two it came from. */
  lemma BlendBetween(base: seq<real>, wb: nat, add: seq<real>, wa: nat, i: nat)
    requires |base| == |add| && i < |base| && wb + wa <= U64_MAX
    ensures var m := BlendQuantiles(base, wb, add, wa)[i];
            (base[i] <= m <= add[i]) || (add[i] <= m <= base[i])
  {
    BlendAt(base, wb, add, wa, i);
    if base[i] <= add[i] {
      MeanAbove(base[i], wb as real, add[i], wa as real, base[i]);
      MeanBelow(base[i], wb as real, add[i], wa as real, add[i]);
    } else {
      MeanAbove(base[i], wb as real, add[i], wa as real, add[i]);
      MeanBelow(base[i], wb as real, add[i], wa as real, base[i]);
    }
  }

  /** Betweenness is lost exactly when the weights saturate: the divisor then is smaller than their sum. */
  lemma BlendBetweenIff(wb: nat, wa: nat)
    ensures (forall base: seq<real>, add: seq<real>, i: nat :: |base| == |add| && i < |base| ==>
              var m := BlendQuantiles(base, wb, add, wa)[i]; (base[i] <= m <= add[i]) || (add[i] <= m <= base[i]))
       <==> wb + wa <= U64_MAX
  {
    if wb + wa <= U64_MAX {
      forall base: seq<real>, add: seq<real>, i: nat | |base| == |add| && i < |base|
        ensures var m := BlendQuantiles(base, wb, add, wa)[i]; (base[i] <= m <= add[i]) || (add[i] <= m <= base[i])
      {
        BlendBetween(base, wb, add, wa, i);
      }
    } else {
      var ones := [1.0];
      var m := BlendQuantiles(ones, wb, ones, wa)[0];
      assert m == (wb as real + wa as real) / U64_MAX as real;
      Quotient(wb as real + wa as real, U64_MAX as real);
      assert m > 1.0;
    }
  }

  /** Blending two scales of one length gives a scale of that length, saturated weights included. */
  lemma BlendIsScale(base: seq<real>, wb: nat, add: seq<real>, wa: nat)
    requires IsScale(base) && IsScale(add)
    ensures IsScale(BlendQuantiles(base, wb, add, wa))
  {
    var q, total := BlendQuantiles(base, wb, add, wa), SaturatingAdd(wb, wa, U64_MAX);
    if total > 0 && |base| == |add| {
      forall i, j | 0 <= i <= j < |q| ensures q[i] <= q[j] {
        assert base[i] <= base[j] && add[i] <= add[j];
        WeightedOrder(base[i], base[j], wb as real, add[i], add[j], wa as real, total as real);
      }
    }
  }

  lemma WeightedOrder(b: real, b': real, wb: real, a: real, a': real, wa: real, total: real)
    requires b <= b' && a <= a' && wb >= 0.0 && wa >= 0.0 && total > 0.0
    ensures (b * wb + a * wa) / total <= (b' * wb + a' * wa) / total
  {
    ScaleMonotone(b, b', wb);
    ScaleMonotone(a, a', wa);
    QuotientOrder(b * wb + a * wa, b' * wb + a' * wa, total);
  }

  lemma MeanOfLerps(b0: real, b1: real, wb: real, a0: real, a1: real, wa: real, t: real)
    requires wb >= 0.0 && wa >= 0.0
    ensures Lerp(Mean(b0, wb, a0, wa), Mean(b1, wb, a1, wa), t) == Mean(Lerp(b0, b1, t), wb, Lerp(a0, a1, t), wa)
  {
    var w := wb + wa;
    if w > 0.0 {
      var m0, m1 := Mean(b0, wb, a0, wa), Mean(b1, wb, a1, wa);
      MeanTotal(b0, wb, a0, wa);
      MeanTotal(b1, wb, a1, wa);
      LerpTimes(m0, m1, t, w);
      LerpTimes(b0, b1, t, wb);
      LerpTimes(a0, a1, t, wa);
      LerpSum(b0 * wb, b1 * wb, a0 * wa, a1 * wa, t);
      MeanIs(Lerp(m0, m1, t), Lerp(b0, b1, t), wb, Lerp(a0, a1, t), wa);
    }
  }

  lemma LerpTimes(lo: real, hi: real, t: real, w: real)
    ensures Lerp(lo, hi, t) * w == Lerp(lo * w, hi * w, t)
  {
    var d := hi - lo;
    Distribute(hi, lo, w);
    Reorder(d, t, w);
    Distribute(lo, d * t, w);
  }

  lemma LerpSum(b0: real, b1: real, a0: real, a1: real, t: real)
    ensures Lerp(b0 + a0, b1 + a1, t) == Lerp(b0, b1, t) + Lerp(a0, a1, t)
  {
    assert b1 + a1 - (b0 + a0) == (b1 - b0) + (a1 - a0);
    Distribute(b1 - b0, a1 - a0, t);
  }

  /** The curve of the blend is the blend of the curves. */
  lemma BlendOfCurves(base: seq<real>, wb: nat, add: seq<real>, wa: nat, x: real)
    requires IsScale(base) && IsScale(add) && |base| == |add| && wb + wa <= U64_MAX
    requires 0.0 <= x <= Last(base)
    ensures At(BlendQuantiles(base, wb, add, wa), x) == Mean(At(base, x), wb as real, At(add, x), wa as real)
  {
    var i := Segment(|base|, x);
    BlendAt(base, wb, add, wa, i);
    BlendAt(base, wb, add, wa, i + 1);
    AtSegment(base, i, x);
    AtSegment(add, i, x);
    AtSegment(BlendQuantiles(base, wb, add, wa), i, x);
    MeanOfLerps(base[i], base[i + 1], wb as real, add[i], add[i + 1], wa as real, x - i as real);
  }

  // ---- percentiles against a blend ----

  /** At or past the index of v the curve is at least v. */
  lemma CurvePastIndex(q: seq<real>, v: real, x: real)
    requires IsScale(q) && Index(q, v) < x <= Last(q)
    ensures At(q, x) >= v && (At(q, x) == v ==> v == q[0])
  {
    if v > q[0] {
      LookupInvertsCurve(q, v, x);
    } else {
      AtStaysInside(q, x);
    }
  }

  lemma BlendIndexLower(base: seq<real>, wb: nat, add: seq<real>, wa: nat, v: real, x: real)
    requires IsScale(base) && IsScale(add) && |base| == |add| && wb + wa <= U64_MAX
    requires 0.0 <= x <= Index(base, v) && x <= Index(add, v)
    ensures IsScale(BlendQuantiles(base, wb, add, wa)) && x <= Index(BlendQuantiles(base, wb, add, wa), v)
  {
    var q := BlendQuantiles(base, wb, add, wa);
    BlendIsScale(base, wb, add, wa);
    if x > 0.0 {
      BlendAt(base, wb, add, wa, 0);
      LookupInvertsCurve(base, v, x);
      LookupInvertsCurve(add, v, x);
      BlendOfCurves(base, wb, add, wa, x);
      MeanBelow(At(base, x), wb as real, At(add, x), wa as real, v);
      BlendBetween(base, wb, add, wa, 0);
      LookupInvertsCurve(q, v, x);
    }
  }

  lemma BlendIndexUpper(base: seq<real>, wb: nat, add: seq<real>, wa: nat, v: real, y: real)
    requires IsScale(base) && IsScale(add) && |base| == |add| && wb + wa <= U64_MAX
    requires Index(base, v) <= y && Index(add, v) <= y
    ensures IsScale(BlendQuantiles(base, wb, add, wa)) && Index(BlendQuantiles(base, wb, add, wa), v) <= y
  {
    var q := BlendQuantiles(base, wb, add, wa);
    BlendIsScale(base, wb, add, wa);
    var x := Index(q, v);
    if x > y {
      LookupInvertsCurve(q, v, x);
      CurvePastIndex(base, v, x);
      CurvePastIndex(add, v, x);
      BlendOfCurves(base, wb, add, wa, x);
      MeanAbove(At(base, x), wb as real, At(add, x), wa as real, v);
      BlendAt(base, wb, add, wa, 0);
      MeanOfEqual(base[0], wb as real, add[0], wa as real, v);
    }
  }

  lemma MeanOfEqual(b: real, wb: real, a: real, wa: real, v: real)
    requires wb >= 0.0 && wa >= 0.0
    requires (wb > 0.0 ==> b == v) && (wa > 0.0 ==> a == v)
    ensures wb + wa > 0.0 ==> Mean(b, wb, a, wa) == v
  {
    if wb + wa > 0.0 {
      if wb == 0.0 { MeanZeroWeights(b, a, wa); }
      else if wa == 0.0 { MeanZeroWeights(b, a, wb); }
      else { MeanIs(v, b, wb, a, wa); }
    }
  }

  /** Percentiles bracket: against a blend, a value ranks between its ranks against the two inputs. */
  lemma BlendBracketsPercentile(base: seq<real>, wb: nat, add: seq<real>, wa: nat, v: real)
    requires IsScale(base) && IsScale(add) && |base| == |add| && wb + wa <= U64_MAX
    ensures IsScale(BlendQuantiles(base, wb, add, wa))
    ensures var p, pb, pa :=
      Percentile(BlendQuantiles(base, wb, add, wa), v).p, Percentile(base, v).p, Percentile(add, v).p;
            pb <= p <= pa || pa <= p <= pb
  {
    var q := BlendQuantiles(base, wb, add, wa);
    var ib, ia := Index(base, v), Index(add, v);
    BlendIndexLower(base, wb, add, wa, v, if ib <= ia then ib else ia);
    BlendIndexUpper(base, wb, add, wa, v, if ib <= ia then ia else ib);
    var i := Index(q, v);
    PercentileIsIndexShare(q, v);
    PercentileIsIndexShare(base, v);
    PercentileIsIndexShare(add, v);
    QuotientOrder(ib, i, Last(q));
    QuotientOrder(i, ib, Last(q));
    QuotientOrder(ia, i, Last(q));
    QuotientOrder(i, ia, Last(q));
  }

  // ---- folding three tables ----

  /** One metric of two same-language tables: blended when both carry it, otherwise carried through. */
  function BlendMetric(base: Option<seq<real>>, wb: nat, add: Option<seq<real>>, wa: nat): Option<seq<real>> {
    if base.Some? && add.Some? then Some(BlendQuantiles(base.value, wb, add.value, wa))
    else if base.Some? then base
    else add
  }

  ghost predicate FoldsAgree(a: Option<seq<real>>, x: nat, b: Option<seq<real>>, y: nat, c: Option<seq<real>>, z: nat) {
    BlendMetric(BlendMetric(a, x, b, y), x + y, c, z) == BlendMetric(a, x, BlendMetric(b, y, c, z), y + z)
  }

  function Carried(has: bool, q: seq<real>): Option<seq<real>> { if has then Some(q) else None }

  /** Which tables carry the metric, and with which weights, for the two foldings to agree. A carried-through
      metric takes on the weight of a table that never had it, so a metric missing from exactly one table is safe
      only when that borrowed weight changes no share. */
  predicate FoldCondition(inA: bool, x: nat, inB: bool, y: nat, inC: bool, z: nat) {
    if inA && inB && !inC then z == 0 || (x == 0 && y > 0)
    else if inA && !inB && inC then y == 0
    else if !inA && inB && inC then x == 0 || z == 0
    else true
  }

  lemma MeanOfThree(a: real, x: real, b: real, y: real, c: real, z: real)
    requires x >= 0.0 && y >= 0.0 && z >= 0.0
    ensures Mean(Mean(a, x, b, y), x + y, c, z) == Mean(a, x, Mean(b, y, c, z), y + z)
  {
    MeanTotal(a, x, b, y);
    MeanTotal(b, y, c, z);
    if x + y + z > 0.0 {
      var r := Mean(a, x, Mean(b, y, c, z), y + z);
      MeanTotal(a, x, Mean(b, y, c, z), y + z);
      MeanIs(r, Mean(a, x, b, y), x + y, c, z);
    }
  }

  /** Left and right folding of one breakpoint when the third, second or first table lacks the metric. */
  lemma FoldsOfTwo(a: real, x: real, b: real, y: real, z: real)
    requires x >= 0.0 && y >= 0.0 && z >= 0.0
    ensures (z == 0.0 || (x == 0.0 && y > 0.0)) ==> Mean(a, x, b, y) == Mean(a, x, b, y + z)
    ensures y == 0.0 ==> Mean(a, x + y, b, z) == Mean(a, x, b, y + z)
    ensures (x == 0.0 || z == 0.0) ==> Mean(a, x + y, b, z) == Mean(a, y, b, z)
  {
    if x == 0.0 && y > 0.0 {
      MeanZeroWeights(a, b, y);
      MeanZeroWeights(a, b, y + z);
    }
    MeanZeroWeights(a, b, x + y);
    MeanZeroWeights(a, b, y);
  }

  lemma FoldsOfTwoDiffer(x: real, y: real, z: real)
    requires x >= 0.0 && y >= 0.0 && z >= 0.0
    ensures !(z == 0.0 || (x == 0.0 && y > 0.0)) ==> Mean(0.0, x, 1.0, y) != Mean(0.0, x, 1.0, y + z)
    ensures y != 0.0 ==> Mean(0.0, x + y, 1.0, z) != Mean(0.0, x, 1.0, y + z)
    ensures !(x == 0.0 || z == 0.0) ==> Mean(0.0, x + y, 1.0, z) != Mean(0.0, y, 1.0, z)
  {
    var t := x + y + z;
    if z > 0.0 && x > 0.0 {
      SharesDiffer(y, x + y, y + z, t);
      SharesDiffer(z, t, z, y + z);
    }
    if y > 0.0 {
      QuotientOrder(z, y + z, t);
    }
    if z > 0.0 && x == 0.0 && y == 0.0 {
      Quotient(z, z);
    }
  }

  lemma SharesDiffer(n: real, d: real, n': real, d': real)
    requires d > 0.0 && d' > 0.0 && n * d' != n' * d
    ensures n / d != n' / d'
  {
    Quotient(n, d);
    Quotient(n', d');
    var r := n / d;
    if r == n' / d' {
      Reorder(r, d, d');
    }
  }

  lemma FoldAtIndex(a: seq<real>, x: nat, b: seq<real>, y: nat, c: seq<real>, z: nat, i: nat)
    requires |a| == |b| == |c| && i < |a| && x + y + z <= U64_MAX
    ensures BlendQuantiles(BlendQuantiles(a, x, b, y), x + y, c, z)[i]
         == Mean(Mean(a[i], x as real, b[i], y as real), x as real + y as real, c[i], z as real)
    ensures BlendQuantiles(a, x, BlendQuantiles(b, y, c, z), y + z)[i]
         == Mean(a[i], x as real, Mean(b[i], y as real, c[i], z as real), y as real + z as real)
  {
    BlendAt(a, x, b, y, i);
    BlendAt(b, y, c, z, i);
    BlendAt(BlendQuantiles(a, x, b, y), x + y, c, z, i);
    BlendAt(a, x, BlendQuantiles(b, y, c, z), y + z, i);
    assert (x + y) as real == x as real + y as real && (y + z) as real == y as real + z as real;
  }

  /** A metric that all three tables carry folds associatively, whatever the weights. */
  lemma SharedMetricFolds(a: seq<real>, x: nat, b: seq<real>, y: nat, c: seq<real>, z: nat)
    requires |a| == |b| == |c| && x + y + z <= U64_MAX
    ensures FoldsAgree(Some(a), x, Some(b), y, Some(c), z)
  {
    var l, r := BlendQuantiles(BlendQuantiles(a, x, b, y), x + y, c, z),
      BlendQuantiles(a, x, BlendQuantiles(b, y, c, z), y + z);
    forall i | 0 <= i < |a| ensures l[i] == r[i] {
      FoldAtIndex(a, x, b, y, c, z, i);
      MeanOfThree(a[i], x as real, b[i], y as real, c[i], z as real);
    }
    assert l == r;
  }

  lemma TwoCarriersFold(a: seq<real>, x: nat, b: seq<real>, y: nat, z: nat)
    requires |a| == |b| && x + y + z <= U64_MAX
    ensures (z == 0 || (x == 0 && y > 0)) ==> FoldsAgree(Some(a), x, Some(b), y, None, z)
    ensures y == 0 ==> FoldsAgree(Some(a), x, None, y, Some(b), z)
    ensures (x == 0 || z == 0) ==> FoldsAgree(None, x, Some(a), y, Some(b), z)
  {
    var xr, yr, zr := x as real, y as real, z as real;
    assert (x + y) as real == xr + yr && (y + z) as real == yr + zr;
    forall i | 0 <= i < |a|
      ensures (z == 0 || (x == 0 && y > 0)) ==> BlendQuantiles(a, x, b, y)[i] == BlendQuantiles(a, x, b, y + z)[i]
      ensures y == 0 ==> BlendQuantiles(a, x + y, b, z)[i] == BlendQuantiles(a, x, b, y + z)[i]
      ensures (x == 0 || z == 0) ==> BlendQuantiles(a, x + y, b, z)[i] == BlendQuantiles(a, y, b, z)[i]
    {
      FoldsOfTwo(a[i], xr, b[i], yr, zr);
      BlendAt(a, x, b, y, i);
      BlendAt(a, x, b, y + z, i);
      BlendAt(a, x + y, b, z, i);
      BlendAt(a, y, b, z, i);
    }
    if z == 0 || (x == 0 && y > 0) { assert BlendQuantiles(a, x, b, y) == BlendQuantiles(a, x, b, y + z); }
    if y == 0 { assert BlendQuantiles(a, x + y, b, z) == BlendQuantiles(a, x, b, y + z); }
    if x == 0 || z == 0 { assert BlendQuantiles(a, x + y, b, z) == BlendQuantiles(a, y, b, z); }
  }

  lemma TwoCarriersDiffer(a: seq<real>, x: nat, b: seq<real>, y: nat, z: nat)
    requires |a| == |b| > 0 && a[0] == 0.0 && b[0] == 1.0 && x + y + z <= U64_MAX
    ensures !(z == 0 || (x == 0 && y > 0)) ==> !FoldsAgree(Some(a), x, Some(b), y, None, z)
    ensures y != 0 ==> !FoldsAgree(Some(a), x, None, y, Some(b), z)
    ensures !(x == 0 || z == 0) ==> !FoldsAgree(None, x, Some(a), y, Some(b), z)
  {
    var xr, yr, zr := x as real, y as real, z as real;
    assert (x + y) as real == xr + yr && (y + z) as real == yr + zr;
    FoldsOfTwoDiffer(xr, yr, zr);
    BlendAt(a, x, b, y, 0);
    BlendAt(a, x, b, y + z, 0);
    BlendAt(a, x + y, b, z, 0);
    BlendAt(a, y, b, z, 0);
  }

  ghost predicate FoldsAlwaysAgree(inA: bool, x: nat, inB: bool, y: nat, inC: bool, z: nat, n: nat) {
    forall a, b, c :: |a| == n && |b| == n && |c| == n ==>
      FoldsAgree(Carried(inA, a), x, Carried(inB, b), y, Carried(inC, c), z)
  }

  /** For given weights and given tables carrying a metric, the two foldings of three tables agree on all vectors
      exactly under FoldCondition: always when all three, one or none carry it. */
  lemma FoldsAgreeIff(inA: bool, x: nat, inB: bool, y: nat, inC: bool, z: nat, n: nat)
    requires n > 0 && x + y + z <= U64_MAX
    ensures FoldsAlwaysAgree(inA, x, inB, y, inC, z, n) <==> FoldCondition(inA, x, inB, y, inC, z)
  {
    if FoldCondition(inA, x, inB, y, inC, z) {
      forall a: seq<real>, b: seq<real>, c: seq<real> | |a| == n && |b| == n && |c| == n
        ensures FoldsAgree(Carried(inA, a), x, Carried(inB, b), y, Carried(inC, c), z)
      {
        SharedMetricFolds(a, x, b, y, c, z);
        TwoCarriersFold(a, x, b, y, z);
        TwoCarriersFold(a, x, c, y, z);
        TwoCarriersFold(b, x, c, y, z);
      }
    } else {
      var zeros, ones := seq(n, _ => 0.0), seq(n, _ => 1.0);
      TwoCarriersDiffer(zeros, x, ones, y, z);
      var middle := if inA then ones else zeros;
      assert !FoldsAgree(Carried(inA, zeros), x, Carried(inB, middle), y, Carried(inC, ones), z);
    }
  }
}
