/** Repo-level metric pools of calibration.rs: midpoint-rank percentiles over raw
    sorted values, and exact pooling of two sets of pools. */
module Pools {
  import opened Counting
  import opened Fractions
  import opened Interpolation
  import opened Lookup
  import opened Ordering

  predicate RealLe(x: real, y: real) { x <= y }

  lemma RealLeIsTotalOrder()
    ensures TotalOrder(RealLe)
  {}

  lemma SortedMeansNonDecreasing(s: seq<real>)
    ensures SortedBy(s, RealLe) <==> NonDecreasing(s)
  {
    if SortedBy(s, RealLe) {
      forall i, j | 0 <= i <= j < |s| ensures s[i] <= s[j] {
        if i < j { assert RealLe(s[i], s[j]); }
      }
    }
  }

  /** `sort_by(f64::total_cmp)`. */
  function SortReals(s: seq<real>): (r: seq<real>)
    ensures NonDecreasing(r) && multiset(r) == multiset(s) && |r| == |s|
  {
    RealLeIsTotalOrder();
    SortedMeansNonDecreasing(StableSort(s, RealLe));
    StableSort(s, RealLe)
  }

  lemma SortedRealsAreUnique(s: seq<real>, t: seq<real>)
    requires NonDecreasing(s) && NonDecreasing(t) && multiset(s) == multiset(t)
    ensures s == t
  {
    RealLeIsTotalOrder();
    SortedMeansNonDecreasing(s);
    SortedMeansNonDecreasing(t);
    SortedArrangementIsUnique(s, t, RealLe);
  }

  // ---- midpoint rank ----

  /** Elements below v, plus half of the elements equal to v. */
  function MidRank(s: seq<real>, v: real): real {
    Count(s, Less(v)) as real + 0.5 * (Count(s, Leq(v)) - Count(s, Less(v))) as real
  }

  function RawPercentile(sorted: seq<real>, v: real): Option<real> {
    if sorted == [] then None else Some(MidRank(sorted, v) / |sorted| as real)
  }

  method ComputeRawPercentile(sorted: seq<real>, v: real) returns (r: Option<real>)
    requires NonDecreasing(sorted)
    ensures r == RawPercentile(sorted, v)
  {
    var n := |sorted|;
    if n == 0 {
      return None;
    }
    LeqIsDownClosed(v);
    var less := PartitionPoint(sorted, Less(v));
    var lessOrEqual := PartitionPoint(sorted, Leq(v));
    CountMonotone(sorted, Less(v), Leq(v));
    var equal := lessOrEqual - less;
    r := Some((less as real + 0.5 * equal as real) / n as real);
  }

  lemma MidRankRange(s: seq<real>, v: real)
    ensures 0.0 <= MidRank(s, v) <= |s| as real
  {
    CountMonotone(s, Less(v), Leq(v));
  }

  lemma MidRankMonotone(s: seq<real>, v: real, w: real)
    requires v <= w
    ensures MidRank(s, v) <= MidRank(s, w)
  {
    CountMonotone(s, Less(v), Less(w));
    CountMonotone(s, Leq(v), Leq(w));
  }

  lemma MidRankOfConcat(s: seq<real>, t: seq<real>, v: real)
    ensures MidRank(s + t, v) == MidRank(s, v) + MidRank(t, v)
  {
    CountOfConcat(s, t, Less(v));
    CountOfConcat(s, t, Leq(v));
  }

  lemma MidRankByMultiset(s: seq<real>, t: seq<real>, v: real)
    requires multiset(s) == multiset(t)
    ensures MidRank(s, v) == MidRank(t, v)
  {
    CountByMultiset(s, t, Less(v));
    CountByMultiset(s, t, Leq(v));
  }

  lemma RawPercentileMonotone(s: seq<real>, v: real, w: real)
    requires s != [] && v <= w
    ensures 0.0 <= RawPercentile(s, v).value <= RawPercentile(s, w).value <= 1.0
  {
    MidRankRange(s, v);
    MidRankRange(s, w);
    MidRankMonotone(s, v, w);
    Quotient(MidRank(s, v), |s| as real);
    Quotient(MidRank(s, w), |s| as real);
    QuotientOrder(MidRank(s, v), MidRank(s, w), |s| as real);
  }

  lemma {:induction false} CountEnds(s: seq<real>, p: real -> bool)
    ensures Count(s, p) == 0 <==> forall x :: x in s ==> !p(x)
    ensures Count(s, p) == |s| <==> forall x :: x in s ==> p(x)
  {
    if s != [] {
      CountEnds(s[1..], p);
      assert forall x :: x in s <==> x == s[0] || x in s[1..];
    }
  }

  /** Zero means below every element, one means above every element. */
  lemma RawPercentileEnds(s: seq<real>, v: real)
    requires s != []
    ensures RawPercentile(s, v) == Some(0.0) <==> forall x :: x in s ==> v < x
    ensures RawPercentile(s, v) == Some(1.0) <==> forall x :: x in s ==> x < v
  {
    var less, leq, n := Count(s, Less(v)), Count(s, Leq(v)), |s| as real;
    CountEnds(s, Leq(v));
    CountEnds(s, Less(v));
    CountMonotone(s, Less(v), Leq(v));
    Quotient(MidRank(s, v), n);
    assert (forall x :: x in s ==> !Leq(v)(x)) <==> (forall x :: x in s ==> v < x);
    assert (forall x :: x in s ==> Less(v)(x)) <==> (forall x :: x in s ==> x < v);
    assert MidRank(s, v) == 0.0 <==> leq == 0;
    assert MidRank(s, v) == n <==> less == |s|;
  }

  /** The percentile is the midpoint of the ranks v spans: with the elements below v and the elements at or below v
      counted as positions, twice the size times the percentile is their sum. */
  lemma RawPercentileIsMidpoint(s: seq<real>, v: real)
    ensures RawPercentile(s, v).None? <==> s == []
    ensures var below, atMost := set i: nat | i < |s| && s[i] < v, set i: nat | i < |s| && s[i] <= v;
      s != [] ==> 2.0 * (|s| as real * RawPercentile(s, v).value) == (|below| + |atMost|) as real
  {
    PositionCounts(s, v);
    if s != [] { Quotient(MidRank(s, v), |s| as real); }
  }

  lemma PositionCounts(s: seq<real>, v: real)
    ensures Count(s, Less(v)) == |set i: nat | i < |s| && s[i] < v|
    ensures Count(s, Leq(v)) == |set i: nat | i < |s| && s[i] <= v|
  {
    CountIsCardinality(s, Less(v));
    CountIsCardinality(s, Leq(v));
    assert Positions(s, Less(v)) == set i: nat | i < |s| && s[i] < v;
    assert Positions(s, Leq(v)) == set i: nat | i < |s| && s[i] <= v;
  }

  function Mirror(s: seq<real>): seq<real> {
    if s == [] then [] else [-s[0]] + Mirror(s[1..])
  }

  lemma {:induction false} MirrorCounts(s: seq<real>, v: real)
    ensures |Mirror(s)| == |s|
    ensures Count(Mirror(s), Less(-v)) == |s| - Count(s, Leq(v))
    ensures Count(Mirror(s), Leq(-v)) == |s| - Count(s, Less(v))
  {
    if s != [] {
      MirrorCounts(s[1..], v);
      assert Mirror(s)[1..] == Mirror(s[1..]);
    }
  }

  lemma MidRankMirrors(s: seq<real>, v: real)
    ensures MidRank(s, v) + MidRank(Mirror(s), -v) == |s| as real
  {
    MirrorCounts(s, v);
  }

  lemma Complement(a: real, b: real, n: real)
    requires n > 0.0 && a + b == n
    ensures a / n + b / n == 1.0
  {
    Quotient(a, n);
    Quotient(b, n);
    SharesAddUp(a / n, b / n, a, b, n);
  }

  lemma SharesAddUp(p: real, r: real, a: real, b: real, n: real)
    requires n > 0.0 && p * n == a && r * n == b && a + b == n
    ensures p + r == 1.0
  {
    Distribute(p, r, n);
    ScaleOrder(p + r, 1.0, n);
    ScaleOrder(1.0, p + r, n);
  }

  /** Ties get the midpoint: turning the scale around turns the percentile into its complement. */
  lemma RawPercentileMirrors(s: seq<real>, v: real)
    requires s != []
    ensures Mirror(s) != [] && RawPercentile(s, v).value + RawPercentile(Mirror(s), -v).value == 1.0
  {
    MirrorCounts(s, v);
    MidRankMirrors(s, v);
    Complement(MidRank(s, v), MidRank(Mirror(s), -v), |s| as real);
  }

  // ---- pooling ----

  type PoolMap = map<string, seq<real>>

  ghost predicate PoolsSorted(pools: Option<PoolMap>) {
    pools.Some? ==> forall m :: m in pools.value ==> NonDecreasing(pools.value[m])
  }

  /** The values behind a metric; none when the section or the metric is absent. */
  function Pool(pools: Option<PoolMap>, metric: string): seq<real> {
    if pools.Some? && metric in pools.value then pools.value[metric] else []
  }

  function Metrics(pools: Option<PoolMap>): set<string> {
    if pools.Some? then pools.value.Keys else {}
  }

  /** One metric folded in: appended to the values already there, if any, and sorted again. */
  function FoldIn(values: PoolMap, metric: string, addVals: seq<real>, sort: seq<real> -> seq<real>): PoolMap {
    values[metric := sort(if metric in values then values[metric] + addVals else addVals)]
  }

  /** The base pools after the metrics in done have been folded in from the additional ones. */
  function Folded(b: PoolMap, a: PoolMap, done: set<string>, sort: seq<real> -> seq<real>): PoolMap
    requires done <= a.Keys
  {
    map m | m in b.Keys + done ::
      if m in done && m in b then sort(b[m] + a[m]) else if m in done then sort(a[m]) else b[m]
  }

  /** What merging two optional sections gives. */
  function MergedPools(base: Option<PoolMap>, additional: Option<PoolMap>): Option<PoolMap> {
    if base.None? then additional
    else if additional.None? then base
    else Some(Folded(base.value, additional.value, additional.value.Keys, SortReals))
  }

  lemma FoldOne(b: PoolMap, a: PoolMap, done: set<string>, m: string, sort: seq<real> -> seq<real>)
    requires done <= a.Keys && m in a && m !in done
    ensures Folded(b, a, done + {m}, sort) == FoldIn(Folded(b, a, done, sort), m, a[m], sort)
  {}

  lemma FoldNone(b: PoolMap, a: PoolMap, sort: seq<real> -> seq<real>)
    ensures Folded(b, a, {}, sort) == b
  {}

  method FoldAll(b: PoolMap, a: PoolMap, sort: seq<real> -> seq<real>) returns (values: PoolMap)
    ensures values == Folded(b, a, a.Keys, sort)
  {
    values := b;
    var metrics := SortedKeys(a.Keys);
    ghost var done: set<string> := {};
    FoldNone(b, a, sort);
    for i := 0 to |metrics|
      invariant done == set j | 0 <= j < i :: metrics[j]
      invariant done <= a.Keys && values == Folded(b, a, done, sort)
    {
      var metric := metrics[i];
      assert metric in metrics && metric !in done;
      FoldOne(b, a, done, metric, sort);
      values := FoldIn(values, metric, a[metric], sort);
      done := done + {metric};
    }
    assert done == a.Keys;
  }

  method MergeRepoMetrics(base: Option<PoolMap>, additional: Option<PoolMap>) returns (r: Option<PoolMap>)
    ensures r == MergedPools(base, additional)
  {
    match (base, additional)
    case (None, _) => r := additional;
    case (_, None) => r := base;
    case (Some(b), Some(a)) =>
      var values := FoldAll(b, a, SortReals);
      r := Some(values);
  }

  /** r pools b and a exactly: sorted, and per metric the multiset union. */
  ghost predicate IsUnion(b: Option<PoolMap>, a: Option<PoolMap>, r: Option<PoolMap>) {
    && PoolsSorted(r) && (r.Some? <==> b.Some? || a.Some?)
    && Metrics(r) == Metrics(b) + Metrics(a)
    && forall m :: PooledAt(b, a, r, m)
  }

  ghost predicate PooledAt(b: Option<PoolMap>, a: Option<PoolMap>, r: Option<PoolMap>, metric: string) {
    multiset(Pool(r, metric)) == multiset(Pool(b, metric)) + multiset(Pool(a, metric))
  }

  /** Merging sorted pools is exact: sorted again, and per metric the multiset union. */
  lemma MergeIsExact(base: Option<PoolMap>, additional: Option<PoolMap>)
    requires PoolsSorted(base) && PoolsSorted(additional)
    ensures IsUnion(base, additional, MergedPools(base, additional))
  {
    if base.Some? && additional.Some? {
      FoldedIsUnion(base.value, additional.value, SortReals);
    }
  }

  lemma FoldedIsUnion(b: PoolMap, a: PoolMap, sort: seq<real> -> seq<real>)
    requires PoolsSorted(Some(b))
    requires forall s :: NonDecreasing(sort(s)) && multiset(sort(s)) == multiset(s)
    ensures IsUnion(Some(b), Some(a), Some(Folded(b, a, a.Keys, sort)))
  {
    var r := Folded(b, a, a.Keys, sort);
    forall m ensures PooledAt(Some(b), Some(a), Some(r), m) {
      if m in a && m in b {
        assert r[m] == sort(b[m] + a[m]);
        assert multiset(b[m] + a[m]) == multiset(b[m]) + multiset(a[m]);
      } else if m in a {
        assert r[m] == sort(a[m]);
      }
    }
    forall m | m in r ensures NonDecreasing(r[m]) {
      if m in a { assert r[m] == sort(if m in b then b[m] + a[m] else a[m]); }
    }
  }

  /** Sections agree when both are present or both absent, with the same metrics and the same values. */
  lemma SamePools(r: Option<PoolMap>, s: Option<PoolMap>)
    requires PoolsSorted(r) && PoolsSorted(s) && r.Some? == s.Some? && Metrics(r) == Metrics(s)
    requires forall m :: multiset(Pool(r, m)) == multiset(Pool(s, m))
    ensures r == s
  {
    if r.Some? {
      forall m | m in r.value ensures r.value[m] == s.value[m] {
        assert m in Metrics(r);
        assert multiset(Pool(r, m)) == multiset(Pool(s, m));
        SortedRealsAreUnique(r.value[m], s.value[m]);
      }
      assert r.value.Keys == s.value.Keys;
      assert r.value == s.value;
    }
  }

  /** What is pooled determines the result. */
  lemma UnionsAgree(a: Option<PoolMap>, b: Option<PoolMap>, r: Option<PoolMap>, s: Option<PoolMap>)
    requires IsUnion(a, b, r) && IsUnion(b, a, s)
    ensures r == s
  {
    forall m ensures multiset(Pool(r, m)) == multiset(Pool(s, m)) {
      assert PooledAt(a, b, r, m) && PooledAt(b, a, s, m);
    }
    SamePools(r, s);
  }

  lemma UnionsAssociate(a: Option<PoolMap>, b: Option<PoolMap>, c: Option<PoolMap>,
                        ab: Option<PoolMap>, bc: Option<PoolMap>, l: Option<PoolMap>, r: Option<PoolMap>)
    requires IsUnion(a, b, ab) && IsUnion(ab, c, l) && IsUnion(b, c, bc) && IsUnion(a, bc, r)
    ensures l == r
  {
    forall m ensures multiset(Pool(l, m)) == multiset(Pool(r, m)) {
      assert PooledAt(a, b, ab, m) && PooledAt(ab, c, l, m);
      assert PooledAt(b, c, bc, m) && PooledAt(a, bc, r, m);
    }
    SamePools(l, r);
  }

  lemma PoolingCommutes(a: Option<PoolMap>, b: Option<PoolMap>)
    requires PoolsSorted(a) && PoolsSorted(b)
    ensures MergedPools(a, b) == MergedPools(b, a)
  {
    MergeIsExact(a, b);
    MergeIsExact(b, a);
    UnionsAgree(a, b, MergedPools(a, b), MergedPools(b, a));
  }

  lemma PoolingAssociates(a: Option<PoolMap>, b: Option<PoolMap>, c: Option<PoolMap>)
    requires PoolsSorted(a) && PoolsSorted(b) && PoolsSorted(c)
    ensures MergedPools(MergedPools(a, b), c) == MergedPools(a, MergedPools(b, c))
  {
    MergeIsExact(a, b);
    MergeIsExact(b, c);
    MergeIsExact(MergedPools(a, b), c);
    MergeIsExact(a, MergedPools(b, c));
    UnionsAssociate(a, b, c, MergedPools(a, b), MergedPools(b, c),
                    MergedPools(MergedPools(a, b), c), MergedPools(a, MergedPools(b, c)));
  }

  /** Size times percentile; zero for an absent pool. */
  function RankMass(pools: Option<PoolMap>, metric: string, v: real): real {
    var s := Pool(pools, metric);
    if s == [] then 0.0 else |s| as real * RawPercentile(s, v).value
  }

  lemma RankMassIsMidRank(pools: Option<PoolMap>, metric: string, v: real)
    ensures RankMass(pools, metric, v) == MidRank(Pool(pools, metric), v)
  {
    var s := Pool(pools, metric);
    if s != [] { Quotient(MidRank(s, v), |s| as real); }
  }

  /** Percentiles over the merged pool are the size-weighted average of the percentiles over the two pools. */
  lemma PooledPercentileIsWeighted(base: Option<PoolMap>, additional: Option<PoolMap>, metric: string, v: real)
    requires PoolsSorted(base) && PoolsSorted(additional)
    ensures RankMass(MergedPools(base, additional), metric, v)
         == RankMass(base, metric, v) + RankMass(additional, metric, v)
  {
    var r, b, a := Pool(MergedPools(base, additional), metric), Pool(base, metric), Pool(additional, metric);
    MergeIsExact(base, additional);
    assert PooledAt(base, additional, MergedPools(base, additional), metric);
    assert multiset(b + a) == multiset(b) + multiset(a);
    MidRankByMultiset(r, b + a, v);
    MidRankOfConcat(b, a, v);
    RankMassIsMidRank(MergedPools(base, additional), metric, v);
    RankMassIsMidRank(base, metric, v);
    RankMassIsMidRank(additional, metric, v);
  }
}
