/** From observations to answers: how far the percentiles looked up in built and merged artifacts can be from the
    observed values themselves. */
module ObservedAccuracy {
  import opened Artifact
  import opened Blend
  import opened BuildLaws
  import opened Counting
  import opened Interpolation
  import opened Lookup
  import opened Merge
  import opened MergeAccuracy
  import opened MergeLaws
  import opened Ordering
  import opened Pools
  import opened Quantiles
  import opened TailAccuracy

  // ---- one pool of values ----

  ghost predicate IsSmallest(values: seq<real>, v: real) {
    v in values && forall x :: x in values ==> v <= x
  }

  /** If v is the smallest value, the values equal to it are worth less than one breakpoint step. */
  ghost predicate SmallestFits(values: seq<real>, v: real)
    requires |values| >= 2
  {
    IsSmallest(values, v) ==>
      (Count(values, Leq(v)) as real - 1.0) / (|values| - 1) as real < 1.0 / (QUANTILE_POINTS - 1) as real
  }

  lemma SampleOf(values: seq<real>, v: real)
    requires |values| >= 2
    ensures AtMost(SortReals(values), v) == Count(values, Leq(v))
    ensures MinimumFits(SortReals(values), QUANTILE_POINTS, v) <==> SmallestFits(values, v)
  {
    SmallestIsFirst(values, v);
    CountByMultiset(SortReals(values), values, Leq(v));
    FitsAgree(SortReals(values), values, v);
  }

  lemma SmallestIsFirst(values: seq<real>, v: real)
    requires values != []
    ensures v == SortReals(values)[0] <==> IsSmallest(values, v)
  {
    SmallestFirst(values);
  }

  lemma FitsAgree(sorted: seq<real>, values: seq<real>, v: real)
    requires |sorted| == |values| >= 2 && AtMost(sorted, v) == Count(values, Leq(v))
    requires v == sorted[0] <==> IsSmallest(values, v)
    ensures MinimumFits(sorted, QUANTILE_POINTS, v) <==> SmallestFits(values, v)
  {}

  lemma SampleShare(values: seq<real>, v: real)
    requires |values| >= 2
    ensures RankShare(SortReals(values), v) == RankShare(values, v)
  {
    CountByMultiset(SortReals(values), values, Leq(v));
  }

  lemma BuiltVectorAccurateIff(values: seq<real>, v: real)
    requires |values| >= 2
    ensures IsScale(BuiltVector(values))
    ensures OneStep(Percentile(BuiltVector(values), v).p, Count(values, Leq(v)) as real, (|values| - 1) as real,
                    (QUANTILE_POINTS - 1) as real)
       <==> SmallestFits(values, v)
  {
    BreakpointsFormScale(SortReals(values), QUANTILE_POINTS);
    SampleOf(values, v);
    AccurateIff(SortReals(values), QUANTILE_POINTS, v);
  }

  lemma BuiltTailAccurateIff(values: seq<real>, v: real) returns (t: real)
    requires |values| >= 2 && exists x :: x in values && x > TRIVIALITY_THRESHOLD
    ensures IsScale(BuiltVector(values)) && ConditionalTail(BuiltVector(values), v) == Some(t)
    ensures NearRank(t, PositivesUpTo(values, v), Positives(values), StepSize(|values|, QUANTILE_POINTS))
       <==> (v > TRIVIALITY_THRESHOLD ==> SmallestFits(values, v))
  {
    var sorted := SortReals(values);
    LargestLast(values);
    SampleOf(values, v);
    SamePositives(sorted, values, v);
    t := TailAccurateIff(sorted, QUANTILE_POINTS, v);
  }

  lemma SamePositives(s: seq<real>, t: seq<real>, v: real)
    requires multiset(s) == multiset(t)
    ensures PositivesUpTo(s, v) == PositivesUpTo(t, v) && Positives(s) == Positives(t)
  {
    CountByMultiset(s, t, Leq(v));
    CountByMultiset(s, t, Leq(TRIVIALITY_THRESHOLD));
    assert |multiset(s)| == |multiset(t)|;
  }

  // ---- a built artifact ----

  /** art was built from these observations, and values are those of one language and metric. */
  ghost predicate BuiltFrom(art: CalibrationArtifact, obs: seq<Observation>, language: string, metric: string,
                            values: seq<real>)
  {
    && IsBuilt(art, art.corpusVintage, art.generatedAt, Replay(obs))
    && values == ValuesOf(obs, language, metric)
  }

  lemma LookupIsBuiltVector(art: CalibrationArtifact, obs: seq<Observation>, language: string, metric: string,
                            values: seq<real>, q: seq<real>)
    requires BuiltFrom(art, obs, language, metric, values) && values != []
    requires MetricBreakpoints(art, language, metric) == Some(q)
    ensures q == BuiltVector(values)
    ensures Vector(Table(art, language), metric) == Some(q)
  {
    ObservedBreakpoints(art, art.corpusVintage, art.generatedAt, obs, language, metric);
    BuiltIsDistinct(art, art.corpusVintage, art.generatedAt, Replay(obs));
    LookupReadsVector(art, language, metric);
  }

  /** A percentile answered for a language and metric is within 1/1000 of the interval between the two sample ranks of v
      among the observed values, except exactly at a smallest value that repeats for a step or more. */
  lemma ObservedPercentile(art: CalibrationArtifact, obs: seq<Observation>, language: string, metric: string,
                           v: real, values: seq<real>, q: seq<real>)
    requires BuiltFrom(art, obs, language, metric, values) && |values| >= 2
    requires MetricBreakpoints(art, language, metric) == Some(q)
    ensures IsScale(q)
    ensures OneStep(Percentile(q, v).p, Count(values, Leq(v)) as real, (|values| - 1) as real, 1000.0) <==>
      SmallestFits(values, v)
  {
    LookupIsBuiltVector(art, obs, language, metric, values, q);
    BuiltVectorAccurateIff(values, v);
  }

  /** A conditional percentile answered for a language and metric ranks v among the positive observed values, under the
      same condition. */
  lemma ObservedTail(art: CalibrationArtifact, obs: seq<Observation>, language: string, metric: string,
                     v: real, values: seq<real>, q: seq<real>) returns (t: real)
    requires BuiltFrom(art, obs, language, metric, values) && |values| >= 2
    requires exists x :: x in values && x > TRIVIALITY_THRESHOLD
    requires MetricBreakpoints(art, language, metric) == Some(q)
    ensures IsScale(q) && ConditionalTail(q, v) == Some(t)
    ensures NearRank(t, PositivesUpTo(values, v), Positives(values), StepSize(|values|, QUANTILE_POINTS))
       <==> (v > TRIVIALITY_THRESHOLD ==> SmallestFits(values, v))
  {
    LookupIsBuiltVector(art, obs, language, metric, values, q);
    t := BuiltTailAccurateIff(values, v);
  }

  // ---- two built artifacts, merged ----

  /** Blending the vectors built from two pools is blending the breakpoints of the sorted pools. */
  lemma BlendedBuiltVectors(values: seq<real>, wb: nat, values': seq<real>, wa: nat, v: real)
    requires |values| >= 2 && |values'| >= 2 && wb + wa <= U64_MAX
    ensures var q := BlendQuantiles(BuiltVector(values), wb, BuiltVector(values'), wa);
      IsScale(q) && MergedAccurately(q, values, values', v)
  {
    var s, t := SortReals(values), SortReals(values');
    SampleShare(values, v);
    SampleShare(values', v);
    PooledShareIsMean(s, t, v);
    PooledShareIsMean(values, values', v);
    BlendOfIsScale(s, wb, t, wa, QUANTILE_POINTS);
    MergeErrorIff(s, t, QUANTILE_POINTS, wb, wa, v);
    MergeRanksNoHigher(s, t, QUANTILE_POINTS, wb, wa, v);
  }

  /** The percentile of v against q never exceeds its exact rank among all values by the merge error, and falls short by
      less than it exactly when v is above the smallest breakpoint or the exact rank is below the error itself. */
  ghost predicate MergedAccurately(q: seq<real>, values: seq<real>, values': seq<real>, v: real)
    requires |values| >= 2 && |values'| >= 2
  {
    IsScale(q) &&
    var p, rank, e := Percentile(q, v).p, RankShare(values + values', v),
      MergeError(values, values', QUANTILE_POINTS, v);
    && p - rank < e
    && (rank - p < e <==> (v > q[0] || rank < e))
  }

  /** Merging two built artifacts instead of building over all observations, for every value looked up: how far the
      answer can be from the exact rank among all observed values, and exactly when it is that close. */
  lemma MergedRankError(base: CalibrationArtifact, obs: seq<Observation>, add: CalibrationArtifact,
                        obs': seq<Observation>,
                        r: CalibrationArtifact, language: string, metric: string, v: real,
                        values: seq<real>, values': seq<real>, q: seq<real>)
    requires BuiltFrom(base, obs, language, metric, values) && BuiltFrom(add, obs', language, metric, values')
    requires IsMerge(base, add, r) && MetricBreakpoints(r, language, metric) == Some(q)
    requires MetricBreakpoints(base, language, metric).Some? && MetricBreakpoints(add, language, metric).Some?
    requires Weight(Table(base, language)) + Weight(Table(add, language)) <= U64_MAX
    requires |values| >= 2 && |values'| >= 2
    ensures MergedAccurately(q, values, values', v)
  {
    var qb, qa := MetricBreakpoints(base, language, metric).value, MetricBreakpoints(add, language, metric).value;
    LookupIsBuiltVector(base, obs, language, metric, values, qb);
    LookupIsBuiltVector(add, obs', language, metric, values', qa);
    MergedLookupIsBlend(base, obs, add, obs', r, language, metric, q);
    BlendedBuiltVectors(values, Weight(Table(base, language)), values', Weight(Table(add, language)), v);
  }

  lemma MergedLookupIsBlend(base: CalibrationArtifact, obs: seq<Observation>, add: CalibrationArtifact,
                            obs': seq<Observation>,
                            r: CalibrationArtifact, language: string, metric: string, q: seq<real>)
    requires IsBuilt(base, base.corpusVintage, base.generatedAt, Replay(obs)) && Replay(obs) != map[]
    requires IsBuilt(add, add.corpusVintage, add.generatedAt, Replay(obs')) && Replay(obs') != map[]
    requires IsMerge(base, add, r) && MetricBreakpoints(r, language, metric) == Some(q)
    requires Vector(Table(base, language), metric).Some? && Vector(Table(add, language), metric).Some?
    ensures q == BlendQuantiles(Vector(Table(base, language), metric).value, Weight(Table(base, language)),
                                Vector(Table(add, language), metric).value, Weight(Table(add, language)))
  {
    BuiltIsDistinct(base, base.corpusVintage, base.generatedAt, Replay(obs));
    BuiltIsDistinct(add, add.corpusVintage, add.generatedAt, Replay(obs'));
    BuiltIsWellFormedIff(base, base.corpusVintage, base.generatedAt, Replay(obs));
    BuiltIsWellFormedIff(add, add.corpusVintage, add.generatedAt, Replay(obs'));
    MergeKeepsWellFormed(base, add, r);
    LookupReadsVector(r, language, metric);
    MergedContents(base, add, r, language, metric);
  }
}
