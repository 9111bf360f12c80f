/** What merging calibration artifacts keeps, and what lookups and validation see of it. */
module MergeLaws {
  import opened Artifact
  import opened Blend
  import opened Lookup
  import opened Merge
  import opened Named
  import opened Ordering

  // ---- reading an artifact by name ----

  lemma TableComesFrom(art: CalibrationArtifact, language: string)
    ensures var t := Table(art, language);
            t.Some? ==> t.value.language == language && t.value in art.languages
  {
    IndexComesFrom(art.languages, LanguageName);
  }

  /** The metrics of a table are those of its strata, one stratum after the other. */
  lemma {:induction false} MetricsOfFirstStratum(s: Stratum, rest: seq<Stratum>)
    ensures AllMetrics([s] + rest) == s.metrics + AllMetrics(rest)
    decreases |rest|
  {
    var all := [s] + rest;
    if rest == [] {
      SingleStratum(s);
      assert all == [s];
    } else {
      assert all[..|all| - 1] == [s] + rest[..|rest| - 1];
      MetricsOfFirstStratum(s, rest[..|rest| - 1]);
    }
  }

  lemma {:induction false} MetricIsInSomeStratum(strata: seq<Stratum>, m: MetricQuantiles)
    requires m in AllMetrics(strata)
    ensures exists i :: 0 <= i < |strata| && m in strata[i].metrics
  {
    var front, last := strata[..|strata| - 1], strata[|strata| - 1];
    if m in AllMetrics(front) {
      MetricIsInSomeStratum(front, m);
      var i :| 0 <= i < |front| && m in front[i].metrics;
      assert m in strata[i].metrics;
    } else {
      assert m in strata[|strata| - 1].metrics;
    }
  }

  lemma GoodMetric(t: LanguageTable, m: MetricQuantiles)
    requires GoodTable(t) && m in AllMetrics(t.strata)
    ensures GoodVector(m.quantiles)
  {
    MetricIsInSomeStratum(t.strata, m);
    var i :| 0 <= i < |t.strata| && m in t.strata[i].metrics;
    assert GoodStratum(t.strata[i]);
  }

  /** Every vector a well-formed artifact answers with is a scale of full length. */
  lemma VectorIsGood(art: CalibrationArtifact, language: string, metric: string)
    requires WellFormed(art)
    ensures var q := Vector(Table(art, language), metric);
            q.Some? ==> GoodVector(q.value) && IsScale(q.value)
  {
    var t := Table(art, language);
    TableComesFrom(art, language);
    if t.Some? && Vector(t, metric).Some? {
      var ms := AllMetrics(t.value.strata);
      IndexComesFrom(ms, MetricName);
      GoodMetric(t.value, IndexBy(ms, MetricName)[metric]);
    }
  }

  /** A lookup reads the named vector of the named table, unless the table is below the trust floor. */
  lemma LookupReadsVector(art: CalibrationArtifact, language: string, metric: string)
    requires DistinctArtifact(art)
    ensures MetricBreakpoints(art, language, metric)
         == if Weight(Table(art, language)) < 500 then None else Vector(Table(art, language), metric)
  {
    FindIsIndex(art.languages, LanguageName, language);
    TableComesFrom(art, language);
    var t := Table(art, language);
    if t.Some? {
      FindIsIndex(AllMetrics(t.value.strata), MetricName, metric);
    }
  }

  // ---- one merge ----

  lemma SingleStratum(s: Stratum)
    ensures AllMetrics([s]) == s.metrics
  {
    assert [s][..0] == [];
    assert AllMetrics([]) == [];
  }

  lemma SingleStratumVector(t: LanguageTable, metric: string)
    requires |t.strata| == 1
    ensures var m := Opt(IndexBy(t.strata[0].metrics, MetricName), metric);
            Vector(Some(t), metric) == if m.None? then None else Some(m.value.quantiles)
    ensures AllMetrics(t.strata) == t.strata[0].metrics
  {
    assert t.strata == [t.strata[0]];
    SingleStratum(t.strata[0]);
  }

  lemma BlendedMetricVector(base: seq<MetricQuantiles>, wb: nat, add: seq<MetricQuantiles>, wa: nat,
                            r: seq<MetricQuantiles>, metric: string)
    requires MergedByName(base, add, MetricName, MetricBlender(wb, wa), r) && DistinctNames(base, MetricName)
    ensures VectorIn(r, metric) == BlendMetric(VectorIn(base, metric), wb, VectorIn(add, metric), wa)
  {
    MergedLookup(base, add, MetricName, MetricBlender(wb, wa), r, metric);
  }

  lemma BlendedLanguageVector(base: LanguageTable, add: LanguageTable, r: LanguageTable, metric: string)
    requires IsBlendedLanguage(base, add, r) && DistinctTable(base)
    ensures Vector(Some(r), metric)
         == BlendMetric(Vector(Some(base), metric), base.sampleFunctions,
                        Vector(Some(add), metric), add.sampleFunctions)
  {
    assert r.strata == [r.strata[0]];
    SingleStratum(r.strata[0]);
    BlendedMetricVector(AllMetrics(base.strata), base.sampleFunctions, AllMetrics(add.strata), add.sampleFunctions,
                        r.strata[0].metrics, metric);
  }

  /** After a merge, every language and metric reads as the blend of what the two inputs hold under that name:
      blended when both hold it, carried through when one does, absent when neither does. */
  lemma MergedContents(base: CalibrationArtifact, add: CalibrationArtifact, r: CalibrationArtifact, language: string,
                       metric: string)
    requires IsMerge(base, add, r) && DistinctArtifact(base)
    ensures Table(r, language).Some? <==> Table(base, language).Some? || Table(add, language).Some?
    ensures Weight(Table(base, language)) + Weight(Table(add, language)) <= U64_MAX ==>
              Weight(Table(r, language)) == Weight(Table(base, language)) + Weight(Table(add, language))
    ensures Vector(Table(r, language), metric)
         == BlendMetric(Vector(Table(base, language), metric), Weight(Table(base, language)),
                        Vector(Table(add, language), metric), Weight(Table(add, language)))
  {
    MergedLookup(base.languages, add.languages, LanguageName, IsBlendedLanguage, r.languages, language);
    TableComesFrom(base, language);
    var b, a := Table(base, language), Table(add, language);
    if b.Some? && a.Some? {
      BlendedLanguageVector(b.value, a.value, Table(r, language).value, metric);
    }
  }

  lemma BlendedLanguageDistinct(base: LanguageTable, add: LanguageTable, r: LanguageTable)
    requires IsBlendedLanguage(base, add, r) && DistinctTable(base)
    ensures DistinctTable(r)
  {
    assert r.strata == [r.strata[0]];
    SingleStratum(r.strata[0]);
    MergedNamesDistinct(AllMetrics(base.strata), AllMetrics(add.strata), MetricName,
                        MetricBlender(base.sampleFunctions, add.sampleFunctions), r.strata[0].metrics);
  }

  lemma BlendedLanguageGood(base: LanguageTable, add: LanguageTable, r: LanguageTable)
    requires IsBlendedLanguage(base, add, r) && GoodTable(base) && GoodTable(add)
    ensures GoodTable(r)
  {
    var bases, adds, rs := AllMetrics(base.strata), AllMetrics(add.strata), r.strata[0].metrics;
    IndexComesFrom(adds, MetricName);
    forall j | 0 <= j < |rs| ensures GoodVector(rs[j].quantiles) {
      var partners := IndexBy(adds, MetricName);
      if MetricName(rs[j]) in partners {
        GoodMetric(add, partners[MetricName(rs[j])]);
      }
      if j < |bases| {
        GoodMetric(base, bases[j]);
        if MetricName(bases[j]) in partners {
          BlendIsScale(bases[j].quantiles, base.sampleFunctions, partners[MetricName(bases[j])].quantiles,
            add.sampleFunctions);
        }
      }
    }
  }

  /** Where a table of the merge comes from. */
  lemma MergedTableOrigin(base: CalibrationArtifact, add: CalibrationArtifact, r: CalibrationArtifact, j: nat)
    requires IsMerge(base, add, r) && j < |r.languages|
    ensures r.languages[j] in base.languages || r.languages[j] in add.languages
         || exists b, a :: b in base.languages && a in add.languages && IsBlendedLanguage(b, a, r.languages[j])
  {
    var partners := IndexBy(add.languages, LanguageName);
    IndexComesFrom(add.languages, LanguageName);
    if j < |base.languages| {
      var b := base.languages[j];
      if LanguageName(b) in partners && FirstOfName(base.languages, LanguageName, j) {
        assert b in base.languages && partners[LanguageName(b)] in add.languages;
        assert IsBlendedLanguage(b, partners[LanguageName(b)], r.languages[j]);
      }
    } else {
      assert LanguageName(r.languages[j]) in partners;
    }
  }

  lemma MergeKeepsDistinct(base: CalibrationArtifact, add: CalibrationArtifact, r: CalibrationArtifact)
    requires IsMerge(base, add, r) && DistinctArtifact(base) && DistinctArtifact(add)
    ensures DistinctArtifact(r)
  {
    MergedNamesDistinct(base.languages, add.languages, LanguageName, IsBlendedLanguage, r.languages);
    forall j | 0 <= j < |r.languages| ensures DistinctTable(r.languages[j]) {
      var t := r.languages[j];
      MergedTableOrigin(base, add, r, j);
      if t !in base.languages && t !in add.languages {
        var b, a :| b in base.languages && a in add.languages && IsBlendedLanguage(b, a, t);
        BlendedLanguageDistinct(b, a, t);
      }
    }
  }

  /** Merging keeps artifacts valid, and distinct names distinct. */
  lemma MergeKeepsWellFormed(base: CalibrationArtifact, add: CalibrationArtifact, r: CalibrationArtifact)
    requires IsMerge(base, add, r) && WellFormed(base) && WellFormed(add)
    ensures WellFormed(r)
    ensures DistinctArtifact(base) && DistinctArtifact(add) ==> DistinctArtifact(r)
  {
    if DistinctArtifact(base) && DistinctArtifact(add) { MergeKeepsDistinct(base, add, r); }
    forall j | 0 <= j < |r.languages| ensures GoodTable(r.languages[j]) {
      var t := r.languages[j];
      MergedTableOrigin(base, add, r, j);
      if t !in base.languages && t !in add.languages {
        var b, a :| b in base.languages && a in add.languages && IsBlendedLanguage(b, a, t);
        BlendedLanguageGood(b, a, t);
      }
    }
    if r.languages == [] && base.repoMetrics.Some? {
      var m :| m in base.repoMetrics.value;
      assert m in r.repoMetrics.value;
    }
  }

  /** Each breakpoint of a metric both inputs hold lies between the two originals. */
  lemma MergedBreakpointBetween(base: CalibrationArtifact, add: CalibrationArtifact, r: CalibrationArtifact,
                                language: string, metric: string, i: nat)
    requires IsMerge(base, add, r) && DistinctArtifact(base) && WellFormed(base) && WellFormed(add)
      && i < QUANTILE_POINTS
    requires Weight(Table(base, language)) + Weight(Table(add, language)) <= U64_MAX
    requires Vector(Table(base, language), metric).Some? && Vector(Table(add, language), metric).Some?
    ensures var q := Vector(Table(r, language), metric);
            && GoodVector(Vector(Table(base, language), metric).value)
            && GoodVector(Vector(Table(add, language), metric).value)
            && q.Some? && |q.value| == QUANTILE_POINTS
            && var b, m, a := Vector(Table(base, language), metric).value[i], q.value[i],
              Vector(Table(add, language), metric).value[i];
               (b <= m <= a || a <= m <= b)
  {
    VectorIsGood(base, language, metric);
    VectorIsGood(add, language, metric);
    MergedContents(base, add, r, language, metric);
    BlendBetween(Vector(Table(base, language), metric).value, Weight(Table(base, language)),
                 Vector(Table(add, language), metric).value, Weight(Table(add, language)), i);
  }

  /** Against the merged artifact a value ranks between its ranks against the two inputs. */
  lemma MergedPercentileBetween(base: CalibrationArtifact, add: CalibrationArtifact, r: CalibrationArtifact,
                                language: string, metric: string, v: real)
    requires IsMerge(base, add, r) && DistinctArtifact(base) && DistinctArtifact(add) && WellFormed(base)
      && WellFormed(add)
    requires Weight(Table(base, language)) + Weight(Table(add, language)) <= U64_MAX
    requires MetricBreakpoints(base, language, metric).Some? && MetricBreakpoints(add, language, metric).Some?
    ensures var qb, q, qa :=
      MetricBreakpoints(base, language, metric), MetricBreakpoints(r, language, metric),
      MetricBreakpoints(add, language, metric);
            && q.Some? && IsScale(qb.value) && IsScale(q.value) && IsScale(qa.value)
            && var pb, p, pa := Percentile(qb.value, v).p, Percentile(q.value, v).p, Percentile(qa.value, v).p;
               (pb <= p <= pa || pa <= p <= pb)
  {
    LookupReadsVector(base, language, metric);
    LookupReadsVector(add, language, metric);
    VectorIsGood(base, language, metric);
    VectorIsGood(add, language, metric);
    MergedContents(base, add, r, language, metric);
    MergeKeepsWellFormed(base, add, r);
    LookupReadsVector(r, language, metric);
    BlendBracketsPercentile(Vector(Table(base, language), metric).value, Weight(Table(base, language)),
                            Vector(Table(add, language), metric).value, Weight(Table(add, language)), v);
  }

  /** Merging with an artifact that holds nothing changes nothing: languages, counts, pools and provenance stay. */
  lemma MergeWithNothing(base: CalibrationArtifact, nothing: CalibrationArtifact, r: CalibrationArtifact)
    requires IsMerge(base, nothing, r) && nothing.languages == [] && nothing.repoMetrics == None
    requires nothing.reposIncluded == nothing.reposAttempted == 0
    requires base.formatVersion == CALIBRATION_FORMAT_VERSION
    requires base.reposIncluded <= U32_MAX && base.reposAttempted <= U32_MAX
    ensures r == base
  {
    SomeLanguageIff(r.languages[|base.languages|..], {});
    assert r.languages == base.languages;
  }

  // ---- folding three artifacts ----

  /** What an artifact holds for a language and a metric: the language's weight and the metric's vector. */
  datatype Holding = Holding(weight: nat, vector: Option<seq<real>>)

  function Held(art: CalibrationArtifact, language: string, metric: string): Holding {
    Holding(Weight(Table(art, language)), Vector(Table(art, language), metric))
  }

  function BlendHoldings(base: Holding, add: Holding): Holding {
    Holding(base.weight + add.weight, BlendMetric(base.vector, base.weight, add.vector, add.weight))
  }

  lemma MergedHolding(base: CalibrationArtifact, add: CalibrationArtifact, r: CalibrationArtifact, language: string,
                      metric: string)
    requires IsMerge(base, add, r) && DistinctArtifact(base)
    requires Held(base, language, metric).weight + Held(add, language, metric).weight <= U64_MAX
    ensures Held(r, language, metric) == BlendHoldings(Held(base, language, metric), Held(add, language, metric))
  {
    MergedContents(base, add, r, language, metric);
  }

  ghost predicate Usable(art: CalibrationArtifact) {
    WellFormed(art) && DistinctArtifact(art)
  }

  /** l and r are the two ways of folding a, b and c. */
  ghost predicate TwoFolds(a: CalibrationArtifact, b: CalibrationArtifact, c: CalibrationArtifact,
                           l: CalibrationArtifact, r: CalibrationArtifact)
  {
    exists ab, bc :: IsMerge(a, b, ab) && IsMerge(ab, c, l) && IsMerge(b, c, bc) && IsMerge(a, bc, r)
  }

  lemma FoldedHoldings(a: CalibrationArtifact, b: CalibrationArtifact, c: CalibrationArtifact,
                       l: CalibrationArtifact, r: CalibrationArtifact, language: string, metric: string)
    requires Usable(a) && Usable(b) && TwoFolds(a, b, c, l, r)
    requires Held(a, language, metric).weight + Held(b, language, metric).weight
      + Held(c, language, metric).weight <= U64_MAX
    ensures Held(l, language, metric)
         == BlendHoldings(BlendHoldings(Held(a, language, metric), Held(b, language, metric)),
           Held(c, language, metric))
    ensures Held(r, language, metric)
         == BlendHoldings(Held(a, language, metric),
           BlendHoldings(Held(b, language, metric), Held(c, language, metric)))
  {
    var ab, bc :| IsMerge(a, b, ab) && IsMerge(ab, c, l) && IsMerge(b, c, bc) && IsMerge(a, bc, r);
    assert DistinctArtifact(ab) by { MergeKeepsWellFormed(a, b, ab); }
    MergedHolding(a, b, ab, language, metric);
    MergedHolding(ab, c, l, language, metric);
    MergedHolding(b, c, bc, language, metric);
    MergedHolding(a, bc, r, language, metric);
  }

  lemma UsableVector(art: CalibrationArtifact, language: string, metric: string)
    requires Usable(art)
    ensures FullLength(Held(art, language, metric))
  {
    VectorIsGood(art, language, metric);
  }

  ghost predicate FullLength(h: Holding) {
    h.vector.Some? ==> |h.vector.value| == QUANTILE_POINTS
  }

  /** The carriers of a metric and their weights allow it to be folded either way. */
  ghost predicate FoldsEitherWay(a: Holding, b: Holding, c: Holding) {
    FoldCondition(a.vector.Some?, a.weight, b.vector.Some?, b.weight, c.vector.Some?, c.weight)
  }

  lemma HoldingsFold(a: Holding, b: Holding, c: Holding)
    requires FullLength(a) && FullLength(b) && FullLength(c) && a.weight + b.weight + c.weight <= U64_MAX
    ensures var l, r := BlendHoldings(BlendHoldings(a, b), c), BlendHoldings(a, BlendHoldings(b, c));
            l.weight == r.weight && l.vector.Some? == r.vector.Some? && (FoldsEitherWay(a, b, c) ==> l == r)
  {
    if FoldsEitherWay(a, b, c) {
      var x, y, z := a.weight, b.weight, c.weight;
      FoldsAgreeIff(a.vector.Some?, x, b.vector.Some?, y, c.vector.Some?, z, QUANTILE_POINTS);
      var any := seq(QUANTILE_POINTS, _ => 0.0);
      var qa, qb, qc := VectorOr(a, any), VectorOr(b, any), VectorOr(c, any);
      assert FoldsAgree(Carried(a.vector.Some?, qa), x, Carried(b.vector.Some?, qb), y, Carried(c.vector.Some?, qc), z);
    }
  }

  function VectorOr(h: Holding, any: seq<real>): seq<real> {
    if h.vector.Some? then h.vector.value else any
  }

  /** Folding to the left and to the right gives the same sample counts, the same metrics present, and the same
      vector for every metric whose carriers meet FoldCondition, in particular for every metric that all three,
      one or none of the artifacts hold. */
  lemma FoldingThreeArtifacts(a: CalibrationArtifact, b: CalibrationArtifact, c: CalibrationArtifact,
                              l: CalibrationArtifact, r: CalibrationArtifact, language: string, metric: string)
    requires Usable(a) && Usable(b) && Usable(c) && TwoFolds(a, b, c, l, r)
    requires Held(a, language, metric).weight + Held(b, language, metric).weight
      + Held(c, language, metric).weight <= U64_MAX
    ensures Held(l, language, metric).weight == Held(r, language, metric).weight
    ensures Held(l, language, metric).vector.Some? == Held(r, language, metric).vector.Some?
    ensures FoldsEitherWay(Held(a, language, metric), Held(b, language, metric), Held(c, language, metric))
            ==> Held(l, language, metric) == Held(r, language, metric)
  {
    FoldedHoldings(a, b, c, l, r, language, metric);
    UsableVector(a, language, metric);
    UsableVector(b, language, metric);
    UsableVector(c, language, metric);
    HoldingsFold(Held(a, language, metric), Held(b, language, metric), Held(c, language, metric));
  }
}
