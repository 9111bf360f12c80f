/** Three built artifacts whose two foldings differ: the metric that one of them lacks comes out with different
    breakpoints depending on which two are merged first. */
module FoldingExample {
  import opened Artifact
  import opened Blend
  import opened BuildLaws
  import opened Fractions
  import opened Merge
  import opened MergeLaws
  import opened Named
  import opened Ordering
  import opened Pools

  const SAMPLE: nat := MIN_LANG_SAMPLE

  /** One metric of one language, the same value observed for every function of a sample just large enough to be
      trusted. */
  function Constant(language: string, metric: string, value: real): map<string, PoolMap> {
    map[language := map[metric := seq(SAMPLE, _ => value)]]
  }

  lemma HeldConstant(art: CalibrationArtifact, language: string, metric: string, value: real, m: string)
    requires IsBuilt(art, "", "", Constant(language, metric, value))
    ensures Usable(art) && Held(art, language, m).weight == SAMPLE
    ensures if m != metric then Held(art, language, m).vector == None
            else var q := Held(art, language, m).vector; q.Some? && |q.value| == QUANTILE_POINTS && q.value[0] == value
  {
    var perLang, values := Constant(language, metric, value), seq(SAMPLE, _ => value);
    var metrics := map[metric := values];
    assert language in perLang && perLang[language] == metrics && metric in metrics;
    BuiltIsWellFormedIff(art, "", "", perLang);
    BuiltIsDistinct(art, "", "", perLang);
    BuiltTableOf(art, "", "", perLang, language);
    var t := Table(art, language).value;
    assert exists k :: k in metrics && |metrics[k]| == t.sampleFunctions;
    if m == metric {
      BuiltVectorOf(t, language, metrics, metric);
      BuiltVectorSpansValues(values);
    } else {
      NotBuilt(t, language, metrics, m);
    }
  }

  lemma NotBuilt(t: LanguageTable, language: string, metrics: PoolMap, m: string)
    requires IsBuiltTable(t, language, metrics) && m !in metrics
    ensures Vector(Some(t), m) == None
  {
    SingleStratumVector(t, m);
    IndexComesFrom(t.strata[0].metrics, MetricName);
  }

  /** Merging three artifacts both ways. */
  method FoldBothWays(a: CalibrationArtifact, b: CalibrationArtifact, c: CalibrationArtifact)
    returns (l: CalibrationArtifact, r: CalibrationArtifact)
    ensures TwoFolds(a, b, c, l, r)
  {
    var ab := MergeArtifacts(a, b);
    l := MergeArtifacts(ab, c);
    var bc := MergeArtifacts(b, c);
    r := MergeArtifacts(a, bc);
  }

  /** Two vectors starting at 0 and at 1, blended with the given weights. */
  lemma FirstBreakpoint(a: seq<real>, b: seq<real>, w: nat, v: nat)
    requires |a| == |b| == QUANTILE_POINTS && a[0] == 0.0 && b[0] == 1.0 && 0 < w + v <= U64_MAX
    ensures BlendQuantiles(a, w, b, v)[0] * (w + v) as real == v as real
  {
    Quotient(v as real, (w + v) as real);
  }

  lemma HoldingsDiffer(a: Holding, b: Holding, c: Holding)
    requires a.weight == b.weight == c.weight == SAMPLE && a.vector.Some? && b.vector.Some? && c.vector == None
    requires |a.vector.value| == |b.vector.value| == QUANTILE_POINTS && a.vector.value[0] == 0.0
      && b.vector.value[0] == 1.0
    ensures HalfAgainstTwoThirds(BlendHoldings(BlendHoldings(a, b), c), BlendHoldings(a, BlendHoldings(b, c)))
  {
    FirstBreakpoint(a.vector.value, b.vector.value, SAMPLE, SAMPLE);
    FirstBreakpoint(a.vector.value, b.vector.value, SAMPLE, SAMPLE + SAMPLE);
  }

  ghost predicate HalfAgainstTwoThirds(l: Holding, r: Holding) {
    && l.vector.Some? && r.vector.Some? && |l.vector.value| == |r.vector.value| == QUANTILE_POINTS
    && l.vector.value[0] * 2.0 == 1.0 && r.vector.value[0] * 3.0 == 2.0
  }

  /** Folding built artifacts: the first breakpoint of the shared metric is a half one way and two thirds the other. */
  lemma FoldsDiffer(a: CalibrationArtifact, b: CalibrationArtifact, c: CalibrationArtifact, l: CalibrationArtifact,
                    r: CalibrationArtifact, language: string, metric: string, other: string)
    requires metric != other && TwoFolds(a, b, c, l, r)
    requires IsBuilt(a, "", "", Constant(language, metric, 0.0))
    requires IsBuilt(b, "", "", Constant(language, metric, 1.0))
    requires IsBuilt(c, "", "", Constant(language, other, 0.0))
    ensures HalfAgainstTwoThirds(Held(l, language, metric), Held(r, language, metric)) && l != r
  {
    HeldConstant(a, language, metric, 0.0, metric);
    HeldConstant(b, language, metric, 1.0, metric);
    HeldConstant(c, language, other, 0.0, metric);
    FoldedHoldings(a, b, c, l, r, language, metric);
    HoldingsDiffer(Held(a, language, metric), Held(b, language, metric), Held(c, language, metric));
  }

  /** Such artifacts, built, merged both ways. */
  method FoldingDiffers(language: string, metric: string, other: string)
    returns (a: CalibrationArtifact, b: CalibrationArtifact, c: CalibrationArtifact, l: CalibrationArtifact,
      r: CalibrationArtifact)
    requires metric != other
    ensures Usable(a) && Usable(b) && Usable(c) && TwoFolds(a, b, c, l, r) && l != r
  {
    a := BuildFromObservations("", "", Constant(language, metric, 0.0));
    b := BuildFromObservations("", "", Constant(language, metric, 1.0));
    c := BuildFromObservations("", "", Constant(language, other, 0.0));
    HeldConstant(a, language, metric, 0.0, metric);
    HeldConstant(b, language, metric, 1.0, metric);
    HeldConstant(c, language, other, 0.0, metric);
    l, r := FoldBothWays(a, b, c);
    FoldsDiffer(a, b, c, l, r, language, metric, other);
  }
}
