/** Merging two calibration artifacts (calibration.rs), and what lookups see afterwards. */
module Merge {
  import opened Artifact
  import opened Blend
  import opened Named
  import opened Ordering
  import opened Pools

  // ---- lookups ----

  /** `metric_breakpoints`: the vector a lookup for this language and metric reads, if it may be trusted. */
  function MetricBreakpoints(art: CalibrationArtifact, language: string, metric: string): Option<seq<real>> {
    var lang := FindBy(art.languages, LanguageName, language);
    if lang.None? || lang.value.sampleFunctions < MIN_LANG_SAMPLE then None
    else
      var m := FindBy(AllMetrics(lang.value.strata), MetricName, metric);
      if m.None? then None else Some(m.value.quantiles)
  }

  // ---- what an artifact holds, name by name ----

  ghost predicate DistinctTable(t: LanguageTable) {
    DistinctNames(AllMetrics(t.strata), MetricName)
  }

  /** No language twice, and in no language a metric twice. */
  ghost predicate DistinctArtifact(art: CalibrationArtifact) {
    && DistinctNames(art.languages, LanguageName)
    && forall i :: 0 <= i < |art.languages| ==> DistinctTable(art.languages[i])
  }

  function Table(art: CalibrationArtifact, language: string): Option<LanguageTable> {
    Opt(IndexBy(art.languages, LanguageName), language)
  }

  /** Pooled function count; an absent language weighs nothing. */
  function Weight(t: Option<LanguageTable>): nat {
    if t.Some? then t.value.sampleFunctions else 0
  }

  function VectorIn(ms: seq<MetricQuantiles>, metric: string): Option<seq<real>> {
    var m := Opt(IndexBy(ms, MetricName), metric);
    if m.None? then None else Some(m.value.quantiles)
  }

  function Vector(t: Option<LanguageTable>, metric: string): Option<seq<real>> {
    if t.None? then None else VectorIn(AllMetrics(t.value.strata), metric)
  }

  // ---- merging ----

  /** r is the base metric reweighted with its partner. */
  function MetricBlender(wb: nat, wa: nat): (MetricQuantiles, MetricQuantiles, MetricQuantiles) -> bool {
    (b: MetricQuantiles, a: MetricQuantiles, r: MetricQuantiles) =>
      r == MetricQuantiles(b.metric, BlendQuantiles(b.quantiles, wb, a.quantiles, wa))
  }

  ghost predicate IsBlendedLanguage(base: LanguageTable, add: LanguageTable, r: LanguageTable) {
    var wb, wa := base.sampleFunctions, add.sampleFunctions;
    && r.language == base.language && r.sampleFunctions == SaturatingAdd(wb, wa, U64_MAX)
    && |r.strata| == 1 && r.strata[0].slocMin == 0 && r.strata[0].slocMax == U64_MAX
    && MergedByName(AllMetrics(base.strata), AllMetrics(add.strata), MetricName, MetricBlender(wb, wa),
      r.strata[0].metrics)
  }

  ghost predicate IsMerge(base: CalibrationArtifact, additional: CalibrationArtifact, r: CalibrationArtifact) {
    && r.formatVersion == CALIBRATION_FORMAT_VERSION
    && r.corpusVintage == base.corpusVintage && r.generatedAt == base.generatedAt
    && r.reposIncluded == SaturatingAdd(base.reposIncluded, additional.reposIncluded, U32_MAX)
    && r.reposAttempted == SaturatingAdd(base.reposAttempted, additional.reposAttempted, U32_MAX)
    && MergedByName(base.languages, additional.languages, LanguageName, IsBlendedLanguage, r.languages)
    && r.repoMetrics == MergedPools(base.repoMetrics, additional.repoMetrics)
  }

  method BlendLanguage(base: LanguageTable, add: LanguageTable) returns (t: LanguageTable)
    ensures IsBlendedLanguage(base, add, t)
  {
    var wb, wa := base.sampleFunctions, add.sampleFunctions;
    var baseMetrics, addMetrics := AllMetrics(base.strata), AllMetrics(add.strata);
    var addByMetric := IndexBy(addMetrics, MetricName);
    ghost var partners, mix := addByMetric, MetricBlender(wb, wa);
    var blended: seq<MetricQuantiles> := [];
    for i := 0 to |baseMetrics|
      invariant Walk(baseMetrics, i, partners, MetricName, mix, blended, addByMetric)
    {
      var m := baseMetrics[i];
      ghost var before, rest := blended, addByMetric;
      if m.metric in addByMetric {
        var q := BlendQuantiles(m.quantiles, wb, addByMetric[m.metric].quantiles, wa);
        blended := blended + [MetricQuantiles(m.metric, q)];
        addByMetric := addByMetric - {m.metric};
      } else {
        blended := blended + [m];
      }
      WalkStep(baseMetrics, i, partners, MetricName, mix, before, rest, blended[i]);
    }
    var keys, values := IntoValues(addByMetric);
    AppendUntaken(baseMetrics, addMetrics, MetricName, mix, blended, addByMetric, keys, values);
    t := LanguageTable(base.language, SaturatingAdd(wb, wa, U64_MAX), [Stratum(0, U64_MAX, blended + values)]);
  }

  method MergeArtifacts(base: CalibrationArtifact, additional: CalibrationArtifact) returns (r: CalibrationArtifact)
    ensures IsMerge(base, additional, r)
  {
    var addByLang := IndexBy(additional.languages, LanguageName);
    ghost var partners := addByLang;
    var merged: seq<LanguageTable> := [];
    for i := 0 to |base.languages|
      invariant Walk(base.languages, i, partners, LanguageName, IsBlendedLanguage, merged, addByLang)
    {
      var lang := base.languages[i];
      ghost var before, rest := merged, addByLang;
      if lang.language in addByLang {
        var t := BlendLanguage(lang, addByLang[lang.language]);
        merged := merged + [t];
        addByLang := addByLang - {lang.language};
      } else {
        merged := merged + [lang];
      }
      WalkStep(base.languages, i, partners, LanguageName, IsBlendedLanguage, before, rest, merged[i]);
    }
    var keys, values := IntoValues(addByLang);
    AppendUntaken(base.languages, additional.languages, LanguageName, IsBlendedLanguage, merged, addByLang, keys,
      values);
    var pools := MergeRepoMetrics(base.repoMetrics, additional.repoMetrics);
    r := CalibrationArtifact(
      CALIBRATION_FORMAT_VERSION, base.corpusVintage, base.generatedAt,
      SaturatingAdd(base.reposIncluded, additional.reposIncluded, U32_MAX),
      SaturatingAdd(base.reposAttempted, additional.reposAttempted, U32_MAX),
      merged + values, pools);
  }
}
