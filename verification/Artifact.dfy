/** The calibration artifact of calibration.rs: validation, building from observations,
    and attaching pools. */
module Artifact {
  import opened Blend
  import opened Interpolation
  import opened Named
  import opened Ordering
  import opened Pools
  import opened Quantiles

  const CALIBRATION_FORMAT_VERSION: nat := 1
  const MIN_LANG_SAMPLE: nat := 500
  const QUANTILE_POINTS: nat := 1001
  const U32_MAX: nat := 0xFFFF_FFFF

  datatype MetricQuantiles = MetricQuantiles(metric: string, quantiles: seq<real>)
  datatype Stratum = Stratum(slocMin: nat, slocMax: nat, metrics: seq<MetricQuantiles>)
  datatype LanguageTable = LanguageTable(language: string, sampleFunctions: nat, strata: seq<Stratum>)
  datatype CalibrationArtifact = CalibrationArtifact(
    formatVersion: nat, corpusVintage: string, generatedAt: string, reposIncluded: nat, reposAttempted: nat,
    languages: seq<LanguageTable>, repoMetrics: Option<PoolMap>)

  function MetricName(m: MetricQuantiles): string { m.metric }

  function LanguageName(l: LanguageTable): string { l.language }

  /** `single_stratum_metrics`: the metrics of all strata, in order. */
  function AllMetrics(strata: seq<Stratum>): seq<MetricQuantiles> {
    if strata == [] then [] else AllMetrics(strata[..|strata| - 1]) + strata[|strata| - 1].metrics
  }

  // ---- validation ----

  datatype Validation =
    | Valid
    | UnknownFormat(version: nat)
    | NothingInside
    | WrongLength(language: string, metric: string, length: nat)
    | NonMonotonic(language: string, metric: string, before: real, after: real)

  predicate PoolsInert(pools: Option<PoolMap>) {
    pools.None? || pools.value == map[]
  }

  /** A section without a single pool is as inert as an absent one. */
  lemma InertMeansNoPool(pools: Option<PoolMap>)
    ensures PoolsInert(pools) <==> Metrics(pools) == {}
  {}

  ghost predicate GoodVector(q: seq<real>) {
    |q| == QUANTILE_POINTS && NonDecreasing(q)
  }

  ghost predicate GoodStratum(s: Stratum) {
    forall i :: 0 <= i < |s.metrics| ==> GoodVector(s.metrics[i].quantiles)
  }

  ghost predicate GoodTable(t: LanguageTable) {
    forall i :: 0 <= i < |t.strata| ==> GoodStratum(t.strata[i])
  }

  /** An artifact lookups can rely on. */
  ghost predicate WellFormed(art: CalibrationArtifact) {
    && art.formatVersion == CALIBRATION_FORMAT_VERSION
    && !(art.languages == [] && PoolsInert(art.repoMetrics))
    && forall i :: 0 <= i < |art.languages| ==> GoodTable(art.languages[i])
  }

  /** The metric vector at a place in the artifact: language table, stratum, position in the stratum. */
  ghost predicate IsPlace(art: CalibrationArtifact, i: nat, j: nat, k: nat) {
    i < |art.languages| && j < |art.languages[i].strata| && k < |art.languages[i].strata[j].metrics|
  }

  /** The place holds the first bad vector: everything before it, in reading order, is good. */
  ghost predicate FirstBadAt(art: CalibrationArtifact, i: nat, j: nat, k: nat) {
    && IsPlace(art, i, j, k)
    && (forall a :: 0 <= a < i ==> GoodTable(art.languages[a]))
    && (forall b :: 0 <= b < j ==> GoodStratum(art.languages[i].strata[b]))
    && (forall c :: 0 <= c < k ==> GoodVector(art.languages[i].strata[j].metrics[c].quantiles))
    && !GoodVector(art.languages[i].strata[j].metrics[k].quantiles)
  }

  /** The values on either side of the first drop of a vector. */
  ghost predicate FirstDrop(q: seq<real>, before: real, after: real) {
    exists d :: 0 < d < |q| && NonDecreasing(q[..d]) && after < before && q[d - 1] == before && q[d] == after
  }

  /** The complaint about a bad vector: its length first, then its first drop. */
  ghost predicate ComplaintAbout(language: string, m: MetricQuantiles, v: Validation) {
    if |m.quantiles| != QUANTILE_POINTS then v == WrongLength(language, m.metric, |m.quantiles|)
    else
      && v.NonMonotonic? && v.language == language && v.metric == m.metric
      && FirstDrop(m.quantiles, v.before, v.after)
  }

  /** The verdict: an unknown format before anything else, then an artifact with nothing in it, then the first bad
      vector. */
  ghost predicate IsVerdict(art: CalibrationArtifact, v: Validation) {
    if art.formatVersion != CALIBRATION_FORMAT_VERSION then v == UnknownFormat(art.formatVersion)
    else if art.languages == [] && PoolsInert(art.repoMetrics) then v == NothingInside
    else if WellFormed(art) then v == Valid
    else exists i: nat, j: nat, k: nat :: ComplaintAt(art, i, j, k, v)
  }

  ghost predicate ComplaintAt(art: CalibrationArtifact, i: nat, j: nat, k: nat, v: Validation) {
    && FirstBadAt(art, i, j, k)
    && ComplaintAbout(art.languages[i].language, art.languages[i].strata[j].metrics[k], v)
  }

  /** The position of the first drop, if there is one. */
  method CheckVector(q: seq<real>) returns (dropAt: Option<nat>)
    ensures dropAt.None? <==> NonDecreasing(q)
    ensures dropAt.Some? ==> 0 < dropAt.value < |q| && q[dropAt.value] < q[dropAt.value - 1]
    ensures dropAt.Some? ==> NonDecreasing(q[..dropAt.value])
  {
    AdjacentChecksSuffice(q);
    if q == [] {
      return None;
    }
    for i := 1 to |q|
      invariant forall j :: 0 < j < i ==> q[j - 1] <= q[j]
    {
      if q[i] < q[i - 1] {
        AdjacentChecksSuffice(q[..i]);
        return Some(i);
      }
    }
    return None;
  }

  method Validate(art: CalibrationArtifact) returns (v: Validation)
    ensures IsVerdict(art, v)
  {
    if art.formatVersion != CALIBRATION_FORMAT_VERSION {
      return UnknownFormat(art.formatVersion);
    }
    if art.languages == [] && PoolsInert(art.repoMetrics) {
      return NothingInside;
    }
    for i := 0 to |art.languages|
      invariant forall a :: 0 <= a < i ==> GoodTable(art.languages[a])
    {
      var lang := art.languages[i];
      for j := 0 to |lang.strata|
        invariant forall b :: 0 <= b < j ==> GoodStratum(lang.strata[b])
      {
        var metrics := lang.strata[j].metrics;
        for k := 0 to |metrics|
          invariant forall c :: 0 <= c < k ==> GoodVector(metrics[c].quantiles)
        {
          var mq := metrics[k];
          if |mq.quantiles| != QUANTILE_POINTS {
            v := WrongLength(lang.language, mq.metric, |mq.quantiles|);
            BadVectorSpoils(art, i, j, k, v);
            return;
          }
          var drop := CheckVector(mq.quantiles);
          if drop.Some? {
            v := NonMonotonic(lang.language, mq.metric, mq.quantiles[drop.value - 1], mq.quantiles[drop.value]);
            BadVectorSpoils(art, i, j, k, v);
            return;
          }
        }
      }
    }
    return Valid;
  }

  lemma BadVectorSpoils(art: CalibrationArtifact, i: nat, j: nat, k: nat, v: Validation)
    requires ComplaintAt(art, i, j, k, v)
    ensures !WellFormed(art)
    ensures exists a: nat, b: nat, c: nat :: ComplaintAt(art, a, b, c, v)
  {
    assert !GoodStratum(art.languages[i].strata[j]);
    assert !GoodTable(art.languages[i]);
  }

  /** The verdict is Valid exactly on well-formed artifacts. */
  lemma ValidMeansWellFormed(art: CalibrationArtifact, v: Validation)
    requires IsVerdict(art, v)
    ensures v == Valid <==> WellFormed(art)
  {}

  lemma OneFirstDrop(q: seq<real>, d: nat, e: nat)
    requires 0 < d < |q| && 0 < e < |q| && NonDecreasing(q[..d]) && NonDecreasing(q[..e])
    requires q[d] < q[d - 1] && q[e] < q[e - 1]
    ensures d == e
  {
    NoDropWithin(q, d, e);
    NoDropWithin(q, e, d);
  }

  lemma NoDropWithin(q: seq<real>, d: nat, e: nat)
    requires 0 < d < |q| && e <= |q| && NonDecreasing(q[..e])
    ensures d < e ==> q[d - 1] <= q[d]
  {
    if d < e { assert q[..e][d - 1] == q[d - 1] && q[..e][d] == q[d]; }
  }

  lemma OneComplaint(language: string, m: MetricQuantiles, v: Validation, w: Validation)
    requires ComplaintAbout(language, m, v) && ComplaintAbout(language, m, w)
    ensures v == w
  {
    if |m.quantiles| == QUANTILE_POINTS {
      var q := m.quantiles;
      var d :| 0 < d < |q| && NonDecreasing(q[..d]) && v.after < v.before && q[d - 1] == v.before && q[d] == v.after;
      var e :| 0 < e < |q| && NonDecreasing(q[..e]) && w.after < w.before && q[e - 1] == w.before && q[e] == w.after;
      OneFirstDrop(q, d, e);
    }
  }

  lemma OneFirstBad(art: CalibrationArtifact, i: nat, j: nat, k: nat, i': nat, j': nat, k': nat)
    requires FirstBadAt(art, i, j, k) && FirstBadAt(art, i', j', k')
    ensures i == i' && j == j' && k == k'
  {
    assert !GoodStratum(art.languages[i].strata[j]) && !GoodStratum(art.languages[i'].strata[j']);
    assert !GoodTable(art.languages[i]) && !GoodTable(art.languages[i']);
  }

  /** However many things are wrong with an artifact, its verdict is determined. */
  lemma VerdictIsDetermined(art: CalibrationArtifact, v: Validation, w: Validation)
    requires IsVerdict(art, v) && IsVerdict(art, w)
    ensures v == w
  {
    if art.formatVersion == CALIBRATION_FORMAT_VERSION && !(art.languages == [] && PoolsInert(art.repoMetrics))
      && !WellFormed(art)
    {
      var i: nat, j: nat, k: nat :| ComplaintAt(art, i, j, k, v);
      var i': nat, j': nat, k': nat :| ComplaintAt(art, i', j', k', w);
      OneFirstBad(art, i, j, k, i', j', k');
      OneComplaint(art.languages[i].language, art.languages[i].strata[j].metrics[k], v, w);
    }
  }

  // ---- observations ----

  type Observation = (string, string, real)

  /** One more value in the pool of a language and metric. */
  function Observed(perLang: map<string, PoolMap>, language: string, metric: string, value: real): map<string, PoolMap>
  {
    var metrics := if language in perLang then perLang[language] else map[];
    var values := if metric in metrics then metrics[metric] else [];
    perLang[language := metrics[metric := values + [value]]]
  }

  class LangObservations {
    var perLang: map<string, PoolMap>

    constructor ()
      ensures perLang == map[]
    {
      perLang := map[];
    }

    method Observe(language: string, metric: string, value: real)
      modifies this
      ensures perLang == Observed(old(perLang), language, metric, value)
      ensures forall l, m :: PoolOf(perLang, l, m)
                          == PoolOf(old(perLang), l, m) + if l == language && m == metric then [value] else []
    {
      var metrics: PoolMap := map[];
      if language in perLang {
        metrics := perLang[language];
      }
      var values: seq<real> := [];
      if metric in metrics {
        values := metrics[metric];
      }
      perLang := perLang[language := metrics[metric := values + [value]]];
    }
  }

  /** The pools after a run of observations. */
  function Replay(obs: seq<Observation>): map<string, PoolMap> {
    if obs == [] then map[]
    else
      var last := obs[|obs| - 1];
      Observed(Replay(obs[..|obs| - 1]), last.0, last.1, last.2)
  }

  /** The values observed for one language and metric, in order. */
  function ValuesOf(obs: seq<Observation>, language: string, metric: string): seq<real> {
    if obs == [] then []
    else
      var last := obs[|obs| - 1];
      ValuesOf(obs[..|obs| - 1], language, metric) + if last.0 == language && last.1 == metric then [last.2] else []
  }

  function PoolOf(perLang: map<string, PoolMap>, language: string, metric: string): seq<real> {
    if language in perLang && metric in perLang[language] then perLang[language][metric] else []
  }

  /** Observing keeps every value of every pool in order, and creates no pool without a value. */
  lemma {:induction false} ReplayKeepsEveryValue(obs: seq<Observation>, language: string, metric: string)
    ensures PoolOf(Replay(obs), language, metric) == ValuesOf(obs, language, metric)
    ensures language in Replay(obs) && metric in Replay(obs)[language] <==> ValuesOf(obs, language, metric) != []
  {
    if obs != [] {
      ReplayKeepsEveryValue(obs[..|obs| - 1], language, metric);
    }
  }

  // ---- building ----

  /** `sample_functions`: the longest pool of a language. */
  ghost predicate IsLongestPool(metrics: PoolMap, n: nat) {
    && (forall m :: m in metrics ==> |metrics[m]| <= n)
    && (if metrics == map[] then n == 0 else exists m :: m in metrics && |metrics[m]| == n)
  }

  /** One breakpoint vector per metric, in name order, each computed by reduce. */
  ghost predicate AreReduced(ms: seq<MetricQuantiles>, metrics: PoolMap, reduce: seq<real> -> seq<real>) {
    && IsKeyOrder(Names(ms, MetricName), metrics.Keys)
    && forall i :: 0 <= i < |ms| ==>
         ms[i].metric in metrics && ms[i].quantiles == reduce(metrics[ms[i].metric])
  }

  /** Sorting a pool and reducing it to breakpoints. */
  function BuiltVector(values: seq<real>): seq<real> {
    QuantileBreakpoints(SortReals(values), QUANTILE_POINTS)
  }

  /** A table of one stratum whose vectors are computed by reduce. */
  ghost predicate IsTableBy(t: LanguageTable, language: string, metrics: PoolMap, reduce: seq<real> -> seq<real>) {
    && t.language == language && IsLongestPool(metrics, t.sampleFunctions)
    && |t.strata| == 1 && t.strata[0].slocMin == 0 && t.strata[0].slocMax == U64_MAX
    && AreReduced(t.strata[0].metrics, metrics, reduce)
  }

  ghost predicate IsBuiltTable(t: LanguageTable, language: string, metrics: PoolMap) {
    IsTableBy(t, language, metrics, BuiltVector)
  }

  /** What building from pooled observations gives. */
  ghost predicate IsBuilt(art: CalibrationArtifact, vintage: string, generatedAt: string, perLang: map<string, PoolMap>)
  {
    && art.(languages := []) == CalibrationArtifact(CALIBRATION_FORMAT_VERSION, vintage, generatedAt, 0, 0, [], None)
    && IsKeyOrder(Names(art.languages, LanguageName), perLang.Keys)
    && forall i :: 0 <= i < |art.languages| ==>
         art.languages[i].language in perLang
           && IsBuiltTable(art.languages[i], art.languages[i].language, perLang[art.languages[i].language])
  }

  method LongestPool(metrics: PoolMap) returns (n: nat)
    ensures IsLongestPool(metrics, n)
  {
    var keys := SortedKeys(metrics.Keys);
    n := 0;
    for i := 0 to |keys|
      invariant forall j :: 0 <= j < i ==> |metrics[keys[j]]| <= n
      invariant if i == 0 then n == 0 else exists j :: 0 <= j < i && |metrics[keys[j]]| == n
    {
      assert keys[i] in keys;
      if n < |metrics[keys[i]]| || i == 0 {
        n := |metrics[keys[i]]|;
      }
    }
    assert forall m :: m in metrics ==> m in keys;
    if |keys| > 0 {
      var j :| 0 <= j < |keys| && |metrics[keys[j]]| == n;
      assert keys[j] in keys;
    }
  }

  method ReduceAll(metrics: PoolMap, reduce: seq<real> -> seq<real>) returns (ms: seq<MetricQuantiles>)
    ensures AreReduced(ms, metrics, reduce)
  {
    var keys := SortedKeys(metrics.Keys);
    ms := [];
    for i := 0 to |keys|
      invariant |ms| == i
      invariant forall j :: 0 <= j < i ==>
        keys[j] in metrics && ms[j] == MetricQuantiles(keys[j], reduce(metrics[keys[j]]))
    {
      assert keys[i] in keys;
      ms := ms + [MetricQuantiles(keys[i], reduce(metrics[keys[i]]))];
    }
    assert Names(ms, MetricName) == keys;
  }

  method BuildTable(language: string, metrics: PoolMap) returns (t: LanguageTable)
    ensures IsBuiltTable(t, language, metrics)
  {
    var sampleFunctions := LongestPool(metrics);
    var ms := ReduceAll(metrics, BuiltVector);
    t := LanguageTable(language, sampleFunctions, [Stratum(0, U64_MAX, ms)]);
  }

  method BuildFromObservations(vintage: string, generatedAt: string, perLang: map<string, PoolMap>)
    returns (art: CalibrationArtifact)
    ensures IsBuilt(art, vintage, generatedAt, perLang)
  {
    var keys := SortedKeys(perLang.Keys);
    var languages: seq<LanguageTable> := [];
    for i := 0 to |keys|
      invariant |languages| == i
      invariant forall j :: 0 <= j < i ==> keys[j] in perLang && IsBuiltTable(languages[j], keys[j], perLang[keys[j]])
    {
      assert keys[i] in keys;
      var t := BuildTable(keys[i], perLang[keys[i]]);
      languages := languages + [t];
    }
    assert Names(languages, LanguageName) == keys;
    art := CalibrationArtifact(CALIBRATION_FORMAT_VERSION, vintage, generatedAt, 0, 0, languages, None);
  }

  lemma BuiltVectorsAreGood()
    ensures forall values :: GoodVector(BuiltVector(values))
  {
    forall values: seq<real> ensures GoodVector(BuiltVector(values)) {
      if values != [] {
        BreakpointsFormScale(SortReals(values), QUANTILE_POINTS);
      }
    }
  }

  lemma ReducedAreGood(ms: seq<MetricQuantiles>, metrics: PoolMap, reduce: seq<real> -> seq<real>)
    requires AreReduced(ms, metrics, reduce) && forall values :: GoodVector(reduce(values))
    ensures forall i :: 0 <= i < |ms| ==> GoodVector(ms[i].quantiles)
  {}

  /** A built artifact passes validation exactly when something was observed. */
  lemma BuiltIsWellFormedIff(art: CalibrationArtifact, vintage: string, generatedAt: string,
                             perLang: map<string, PoolMap>)
    requires IsBuilt(art, vintage, generatedAt, perLang)
    ensures WellFormed(art) <==> perLang != map[]
  {
    BuiltVectorsAreGood();
    forall i | 0 <= i < |art.languages| ensures GoodTable(art.languages[i]) {
      var t := art.languages[i];
      ReducedAreGood(t.strata[0].metrics, perLang[t.language], BuiltVector);
    }
    SomeLanguageIff(art.languages, perLang.Keys);
  }

  lemma SomeLanguageIff(languages: seq<LanguageTable>, keys: set<string>)
    requires IsKeyOrder(Names(languages, LanguageName), keys)
    ensures languages == [] <==> keys == {}
  {
    var names := Names(languages, LanguageName);
    if languages != [] { assert names[0] in names; }
  }

  // ---- pools attached to an artifact ----

  /** r is the artifact with the given pools attached: every pool sorted with its values kept, nothing else changed,
      and no pools at all exactly when none were given. */
  ghost predicate IsAttached(artifact: CalibrationArtifact, pools: PoolMap, r: CalibrationArtifact) {
    && r.(repoMetrics := None) == artifact.(repoMetrics := None)
    && (r.repoMetrics.None? <==> pools == map[]) && (PoolsInert(r.repoMetrics) <==> pools == map[])
    && PoolsSorted(r.repoMetrics) && Metrics(r.repoMetrics) == pools.Keys
    && forall m :: multiset(Pool(r.repoMetrics, m)) == multiset(Pool(Some(pools), m))
  }

  /** The pools of the given metrics have been sorted, and no value was lost. */
  ghost predicate SortedSoFar(pools: PoolMap, values: PoolMap, done: seq<string>) {
    && values.Keys == pools.Keys
    && (forall m :: m in pools ==> multiset(values[m]) == multiset(pools[m]))
    && (forall m :: m in pools && m in done ==> NonDecreasing(values[m]))
  }

  method AttachRepoMetrics(artifact: CalibrationArtifact, pools: PoolMap) returns (r: CalibrationArtifact)
    ensures IsAttached(artifact, pools, r)
  {
    if pools == map[] {
      return artifact.(repoMetrics := None);
    }
    var values := pools;
    var metrics := SortedKeys(pools.Keys);
    for i := 0 to |metrics|
      invariant SortedSoFar(pools, values, metrics[..i])
    {
      var metric := metrics[i];
      assert metric in metrics;
      values := values[metric := SortReals(values[metric])];
    }
    assert metrics[..|metrics|] == metrics;
    AllSortedIsAttached(artifact, pools, values, metrics);
    r := artifact.(repoMetrics := Some(values));
  }

  lemma AllSortedIsAttached(artifact: CalibrationArtifact, pools: PoolMap, values: PoolMap, metrics: seq<string>)
    requires pools != map[] && SortedSoFar(pools, values, metrics) && forall m :: m in pools ==> m in metrics
    ensures IsAttached(artifact, pools, artifact.(repoMetrics := Some(values)))
  {
    var some :| some in pools;
    assert some in values;
  }

  /** Attaching is determined by the values of each pool: their order makes no difference. */
  lemma AttachedPoolsAreDetermined(artifact: CalibrationArtifact, pools: PoolMap, pools': PoolMap,
                                   r: CalibrationArtifact, r': CalibrationArtifact)
    requires pools.Keys == pools'.Keys && forall m :: m in pools ==> multiset(pools[m]) == multiset(pools'[m])
    requires IsAttached(artifact, pools, r) && IsAttached(artifact, pools', r')
    ensures r == r'
  {
    forall m ensures multiset(Pool(r.repoMetrics, m)) == multiset(Pool(r'.repoMetrics, m)) {
      if m in pools { assert multiset(pools[m]) == multiset(pools'[m]); }
    }
    assert pools == map[] <==> pools.Keys == {};
    assert pools' == map[] <==> pools'.Keys == {};
    SamePools(r.repoMetrics, r'.repoMetrics);
    assert r == r.(repoMetrics := None).(repoMetrics := r.repoMetrics);
  }
}
