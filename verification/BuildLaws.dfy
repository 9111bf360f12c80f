/** What building an artifact from observations promises: which vectors its lookups read, what
    they span, and independence from the order of the observations. */
module BuildLaws {
  import opened Artifact
  import opened Lookup
  import opened Merge
  import opened MergeLaws
  import opened Named
  import opened Ordering
  import opened Pools
  import opened Quantiles

  // ---- looking up in a built artifact ----

  lemma KeyOrderNamesDistinct<T>(xs: seq<T>, name: T -> string, keys: set<string>)
    requires IsKeyOrder(Names(xs, name), keys)
    ensures DistinctNames(xs, name)
  {
    forall i, j | 0 <= i < j < |xs| ensures name(xs[i]) != name(xs[j]) {
      assert Names(xs, name)[i] != Names(xs, name)[j];
    }
  }

  lemma BuiltIsDistinct(art: CalibrationArtifact, vintage: string, generatedAt: string, perLang: map<string, PoolMap>)
    requires IsBuilt(art, vintage, generatedAt, perLang)
    ensures DistinctArtifact(art)
  {
    KeyOrderNamesDistinct(art.languages, LanguageName, perLang.Keys);
    forall i | 0 <= i < |art.languages| ensures DistinctTable(art.languages[i]) {
      var t := art.languages[i];
      SingleStratumVector(t, "");
      KeyOrderNamesDistinct(t.strata[0].metrics, MetricName, perLang[t.language].Keys);
    }
  }

  lemma BuiltTableOf(art: CalibrationArtifact, vintage: string, generatedAt: string, perLang: map<string, PoolMap>,
                     language: string)
    requires IsBuilt(art, vintage, generatedAt, perLang) && language in perLang
    ensures Table(art, language).Some? && IsBuiltTable(Table(art, language).value, language, perLang[language])
  {
    KeyOrderNamesDistinct(art.languages, LanguageName, perLang.Keys);
    IndexHolds(art.languages, LanguageName);
    var names := Names(art.languages, LanguageName);
    assert language in names;
    var i :| 0 <= i < |names| && names[i] == language;
    assert LanguageName(art.languages[i]) == language;
  }

  lemma BuiltVectorOf(t: LanguageTable, language: string, metrics: PoolMap, metric: string)
    requires IsBuiltTable(t, language, metrics) && metric in metrics
    ensures Vector(Some(t), metric) == Some(BuiltVector(metrics[metric]))
  {
    SingleStratumVector(t, metric);
    ReducedVector(t.strata[0].metrics, metrics, BuiltVector, metric);
  }

  lemma ReducedVector(ms: seq<MetricQuantiles>, metrics: PoolMap, reduce: seq<real> -> seq<real>, metric: string)
    requires AreReduced(ms, metrics, reduce) && metric in metrics
    ensures Opt(IndexBy(ms, MetricName), metric) == Some(MetricQuantiles(metric, reduce(metrics[metric])))
  {
    KeyOrderNamesDistinct(ms, MetricName, metrics.Keys);
    IndexHolds(ms, MetricName);
    assert metric in Names(ms, MetricName);
    var j :| 0 <= j < |ms| && Names(ms, MetricName)[j] == metric;
    assert MetricName(ms[j]) == metric;
  }

  lemma ObservedBreakpoints(art: CalibrationArtifact, vintage: string, generatedAt: string, obs: seq<Observation>,
                            language: string, metric: string)
    requires IsBuilt(art, vintage, generatedAt, Replay(obs)) && ValuesOf(obs, language, metric) != []
    ensures Weight(Table(art, language)) >= |ValuesOf(obs, language, metric)|
    ensures MetricBreakpoints(art, language, metric)
         == if Weight(Table(art, language)) < MIN_LANG_SAMPLE then None
           else Some(BuiltVector(ValuesOf(obs, language, metric)))
  {
    ReplayKeepsEveryValue(obs, language, metric);
    var perLang := Replay(obs);
    BuiltIsDistinct(art, vintage, generatedAt, perLang);
    BuiltTableOf(art, vintage, generatedAt, perLang, language);
    BuiltVectorOf(Table(art, language).value, language, perLang[language], metric);
    LookupReadsVector(art, language, metric);
  }

  lemma SmallestFirst(values: seq<real>)
    requires values != []
    ensures SortReals(values)[0] in values
    ensures forall x :: x in values ==> SortReals(values)[0] <= x
  {
    var sample := SortReals(values);
    assert sample[0] in multiset(values);
    forall x | x in values ensures sample[0] <= x {
      assert x in multiset(sample);
    }
  }

  /** A built vector starts at the smallest observed value, ends at the largest and stays between them. */
  lemma BuiltVectorSpansValues(values: seq<real>)
    requires values != []
    ensures GoodVector(BuiltVector(values)) && |BuiltVector(values)| == 1001
    ensures BuiltVector(values)[0] in values && BuiltVector(values)[QUANTILE_POINTS - 1] in values
    ensures forall x :: x in values ==> BuiltVector(values)[0] <= x <= BuiltVector(values)[QUANTILE_POINTS - 1]
    ensures forall i :: 0 <= i < QUANTILE_POINTS ==>
      BuiltVector(values)[0] <= BuiltVector(values)[i] <= BuiltVector(values)[QUANTILE_POINTS - 1]
  {
    BreakpointsFormScale(SortReals(values), QUANTILE_POINTS);
    SmallestFirst(values);
    LargestLast(values);
  }

  /** Observing nothing but one value builds a vector against which that value, the largest observed, reads 0. */
  lemma ConstantValuesReadZero(values: seq<real>, v: real)
    requires values != [] && forall x :: x in values ==> x == v
    ensures IsScale(BuiltVector(values)) && BuiltVector(values)[QUANTILE_POINTS - 1] == v
    ensures Percentile(BuiltVector(values), v) == CorpusPercentile(0.0, false)
  {
    BuiltVectorSpansValues(values);
    PercentileEnds(BuiltVector(values), v);
  }

  lemma LargestLast(values: seq<real>)
    requires values != []
    ensures SortReals(values)[|values| - 1] in values
    ensures forall x :: x in values ==> x <= SortReals(values)[|values| - 1]
  {
    var sample := SortReals(values);
    assert sample[|values| - 1] in multiset(values);
    forall x | x in values ensures x <= sample[|values| - 1] {
      assert x in multiset(sample);
    }
  }

  // ---- independence of order ----

  /** The same languages and metrics, with the same values up to order. */
  ghost predicate SamePoolContents(a: map<string, PoolMap>, b: map<string, PoolMap>) {
    && a.Keys == b.Keys
    && (forall l :: l in a ==> a[l].Keys == b[l].Keys)
    && (forall l, m :: l in a && m in a[l] ==> multiset(a[l][m]) == multiset(b[l][m]))
  }

  lemma {:induction false} ValueMultiplicity(obs: seq<Observation>, language: string, metric: string, x: real)
    ensures multiset(ValuesOf(obs, language, metric))[x] == multiset(obs)[(language, metric, x)]
  {
    if obs != [] {
      assert obs == obs[..|obs| - 1] + [obs[|obs| - 1]];
      ValueMultiplicity(obs[..|obs| - 1], language, metric, x);
    }
  }

  lemma SameValues(obs: seq<Observation>, obs': seq<Observation>, language: string, metric: string)
    requires multiset(obs) == multiset(obs')
    ensures multiset(ValuesOf(obs, language, metric)) == multiset(ValuesOf(obs', language, metric))
  {
    forall x ensures multiset(ValuesOf(obs, language, metric))[x] == multiset(ValuesOf(obs', language, metric))[x] {
      ValueMultiplicity(obs, language, metric, x);
      ValueMultiplicity(obs', language, metric, x);
    }
  }

  lemma {:induction false} EveryLanguageHasAMetric(obs: seq<Observation>, language: string)
    requires language in Replay(obs)
    ensures exists m :: m in Replay(obs)[language]
  {
    var front, last := obs[..|obs| - 1], obs[|obs| - 1];
    if last.0 == language {
      assert last.1 in Replay(obs)[language];
    } else {
      EveryLanguageHasAMetric(front, language);
    }
  }

  lemma PoolsIncluded(obs: seq<Observation>, obs': seq<Observation>, language: string, metric: string)
    requires multiset(obs) == multiset(obs') && language in Replay(obs) && metric in Replay(obs)[language]
    ensures language in Replay(obs') && metric in Replay(obs')[language]
    ensures multiset(Replay(obs)[language][metric]) == multiset(Replay(obs')[language][metric])
  {
    ReplayKeepsEveryValue(obs, language, metric);
    ReplayKeepsEveryValue(obs', language, metric);
    SameValues(obs, obs', language, metric);
    assert |multiset(ValuesOf(obs, language, metric))| == |multiset(ValuesOf(obs', language, metric))|;
  }

  lemma ReplayIgnoresOrder(obs: seq<Observation>, obs': seq<Observation>)
    requires multiset(obs) == multiset(obs')
    ensures SamePoolContents(Replay(obs), Replay(obs'))
  {
    forall l ensures l in Replay(obs) <==> l in Replay(obs') {
      if l in Replay(obs) {
        EveryLanguageHasAMetric(obs, l);
        var m :| m in Replay(obs)[l];
        PoolsIncluded(obs, obs', l, m);
      }
      if l in Replay(obs') {
        EveryLanguageHasAMetric(obs', l);
        var m :| m in Replay(obs')[l];
        PoolsIncluded(obs', obs, l, m);
      }
    }
    forall l, m | l in Replay(obs) && m in Replay(obs)[l]
      ensures m in Replay(obs')[l] && multiset(Replay(obs)[l][m]) == multiset(Replay(obs')[l][m])
    {
      PoolsIncluded(obs, obs', l, m);
    }
    forall l, m | l in Replay(obs') && m in Replay(obs')[l] ensures m in Replay(obs)[l] {
      PoolsIncluded(obs', obs, l, m);
    }
  }

  lemma SameMetrics(ms: seq<MetricQuantiles>, ms': seq<MetricQuantiles>, metrics: PoolMap, metrics': PoolMap,
                    reduce: seq<real> -> seq<real>)
    requires AreReduced(ms, metrics, reduce) && AreReduced(ms', metrics', reduce) && metrics.Keys == metrics'.Keys
    requires forall m :: m in metrics ==> reduce(metrics[m]) == reduce(metrics'[m])
    ensures ms == ms'
  {
    KeyOrderIsUnique(Names(ms, MetricName), Names(ms', MetricName), metrics.Keys);
    assert |ms| == |Names(ms, MetricName)| == |ms'|;
    forall i | 0 <= i < |ms| ensures ms[i] == ms'[i] {
      assert Names(ms, MetricName)[i] == Names(ms', MetricName)[i];
    }
  }

  lemma SameLongest(metrics: PoolMap, metrics': PoolMap, n: nat, n': nat)
    requires IsLongestPool(metrics, n) && IsLongestPool(metrics', n') && metrics.Keys == metrics'.Keys
    requires forall m :: m in metrics ==> |metrics[m]| == |metrics'[m]|
    ensures n == n'
  {
    if metrics == map[] {
      assert metrics'.Keys == {};
    } else {
      var m :| m in metrics && |metrics[m]| == n;
      assert m in metrics';
      var m' :| m' in metrics' && |metrics'[m']| == n';
      assert m' in metrics;
    }
  }

  lemma SameBuiltVector(values: seq<real>, values': seq<real>)
    requires multiset(values) == multiset(values')
    ensures |values| == |values'| && BuiltVector(values) == BuiltVector(values')
  {
    assert |multiset(values)| == |multiset(values')|;
    SortedRealsAreUnique(SortReals(values), SortReals(values'));
  }

  lemma SameTables(t: LanguageTable, t': LanguageTable, language: string, metrics: PoolMap, metrics': PoolMap)
    requires IsBuiltTable(t, language, metrics) && IsBuiltTable(t', language, metrics') && metrics.Keys == metrics'.Keys
    requires forall m :: m in metrics ==> multiset(metrics[m]) == multiset(metrics'[m])
    ensures t == t'
  {
    forall m | m in metrics
      ensures |metrics[m]| == |metrics'[m]| && BuiltVector(metrics[m]) == BuiltVector(metrics'[m])
    {
      SameBuiltVector(metrics[m], metrics'[m]);
    }
    SameTablesBy(t, t', language, metrics, metrics', BuiltVector);
  }

  lemma SameTablesBy(t: LanguageTable, t': LanguageTable, language: string, metrics: PoolMap, metrics': PoolMap,
                     reduce: seq<real> -> seq<real>)
    requires IsTableBy(t, language, metrics, reduce) && IsTableBy(t', language, metrics', reduce)
      && metrics.Keys == metrics'.Keys
    requires forall m :: m in metrics ==> |metrics[m]| == |metrics'[m]| && reduce(metrics[m]) == reduce(metrics'[m])
    ensures t == t'
  {
    SameLongest(metrics, metrics', t.sampleFunctions, t'.sampleFunctions);
    SameMetrics(t.strata[0].metrics, t'.strata[0].metrics, metrics, metrics', reduce);
    assert t.strata == [t.strata[0]] && t'.strata == [t'.strata[0]];
  }

  /** The artifact depends on the multiset of observations only: any order of observing builds the same one. */
  lemma BuildIgnoresOrder(obs: seq<Observation>, obs': seq<Observation>, vintage: string, generatedAt: string,
                          art: CalibrationArtifact, art': CalibrationArtifact)
    requires multiset(obs) == multiset(obs')
    requires IsBuilt(art, vintage, generatedAt, Replay(obs)) && IsBuilt(art', vintage, generatedAt, Replay(obs'))
    ensures art == art'
  {
    ReplayIgnoresOrder(obs, obs');
    var perLang, perLang' := Replay(obs), Replay(obs');
    KeyOrderIsUnique(Names(art.languages, LanguageName), Names(art'.languages, LanguageName), perLang.Keys);
    assert |art.languages| == |Names(art.languages, LanguageName)| == |art'.languages|;
    forall i | 0 <= i < |art.languages| ensures art.languages[i] == art'.languages[i] {
      var l := art.languages[i].language;
      assert Names(art.languages, LanguageName)[i] == Names(art'.languages, LanguageName)[i];
      SameTables(art.languages[i], art'.languages[i], l, perLang[l], perLang'[l]);
    }
    assert art.languages == art'.languages;
  }
}
