# Verified models of codelore's algorithmic cores

This project models five self-contained cores of codelore in Dafny and proves what they are for.

* **Did-you-mean** (`suggest.rs`): the two-row edit distance and the two-phase nearest match.
  `EditDistance`, `Nearest`.
* **Corpus calibration** (`calibration.rs`): samples reduced to quantile breakpoints, percentile lookup,
  the conditional tail, blending and merging of artifacts, exact pooling of repo-level metrics.
  `Fractions`, `Counting`, `Interpolation`, `Lookup`, `Quantiles`, `TailAccuracy`, `Blend`, `TailBlend`,
  `MergeAccuracy`, `Pools`, `Named`, `Artifact`, `Merge`, `MergeLaws`, `BuildLaws`, `ObservedAccuracy`,
  `FoldingExample`.
* **Result memo** (`mcp.rs`): the HEAD-scoped memo as a class, and concurrent tool calls over it as a state
  machine in which HEAD may move between any two steps. `ResultMemo`, `MemoProtocol`, `MemoRuns`, `MemoReuse`,
  `MemoNarratives`, `MemoProgress`.
* **Defect calibration** (`calibrate_defects.rs`): the temporal train/validation split and the line-range merger.
  `TrainSplit`, `TrainSplitLaws`, `LineRanges`.
* **Cache eviction** (`cache.rs`): the two oldest-first pruning loops. `CacheEviction`, `CacheEvictionLaws`.

`Ordering` holds the standard-library facilities the code relies on (stable sort, string order, ordered keys);
`Totals` sums over maps.

`dafny verify dfyconfig.toml` checks everything.

## How the code is represented

* `f64` is `real`: rounding, NaN and signed zeros are outside the model, so `total_cmp` is the order of the reals.
* `u64`/`u32` tallies are natural numbers with `saturating_add` written out; results that need the sum not to
  saturate say so, and `BlendBetweenIff` shows what saturation breaks. Line numbers are a 32-bit type, so that
  `end + 1` is checked for overflow.
* Strings are sequences of Unicode scalar values. `str::len` is modelled as the UTF-8 byte length, separately from
  the number of characters, because `nearest` uses both.
* A hash map is iterated in an arbitrary order, a `BTreeMap` in key order; `sort_by_key` is a stable sort.
* Imperative code keeps its loops as methods, tied to a specification function or predicate about which the laws
  are proved. Objects with updated fields (`LangObservations`, the memo, the cache directory) are classes.
* The computation behind a memoized tool is an arbitrary function of the observed HEAD and the key; a file system
  deletion fails for an arbitrary set of paths.

## Where the code and its documentation differ, or a property has limits

* `percentile` is documented to give 1.0 from the largest breakpoint on. The `value <= q[0]` test comes first, so on
  a constant vector the answer is 0.0 there: `TopReadsOneIff` gives the condition, `ConstantValuesReadZero` the input.
* Because of that same test a lookup is not within one breakpoint step of the rank count at the sample minimum when
  the minimum is repeated often enough. `AccurateIff` gives the exact condition, `PlateauExample` an input.
* The trivial share is documented as the corpus fraction at or below the threshold, and the conditional percentile as
  a rank within the rest. Both are approximations read off the breakpoints: `TrivialShareAccurate` bounds the first and
  `TrivialShareExample` shows a sample where the two differ; `TailAccurateIff` bounds the second, with the exact
  condition.
* The documentation of `merge` calls the blend accurate when the two corpora have similar distributions.
  `MergeErrorIff` says how accurate, for every value and all weights: within the difference of the two ranks plus one
  sample and one step for values above the smallest blended breakpoint. At or below it the answer is 0, and the bound
  holds exactly when the exact rank is below it. Two samples that agree completely can break it:
  `SharedMinimumIsInaccurate`.
* Merging moves the conditional percentile more than the plain one. The trivial share of a blend is the smaller of the
  two, however small the corpus it comes from (`BlendTrivialShare`), so conditional percentiles need not lie between
  the two inputs': `TailDoesNotBracketExample`. `BlendBracketsConditioned` says what they lie between, and
  `BlendBracketsTail` that they bracket when the trivial shares agree.
* `nearest` promises the closest candidate "when one is close enough". Only the first closest candidate is measured
  against its own threshold, so an admissible candidate further on can be missed: `AdmissibleCandidateCanBeMissed`,
  and exactly when the promise is kept: `PromiseKeptIff`.
* Folding three artifacts is not associative for a metric that exactly two same-language tables carry, because a
  carried-through metric takes on the weight of a table that lacks it. `FoldsAgreeIff` gives the exact condition,
  `FoldsDiffer` three built artifacts whose two foldings differ, and `FoldingDiffers` carries the merges out.
* The memo is documented to describe only the commit that is currently HEAD. Its scope is the HEAD that the call behind
  the last memoizable lookup observed, which HEAD may have left: `EntriesDescribeHeadIff` gives the exact condition,
  `SupersededEntriesExample` a run that leaves an entry for a superseded commit, and `ScopeMovesBackExample` one in
  which a late lookup moves the scope back to an older HEAD and drops an entry for the current one. Answers are not
  affected: `AnswersForObservedHead`.
* The split is documented to fill training "up to ~60%". It fills to floor(60%) or past it by less than one path's rows
  (`TrainReachesTarget`): `TrainMeetsTargetIff` says exactly when it stops at the target, and `OvershootExample` runs it
  on two links of one path, which both train.
* Global pruning is documented to bring the total below the cap. It stops at the cap, and can end above it:
  `CapIsMetIff` gives the exact condition, `KeptFileExceedsCap` an input.

## Model

| member | source | states |
|---|---|---|
| EditDistance.Levenshtein | crates/codelore-cli/src/suggest.rs:50-62 | The two swapped rows compute the recursive Wagner-Fischer distance, whatever the reused row held before |
| EditDistance.DistIsShortestEditChain | crates/codelore-cli/src/suggest.rs:48-62 | That distance is the length of a shortest chain of single-character insertions, deletions and substitutions |
| EditDistance.ShortestChainExists | crates/codelore-cli/src/suggest.rs:50-62 | A chain of edits of exactly that length exists for all pairs of strings |
| EditDistance.ChainsAreNoShorter | crates/codelore-cli/src/suggest.rs:50-62 | No chain of edits is shorter |
| EditDistance.DistTriangle | crates/codelore-cli/src/suggest.rs:50-62 | Triangle inequality |
| EditDistance.DistSymmetric | crates/codelore-cli/src/suggest.rs:50-62 | Symmetry |
| EditDistance.DistZeroIffEqual | crates/codelore-cli/src/suggest.rs:50-62 | Zero exactly on equal strings |
| EditDistance.DistBounds | crates/codelore-cli/src/suggest.rs:50-62 | Between the difference of the lengths and the longer length |
| Nearest.FindNearest | crates/codelore-cli/src/suggest.rs:14-46 | The answer is the best containment hit (prefix first, then byte length, then position); otherwise the first candidate of least distance if within its own threshold |
| Nearest.Closest | crates/codelore-cli/src/suggest.rs:36-45 | The fuzzy loop finds the first candidate of least distance and applies the length-scaled threshold to it |
| Nearest.NearestIsUnique | crates/codelore-cli/src/suggest.rs:14-46 | Input and candidate list determine the answer |
| Nearest.LowerMeansSameText | crates/codelore-cli/src/suggest.rs:18 | Lower-casing makes two texts equal exactly when they agree position by position up to the case of ASCII letters |
| Nearest.InputCaseIsIgnored | crates/codelore-cli/src/suggest.rs:6-46 | Inputs that differ in ASCII case only get the same answers |
| Nearest.CandidateCaseIsIgnored | crates/codelore-cli/src/suggest.rs:6-46 | Candidate lists that differ in ASCII case only get answers that differ in case only |
| Nearest.ContainmentDecidesIff | crates/codelore-cli/src/suggest.rs:21-32 | Containment answers exactly for an input of at least three bytes that occurs, up to case, in some candidate |
| Nearest.ContainmentAnswer | crates/codelore-cli/src/suggest.rs:22-32 | Its answer contains the input, at the start if any candidate does; among those it has the fewest bytes and is the first |
| Nearest.FewerBytesWin | crates/codelore-cli/src/suggest.rs:30 | A concrete list where the candidate with more characters but fewer bytes wins |
| Nearest.SuggestionIsClose | crates/codelore-cli/src/suggest.rs:36-45 | A suggestion outside containment is one of the closest, at most one edit or a third of the longer text away |
| Nearest.ExactMatchWins | crates/codelore-cli/src/suggest.rs:6-46 | A candidate that is the input up to ASCII case always leads to an answer that is the input up to ASCII case, in either phase |
| Nearest.FuzzyAnswerDependsOnFirstClosest | crates/codelore-cli/src/suggest.rs:36-45 | Outside containment the answer is Some exactly when the first closest candidate meets its own threshold |
| Nearest.PromiseKeptIff | crates/codelore-cli/src/suggest.rs:6-46 | A candidate close enough means a suggestion, exactly when containment answers, no candidate is close enough, or the first closest one is |
| Nearest.MissedCandidateIsLonger | crates/codelore-cli/src/suggest.rs:36-45 | A missed candidate is longer than the input and than the candidate it lost to |
| Nearest.AdmissibleCandidateCanBeMissed | crates/codelore-cli/src/suggest.rs:43-45 | A concrete list where a candidate within its own threshold is not suggested |
| Interpolation.PartitionPoint | crates/codelore-lib/src/calibration.rs:516 | Binary search finds the boundary of a partitioned vector, which is the plain count of matching elements |
| Interpolation.AdjacentChecksSuffice | crates/codelore-lib/src/calibration.rs:252-259 | Comparing neighbours is enough to know the whole vector is non-decreasing |
| Lookup.InterpolatePercentile | crates/codelore-lib/src/calibration.rs:497-534 | The binary-search lookup returns the specified percentile and beyond-corpus flag |
| Lookup.Straddle | crates/codelore-lib/src/calibration.rs:513-528 | The boundary lands strictly inside and its neighbours differ, so the equal-neighbour fallback is unreachable |
| Lookup.LookupInvertsCurve | crates/codelore-lib/src/calibration.rs:488-534 | Above the minimum the lookup is the upper inverse of the breakpoint curve: the curve is at most the value exactly on indices up to its percentile |
| Lookup.PercentileIsIndexShare | crates/codelore-lib/src/calibration.rs:529 | The percentile is that index as a share of the last index, on all branches |
| Lookup.PercentileMonotone | crates/codelore-lib/src/calibration.rs:497-534 | Larger values never get smaller percentiles, nor lose the beyond-corpus flag |
| Lookup.PercentileEnds | crates/codelore-lib/src/calibration.rs:497-512 | In [0,1]; 0 exactly up to the minimum; 1 exactly from the maximum on and above the minimum; beyond-corpus exactly above the maximum |
| Lookup.TopReadsOneIff | crates/codelore-lib/src/calibration.rs:371-384 | Every value from the largest breakpoint on reads 1 exactly when the vector is not constant |
| Lookup.ValueRoundTrip | crates/codelore-lib/src/calibration.rs:497-534 | Value to percentile to value is the identity between the smallest and largest breakpoint |
| Lookup.IndexRoundTrip | crates/codelore-lib/src/calibration.rs:490-495 | Percentile to value to percentile lands on the upper edge of the plateau |
| Lookup.TailIsLookupInTailVector | crates/codelore-lib/src/calibration.rs:426-462 | For a non-trivial value the conditional percentile is the plain percentile over the suffix from the last trivial breakpoint, and the clamp never acts |
| Lookup.TailMonotone | crates/codelore-lib/src/calibration.rs:426-444 | None exactly for all-trivial pools; otherwise monotone and in [0,1] |
| Lookup.TailEnds | crates/codelore-lib/src/calibration.rs:426-444 | Exactly which values read 0 and which read 1 |
| Lookup.TailIsPlainLookupIff | crates/codelore-lib/src/calibration.rs:426-462 | Conditioning is the identity exactly when the trivial share is 0 and no breakpoint is negative |
| Quantiles.BreakpointsFormScale | crates/codelore-lib/src/calibration.rs:695-721 | A non-empty sorted sample gives a non-decreasing vector of the asked length, from its minimum to its maximum and never outside |
| Quantiles.BreakpointIsOnCurve | crates/codelore-lib/src/calibration.rs:706-718 | The floor/ceiling interpolation reads the broken line through the sample |
| Quantiles.AccurateIff | crates/codelore-lib/src/calibration.rs:695-721 | A percentile read from built breakpoints is within one step of the interval between the two sample ranks, except exactly at a minimum whose plateau spans a step or more |
| Quantiles.AccurateInside | crates/codelore-lib/src/calibration.rs:497-534 | The one-step bound for every value strictly inside the sample |
| Quantiles.MinimumPlateauIsInaccurate | crates/codelore-lib/src/calibration.rs:501-506 | A minimum shared by two samples breaks the bound for every sample no longer than the vector |
| Quantiles.PlateauExample | crates/codelore-lib/src/calibration.rs:501-506 | A concrete sample of three values that breaks it |
| TailAccuracy.TrivialShareAccurate | crates/codelore-lib/src/calibration.rs:446-462 | The trivial share read from built breakpoints is within one step of the interval between the two sample ranks of the threshold, and within one sample and one step of the fraction of samples at or below it |
| TailAccuracy.TrivialShareExample | crates/codelore-lib/src/calibration.rs:446-462 | A half trivial sample whose trivial share reads 0 |
| TailAccuracy.TailAccurateIff | crates/codelore-lib/src/calibration.rs:426-444 | The conditional percentile ranks a value among the positive samples, up to one sample and two steps, except exactly at a positive minimum whose plateau spans a step or more |
| Blend.BlendBetween | crates/codelore-lib/src/calibration.rs:862-874 | Each blended breakpoint lies between the two it came from |
| Blend.BlendBetweenIff | crates/codelore-lib/src/calibration.rs:864-874 | For given weights this holds for all vectors exactly when the weights do not saturate |
| Blend.BlendIsScale | crates/codelore-lib/src/calibration.rs:864-874 | Blending keeps vectors non-decreasing, saturation included |
| Blend.BlendOfCurves | crates/codelore-lib/src/calibration.rs:864-874 | The curve of the blend is the blend of the curves, at every point |
| Blend.BlendBracketsPercentile | crates/codelore-lib/src/calibration.rs:864-874 | Against the blend every value ranks between its ranks against the inputs, plateaus, short-circuit and zero weights included |
| TailBlend.BlendTrivialCount | crates/codelore-lib/src/calibration.rs:446-462 | For non-negative vectors and positive weights a blend has as many trivial breakpoints as the vector with fewer |
| TailBlend.BlendBracketsConditioned | crates/codelore-lib/src/calibration.rs:426-444 | Against a blend the conditional percentile lies between the two plain ones, both conditioned on the smaller trivial share |
| TailBlend.BlendBracketsTail | crates/codelore-lib/src/calibration.rs:426-444 | When the trivial shares agree, conditional percentiles against a blend lie between those against the inputs |
| TailBlend.TailDoesNotBracketExample | crates/codelore-lib/src/calibration.rs:426-444 | Full-length vectors where, under all positive weights, the conditional percentile against the blend exceeds both |
| MergeAccuracy.MergeErrorIff | crates/codelore-lib/src/calibration.rs:723-737 | For every value and all non-saturating weights: the blended percentile misses the exact rank in the pooled sample by less than the two samples' ranks differ plus one sample and one step, exactly when the value is above the weighted mean of the two minima or the exact rank is below that bound |
| MergeAccuracy.MergeRanksNoHigher | crates/codelore-lib/src/calibration.rs:864-874 | For every value the blended percentile exceeds the exact pooled rank by less than that bound |
| MergeAccuracy.MergeErrorForAllWeightsIff | crates/codelore-lib/src/calibration.rs:723-737 | Two samples merge within the bound under all weights exactly when both read the value accurately by themselves or the exact rank is below the bound |
| MergeAccuracy.SharedMinimumIsInaccurate | crates/codelore-lib/src/calibration.rs:501-506 | Two equal samples whose common minimum breaks the bound under all weights |
| Blend.SharedMetricFolds | crates/codelore-lib/src/calibration.rs:819-874 | Blending three vectors is associative for all weights, zero included |
| Blend.FoldsAgreeIff | crates/codelore-lib/src/calibration.rs:819-874 | For given weights and carriers of a metric, left and right folding agree on all vectors exactly under a condition on presence and weights |
| Pools.ComputeRawPercentile | crates/codelore-lib/src/calibration.rs:562-577 | Two binary searches give the midpoint-rank percentile, None for an empty pool |
| Pools.RawPercentileMonotone | crates/codelore-lib/src/calibration.rs:562-577 | Monotone and in [0,1] |
| Pools.RawPercentileIsMidpoint | crates/codelore-lib/src/calibration.rs:562-577 | Twice the size times the percentile is the number of positions below the value plus the number at or below it; none exactly for an empty pool |
| Pools.RawPercentileEnds | crates/codelore-lib/src/calibration.rs:540-551 | 0 exactly below every element, 1 exactly above every element |
| Pools.RawPercentileMirrors | crates/codelore-lib/src/calibration.rs:540-551 | Ties read the midpoint: reversing the scale gives the complement |
| Pools.MergeRepoMetrics | crates/codelore-lib/src/calibration.rs:788-815 | The loop over the additional metrics gives the specified merged section |
| Pools.MergeIsExact | crates/codelore-lib/src/calibration.rs:780-815 | Merging sorted sections gives sorted pools that are the multiset union per metric |
| Pools.PoolingCommutes | crates/codelore-lib/src/calibration.rs:788-815 | Pooling is commutative |
| Pools.PoolingAssociates | crates/codelore-lib/src/calibration.rs:788-815 | Pooling is associative |
| Pools.PooledPercentileIsWeighted | crates/codelore-lib/src/calibration.rs:562-577 | Size times percentile of the merged pool is the sum over the two pools, for every value |
| Artifact.Validate | crates/codelore-lib/src/calibration.rs:216-264 | The verdict in reading order: unknown format first, then an artifact with nothing in it, then the first bad vector, its length before its first drop |
| Artifact.VerdictIsDetermined | crates/codelore-lib/src/calibration.rs:216-264 | However many things are wrong with an artifact, it gets one verdict |
| Artifact.ValidMeansWellFormed | crates/codelore-lib/src/calibration.rs:216-264 | The verdict is Valid exactly on well-formed artifacts |
| Artifact.LangObservations.Observe | crates/codelore-lib/src/calibration.rs:618-625 | One value is appended to one pool, everything else unchanged |
| Artifact.ReplayKeepsEveryValue | crates/codelore-lib/src/calibration.rs:606-625 | After any run of observations each pool holds exactly its values in order, and only pools with a value exist |
| Artifact.LongestPool | crates/codelore-lib/src/calibration.rs:629-631 | The sample count of a language is its longest pool |
| Artifact.BuildFromObservations | crates/codelore-lib/src/calibration.rs:644-686 | One table per language and one vector per metric in key order, each reduced from its sorted pool |
| Artifact.BuiltIsWellFormedIff | crates/codelore-lib/src/calibration.rs:644-721 | A built artifact passes validation exactly when something was observed |
| Artifact.AttachRepoMetrics | crates/codelore-lib/src/calibration.rs:579-596 | The loop leaves sorted pools with the values given, attaches nothing exactly when none were given, and changes nothing else |
| Artifact.AttachedPoolsAreDetermined | crates/codelore-lib/src/calibration.rs:579-596 | What is attached depends on the values of each pool only, not on their order |
| BuildLaws.BuiltVectorSpansValues | crates/codelore-lib/src/calibration.rs:695-721 | A built vector is valid, starts at the smallest and ends at the largest observed value |
| BuildLaws.ConstantValuesReadZero | crates/codelore-lib/src/calibration.rs:501-512 | A pool of one repeated value builds a vector against which that value reads 0, although it is the largest breakpoint |
| ObservedAccuracy.ObservedPercentile | crates/codelore-lib/src/calibration.rs:644-721 | From observations to lookup: within 1/1000 of the interval between the two sample ranks, except exactly at a smallest value repeated for a step or more |
| ObservedAccuracy.ObservedTail | crates/codelore-lib/src/calibration.rs:426-462 | From observations to the conditional lookup: a rank among the positive observed values, under the same condition |
| ObservedAccuracy.MergedRankError | crates/codelore-lib/src/calibration.rs:723-778 | Merging two built artifacts and looking up any value: never above the exact rank among all observed values by the merge error (the pools' disagreement plus one sample and one step) or more, and below it by less exactly when the value is above the smallest merged breakpoint or the exact rank is below the error |
| BuildLaws.BuildIgnoresOrder | crates/codelore-lib/src/calibration.rs:633-643 | The artifact depends on the multiset of observations only |
| Merge.MergeArtifacts | crates/codelore-lib/src/calibration.rs:743-778 | Base languages keep their place, blended with their partner; the others follow in name order; counts saturate; pools are merged |
| Merge.BlendLanguage | crates/codelore-lib/src/calibration.rs:819-855 | The same for the metrics of one language |
| Named.MergedFirstMatch | crates/codelore-lib/src/calibration.rs:743-757 | What a first-match lookup finds after a merge, also when names occur twice: the first base record, blended with the last additional one of that name |
| Named.IndexKeepsLast | crates/codelore-lib/src/calibration.rs:744-748 | Collecting by name keeps the last record of each name |
| MergeLaws.MetricsOfFirstStratum | crates/codelore-lib/src/calibration.rs:857-860 | The metrics of a table are those of its strata, one stratum after the other |
| Named.MergedLookup | crates/codelore-lib/src/calibration.rs:743-757 | A merge by name holds the union of the names: blended when both have it, carried when one does |
| MergeLaws.MergedContents | crates/codelore-lib/src/calibration.rs:723-855 | After a merge every language and metric reads as the blend of what the inputs hold, and sample counts add |
| MergeLaws.MergeKeepsWellFormed | crates/codelore-lib/src/calibration.rs:743-778 | Merging two valid artifacts gives a valid artifact, and one with distinct names if theirs are |
| MergeLaws.MergeWithNothing | crates/codelore-lib/src/calibration.rs:743-778 | Merging with an artifact that holds nothing gives the base back, provenance included |
| MergeLaws.MergedBreakpointBetween | crates/codelore-lib/src/calibration.rs:819-874 | Every breakpoint of a shared metric lies between the two originals |
| MergeLaws.LookupReadsVector | crates/codelore-lib/src/calibration.rs:350-364 | A lookup reads the named vector of the named table unless it is below the trust floor |
| MergeLaws.MergedPercentileBetween | crates/codelore-lib/src/calibration.rs:723-778 | Looked up in the merged artifact a value ranks between its ranks in the inputs |
| MergeLaws.FoldingThreeArtifacts | crates/codelore-lib/src/calibration.rs:743-874 | Folding three artifacts left or right gives equal counts and presence, and equal vectors wherever the condition on carriers holds |
| FoldingExample.FoldsDiffer | crates/codelore-lib/src/calibration.rs:743-874 | Three built artifacts, one lacking the metric, fold to vectors starting at a half one way and at two thirds the other |
| ResultMemo.Memo.Get | crates/codelore-cli/src/mcp.rs:313-324 | Another head clears the map and becomes the scope; otherwise a plain lookup |
| ResultMemo.Memo.Put | crates/codelore-cli/src/mcp.rs:330-342 | Dropped outside the scope; a full map is cleared before a new key |
| ResultMemo.Memo.Memoized | crates/codelore-cli/src/mcp.rs:351-370 | Answers exactly what the computation gives for the observed head, errors included, memoizes exactly successes, keeps every entry sound |
| ResultMemo.GetKeepsSound | crates/codelore-cli/src/mcp.rs:309-324 | A hit is the computation for the head asked about; entries stay sound |
| ResultMemo.PutKeepsSound | crates/codelore-cli/src/mcp.rs:326-342 | A late correct put never spoils the memo, whatever the scope has become, and never overfills it |
| ResultMemo.PutKeepsOthers | crates/codelore-cli/src/mcp.rs:326-342 | A put in scope keeps every other entry, unless 512 are stored and the key is new; out of scope it changes nothing |
| ResultMemo.MemoKeyIsInjective | crates/codelore-cli/src/mcp.rs:244-252 | Keys collide only for the same tool and parameters |
| ResultMemo.HandRolledKeyIsInjective | crates/codelore-cli/src/mcp.rs:1599-1602 | Keys built from several separator-free fields collide only when tool and all fields agree |
| MemoProtocol.StepKeepsInv | crates/codelore-cli/src/mcp.rs:313-370 | Every step of every call, and every HEAD move, keeps the protocol invariant |
| MemoRuns.AnswersForObservedHead | crates/codelore-cli/src/mcp.rs:351-370 | In every interleaving a memoizable call that answers has observed HEAD once, and answers exactly the computation for the HEAD it observed, success or error |
| MemoRuns.EntriesDescribeHeadIff | crates/codelore-cli/src/mcp.rs:278-280 | In every run the scope is the HEAD seen by the call behind the last memoizable lookup, read off the steps; what is stored describes the current HEAD exactly when that is still HEAD or nothing was stored since |
| MemoRuns.LookUpTakesScope | crates/codelore-cli/src/mcp.rs:309-324 | A lookup makes the HEAD its call observed the scope, older or newer, and drops every entry for another |
| MemoRuns.StoreCountsIff | crates/codelore-cli/src/mcp.rs:326-342 | A store is dropped when the scope, read off the steps, is not the HEAD its call observed, and sound and kept when it is, also after moving away and back |
| MemoReuse.StoredAnswerIsReused | crates/codelore-cli/src/mcp.rs:351-370 | In every interleaving a stored answer is given to a later call for the same key, at its lookup and without computing, unless the scope moved or the map overflowed in between |
| MemoNarratives.NarrativesAreAnswered | crates/codelore-cli/src/mcp.rs:1465-1475 | In every interleaving a call that bypasses the memo answers exactly what it computed itself, success or error |
| MemoNarratives.OutcomesAreExplained | crates/codelore-cli/src/mcp.rs:351-370 | In every interleaving an answer comes from a hit or a store, and each kind of fault from the step of that kind |
| MemoRuns.SupersededEntriesExample | crates/codelore-cli/src/mcp.rs:278-280 | A run of one call and one HEAD move that leaves an entry for a superseded commit |
| MemoRuns.ScopeMovesBackExample | crates/codelore-cli/src/mcp.rs:313-324 | A run in which a late lookup moves the scope back and drops an entry for the current commit |
| MemoProtocol.EntriesComeFromMemoizableAnswers | crates/codelore-cli/src/mcp.rs:1465-1475 | In every interleaving entries are sound answers of finished memoizable calls at the scope head; errors and narratives never enter; capacity holds |
| MemoProtocol.AtMostFourCallsRun | crates/codelore-cli/src/mcp.rs:427-444 | At most four calls hold a permit in every interleaving, and none is lost on errors or panics |
| MemoProtocol.RunsOnlyExtend | crates/codelore-cli/src/mcp.rs:351-370 | Along a run HEADs are only appended and a call keeps its key, kind and arrival |
| MemoProgress.CallStepsAreBounded | crates/codelore-cli/src/mcp.rs:351-370 | However calls interleave, a run in which n calls arrive has at most 5n steps of calls |
| MemoProgress.RunsEndDone | crates/codelore-cli/src/mcp.rs:427-444 | No call can step exactly when every call has ended, and then all permits are back |
| MemoProgress.SomeCallCanStep | crates/codelore-cli/src/mcp.rs:427-444 | No deadlock: while a call is unfinished some call can step |
| TrainSplit.GroupIncidences | crates/codelore-cli/src/calibrate_defects.rs:402-422 | The loop counts the dated links of each path, keeps its earliest fix date, and counts all dated links |
| Ordering.StrLeIsLexicographic | crates/codelore-cli/src/calibrate_defects.rs:442 | Strings are ordered by their first difference, a prefix first |
| TrainSplitLaws.GroupedByFirstFix | crates/codelore-cli/src/calibrate_defects.rs:402-422 | Each path with a dated link, and no other, is keyed by its first fix date, compared by first difference |
| TrainSplit.OrderPaths | crates/codelore-cli/src/calibrate_defects.rs:438-442 | Each positive path once, ordered by earliest fix date and path |
| TrainSplit.ShareIsSixtyPercent | crates/codelore-cli/src/calibrate_defects.rs:432 | The share is 60 percent rounded down |
| TrainSplit.Fill | crates/codelore-cli/src/calibrate_defects.rs:444-456 | The rows of the shortest prefix of paths that reaches the target train, all others validate |
| TrainSplit.BuildTrainValidationSplit | crates/codelore-cli/src/calibrate_defects.rs:395-463 | The whole split, positives and negatives, whatever order the hash maps iterate in |
| TrainSplitLaws.SidesAreDisjoint | crates/codelore-cli/src/calibrate_defects.rs:361-373 | No path occurs on both sides, as positive or as negative |
| TrainSplitLaws.RowsAreConserved | crates/codelore-cli/src/calibrate_defects.rs:358-393 | One positive row per dated link and one negative row per never-implicated file, over both sides together |
| TrainSplitLaws.TrainReachesTarget | crates/codelore-cli/src/calibrate_defects.rs:444-456 | Training reaches floor(60%) of the dated links, with the percentage written out, and overshoots by less than one path's rows |
| TrainSplitLaws.TrainMeetsTargetIff | crates/codelore-cli/src/calibrate_defects.rs:444-456 | Training takes exactly the target exactly when some prefix of the ordered paths has that many rows |
| TrainSplitLaws.OvershootExample | crates/codelore-cli/src/calibrate_defects.rs:444-456 | The split run on two dated links of one path: the target is one row and both train |
| TrainSplitLaws.ValidationIsNotOlder | crates/codelore-cli/src/calibrate_defects.rs:366-370 | No validation positive precedes a training positive in (first fix date, path) order, compared by first difference |
| TrainSplitLaws.NegativesSplitByPath | crates/codelore-cli/src/calibrate_defects.rs:425-460 | Training negatives precede validation negatives in path order |
| TrainSplitLaws.OlderOfTwoTrains | crates/codelore-cli/src/calibrate_defects.rs:438-456 | Of two dated links on different paths the one fixed first trains and the other validates |
| TrainSplitLaws.OlderPathTrainsExample | crates/codelore-cli/src/calibrate_defects.rs:395-463 | The split run on a path fixed in 2020 and one fixed in 2024 |
| TrainSplitLaws.NegativeShare | crates/codelore-cli/src/calibrate_defects.rs:458-460 | Exactly floor(60%) of the negatives train, with the percentage written out |
| TrainSplitLaws.SplitIgnoresOrder | crates/codelore-cli/src/calibrate_defects.rs:403-460 | Permuting the links changes neither sequence |
| LineRanges.MergeLineRanges | crates/codelore-cli/src/calibrate_defects.rs:534-547 | Ascending ranges at least one line apart that cover exactly the given lines, in 32-bit arithmetic without overflow |
| LineRanges.NormalIsMinimal | crates/codelore-cli/src/calibrate_defects.rs:529-533 | No family of ranges covering exactly the same lines is smaller |
| LineRanges.NormalIsUnique | crates/codelore-cli/src/calibrate_defects.rs:534-547 | The ranges depend only on the set of lines: such a family is unique |
| CacheEviction.SumIsBytes | crates/codelore-lib/src/cache.rs:369 | The summed walk is the total size of the files present |
| CacheEviction.CacheDir.PruneGlobalCache | crates/codelore-lib/src/cache.rs:359-392 | Files are attempted oldest first, each because the bytes still present exceed the cap, until they do not or all were attempted |
| CacheEviction.CacheDir.EvictOldest | crates/codelore-lib/src/cache.rs:378-391 | The loop itself, with the running total always equal to the bytes present |
| CacheEviction.CacheDir.PruneRepoCache | crates/codelore-lib/src/cache.rs:306-344 | The oldest datable files beyond the maximum are attempted |
| CacheEvictionLaws.ProtectedFilesSurvive | crates/codelore-lib/src/cache.rs:350-356 | The kept file and undeletable files stay; survivors are untouched |
| CacheEvictionLaws.OldestGoFirst | crates/codelore-lib/src/cache.rs:373-391 | A file is gone only if every unprotected file modified before it is gone; a time that cannot be read counts as 0 |
| CacheEvictionLaws.EndsWithinCapOrExhausted | crates/codelore-lib/src/cache.rs:378-391 | The loop ends within the cap or with only protected files left |
| CacheEvictionLaws.CapIsMetIff | crates/codelore-lib/src/cache.rs:350-356 | The cap is met exactly when the protected files alone fit under it |
| CacheEvictionLaws.KeptFileExceedsCap | crates/codelore-lib/src/cache.rs:350-356 | A kept file larger than the cap: every run leaves more than the cap |
| CacheEvictionLaws.NoMoreThanNeeded | crates/codelore-lib/src/cache.rs:379-382 | Putting back a deleted file that none of the deleted was modified after would exceed the cap again |
| CacheEvictionLaws.PruneKeepsNewest | crates/codelore-lib/src/cache.rs:338-343 | Repo pruning never deletes a file modified after a deletable one it keeps, and never touches a file without a readable time |
| CacheEvictionLaws.PruneLeavesMaxEntries | crates/codelore-lib/src/cache.rs:334-343 | With successful deletions exactly the maximum number of datable files remains, or all if there were fewer |

## Left out

- Floating-point rounding, NaN and infinities.
- Artifacts with a language or metric named twice: merging is modelled for them and `MergedFirstMatch` says what a lookup finds, but the laws about merged artifacts assume distinct names, which building guarantees.
- Quantiles.AccurateIff: and the bounds built on it say nothing about a sample of one value, because sample ranks divide by the number of samples less one.
- Loading, JSON and TOML parsing, the embedded world artifact and active-artifact resolution: input/output and wiring.
- The artifact is a value: attaching pools returns the changed artifact instead of writing through a reference.
- What a memoized tool computes, and whether the key captures everything it reads: the computation is a function of head and key, as the best-effort comments in the code allow.
- A poisoned memo lock: the two critical sections cannot panic half-way in the model.
- Tools that never touch the memo appear only as non-memoizable calls that hold a permit.
- Deletions by other processes during a prune, the `.wal` companion, the stale temporary-file sweep and the empty-directory sweep: file-system timing.
- The total of file sizes is unbounded, so its 64-bit overflow is not modelled.
- The defect revision of a link and the biomarker intensities themselves: the split reads neither.
- Database analyses, git subprocesses, blame parsing, gates, reports and command-line wiring.
