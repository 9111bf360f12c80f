/** What blending does to the trivial share and the conditional tail percentile (calibration.rs). */
module TailBlend {
  import opened Blend
  import opened Fractions
  import opened Interpolation
  import opened Lookup
  import opened Ordering

  function Smaller(i: nat, j: nat): nat { if i <= j then i else j }

  ghost predicate NonNegative(q: seq<real>) {
    forall i :: 0 <= i < |q| ==> q[i] >= 0.0
  }

  /** Two metric vectors, both weighted: what a merge blends for a metric that counts something. */
  ghost predicate Blendable(base: seq<real>, wb: nat, add: seq<real>, wa: nat) {
    && IsScale(base) && IsScale(add) && |base| == |add| && NonNegative(base) && NonNegative(add)
    && wb > 0 && wa > 0 && wb + wa <= U64_MAX
  }

  lemma TrivialAt(q: seq<real>, i: nat)
    requires IsScale(q) && i < |q|
    ensures q[i] <= TRIVIALITY_THRESHOLD <==> i < TrivialCount(q)
  {
    TrivialPrefix(q);
    assert Leq(TRIVIALITY_THRESHOLD)(q[i]) <==> q[i] <= TRIVIALITY_THRESHOLD;
  }

  /** A blended breakpoint is trivial only where both are. */
  lemma BlendTrivialAt(base: seq<real>, wb: nat, add: seq<real>, wa: nat, i: nat)
    requires Blendable(base, wb, add, wa) && i < |base|
    ensures BlendQuantiles(base, wb, add, wa)[i] >= 0.0
    ensures BlendQuantiles(base, wb, add, wa)[i] <= TRIVIALITY_THRESHOLD
       <==> base[i] <= TRIVIALITY_THRESHOLD && add[i] <= TRIVIALITY_THRESHOLD
  {
    BlendAt(base, wb, add, wa, i);
    MeanAbove(base[i], wb as real, add[i], wa as real, 0.0);
    if base[i] <= 0.0 && add[i] <= 0.0 { MeanBelow(base[i], wb as real, add[i], wa as real, 0.0); }
  }

  /** The blend has as many trivial breakpoints as the vector that has fewer, whatever the weights: a corpus without
      trivial functions takes them all away, however small it is. */
  lemma BlendTrivialCount(base: seq<real>, wb: nat, add: seq<real>, wa: nat)
    requires Blendable(base, wb, add, wa)
    ensures IsScale(BlendQuantiles(base, wb, add, wa))
    ensures TrivialCount(BlendQuantiles(base, wb, add, wa)) == Smaller(TrivialCount(base), TrivialCount(add))
  {
    var q, k := BlendQuantiles(base, wb, add, wa), Smaller(TrivialCount(base), TrivialCount(add));
    BlendIsScale(base, wb, add, wa);
    TrivialPrefix(base);
    forall i | 0 <= i < |q| ensures Leq(TRIVIALITY_THRESHOLD)(q[i]) <==> i < k {
      TrivialAt(base, i);
      TrivialAt(add, i);
      BlendTrivialAt(base, wb, add, wa, i);
    }
    SplitIsCount(q, Leq(TRIVIALITY_THRESHOLD), k);
  }

  lemma BlendTrivialShare(base: seq<real>, wb: nat, add: seq<real>, wa: nat)
    requires Blendable(base, wb, add, wa)
    ensures IsScale(BlendQuantiles(base, wb, add, wa))
    ensures var p0, pb, pa := TrivialShare(BlendQuantiles(base, wb, add, wa)), TrivialShare(base), TrivialShare(add);
      p0 == if pb <= pa then pb else pa
  {
    var q := BlendQuantiles(base, wb, add, wa);
    BlendTrivialCount(base, wb, add, wa);
    TrivialShareRange(base);
    TrivialShareRange(add);
    TrivialShareRange(q);
    QuotientOrder(TailStart(base) as real, TailStart(add) as real, Last(q));
  }

  /** A percentile conditioned on the part above p0. */
  function Conditioned(p: real, p0: real): real
    requires p0 < 1.0
  {
    (p - p0) / (1.0 - p0)
  }

  lemma ConditionedBetween(p: real, b: real, a: real, p0: real)
    requires p0 < 1.0 && (b <= p <= a || a <= p <= b)
    ensures var t, tb, ta := Conditioned(p, p0), Conditioned(b, p0), Conditioned(a, p0);
      tb <= t <= ta || ta <= t <= tb
  {
    var rest := 1.0 - p0;
    QuotientOrder(b - p0, p - p0, rest);
    QuotientOrder(p - p0, b - p0, rest);
    QuotientOrder(a - p0, p - p0, rest);
    QuotientOrder(p - p0, a - p0, rest);
  }

  lemma TailIsConditioned(q: seq<real>, v: real)
    requires IsScale(q) && !AllTrivial(q) && v > TRIVIALITY_THRESHOLD
    ensures TrivialShare(q) < 1.0 && ConditionalTail(q, v) == Some(Conditioned(Percentile(q, v).p, TrivialShare(q)))
  {
    TailIsLookupInTailVector(q, v);
  }

  lemma AllTrivialIff(q: seq<real>)
    requires IsScale(q)
    ensures AllTrivial(q) <==> TrivialShare(q) == 1.0
    ensures TrivialShare(q) <= 1.0
  {
    TrivialShareRange(q);
  }

  /** Against the blend a positive value has a conditional percentile between its two plain percentiles, both
      conditioned on the smaller of the two trivial shares; no answer exactly when both vectors are all trivial. */
  lemma BlendBracketsConditioned(base: seq<real>, wb: nat, add: seq<real>, wa: nat, v: real)
    requires Blendable(base, wb, add, wa) && v > TRIVIALITY_THRESHOLD
    ensures IsScale(BlendQuantiles(base, wb, add, wa))
    ensures var q, p0 := BlendQuantiles(base, wb, add, wa), SmallerShare(base, add);
      if AllTrivial(base) && AllTrivial(add) then ConditionalTail(q, v) == None
      else
        && p0 < 1.0 && ConditionalTail(q, v).Some?
        && var t, tb, ta := ConditionalTail(q, v).value, Conditioned(Percentile(base, v).p, p0),
          Conditioned(Percentile(add, v).p, p0);
           (tb <= t <= ta || ta <= t <= tb)
  {
    var q := BlendQuantiles(base, wb, add, wa);
    BlendTrivialShare(base, wb, add, wa);
    AllTrivialIff(base);
    AllTrivialIff(add);
    AllTrivialIff(q);
    TailMonotone(q, v, v);
    if !AllTrivial(q) {
      TailIsConditioned(q, v);
      BlendBracketsPercentile(base, wb, add, wa, v);
      ConditionedBetween(Percentile(q, v).p, Percentile(base, v).p, Percentile(add, v).p, SmallerShare(base, add));
    }
  }

  function SmallerShare(base: seq<real>, add: seq<real>): real
    requires IsScale(base) && IsScale(add)
  {
    if TrivialShare(base) <= TrivialShare(add) then TrivialShare(base) else TrivialShare(add)
  }

  /** When the trivial shares agree, conditional percentiles bracket for every value, as plain ones always do. */
  lemma BlendBracketsTail(base: seq<real>, wb: nat, add: seq<real>, wa: nat, v: real)
    requires Blendable(base, wb, add, wa) && TrivialShare(base) == TrivialShare(add) && !AllTrivial(base)
    ensures IsScale(BlendQuantiles(base, wb, add, wa))
    ensures ConditionalTail(BlendQuantiles(base, wb, add, wa), v).Some?
    ensures ConditionalTail(base, v).Some? && ConditionalTail(add, v).Some?
    ensures var t, tb, ta :=
      ConditionalTail(BlendQuantiles(base, wb, add, wa), v).value, ConditionalTail(base, v).value,
      ConditionalTail(add, v).value;
      tb <= t <= ta || ta <= t <= tb
  {
    AllTrivialIff(base);
    AllTrivialIff(add);
    if v > TRIVIALITY_THRESHOLD {
      BlendBracketsConditioned(base, wb, add, wa, v);
      TailIsConditioned(base, v);
      TailIsConditioned(add, v);
    } else {
      BlendTrivialShare(base, wb, add, wa);
      AllTrivialIff(BlendQuantiles(base, wb, add, wa));
      TrivialReadsZero(base, v);
      TrivialReadsZero(add, v);
      TrivialReadsZero(BlendQuantiles(base, wb, add, wa), v);
    }
  }

  lemma TrivialReadsZero(q: seq<real>, v: real)
    requires IsScale(q) && !AllTrivial(q) && v <= TRIVIALITY_THRESHOLD
    ensures ConditionalTail(q, v) == Some(0.0)
  {
    TailEnds(q, v);
  }

  // ---- an input where they do not bracket ----

  /** A full-length vector of three levels: low up to index i, then 1 up to index j, then 3. */
  function Levels(low: real, i: nat, j: nat): (q: seq<real>)
    ensures |q| == 1001
  {
    seq(1001, k => if k <= i then low else if k <= j then 1.0 else 3.0)
  }

  lemma LevelsAreScale(low: real, i: nat, j: nat)
    requires 0.0 <= low <= 1.0 && i <= j < 1000
    ensures IsScale(Levels(low, i, j)) && NonNegative(Levels(low, i, j))
  {}

  lemma LevelsAtOne(low: real, i: nat, j: nat)
    requires 0.0 <= low <= 1.0 && i < j < 1000
    ensures IsScale(Levels(low, i, j))
    ensures Percentile(Levels(low, i, j), 1.0).p == if low == 1.0 then 0.0 else j as real / 1000.0
  {
    var q := Levels(low, i, j);
    LevelsAreScale(low, i, j);
    SplitIsCount(q, Leq(1.0), j + 1);
    if low < 1.0 {
      PositionAt(q, 1.0, j + 1);
      QuotientIs(0.0, 1.0 - q[j], 3.0 - q[j]);
    }
  }

  lemma LevelsShare(low: real, i: nat, j: nat)
    requires 0.0 <= low <= 1.0 && i <= j < 1000
    ensures IsScale(Levels(low, i, j))
    ensures TrivialShare(Levels(low, i, j)) == if low == 0.0 then i as real / 1000.0 else 0.0
  {
    var q := Levels(low, i, j);
    LevelsAreScale(low, i, j);
    SplitIsCount(q, Leq(TRIVIALITY_THRESHOLD), if low == 0.0 then i + 1 else 0);
  }

  lemma LevelsTail(low: real, share: real, t: real)
    requires 0.0 <= low <= 1.0 && share == (if low == 0.0 then 0.5 else 0.0)
    requires t * (1.0 - share) == (if low == 1.0 then 0.0 else 0.6) - share
    ensures IsScale(Levels(low, 500, 600)) && ConditionalTail(Levels(low, 500, 600), 1.0) == Some(t)
  {
    LevelsAtOne(low, 500, 600);
    LevelsShare(low, 500, 600);
    AllTrivialIff(Levels(low, 500, 600));
    TailIsConditioned(Levels(low, 500, 600), 1.0);
    QuotientIs(t, Percentile(Levels(low, 500, 600), 1.0).p - share, 1.0 - share);
  }

  lemma LevelsBlend(wb: nat, wa: nat)
    requires wb > 0 && wa > 0 && wb + wa <= U64_MAX
    ensures var low := Mean(1.0, wb as real, 0.0, wa as real);
      0.0 < low < 1.0 && BlendQuantiles(Levels(1.0, 500, 600), wb, Levels(0.0, 500, 600), wa) == Levels(low, 500, 600)
  {
    var base, add := Levels(1.0, 500, 600), Levels(0.0, 500, 600);
    var b, a := wb as real, wa as real;
    Quotient(b, b + a);
    var low := Mean(1.0, b, 0.0, a);
    assert low == b / (b + a);
    forall k | 0 <= k < 1001 ensures BlendQuantiles(base, wb, add, wa)[k] == Levels(low, 500, 600)[k] {
      BlendAt(base, wb, add, wa, k);
      MeanOfEqual(1.0, b, 1.0, a, 1.0);
      MeanOfEqual(3.0, b, 3.0, a, 3.0);
    }
  }

  lemma LevelsBlendTail(q: seq<real>, wb: nat, wa: nat)
    requires wb > 0 && wa > 0 && wb + wa <= U64_MAX
    requires q == BlendQuantiles(Levels(1.0, 500, 600), wb, Levels(0.0, 500, 600), wa)
    ensures IsScale(q) && ConditionalTail(q, 1.0) == Some(0.6)
  {
    LevelsBlend(wb, wa);
    LevelsTail(Mean(1.0, wb as real, 0.0, wa as real), 0.0, 0.6);
  }

  /** A corpus without trivial functions merged into one that is half trivial: the value 1 ranks at the bottom of the
      first, a fifth up the tail of the second, and three fifths up the tail of the blend, under all positive
      weights. */
  lemma TailDoesNotBracketExample(base: seq<real>, add: seq<real>, q: seq<real>, wb: nat, wa: nat)
    requires base == Levels(1.0, 500, 600) && add == Levels(0.0, 500, 600) && q == BlendQuantiles(base, wb, add, wa)
    requires wb > 0 && wa > 0 && wb + wa <= U64_MAX
    ensures Blendable(base, wb, add, wa) && IsScale(q)
    ensures ConditionalTail(base, 1.0) == Some(0.0) && ConditionalTail(add, 1.0) == Some(0.2)
    ensures ConditionalTail(q, 1.0) == Some(0.6)
  {
    LevelsAreScale(1.0, 500, 600);
    LevelsAreScale(0.0, 500, 600);
    LevelsTail(1.0, 0.0, 0.0);
    LevelsTail(0.0, 0.5, 0.2);
    LevelsBlendTail(q, wb, wa);
  }
}
