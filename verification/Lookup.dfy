/** The percentile lookup of calibration.rs and its conditional-tail companion. */
module Lookup {
  import opened Counting
  import opened Fractions
  import opened Interpolation
  import opened Ordering

  datatype CorpusPercentile = CorpusPercentile(p: real, beyondCorpus: bool)

  /** A breakpoint vector long enough to have a scale: at least two points, none dropping. */
  ghost predicate IsScale(q: seq<real>) {
    |q| >= 2 && NonDecreasing(q)
  }

  function Last(q: seq<real>): real
    requires q != []
  {
    (|q| - 1) as real
  }

  lemma LeqIsDownClosed(v: real)
    ensures DownClosed(Leq(v)) && DownClosed(Less(v))
  {}

  /** The breakpoint before the boundary is at most v and the one after it is above v, so two equal
      neighbours never straddle a value. */
  lemma Straddle(q: seq<real>, v: real)
    requires IsScale(q) && q[0] <= v < q[|q| - 1]
    ensures var hi := Count(q, Leq(v)); 1 <= hi < |q| && q[hi - 1] <= v < q[hi]
  {
    LeqIsDownClosed(v);
    CountSplits(q, Leq(v));
    assert Leq(v)(q[0]) && !Leq(v)(q[|q| - 1]);
  }

  /** How far v lies between two neighbouring breakpoints; equal neighbours count as the lower one. */
  function Fraction(blo: real, bhi: real, v: real): real {
    if bhi > blo then (v - blo) / (bhi - blo) else 0.0
  }

  /** The fractional index the interpolation assigns to a value below the largest breakpoint. */
  function Position(q: seq<real>, v: real): (x: real)
    requires IsScale(q) && q[0] <= v < q[|q| - 1]
    ensures 0.0 <= x < Last(q) && (q[0] < v ==> 0.0 < x)
  {
    Straddle(q, v);
    var hi := Count(q, Leq(v));
    var lo := hi - 1;
    FractionInside(q[lo], q[hi], v);
    lo as real + Fraction(q[lo], q[hi], v)
  }

  lemma FractionInside(blo: real, bhi: real, v: real)
    requires blo <= v < bhi
    ensures 0.0 <= Fraction(blo, bhi, v) < 1.0 && (blo < v ==> Fraction(blo, bhi, v) > 0.0)
    ensures Lerp(blo, bhi, Fraction(blo, bhi, v)) == v
  {
    var n, d := v - blo, bhi - blo;
    Quotient(n, d);
    assert d * (n / d) == n;
  }

  function Percentile(q: seq<real>, v: real): CorpusPercentile
    requires IsScale(q)
  {
    if v <= q[0] then CorpusPercentile(0.0, false)
    else if v >= q[|q| - 1] then CorpusPercentile(1.0, v > q[|q| - 1])
    else CorpusPercentile(Position(q, v) / Last(q), false)
  }

  method InterpolatePercentile(q: seq<real>, v: real) returns (r: CorpusPercentile)
    requires IsScale(q)
    ensures r == Percentile(q, v)
  {
    var last := |q| - 1;
    var denom := last as real;
    if v <= q[0] {
      return CorpusPercentile(0.0, false);
    }
    if v >= q[last] {
      return CorpusPercentile(1.0, v > q[last]);
    }
    LeqIsDownClosed(v);
    var hi := PartitionPoint(q, Leq(v));
    Straddle(q, v);
    var lo := hi - 1;
    var blo, bhi := q[lo], q[hi];
    var frac := Fraction(blo, bhi, v);
    r := CorpusPercentile((lo as real + frac) / denom, false);
  }

  /** Going back up the curve from a position gives the value the position was computed for. */
  lemma PositionHitsValue(q: seq<real>, v: real)
    requires IsScale(q) && q[0] <= v < q[|q| - 1]
    ensures At(q, Position(q, v)) == v
  {
    Straddle(q, v);
    var hi := Count(q, Leq(v));
    var lo := hi - 1;
    FractionInside(q[lo], q[hi], v);
    AtSegment(q, lo, Position(q, v));
  }

  /** Past the position of v the curve is above v. */
  lemma CurveRisesPastPosition(q: seq<real>, v: real, x: real)
    requires IsScale(q) && q[0] <= v < q[|q| - 1] && Position(q, v) < x <= Last(q)
    ensures At(q, x) > v
  {
    Straddle(q, v);
    var hi := Count(q, Leq(v));
    FractionInside(q[hi - 1], q[hi], v);
    PositionHitsValue(q, v);
    if x <= hi as real {
      AtMonotoneOnSegment(q, hi - 1, Position(q, v), x);
    } else {
      AtMonotone(q, hi as real, x);
      AtIndex(q, hi);
    }
  }

  /** The percentile of v as an index on the vector's own axis. */
  function Index(q: seq<real>, v: real): (x: real)
    requires IsScale(q)
    ensures 0.0 <= x <= Last(q)
  {
    if v <= q[0] then 0.0 else if v >= q[|q| - 1] then Last(q) else Position(q, v)
  }

  lemma PercentileIsIndexShare(q: seq<real>, v: real)
    requires IsScale(q)
    ensures Percentile(q, v).p == Index(q, v) / Last(q)
  {
    if v <= q[0] {
      QuotientIs(0.0, 0.0, Last(q));
    } else if v >= q[|q| - 1] {
      QuotientIs(1.0, Last(q), Last(q));
    }
  }

  /** The lookup is the upper inverse of the curve: above the minimum, the curve is at or below v exactly on
      the indices up to the percentile of v. */
  lemma LookupInvertsCurve(q: seq<real>, v: real, x: real)
    requires IsScale(q) && v > q[0] && 0.0 <= x <= Last(q)
    ensures At(q, x) <= v <==> x <= Index(q, v)
  {
    UpperIndexInvertsCurve(q, v, x);
  }

  /** The largest index at which the curve is still at or below v: where the lookup would land without the
      `value <= q[0]` test. */
  function UpperIndex(q: seq<real>, v: real): (x: real)
    requires IsScale(q) && q[0] <= v
    ensures 0.0 <= x <= Last(q) && (q[0] < v ==> x == Index(q, v))
  {
    if v >= q[|q| - 1] then Last(q) else Position(q, v)
  }

  lemma UpperIndexInvertsCurve(q: seq<real>, v: real, x: real)
    requires IsScale(q) && v >= q[0] && 0.0 <= x <= Last(q)
    ensures At(q, x) <= v <==> x <= UpperIndex(q, v)
  {
    if v >= q[|q| - 1] {
      AtStaysInside(q, x);
    } else {
      PositionHitsValue(q, v);
      if x <= Position(q, v) {
        AtMonotone(q, x, Position(q, v));
      } else {
        CurveRisesPastPosition(q, v, x);
      }
    }
  }

  lemma IndexMonotone(q: seq<real>, v: real, w: real)
    requires IsScale(q) && v <= w
    ensures Index(q, v) <= Index(q, w)
  {
    if v > q[0] {
      LookupInvertsCurve(q, v, Index(q, v));
      LookupInvertsCurve(q, w, Index(q, v));
    }
  }

  lemma PercentileMonotone(q: seq<real>, v: real, w: real)
    requires IsScale(q) && v <= w
    ensures Percentile(q, v).p <= Percentile(q, w).p
    ensures Percentile(q, v).beyondCorpus ==> Percentile(q, w).beyondCorpus
  {
    IndexMonotone(q, v, w);
    PercentileOrder(q, v, w);
    assert q[0] <= q[|q| - 1];
  }

  /** Comparing percentiles is comparing indices. */
  lemma PercentileOrder(q: seq<real>, v: real, w: real)
    requires IsScale(q)
    ensures Percentile(q, v).p <= Percentile(q, w).p <==> Index(q, v) <= Index(q, w)
  {
    PercentileIsIndexShare(q, v);
    PercentileIsIndexShare(q, w);
    QuotientOrder(Index(q, v), Index(q, w), Last(q));
  }

  lemma PercentileEnds(q: seq<real>, v: real)
    requires IsScale(q)
    ensures 0.0 <= Percentile(q, v).p <= 1.0
    ensures Percentile(q, v).p == 0.0 <==> v <= q[0]
    ensures Percentile(q, v).p == 1.0 <==> v >= q[|q| - 1] && v > q[0]
    ensures Percentile(q, v).beyondCorpus <==> v > q[|q| - 1]
  {
    assert q[0] <= q[|q| - 1];
    if q[0] < v < q[|q| - 1] { Quotient(Position(q, v), Last(q)); }
  }

  /** From the largest breakpoint on every value reads 1 exactly when the vector is not constant: on a constant one the
      largest breakpoint is the smallest too, and reads 0. */
  lemma TopReadsOneIff(q: seq<real>)
    requires IsScale(q)
    ensures (forall v :: v >= q[|q| - 1] ==> Percentile(q, v).p == 1.0) <==> q[0] < q[|q| - 1]
  {
    var top := q[|q| - 1];
    assert q[0] <= top;
    PercentileEnds(q, top);
    forall v | v >= top && q[0] < top ensures Percentile(q, v).p == 1.0 {
      PercentileEnds(q, v);
    }
  }

  /** Value to percentile and back: every value between the smallest and the largest breakpoint is recovered. */
  lemma ValueRoundTrip(q: seq<real>, v: real)
    requires IsScale(q) && q[0] <= v <= q[|q| - 1]
    ensures At(q, Index(q, v)) == v
  {
    if v == q[0] {
      AtIndex(q, 0);
    } else if v == q[|q| - 1] {
      AtIndex(q, |q| - 1);
    } else {
      PositionHitsValue(q, v);
    }
  }

  /** Index to value and back: above the minimum the lookup never lands lower, and lands on the right edge of
      the plateau the index lies on. */
  lemma IndexRoundTrip(q: seq<real>, x: real)
    requires IsScale(q) && 0.0 <= x <= Last(q) && At(q, x) > q[0]
    ensures x <= Index(q, At(q, x))
    ensures forall y :: x <= y <= Last(q) ==> (At(q, y) == At(q, x) <==> y <= Index(q, At(q, x)))
  {
    var v := At(q, x);
    LookupInvertsCurve(q, v, x);
    forall y | x <= y <= Last(q) ensures At(q, y) == v <==> y <= Index(q, v) {
      LookupInvertsCurve(q, v, y);
      AtMonotone(q, x, y);
    }
  }

  // ---- the non-trivial tail ----

  const TRIVIALITY_THRESHOLD: real := 0.0

  function TrivialCount(q: seq<real>): nat { Count(q, Leq(TRIVIALITY_THRESHOLD)) }

  function TrivialShare(q: seq<real>): real
    requires IsScale(q)
  {
    var trivial := TrivialCount(q);
    if trivial == 0 then 0.0 else (trivial - 1) as real / Last(q)
  }

  function Clamp(x: real, lo: real, hi: real): real {
    if x < lo then lo else if x > hi then hi else x
  }

  function ConditionalTail(q: seq<real>, v: real): Option<real>
    requires IsScale(q)
  {
    var p0 := TrivialShare(q);
    var span := 1.0 - p0;
    if span <= 0.0 then None
    else if v <= TRIVIALITY_THRESHOLD then Some(0.0)
    else Some(Clamp((Percentile(q, v).p - p0) / span, 0.0, 1.0))
  }

  /** The suffix of the vector that starts at its last trivial breakpoint. */
  function TailStart(q: seq<real>): (k: nat)
    ensures k <= |q|
  {
    if TrivialCount(q) == 0 then 0 else TrivialCount(q) - 1
  }

  function TailVector(q: seq<real>): seq<real> { q[TailStart(q)..] }

  ghost predicate AllTrivial(q: seq<real>) {
    forall x :: x in q ==> x <= TRIVIALITY_THRESHOLD
  }

  lemma TrivialPrefix(q: seq<real>)
    requires IsScale(q)
    ensures SplitsAt(q, Leq(TRIVIALITY_THRESHOLD), TrivialCount(q))
    ensures AllTrivial(q) <==> TrivialCount(q) == |q|
    ensures AllTrivial(q) <==> q[|q| - 1] <= TRIVIALITY_THRESHOLD
    ensures !AllTrivial(q) ==> TailStart(q) < |q| - 1 && IsScale(TailVector(q))
    ensures TrivialCount(q) > 0 ==> q[TailStart(q)] <= TRIVIALITY_THRESHOLD
    ensures TrivialCount(q) == 0 ==> q[0] > TRIVIALITY_THRESHOLD
  {
    LeqIsDownClosed(TRIVIALITY_THRESHOLD);
    CountSplits(q, Leq(TRIVIALITY_THRESHOLD));
    assert q[|q| - 1] in q;
    var top := q[|q| - 1];
    assert Leq(TRIVIALITY_THRESHOLD)(top) <==> top <= TRIVIALITY_THRESHOLD;
    assert Leq(TRIVIALITY_THRESHOLD)(q[0]) <==> q[0] <= TRIVIALITY_THRESHOLD;
    if TrivialCount(q) > 0 { assert Leq(TRIVIALITY_THRESHOLD)(q[TailStart(q)]); }
  }

  lemma TrivialShareRange(q: seq<real>)
    requires IsScale(q)
    ensures TrivialShare(q) == TailStart(q) as real / Last(q)
    ensures AllTrivial(q) ==> TrivialShare(q) == 1.0
    ensures !AllTrivial(q) ==> 0.0 <= TrivialShare(q) < 1.0
    ensures TrivialShare(q) == 0.0 <==> TailStart(q) == 0
  {
    TrivialPrefix(q);
    Quotient(TailStart(q) as real, Last(q));
  }

  lemma TailRescaling(x: real, k: real, n: real)
    requires 0.0 <= k < n
    ensures 1.0 - k / n > 0.0 && (x / n - k / n) / (1.0 - k / n) == (x - k) / (n - k)
  {
    Quotient(x, n);
    Quotient(k, n);
    var a, b := x / n, k / n;
    var r, s := (a - b) / (1.0 - b), 1.0 - b;
    Quotient(a - b, s);
    Distribute(a, b, n);
    Distribute(1.0, b, n);
    Reorder(r, s, n);
    QuotientIs(r, x - k, n - k);
  }

  /** Inside the tail vector a non-trivial value sits as many indices further left as were cut off. */
  lemma TailIndex(q: seq<real>, v: real)
    requires IsScale(q) && !AllTrivial(q) && v > TRIVIALITY_THRESHOLD
    ensures IsScale(TailVector(q))
    ensures Index(TailVector(q), v) == Index(q, v) - TailStart(q) as real
  {
    TrivialPrefix(q);
    var k, t := TailStart(q), TailVector(q);
    assert t[0] == q[k] && t[|t| - 1] == q[|q| - 1];
    if q[0] < v < q[|q| - 1] {
      SuffixPosition(q, k, v);
    } else if v <= q[0] {
      assert k == 0 && t == q;
    }
  }

  lemma SuffixPosition(q: seq<real>, k: nat, v: real)
    requires IsScale(q) && k < |q| - 1 && q[0] < v < q[|q| - 1] && q[k] < v
    ensures IsScale(q[k..]) && q[k..][0] < v < q[k..][|q| - k - 1]
    ensures Position(q[k..], v) == Position(q, v) - k as real
  {
    TailCount(q, k, v);
    var hi := Count(q, Leq(v));
    PositionAt(q, v, hi);
    PositionAt(q[k..], v, hi - k);
  }

  lemma PositionAt(q: seq<real>, v: real, hi: nat)
    requires IsScale(q) && q[0] <= v < q[|q| - 1] && Count(q, Leq(v)) == hi
    ensures 1 <= hi < |q| && Position(q, v) == (hi - 1) as real + Fraction(q[hi - 1], q[hi], v)
  {
    Straddle(q, v);
  }

  lemma TailCount(q: seq<real>, k: nat, v: real)
    requires IsScale(q) && k < |q| - 1 && q[0] < v < q[|q| - 1] && q[k] < v
    ensures Count(q[k..], Leq(v)) == Count(q, Leq(v)) - k
  {
    LeqIsDownClosed(v);
    CountSplits(q, Leq(v));
    var hi := Count(q, Leq(v));
    assert Leq(v)(q[k]);
    assert SplitsAt(q[k..], Leq(v), hi - k);
    SplitIsCount(q[k..], Leq(v), hi - k);
  }

  /** Conditioning on the tail is looking up in the tail: for a non-trivial value the rescaled percentile is the
      plain percentile over the suffix that starts at the last trivial breakpoint, and the clamp never acts. */
  lemma TailIsLookupInTailVector(q: seq<real>, v: real)
    requires IsScale(q) && !AllTrivial(q) && v > TRIVIALITY_THRESHOLD
    ensures IsScale(TailVector(q)) && 0.0 <= TrivialShare(q) < 1.0
    ensures var raw := (Percentile(q, v).p - TrivialShare(q)) / (1.0 - TrivialShare(q));
            0.0 <= raw <= 1.0 && ConditionalTail(q, v) == Some(raw) && raw == Percentile(TailVector(q), v).p
  {
    TrivialPrefix(q);
    TrivialShareRange(q);
    var t, k := TailVector(q), TailStart(q);
    PercentileEnds(t, v);
    RawTail(q, v);
  }

  lemma RawTail(q: seq<real>, v: real)
    requires IsScale(q) && !AllTrivial(q) && v > TRIVIALITY_THRESHOLD
    requires IsScale(TailVector(q)) && TrivialShare(q) < 1.0
    ensures (Percentile(q, v).p - TrivialShare(q)) / (1.0 - TrivialShare(q)) == Percentile(TailVector(q), v).p
  {
    TrivialPrefix(q);
    TrivialShareRange(q);
    TailIndex(q, v);
    PercentileIsIndexShare(q, v);
    PercentileIsIndexShare(TailVector(q), v);
    TailRescaling(Index(q, v), TailStart(q) as real, Last(q));
  }

  /** The conditional percentile without rescaling: zero up to the threshold, then the lookup in the tail. */
  ghost function TailPercentile(q: seq<real>, v: real): real
    requires IsScale(TailVector(q))
  {
    if v <= TRIVIALITY_THRESHOLD then 0.0 else Percentile(TailVector(q), v).p
  }

  lemma TailCases(q: seq<real>, v: real)
    requires IsScale(q)
    ensures AllTrivial(q) ==> ConditionalTail(q, v) == None
    ensures !AllTrivial(q) ==> IsScale(TailVector(q)) && ConditionalTail(q, v) == Some(TailPercentile(q, v))
  {
    TrivialPrefix(q);
    TrivialShareRange(q);
    if !AllTrivial(q) && v > TRIVIALITY_THRESHOLD { TailIsLookupInTailVector(q, v); }
  }

  lemma TailPercentileMonotone(q: seq<real>, v: real, w: real)
    requires IsScale(TailVector(q)) && v <= w
    ensures 0.0 <= TailPercentile(q, v) <= TailPercentile(q, w) <= 1.0
  {
    var t := TailVector(q);
    PercentileEnds(t, v);
    PercentileEnds(t, w);
    PercentileMonotone(t, v, w);
  }

  lemma TailMonotone(q: seq<real>, v: real, w: real)
    requires IsScale(q) && v <= w
    ensures ConditionalTail(q, v).None? <==> AllTrivial(q)
    ensures ConditionalTail(q, w).None? <==> AllTrivial(q)
    ensures !AllTrivial(q) ==> 0.0 <= ConditionalTail(q, v).value <= ConditionalTail(q, w).value <= 1.0
  {
    TailCases(q, v);
    TailCases(q, w);
    if !AllTrivial(q) { TailPercentileMonotone(q, v, w); }
  }

  lemma TailPercentileEnds(q: seq<real>, v: real)
    requires IsScale(q) && !AllTrivial(q) && IsScale(TailVector(q))
    ensures TailPercentile(q, v) == 1.0 <==> v >= q[|q| - 1] && v > q[0]
    ensures TailPercentile(q, v) == 0.0 <==> v <= TRIVIALITY_THRESHOLD || v <= q[0]
  {
    TrivialPrefix(q);
    var t := TailVector(q);
    assert t[0] == q[TailStart(q)] && t[|t| - 1] == q[|q| - 1];
    assert q[0] <= t[0];
    PercentileEnds(t, v);
  }

  lemma TailEnds(q: seq<real>, v: real)
    requires IsScale(q) && !AllTrivial(q)
    ensures ConditionalTail(q, v) == Some(1.0) <==> v >= q[|q| - 1] && v > q[0]
    ensures ConditionalTail(q, v) == Some(0.0) <==> v <= 0.0 || v <= q[0]
  {
    TailCases(q, v);
    TailPercentileEnds(q, v);
  }

  /** Conditioning changes nothing exactly when the trivial share is zero and no breakpoint is negative. */
  lemma TailIsPlainLookupIff(q: seq<real>)
    requires IsScale(q) && !AllTrivial(q)
    ensures (forall v :: ConditionalTail(q, v) == Some(Percentile(q, v).p))
       <==> (TrivialShare(q) == 0.0 && q[0] >= 0.0)
  {
    TrivialPrefix(q);
    TrivialShareRange(q);
    if TrivialShare(q) == 0.0 && q[0] >= TRIVIALITY_THRESHOLD {
      forall v ensures ConditionalTail(q, v) == Some(Percentile(q, v).p) {
        TailCases(q, v);
        assert TailVector(q) == q;
        PercentileEnds(q, v);
      }
    } else {
      var v := TailDiffersSomewhere(q);
    }
  }

  lemma TailDiffersSomewhere(q: seq<real>) returns (v: real)
    requires IsScale(q) && !AllTrivial(q)
    requires TrivialShare(q) != 0.0 || q[0] < TRIVIALITY_THRESHOLD
    ensures ConditionalTail(q, v) != Some(Percentile(q, v).p)
  {
    TrivialPrefix(q);
    TrivialShareRange(q);
    if q[0] < TRIVIALITY_THRESHOLD {
      v := TRIVIALITY_THRESHOLD;
      PercentileEnds(q, v);
      TailEnds(q, v);
    } else {
      v := q[|q| - 1] / 2.0;
      assert q[0] <= q[TailStart(q)];
      RawTail(q, v);
      TailCases(q, v);
      PercentileEnds(q, v);
      Shrinks(Percentile(q, v).p, TrivialShare(q));
    }
  }

  lemma Shrinks(p: real, p0: real)
    requires p < 1.0 && 0.0 < p0 < 1.0
    ensures (p - p0) / (1.0 - p0) < p
  {
    var rest := 1.0 - p0;
    Quotient(p - p0, rest);
    ShrunkShare((p - p0) / rest, p, p0, rest);
  }

  lemma ShrunkShare(r: real, p: real, p0: real, rest: real)
    requires p < 1.0 && p0 > 0.0 && rest == 1.0 - p0 > 0.0 && r * rest == p - p0
    ensures r < p
  {
    TimesRest(p, p0, rest);
    LessThanWhole(p, p0);
    SmallerFactor(r, p, rest, p - p0, p - p * p0);
  }
}
