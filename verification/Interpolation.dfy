/** Non-decreasing vectors read as piecewise-linear curves, and the rank counts
    that the binary searches of calibration.rs compute. */
module Interpolation {
  import opened Counting

  ghost predicate NonDecreasing(s: seq<real>) {
    forall i, j :: 0 <= i <= j < |s| ==> s[i] <= s[j]
  }

  /** `windows(2)`: no breakpoint is smaller than the one before it. */
  ghost predicate NoAdjacentDrop(s: seq<real>) {
    forall i :: 0 < i < |s| ==> s[i - 1] <= s[i]
  }

  lemma {:induction false} AdjacentChecksSuffice(s: seq<real>)
    ensures NoAdjacentDrop(s) <==> NonDecreasing(s)
  {
    if NonDecreasing(s) {
      forall i | 0 < i < |s| ensures s[i - 1] <= s[i] {}
    }
    if NoAdjacentDrop(s) && s != [] {
      var front := s[..|s| - 1];
      AdjacentChecksSuffice(front);
      forall i, j | 0 <= i <= j < |s| ensures s[i] <= s[j] {
        if i < j == |s| - 1 {
          assert front[i] <= front[j - 1] && s[j - 1] <= s[j];
        } else if j < |s| - 1 {
          assert front[i] <= front[j];
        }
      }
    }
  }

  // ---- rank counts ----

  function Leq(v: real): real -> bool { x => x <= v }

  function Less(v: real): real -> bool { x => x < v }

  /** p holds on the first k elements and on no later one. */
  ghost predicate SplitsAt(s: seq<real>, p: real -> bool, k: nat) {
    && k <= |s|
    && (forall i :: 0 <= i < k ==> p(s[i]))
    && (forall i :: k <= i < |s| ==> !p(s[i]))
  }

  lemma {:induction false} SplitIsCount(s: seq<real>, p: real -> bool, k: nat)
    requires SplitsAt(s, p, k)
    ensures Count(s, p) == k
  {
    if s != [] {
      SplitIsCount(s[1..], p, if k > 0 then k - 1 else 0);
    }
  }

  ghost predicate DownClosed(p: real -> bool) {
    forall x, y :: x <= y && p(y) ==> p(x)
  }

  lemma {:induction false} CountSplits(s: seq<real>, p: real -> bool)
    requires NonDecreasing(s) && DownClosed(p)
    ensures SplitsAt(s, p, Count(s, p))
  {
    if s != [] {
      CountSplits(s[1..], p);
      assert forall i :: 0 < i < |s| ==> s[i] == s[1..][i - 1];
      assert forall i :: 0 <= i < |s| ==> s[0] <= s[i];
    }
  }

  /** `partition_point`: binary search for the boundary of a partitioned vector. */
  method PartitionPoint(s: seq<real>, p: real -> bool) returns (k: nat)
    requires NonDecreasing(s) && DownClosed(p)
    ensures SplitsAt(s, p, k) && k == Count(s, p)
  {
    var lo, hi := 0, |s|;
    while lo < hi
      invariant 0 <= lo <= hi <= |s|
      invariant forall i :: 0 <= i < lo ==> p(s[i])
      invariant forall i :: hi <= i < |s| ==> !p(s[i])
    {
      var mid := (lo + hi) / 2;
      if p(s[mid]) { lo := mid + 1; } else { hi := mid; }
    }
    k := lo;
    SplitIsCount(s, p, k);
  }

  // ---- the curve through a vector ----

  /** The point a share t of the way from lo to hi. */
  function Lerp(lo: real, hi: real, t: real): real {
    lo + (hi - lo) * t
  }

  lemma LerpMonotone(lo: real, hi: real, t: real, u: real)
    requires lo <= hi && t <= u
    ensures Lerp(lo, hi, t) <= Lerp(lo, hi, u)
    ensures lo < hi && t < u ==> Lerp(lo, hi, t) < Lerp(lo, hi, u)
  {
    var d, e := hi - lo, u - t;
    assert d * e >= 0.0 && (d > 0.0 && e > 0.0 ==> d * e > 0.0);
    assert d * u == d * t + d * e;
  }

  lemma LerpBetween(lo: real, hi: real, t: real)
    requires lo <= hi && 0.0 <= t <= 1.0
    ensures lo <= Lerp(lo, hi, t) <= hi
  {
    LerpMonotone(lo, hi, 0.0, t);
    LerpMonotone(lo, hi, t, 1.0);
  }

  /** The height at x of the broken line through the points (i, s[i]). */
  function At(s: seq<real>, x: real): real
    requires s != [] && 0.0 <= x <= (|s| - 1) as real
  {
    var lo := x.Floor;
    if lo as real == x then s[lo] else Lerp(s[lo], s[lo + 1], x - lo as real)
  }

  lemma AtIndex(s: seq<real>, i: nat)
    requires i < |s|
    ensures At(s, i as real) == s[i]
  {
    assert (i as real).Floor == i;
  }

  lemma AtSegment(s: seq<real>, i: nat, x: real)
    requires i + 1 < |s| && i as real <= x <= i as real + 1.0
    ensures At(s, x) == Lerp(s[i], s[i + 1], x - i as real)
  {
    if x == i as real + 1.0 {
      assert x == (i + 1) as real;
      assert x.Floor == i + 1;
    } else {
      assert x.Floor == i;
    }
  }

  /** A segment index holding x. */
  function Segment(n: nat, x: real): (i: nat)
    requires n >= 2 && 0.0 <= x <= (n - 1) as real
    ensures i + 1 < n && i as real <= x <= i as real + 1.0
  {
    if x.Floor == n - 1 then n - 2 else x.Floor
  }

  lemma AtWithinSegment(s: seq<real>, i: nat, x: real)
    requires NonDecreasing(s) && i + 1 < |s| && i as real <= x <= i as real + 1.0
    ensures s[i] <= At(s, x) <= s[i + 1]
  {
    AtSegment(s, i, x);
    LerpBetween(s[i], s[i + 1], x - i as real);
  }

  lemma AtMonotoneOnSegment(s: seq<real>, i: nat, x: real, y: real)
    requires NonDecreasing(s) && i + 1 < |s| && i as real <= x <= y <= i as real + 1.0
    ensures At(s, x) <= At(s, y)
    ensures s[i] < s[i + 1] && x < y ==> At(s, x) < At(s, y)
  {
    AtSegment(s, i, x);
    AtSegment(s, i, y);
    LerpMonotone(s[i], s[i + 1], x - i as real, y - i as real);
  }

  lemma AtMonotone(s: seq<real>, x: real, y: real)
    requires |s| >= 2 && NonDecreasing(s) && 0.0 <= x <= y <= (|s| - 1) as real
    ensures At(s, x) <= At(s, y)
  {
    var i, j := Segment(|s|, x), Segment(|s|, y);
    if i == j {
      AtMonotoneOnSegment(s, i, x, y);
    } else if i < j {
      AtWithinSegment(s, i, x);
      AtWithinSegment(s, j, y);
      assert s[i + 1] <= s[j];
    }
  }

  lemma AtStaysInside(s: seq<real>, x: real)
    requires s != [] && NonDecreasing(s) && 0.0 <= x <= (|s| - 1) as real
    ensures s[0] <= At(s, x) <= s[|s| - 1]
  {
    if |s| >= 2 {
      AtWithinSegment(s, Segment(|s|, x), x);
    }
  }
}
