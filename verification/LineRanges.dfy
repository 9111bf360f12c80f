/** `merge_line_ranges` of calibrate_defects.rs: a set of line numbers turned into the
    fewest inclusive ranges, in place on the last range. */
module LineRanges {
  import opened Ordering

  newtype u32 = x: int | 0 <= x < 0x1_0000_0000

  datatype Range = Range(start: u32, end: u32)

  predicate LineLe(x: u32, y: u32) { x <= y }

  lemma LineLeIsTotalOrder()
    ensures TotalOrder(LineLe)
  {}

  ghost predicate StrictlyAscending(s: seq<u32>) {
    forall i, j :: 0 <= i < j < |s| ==> s[i] < s[j]
  }

  /** `dedup`: keeps the first of every run of equal elements. */
  function Dedup(s: seq<u32>): seq<u32> {
    if |s| <= 1 then s
    else if s[|s| - 1] == s[|s| - 2] then Dedup(s[..|s| - 1])
    else Dedup(s[..|s| - 1]) + [s[|s| - 1]]
  }

  lemma {:induction false} DedupOfSorted(s: seq<u32>)
    requires SortedBy(s, LineLe)
    ensures StrictlyAscending(Dedup(s))
    ensures forall x :: x in Dedup(s) <==> x in s
    ensures s != [] ==> Dedup(s) != [] && Dedup(s)[|Dedup(s)| - 1] == s[|s| - 1]
  {
    if |s| > 1 {
      var front := s[..|s| - 1];
      DedupOfSorted(front);
      assert s == front + [s[|s| - 1]];
      assert LineLe(s[|s| - 2], s[|s| - 1]);
      forall x ensures x in Dedup(s) <==> x in s {
        assert x in s <==> x in front || x == s[|s| - 1];
      }
    }
  }

  /** Sorted and without duplicates. */
  function SortedLines(lines: seq<u32>): (s: seq<u32>)
    ensures StrictlyAscending(s) && forall x :: x in s <==> x in lines
  {
    LineLeIsTotalOrder();
    SortKeepsElements(lines, LineLe);
    DedupOfSorted(StableSort(lines, LineLe));
    Dedup(StableSort(lines, LineLe))
  }

  ghost predicate Within(x: u32, r: Range) { r.start <= x <= r.end }

  ghost predicate Covered(ranges: seq<Range>, x: u32) {
    exists i :: 0 <= i < |ranges| && Within(x, ranges[i])
  }

  /** Non-empty ranges in ascending order, with at least one line missing between any two. */
  ghost predicate Normal(ranges: seq<Range>) {
    && (forall i :: 0 <= i < |ranges| ==> ranges[i].start <= ranges[i].end)
    && forall i, j :: 0 <= i < j < |ranges| ==> ranges[i].end as int + 1 < ranges[j].start as int
  }

  /** The ranges of the first lines of an ascending list. */
  ghost predicate RangesOf(ranges: seq<Range>, lines: seq<u32>) {
    && Normal(ranges) && (ranges == [] <==> lines == [])
    && (lines != [] ==> ranges[|ranges| - 1].end == lines[|lines| - 1])
    && forall x :: Covered(ranges, x) <==> x in lines
  }

  lemma CoverageOfLast(front: seq<Range>, last: Range, x: u32)
    ensures Covered(front + [last], x) <==> Covered(front, x) || Within(x, last)
  {
    var all := front + [last];
    if Covered(front, x) {
      var i :| 0 <= i < |front| && Within(x, front[i]);
      assert Within(x, all[i]);
    }
    if Within(x, last) { assert Within(x, all[|front|]); }
    if Covered(all, x) {
      var i :| 0 <= i < |all| && Within(x, all[i]);
      assert i < |front| ==> Within(x, front[i]);
    }
  }

  lemma GrowLast(ranges: seq<Range>, lines: seq<u32>, line: u32)
    requires RangesOf(ranges, lines) && lines != [] && ranges[|ranges| - 1].end as int + 1 == line as int
    ensures RangesOf(ranges[|ranges| - 1 := Range(ranges[|ranges| - 1].start, line)], lines + [line])
  {
    var n := |ranges| - 1;
    var front, last := ranges[..n], ranges[n];
    var grown := Range(last.start, line);
    assert ranges == front + [last] && ranges[n := grown] == front + [grown];
    forall x ensures Covered(front + [grown], x) <==> x in lines + [line] {
      CoverageOfLast(front, last, x);
      CoverageOfLast(front, grown, x);
    }
  }

  lemma NewLast(ranges: seq<Range>, lines: seq<u32>, line: u32)
    requires RangesOf(ranges, lines)
    requires lines != [] ==> ranges[|ranges| - 1].end as int + 1 < line as int
    ensures RangesOf(ranges + [Range(line, line)], lines + [line])
  {
    forall x ensures Covered(ranges + [Range(line, line)], x) <==> x in lines + [line] {
      CoverageOfLast(ranges, Range(line, line), x);
    }
    forall i | 0 <= i < |ranges| ensures ranges[i].end as int + 1 < line as int {
      if i < |ranges| - 1 { assert ranges[i].end as int + 1 < ranges[|ranges| - 1].start as int; }
    }
  }

  /** No range ends at the largest line number while a line is still to come. */
  lemma LaterLineIsLarger(ranges: seq<Range>, sorted: seq<u32>, i: nat)
    requires StrictlyAscending(sorted) && i < |sorted| && RangesOf(ranges, sorted[..i])
    ensures ranges != [] ==> ranges[|ranges| - 1].end < sorted[i]
  {
    if i > 0 { assert sorted[..i][i - 1] == sorted[i - 1]; }
  }

  lemma LineStep(ranges: seq<Range>, sorted: seq<u32>, i: nat)
    requires StrictlyAscending(sorted) && i < |sorted| && RangesOf(ranges, sorted[..i])
    ensures var line, last := sorted[i], |ranges| - 1;
      RangesOf(if ranges != [] && line as int == ranges[last].end as int + 1
               then ranges[last := Range(ranges[last].start, line)] else ranges + [Range(line, line)],
               sorted[..i + 1])
  {
    LaterLineIsLarger(ranges, sorted, i);
    assert sorted[..i + 1] == sorted[..i] + [sorted[i]];
    if ranges != [] && sorted[i] as int == ranges[|ranges| - 1].end as int + 1 {
      GrowLast(ranges, sorted[..i], sorted[i]);
    } else {
      NewLast(ranges, sorted[..i], sorted[i]);
    }
  }

  /** `end + 1` is computed in 32 bits; it cannot overflow because a later line is always larger. */
  method MergeLineRanges(lines: seq<u32>) returns (ranges: seq<Range>)
    ensures Normal(ranges)
    ensures forall x :: Covered(ranges, x) <==> x in lines
  {
    var sorted := SortedLines(lines);
    ranges := [];
    for i := 0 to |sorted|
      invariant RangesOf(ranges, sorted[..i])
    {
      var line, last := sorted[i], |ranges| - 1;
      LaterLineIsLarger(ranges, sorted, i);
      LineStep(ranges, sorted, i);
      if ranges != [] && line == ranges[last].end + 1 {
        ranges := ranges[last := Range(ranges[last].start, line)];
      } else {
        ranges := ranges + [Range(line, line)];
      }
    }
    assert sorted[..|sorted|] == sorted;
  }

  // ---- minimality ----

  function Starts(ranges: seq<Range>): set<u32> {
    set i | 0 <= i < |ranges| :: ranges[i].start
  }

  lemma {:induction false} StartsAtMost(ranges: seq<Range>)
    ensures |Starts(ranges)| <= |ranges|
  {
    if ranges != [] {
      var front := ranges[..|ranges| - 1];
      StartsAtMost(front);
      assert Starts(ranges) == Starts(front) + {ranges[|ranges| - 1].start};
    }
  }

  lemma {:induction false} NormalStartsDiffer(ranges: seq<Range>)
    requires Normal(ranges)
    ensures |Starts(ranges)| == |ranges|
  {
    if ranges != [] {
      var front, last := ranges[..|ranges| - 1], ranges[|ranges| - 1];
      NormalStartsDiffer(front);
      assert Starts(ranges) == Starts(front) + {last.start};
      assert last.start !in Starts(front);
    }
  }

  /** The line before a range of a normal family is not covered. */
  lemma GapBefore(ranges: seq<Range>, i: nat, x: u32)
    requires Normal(ranges) && i < |ranges| && x as int == ranges[i].start as int - 1
    ensures !Covered(ranges, x)
  {
    forall j | 0 <= j < |ranges| ensures !Within(x, ranges[j]) {
      if j < i { assert ranges[j].end as int + 1 < ranges[i].start as int; }
      if j > i { assert ranges[i].end as int + 1 < ranges[j].start as int; }
    }
  }

  lemma GapAfter(ranges: seq<Range>, i: nat, x: u32)
    requires Normal(ranges) && i < |ranges| && x as int == ranges[i].end as int + 1
    ensures !Covered(ranges, x)
  {
    forall j | 0 <= j < |ranges| ensures !Within(x, ranges[j]) {
      if j < i { assert ranges[j].end as int + 1 < ranges[i].start as int; }
      if j > i { assert ranges[i].end as int + 1 < ranges[j].start as int; }
    }
  }

  /** Every family of ranges that covers the same lines has a range starting where a normal range starts. */
  lemma StartsAreForced(ranges: seq<Range>, other: seq<Range>, i: nat)
    requires Normal(ranges) && i < |ranges|
    requires forall x :: Covered(ranges, x) <==> Covered(other, x)
    ensures ranges[i].start in Starts(other)
  {
    var start := ranges[i].start;
    assert Within(start, ranges[i]);
    assert Covered(other, start);
    var j :| 0 <= j < |other| && Within(start, other[j]);
    if other[j].start < start {
      var before := start - 1;
      assert Within(before, other[j]);
      GapBefore(ranges, i, before);
    }
    assert other[j].start in Starts(other);
  }

  /** No family of ranges covering exactly the same lines is smaller. */
  lemma NormalIsMinimal(ranges: seq<Range>, other: seq<Range>)
    requires Normal(ranges) && forall x :: Covered(ranges, x) <==> Covered(other, x)
    ensures |ranges| <= |other|
  {
    forall x | x in Starts(ranges) ensures x in Starts(other) {
      var i :| 0 <= i < |ranges| && ranges[i].start == x;
      StartsAreForced(ranges, other, i);
    }
    NormalStartsDiffer(ranges);
    StartsAtMost(other);
    SubsetIsSmaller(Starts(ranges), Starts(other));
  }

  lemma SubsetIsSmaller(a: set<u32>, b: set<u32>)
    requires a <= b
    ensures |a| <= |b|
  {
    assert b == a + (b - a);
  }

  // ---- canonicity ----

  lemma FirstIsLeast(r: seq<Range>, x: u32)
    requires Normal(r) && Covered(r, x)
    ensures r != [] && r[0].start <= x
  {
    var i :| 0 <= i < |r| && Within(x, r[i]);
    assert i > 0 ==> r[0].end as int + 1 < r[i].start as int;
  }

  lemma FirstRangesAgree(r: seq<Range>, s: seq<Range>)
    requires Normal(r) && Normal(s) && r != [] && s != []
    requires forall x :: Covered(r, x) <==> Covered(s, x)
    ensures r[0].start == s[0].start && r[0].end <= s[0].end
  {
    assert Within(r[0].start, r[0]) && Within(s[0].start, s[0]);
    FirstIsLeast(s, r[0].start);
    FirstIsLeast(r, s[0].start);
    if s[0].end < r[0].end {
      var next := s[0].end + 1;
      assert Within(next, r[0]) && Covered(r, next);
      GapAfter(s, 0, next);
    }
  }

  lemma RestCovers(r: seq<Range>, x: u32)
    requires Normal(r) && r != []
    ensures Covered(r[1..], x) <==> Covered(r, x) && x > r[0].end
  {
    if Covered(r[1..], x) {
      var i :| 0 <= i < |r[1..]| && Within(x, r[1..][i]);
      assert Within(x, r[i + 1]) && r[0].end as int + 1 < r[i + 1].start as int;
    }
    if Covered(r, x) && x > r[0].end {
      var i :| 0 <= i < |r| && Within(x, r[i]);
      assert Within(x, r[1..][i - 1]);
    }
  }

  lemma RestsAgree(r: seq<Range>, s: seq<Range>)
    requires Normal(r) && Normal(s) && r != [] && s != [] && r[0].end == s[0].end
    requires forall x :: Covered(r, x) <==> Covered(s, x)
    ensures Normal(r[1..]) && Normal(s[1..]) && forall x :: Covered(r[1..], x) <==> Covered(s[1..], x)
  {
    forall x ensures Covered(r[1..], x) <==> Covered(s[1..], x) {
      RestCovers(r, x);
      RestCovers(s, x);
    }
  }

  /** The ranges depend only on which lines are asked for: there is one normal family per set of lines. */
  lemma {:induction false} NormalIsUnique(r: seq<Range>, s: seq<Range>)
    requires Normal(r) && Normal(s) && forall x :: Covered(r, x) <==> Covered(s, x)
    ensures r == s
  {
    if r != [] { assert Within(r[0].start, r[0]) && Covered(s, r[0].start); }
    if s != [] { assert Within(s[0].start, s[0]) && Covered(r, s[0].start); }
    if r != [] && s != [] {
      FirstRangesAgree(r, s);
      FirstRangesAgree(s, r);
      RestsAgree(r, s);
      NormalIsUnique(r[1..], s[1..]);
      assert r == [r[0]] + r[1..] && s == [s[0]] + s[1..];
    }
  }
}
