/** The edit distance of suggest.rs: the two-row dynamic program, the recursive
    distance it computes, and what that distance means. */
module EditDistance {

  function Min3(x: nat, y: nat, z: nat): (m: nat)
    ensures m <= x && m <= y && m <= z && (m == x || m == y || m == z)
  {
    if x <= y && x <= z then x else if y <= z then y else z
  }

  function Cost(x: char, y: char): nat { if x != y then 1 else 0 }

  /** Wagner-Fischer recurrence on the last characters. */
  function Dist(a: string, b: string): nat
    decreases |a| + |b|
  {
    if a == [] then |b|
    else if b == [] then |a|
    else
      var a', b' := a[..|a| - 1], b[..|b| - 1];
      Min3(Dist(a', b) + 1, Dist(a, b') + 1, Dist(a', b') + Cost(a[|a| - 1], b[|b| - 1]))
  }

  // ---- the metric laws ----

  lemma {:induction false} DistBounds(a: string, b: string)
    ensures Dist(a, b) >= |a| - |b| && Dist(a, b) >= |b| - |a|
    ensures Dist(a, b) <= if |a| < |b| then |b| else |a|
    decreases |a| + |b|
  {
    if a != [] && b != [] {
      var a', b' := a[..|a| - 1], b[..|b| - 1];
      DistBounds(a', b);
      DistBounds(a, b');
      DistBounds(a', b');
    }
  }

  lemma {:induction false} DistZeroIffEqual(a: string, b: string)
    ensures Dist(a, b) == 0 <==> a == b
    decreases |a| + |b|
  {
    if a != [] && b != [] {
      var a', b' := a[..|a| - 1], b[..|b| - 1];
      DistZeroIffEqual(a', b');
      assert a == a' + [a[|a| - 1]] && b == b' + [b[|b| - 1]];
    }
  }

  lemma {:induction false} DistSymmetric(a: string, b: string)
    ensures Dist(a, b) == Dist(b, a)
    decreases |a| + |b|
  {
    if a != [] && b != [] {
      var a', b' := a[..|a| - 1], b[..|b| - 1];
      DistSymmetric(a', b);
      DistSymmetric(a, b');
      DistSymmetric(a', b');
    }
  }

  lemma {:induction false} DistTriangle(a: string, b: string, c: string)
    ensures Dist(a, c) <= Dist(a, b) + Dist(b, c)
    decreases |a| + |b| + |c|
  {
    if a == [] {
      DistBounds(b, c);
    } else if c == [] {
      DistBounds(a, b);
    } else if b == [] {
      DistBounds(a, c);
    } else {
      var a', b', c' := a[..|a| - 1], b[..|b| - 1], c[..|c| - 1];
      DistTriangle(a', b, c);
      DistTriangle(a, b, c');
      DistTriangle(a, b', c);
      DistTriangle(a, b', c');
      DistTriangle(a', b', c);
      DistTriangle(a', b', c');
    }
  }

  // ---- what the distance means: shortest chains of single edits ----

  /** t is s with the piece d (at most one character) between p and z replaced by the piece n. */
  ghost predicate EditAt(s: string, t: string, p: string, d: string, n: string, z: string) {
    |d| <= 1 && |n| <= 1 && d + n != [] && s == p + d + z && t == p + n + z
  }

  /** One character inserted (d empty), deleted (n empty) or substituted. */
  ghost predicate OneEdit(s: string, t: string) {
    exists p, d, n, z :: EditAt(s, t, p, d, n, z)
  }

  /** steps lists the strings visited on the way from a to b, one edit apart. */
  ghost predicate EditChain(steps: seq<string>, a: string, b: string) {
    && steps != [] && steps[0] == a && steps[|steps| - 1] == b
    && forall i :: 0 <= i < |steps| - 1 ==> OneEdit(steps[i], steps[i + 1])
  }

  lemma {:induction false} CommonSuffix(a: string, b: string, z: string)
    ensures Dist(a + z, b + z) <= Dist(a, b)
  {
    if z == [] {
      assert a + z == a && b + z == b;
    } else {
      var z' := z[..|z| - 1];
      CommonSuffix(a, b, z');
      assert (a + z)[..|a + z| - 1] == a + z' && (b + z)[..|b + z| - 1] == b + z';
    }
  }

  lemma OneEditIsNear(s: string, t: string)
    requires OneEdit(s, t)
    ensures Dist(s, t) <= 1
  {
    var p, d, n, z :| EditAt(s, t, p, d, n, z);
    PieceIsNear(p, d, n);
    CommonSuffix(p + d, p + n, z);
  }

  lemma PieceIsNear(p: string, d: string, n: string)
    requires |d| <= 1 && |n| <= 1
    ensures Dist(p + d, p + n) <= 1
  {
    DistZeroIffEqual(p, p);
    DistZeroIffEqual(p + d, p + n);
    assert d == [] ==> p + d == p;
    assert n == [] ==> p + n == p;
    assert d != [] ==> (p + d)[..|p|] == p;
    assert n != [] ==> (p + n)[..|p|] == p;
  }

  /** No chain of single edits is shorter than the distance. */
  lemma {:induction false} ChainsAreNoShorter(steps: seq<string>, a: string, b: string)
    requires EditChain(steps, a, b)
    ensures |steps| - 1 >= Dist(a, b)
  {
    if |steps| == 1 {
      DistZeroIffEqual(a, b);
    } else {
      assert EditChain(steps[1..], steps[1], b) by {
        forall i | 0 <= i < |steps[1..]| - 1 ensures OneEdit(steps[1..][i], steps[1..][i + 1]) {
          assert OneEdit(steps[i + 1], steps[i + 2]);
        }
      }
      ChainsAreNoShorter(steps[1..], steps[1], b);
      OneEditIsNear(steps[0], steps[1]);
      DistTriangle(a, steps[1], b);
    }
  }

  /** Editing only the front of a string: every step of a chain keeps the suffix z. */
  lemma ChainUnderSuffix(steps: seq<string>, a: string, b: string, z: string) returns (r: seq<string>)
    requires EditChain(steps, a, b)
    ensures EditChain(r, a + z, b + z) && |r| == |steps|
  {
    r := seq(|steps|, i requires 0 <= i < |steps| => steps[i] + z);
    forall i | 0 <= i < |r| - 1 ensures OneEdit(r[i], r[i + 1]) {
      OneEditUnderSuffix(steps[i], steps[i + 1], z);
    }
  }

  lemma OneEditUnderSuffix(s: string, t: string, y: string)
    requires OneEdit(s, t)
    ensures OneEdit(s + y, t + y)
  {
    var p, d, n, z :| EditAt(s, t, p, d, n, z);
    assert p + d + z + y == p + d + (z + y) && p + n + z + y == p + n + (z + y);
    assert EditAt(s + y, t + y, p, d, n, z + y);
  }

  lemma ExtendChain(steps: seq<string>, a: string, b: string, c: string) returns (r: seq<string>)
    requires EditChain(steps, a, b) && OneEdit(b, c)
    ensures EditChain(r, a, c) && |r| == |steps| + 1
  {
    r := steps + [c];
    forall i | 0 <= i < |r| - 1 ensures OneEdit(r[i], r[i + 1]) {
      if i < |steps| - 1 { assert OneEdit(steps[i], steps[i + 1]); }
    }
  }

  lemma PrependToChain(steps: seq<string>, a: string, b: string, c: string) returns (r: seq<string>)
    requires OneEdit(a, b) && EditChain(steps, b, c)
    ensures EditChain(r, a, c) && |r| == |steps| + 1
  {
    r := [a] + steps;
    forall i | 0 <= i < |r| - 1 ensures OneEdit(r[i], r[i + 1]) {
      if i > 0 { assert OneEdit(steps[i - 1], steps[i]); }
    }
  }

  lemma LastCharEdits(s: string)
    requires s != []
    ensures OneEdit(s, s[..|s| - 1]) && OneEdit(s[..|s| - 1], s)
  {
    var s', x := s[..|s| - 1], s[|s| - 1..];
    assert EditAt(s, s', s', x, [], []) && EditAt(s', s, s', [], x, []);
  }

  /** The distance is reached through an insertion, a deletion or the last characters of both strings. */
  lemma LastStepOfDist(a: string, b: string)
    ensures a == [] && b == [] ==> Dist(a, b) == 0
    ensures a != [] || b != [] ==>
      || (b != [] && Dist(a, b) == Dist(a, b[..|b| - 1]) + 1)
      || (a != [] && Dist(a, b) == Dist(a[..|a| - 1], b) + 1)
      || (a != [] && b != [] && Dist(a, b) == Dist(a[..|a| - 1], b[..|b| - 1]) + Cost(a[|a| - 1], b[|b| - 1]))
  {}

  /** Some chain of single edits is as short as the distance. */
  lemma {:induction false} ShortestChainExists(a: string, b: string) returns (steps: seq<string>)
    ensures EditChain(steps, a, b) && |steps| - 1 == Dist(a, b)
    decreases |a| + |b|
  {
    LastStepOfDist(a, b);
    if a == [] && b == [] {
      steps := [a];
    } else if b != [] && Dist(a, b) == Dist(a, b[..|b| - 1]) + 1 {
      steps := ShortestChainExists(a, b[..|b| - 1]);
      LastCharEdits(b);
      steps := ExtendChain(steps, a, b[..|b| - 1], b);
    } else if a != [] && Dist(a, b) == Dist(a[..|a| - 1], b) + 1 {
      steps := ShortestChainExists(a[..|a| - 1], b);
      LastCharEdits(a);
      steps := PrependToChain(steps, a, a[..|a| - 1], b);
    } else {
      var a', b' := a[..|a| - 1], b[..|b| - 1];
      steps := ShortestChainExists(a', b');
      steps := ChainWithLast(steps, a', b', a[|a| - 1], b[|b| - 1]);
      assert a == a' + [a[|a| - 1]] && b == b' + [b[|b| - 1]];
    }
  }

  lemma ChainWithLast(front: seq<string>, a: string, b: string, x: char, y: char) returns (steps: seq<string>)
    requires EditChain(front, a, b)
    ensures EditChain(steps, a + [x], b + [y]) && |steps| == |front| + Cost(x, y)
  {
    steps := ChainUnderSuffix(front, a, b, [x]);
    if x != y {
      assert EditAt(b + [x], b + [y], b, [x], [y], []);
      steps := ExtendChain(steps, a + [x], b + [x], b + [y]);
    }
  }

  /** The distance is the length of a shortest chain of insertions, deletions and substitutions. */
  lemma DistIsShortestEditChain(a: string, b: string)
    ensures exists steps :: EditChain(steps, a, b) && |steps| - 1 == Dist(a, b)
    ensures forall steps :: EditChain(steps, a, b) ==> |steps| - 1 >= Dist(a, b)
  {
    var steps := ShortestChainExists(a, b);
    forall other | EditChain(other, a, b) ensures |other| - 1 >= Dist(a, b) {
      ChainsAreNoShorter(other, a, b);
    }
  }

  // ---- the two-row program ----

  /** The table of the dynamic program: entry (i, j) is the distance of the prefixes a[..i] and b[..j]. */
  ghost function Entry(a: string, b: string, i: nat, j: nat): nat
    requires i <= |a| && j <= |b|
  {
    Dist(a[..i], b[..j])
  }

  lemma EntryEdges(a: string, b: string, i: nat)
    requires i <= |a|
    ensures Entry(a, b, i, 0) == i && Entry(a, b, |a|, |b|) == Dist(a, b)
    ensures forall j :: 0 <= j <= |b| ==> Entry(a, b, 0, j) == j
  {
    assert a[..|a|] == a && b[..|b|] == b;
  }

  lemma EntryRule(a: string, b: string, i: nat, j: nat)
    requires i < |a| && j < |b|
    ensures Entry(a, b, i + 1, j + 1)
         == Min3(Entry(a, b, i, j + 1) + 1, Entry(a, b, i + 1, j) + 1, Entry(a, b, i, j) + Cost(a[i], b[j]))
  {
    assert a[..i + 1][..i] == a[..i] && b[..j + 1][..j] == b[..j];
  }

  /** A row of counters holds row i of the table up to column j. */
  ghost predicate Holds(row: seq<nat>, a: string, b: string, i: nat, j: nat)
    requires i <= |a| && j <= |b|
  {
    |row| == |b| + 1 && forall k :: 0 <= k <= j ==> row[k] == Entry(a, b, i, k)
  }

  lemma NextCell(prev: seq<nat>, curr: seq<nat>, a: string, b: string, i: nat, j: nat)
    requires i < |a| && j < |b| && Holds(prev, a, b, i, |b|) && Holds(curr, a, b, i + 1, j)
    ensures Holds(curr[j + 1 := Min3(prev[j + 1] + 1, curr[j] + 1, prev[j] + Cost(a[i], b[j]))], a, b, i + 1, j + 1)
  {
    EntryRule(a, b, i, j);
  }

  /** Two rows of length |b| + 1, overwritten and swapped once per character of a. */
  method Levenshtein(a: string, b: string) returns (d: nat)
    ensures d == Dist(a, b)
  {
    var prev := new nat[|b| + 1](j => j);
    var curr := new nat[|b| + 1](_ => 0);
    EntryEdges(a, b, 0);
    for i := 0 to |a|
      invariant prev != curr && prev.Length == curr.Length == |b| + 1
      invariant fresh(prev) && fresh(curr)
      invariant Holds(prev[..], a, b, i, |b|)
    {
      curr[0] := i + 1;
      EntryEdges(a, b, i + 1);
      for j := 0 to |b|
        invariant Holds(prev[..], a, b, i, |b|) && Holds(curr[..], a, b, i + 1, j)
      {
        var cost := if a[i] != b[j] then 1 else 0;
        NextCell(prev[..], curr[..], a, b, i, j);
        curr[j + 1] := Min3(prev[j + 1] + 1, curr[j] + 1, prev[j] + cost);
      }
      prev, curr := curr, prev;
    }
    EntryEdges(a, b, |a|);
    d := prev[|b|];
  }
}
