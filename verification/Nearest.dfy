/** `nearest` of suggest.rs: a containment phase decided by a stable sort, then an
    edit-distance phase decided by the first closest candidate. */
module Nearest {
  import opened Ordering
  import opened EditDistance

  // ---- text ----

  function LowerChar(c: char): char {
    if 'A' <= c <= 'Z' then (c as int + 32) as char else c
  }

  /** `to_ascii_lowercase`. */
  function AsciiLower(s: string): (r: string)
    ensures |r| == |s| && forall i :: 0 <= i < |s| ==> r[i] == LowerChar(s[i])
  {
    seq(|s|, i requires 0 <= i < |s| => LowerChar(s[i]))
  }

  /** The same character, or the two cases of one ASCII letter. */
  predicate SameLetter(c: char, d: char) {
    || c == d
    || ('A' <= c <= 'Z' && d as int == c as int + 32)
    || ('A' <= d <= 'Z' && c as int == d as int + 32)
  }

  /** The same text up to ASCII case. */
  ghost predicate SameText(a: string, b: string) {
    |a| == |b| && forall i :: 0 <= i < |a| ==> SameLetter(a[i], b[i])
  }

  lemma LowerMeansSameText(a: string, b: string)
    ensures AsciiLower(a) == AsciiLower(b) <==> SameText(a, b)
  {
    if AsciiLower(a) == AsciiLower(b) {
      forall i | 0 <= i < |a| ensures SameLetter(a[i], b[i]) {
        assert AsciiLower(a)[i] == AsciiLower(b)[i];
      }
    }
  }

  function Utf8Len(c: char): nat {
    var n := c as int;
    if n < 0x80 then 1 else if n < 0x800 then 2 else if n < 0x1_0000 then 3 else 4
  }

  /** `str::len`: bytes, not characters. */
  function ByteLen(s: string): nat {
    if s == [] then 0 else Utf8Len(s[0]) + ByteLen(s[1..])
  }

  predicate Contains(hay: string, needle: string) {
    exists i :: 0 <= i <= |hay| && needle <= hay[i..]
  }

  lemma {:induction false} LowerKeepsByteLen(s: string)
    ensures ByteLen(AsciiLower(s)) == ByteLen(s)
  {
    if s != [] {
      assert AsciiLower(s)[1..] == AsciiLower(s[1..]);
      LowerKeepsByteLen(s[1..]);
    }
  }

  lemma {:induction false} PrefixAsLongIsWhole(p: string, s: string)
    requires p <= s && ByteLen(s) <= ByteLen(p)
    ensures p == s
  {
    if s != [] && p != [] {
      PrefixAsLongIsWhole(p[1..], s[1..]);
      assert p == [p[0]] + p[1..] && s == [s[0]] + s[1..];
    }
  }

  // ---- phase one: containment ----

  predicate IsHit(needle: string, cand: string) {
    Contains(AsciiLower(cand), needle)
  }

  predicate IsPrefixHit(needle: string, cand: string) {
    needle <= AsciiLower(cand)
  }

  /** The sort key (not a prefix hit, byte length), compared lexicographically. */
  predicate HitLe(needle: string, c: string, d: string) {
    if IsPrefixHit(needle, c) == IsPrefixHit(needle, d) then ByteLen(c) <= ByteLen(d)
    else IsPrefixHit(needle, c)
  }

  function Hits(needle: string, cands: seq<string>): (r: seq<string>)
    ensures forall c :: c in r <==> c in cands && IsHit(needle, c)
  {
    if cands == [] then []
    else
      assert cands == [cands[0]] + cands[1..];
      (if IsHit(needle, cands[0]) then [cands[0]] else []) + Hits(needle, cands[1..])
  }

  predicate ContainmentDecides(needle: string, cands: seq<string>) {
    ByteLen(needle) >= 3 && exists c :: c in cands && IsHit(needle, c)
  }

  /** Position k wins phase one: no hit beats it, and no earlier hit ties with it. */
  ghost predicate BestHit(needle: string, cands: seq<string>, k: nat) {
    && k < |cands| && IsHit(needle, cands[k])
    && (forall j :: 0 <= j < |cands| && IsHit(needle, cands[j]) ==> HitLe(needle, cands[k], cands[j]))
    && (forall j :: 0 <= j < k && IsHit(needle, cands[j]) ==> !HitLe(needle, cands[j], cands[k]))
  }

  /** A position in the filtered list stands for the position it was filtered from. */
  lemma {:induction false} HitsKeepOrder(needle: string, cands: seq<string>, m: nat) returns (k: nat)
    requires m < |Hits(needle, cands)|
    ensures k < |cands| && cands[k] == Hits(needle, cands)[m]
    ensures forall j :: 0 <= j < k && IsHit(needle, cands[j]) ==> cands[j] in Hits(needle, cands)[..m]
  {
    var tail, m' := cands[1..], if IsHit(needle, cands[0]) then m - 1 else m;
    if m' < 0 {
      k := 0;
    } else {
      HitsStep(needle, cands, m);
      var k' := HitsKeepOrder(needle, tail, m');
      k := k' + 1;
      forall j | 0 <= j < k && IsHit(needle, cands[j]) ensures cands[j] in Hits(needle, cands)[..m] {
        if j > 0 {
          assert cands[j] == tail[j - 1];
        }
      }
    }
  }

  lemma HitsStep(needle: string, cands: seq<string>, m: nat)
    requires cands != [] && m <= |Hits(needle, cands)| && (IsHit(needle, cands[0]) ==> m > 0)
    ensures var rest := Hits(needle, cands[1..]);
            Hits(needle, cands)[..m] == if IsHit(needle, cands[0]) then [cands[0]] + rest[..m - 1] else rest[..m]
  {
    var rest := Hits(needle, cands[1..]);
    assert Hits(needle, cands) == if IsHit(needle, cands[0]) then [cands[0]] + rest else rest;
  }

  lemma HitLeIsPreorder(needle: string)
    ensures TotalPreorder((c, d) => HitLe(needle, c, d))
  {
    var le := (c, d) => HitLe(needle, c, d);
    assert forall c, d :: le(c, d) == HitLe(needle, c, d);
  }

  // ---- phase two: edit distance ----

  function Distance(needle: string, cand: string): nat {
    Dist(needle, AsciiLower(cand))
  }

  function Threshold(needle: string, cand: string): nat {
    var longer := if |needle| < |cand| then |cand| else |needle|;
    if longer / 3 < 1 then 1 else longer / 3
  }

  /** Position k holds the first candidate of least distance. */
  ghost predicate FirstClosest(needle: string, cands: seq<string>, k: nat) {
    && k < |cands|
    && (forall j :: 0 <= j < |cands| ==> Distance(needle, cands[k]) <= Distance(needle, cands[j]))
    && (forall j :: 0 <= j < k ==> Distance(needle, cands[k]) < Distance(needle, cands[j]))
  }

  predicate WithinThreshold(needle: string, cand: string) {
    Distance(needle, cand) <= Threshold(needle, cand)
  }

  lemma FirstClosestExtends(needle: string, cands: seq<string>, i: nat, k: nat)
    requires i < |cands| && (i > 0 ==> FirstClosest(needle, cands[..i], k))
    ensures i > 0 && Distance(needle, cands[k]) <= Distance(needle, cands[i]) ==>
      FirstClosest(needle, cands[..i + 1], k)
    ensures i == 0 || Distance(needle, cands[i]) < Distance(needle, cands[k]) ==>
      FirstClosest(needle, cands[..i + 1], i)
  {
    assert cands[..i + 1] == cands[..i] + [cands[i]];
  }

  // ---- the whole function ----

  /** The answer of phase two when position k holds the first closest candidate. */
  ghost predicate FuzzyAnswer(needle: string, cands: seq<string>, k: nat, r: Option<string>) {
    FirstClosest(needle, cands, k) && r == if WithinThreshold(needle, cands[k]) then Some(cands[k]) else None
  }

  ghost predicate HitAnswer(needle: string, cands: seq<string>, k: nat, r: Option<string>) {
    BestHit(needle, cands, k) && r == Some(cands[k])
  }

  /** What `nearest` answers. */
  ghost predicate IsNearest(input: string, cands: seq<string>, r: Option<string>) {
    var needle := AsciiLower(input);
    if ContainmentDecides(needle, cands) then exists k: nat :: HitAnswer(needle, cands, k, r)
    else if cands == [] then r == None
    else exists k: nat :: FuzzyAnswer(needle, cands, k, r)
  }

  method FindNearest(input: string, cands: seq<string>) returns (r: Option<string>)
    ensures IsNearest(input, cands, r)
  {
    var needle := AsciiLower(input);
    if ByteLen(needle) >= 3 {
      var hits := Hits(needle, cands);
      if hits != [] {
        assert hits[0] in hits;
        HitLeIsPreorder(needle);
        var le := (c, d) => HitLe(needle, c, d);
        ghost var k := FirstSortedHit(needle, cands, le);
        hits := StableSort(hits, le);
        r := Some(hits[0]);
        assert HitAnswer(needle, cands, k, r);
        return;
      }
      assert forall c :: c in cands && IsHit(needle, c) ==> c in hits;
    }
    assert !ContainmentDecides(needle, cands);
    r := Closest(needle, cands);
  }

  lemma FirstSortedHit(needle: string, cands: seq<string>, le: (string, string) -> bool) returns (k: nat)
    requires TotalPreorder(le) && Hits(needle, cands) != []
    requires forall c, d :: le(c, d) == HitLe(needle, c, d)
    ensures BestHit(needle, cands, k) && cands[k] == StableSort(Hits(needle, cands), le)[0]
  {
    var hits := Hits(needle, cands);
    var m := FirstLeast(hits, le);
    SortedHeadIsFirstLeast(hits, le);
    FirstLeastIsLeast(hits, le);
    k := HitsKeepOrder(needle, cands, m);
    assert hits[m] in hits;
    forall j | 0 <= j < |cands| && IsHit(needle, cands[j])
      ensures HitLe(needle, cands[k], cands[j]) && (j < k ==> !HitLe(needle, cands[j], cands[k]))
    {
      assert cands[j] in hits;
    }
  }

  /** Phase two: the loop that remembers the first candidate of least distance. */
  method Closest(needle: string, cands: seq<string>) returns (r: Option<string>)
    ensures if cands == [] then r == None else exists k: nat :: FuzzyAnswer(needle, cands, k, r)
  {
    var best: Option<(string, nat)> := None;
    ghost var k: nat := 0;
    for i := 0 to |cands|
      invariant best == None <==> i == 0
      invariant i > 0 ==> FirstClosest(needle, cands[..i], k) && best.value == (cands[k], Distance(needle, cands[k]))
    {
      var dist := Levenshtein(needle, AsciiLower(cands[i]));
      FirstClosestExtends(needle, cands, i, k);
      if best == None || dist < best.value.1 {
        best := Some((cands[i], dist));
        k := i;
      }
    }
    if best == None {
      return None;
    }
    assert cands[..|cands|] == cands;
    var (cand, dist) := best.value;
    r := if dist <= Threshold(needle, cand) then Some(cand) else None;
    assert FuzzyAnswer(needle, cands, k, r);
  }

  lemma OneBestHit(needle: string, cands: seq<string>, k: nat, m: nat)
    requires BestHit(needle, cands, k) && BestHit(needle, cands, m)
    ensures k == m
  {
    assert IsHit(needle, cands[k]) && IsHit(needle, cands[m]);
  }

  lemma OneFirstClosest(needle: string, cands: seq<string>, k: nat, m: nat)
    requires FirstClosest(needle, cands, k) && FirstClosest(needle, cands, m)
    ensures k == m
  {
    assert Distance(needle, cands[k]) <= Distance(needle, cands[m]) <= Distance(needle, cands[k]);
  }

  /** The answer is determined by the input and the candidate list. */
  lemma NearestIsUnique(input: string, cands: seq<string>, r: Option<string>, s: Option<string>)
    requires IsNearest(input, cands, r) && IsNearest(input, cands, s)
    ensures r == s
  {
    var needle := AsciiLower(input);
    if ContainmentDecides(needle, cands) {
      var k: nat :| HitAnswer(needle, cands, k, r);
      var m: nat :| HitAnswer(needle, cands, m, s);
      OneBestHit(needle, cands, k, m);
    } else if cands != [] {
      var k: nat :| FuzzyAnswer(needle, cands, k, r);
      var m: nat :| FuzzyAnswer(needle, cands, m, s);
      OneFirstClosest(needle, cands, k, m);
    }
  }

  // ---- containment, written out ----

  /** The input occurs in the candidate at position i, up to ASCII case. */
  ghost predicate OccursAt(input: string, cand: string, i: nat) {
    i + |input| <= |cand| && SameText(cand[i..i + |input|], input)
  }

  ghost predicate Occurs(input: string, cand: string) {
    exists i: nat :: OccursAt(input, cand, i)
  }

  lemma LowerOfSlice(s: string, i: nat, j: nat)
    requires i <= j <= |s|
    ensures AsciiLower(s[i..j]) == AsciiLower(s)[i..j]
  {}

  lemma FoundAt(input: string, cand: string, i: nat)
    requires i <= |cand|
    ensures AsciiLower(input) <= AsciiLower(cand)[i..] <==> OccursAt(input, cand, i)
  {
    if i + |input| <= |cand| {
      LowerOfSlice(cand, i, i + |input|);
      LowerMeansSameText(cand[i..i + |input|], input);
      assert AsciiLower(cand)[i..][..|input|] == AsciiLower(cand)[i..i + |input|];
    }
  }

  lemma HitMeansOccurs(input: string, cand: string)
    ensures IsHit(AsciiLower(input), cand) <==> Occurs(input, cand)
    ensures IsPrefixHit(AsciiLower(input), cand) <==> OccursAt(input, cand, 0)
  {
    FoundAt(input, cand, 0);
    assert AsciiLower(cand)[0..] == AsciiLower(cand);
    forall i: nat | i <= |cand| ensures AsciiLower(input) <= AsciiLower(cand)[i..] <==> OccursAt(input, cand, i) {
      FoundAt(input, cand, i);
    }
  }

  /** Containment answers exactly for an input of at least three bytes that occurs in some candidate. */
  lemma ContainmentDecidesIff(input: string, cands: seq<string>)
    ensures ContainmentDecides(AsciiLower(input), cands)
       <==> ByteLen(input) >= 3 && exists c :: c in cands && Occurs(input, c)
  {
    LowerKeepsByteLen(input);
    forall c ensures IsHit(AsciiLower(input), c) <==> Occurs(input, c) {
      HitMeansOccurs(input, c);
    }
  }

  /** Both candidates start with the input, or neither does. */
  ghost predicate SameStart(input: string, c: string, d: string) {
    OccursAt(input, c, 0) <==> OccursAt(input, d, 0)
  }

  /** The answer of containment: the input occurs in it, at the start if it does so in any candidate; among those it
      has the fewest bytes, and it is the first of them. */
  lemma ContainmentAnswer(input: string, cands: seq<string>, r: Option<string>) returns (k: nat)
    requires IsNearest(input, cands, r) && ContainmentDecides(AsciiLower(input), cands)
    ensures k < |cands| && r == Some(cands[k]) && Occurs(input, cands[k])
    ensures forall j :: 0 <= j < |cands| && OccursAt(input, cands[j], 0) ==> OccursAt(input, cands[k], 0)
    ensures forall j :: 0 <= j < |cands| && Occurs(input, cands[j]) && SameStart(input, cands[j], cands[k]) ==>
      ByteLen(cands[k]) <= ByteLen(cands[j]) && (j < k ==> ByteLen(cands[k]) < ByteLen(cands[j]))
  {
    var needle := AsciiLower(input);
    k :| HitAnswer(needle, cands, k, r);
    forall j | 0 <= j < |cands|
      ensures IsHit(needle, cands[j]) <==> Occurs(input, cands[j])
      ensures IsPrefixHit(needle, cands[j]) <==> OccursAt(input, cands[j], 0)
    {
      HitMeansOccurs(input, cands[j]);
    }
  }

  // ---- bytes, not characters ----

  lemma PrefixIsHit(needle: string, cand: string)
    requires IsPrefixHit(needle, cand)
    ensures IsHit(needle, cand)
  {
    assert AsciiLower(cand)[0..] == AsciiLower(cand);
  }

  lemma SecondIsBest(needle: string, cands: seq<string>)
    requires |cands| == 2 && IsHit(needle, cands[1])
    requires HitLe(needle, cands[1], cands[0]) && HitLe(needle, cands[1], cands[1])
    requires !HitLe(needle, cands[0], cands[1])
    ensures BestHit(needle, cands, 1)
  {}

  lemma BestHitAnswers(input: string, cands: seq<string>, k: nat)
    requires ByteLen(input) >= 3 && AsciiLower(input) == input && BestHit(input, cands, k)
    ensures IsNearest(input, cands, Some(cands[k]))
  {
    assert cands[k] in cands;
    assert HitAnswer(input, cands, k, Some(cands[k]));
  }

  /** Of two prefix hits the one with fewer bytes wins, although it has more characters. */
  lemma FewerBytesWin(input: string, cands: seq<string>)
    requires input == "abc" && cands == ["abc\U{E9}\U{E9}", "abcxyz"]
    ensures |cands[0]| < |cands[1]| && IsNearest(input, cands, Some(cands[1]))
  {
    LowerCaseStays(input);
    BytesOf(cands[0], cands[1]);
    ThreeLetters(input);
    PrefixIsHit(input, cands[1]);
    SecondIsBest(input, cands);
    BestHitAnswers(input, cands, 1);
  }

  lemma {:induction false} BytesOfConcat(s: string, t: string)
    ensures ByteLen(s + t) == ByteLen(s) + ByteLen(t)
  {
    if s == [] {
      assert s + t == t;
    } else {
      assert (s + t)[1..] == s[1..] + t;
      BytesOfConcat(s[1..], t);
    }
  }

  lemma BytesOfChar(c: char)
    ensures ByteLen([c]) == Utf8Len(c)
  {
    assert [c][1..] == [];
  }

  lemma ThreeLetters(s: string)
    requires |s| == 3 && forall i :: 0 <= i < 3 ==> 'a' <= s[i] <= 'z'
    ensures ByteLen(s) == 3
  {
    assert s == [s[0]] + [s[1]] + [s[2]];
    BytesOfConcat([s[0]] + [s[1]], [s[2]]);
    BytesOfConcat([s[0]], [s[1]]);
    BytesOfChar(s[0]);
    BytesOfChar(s[1]);
    BytesOfChar(s[2]);
  }

  lemma BytesOf(accented: string, plain: string)
    requires accented == "abc\U{E9}\U{E9}" && plain == "abcxyz"
    ensures ByteLen(accented) == 7 && ByteLen(plain) == 6
  {
    assert accented == accented[..3] + [accented[3]] + [accented[4]] && plain == plain[..3] + plain[3..];
    BytesOfConcat(accented[..3] + [accented[3]], [accented[4]]);
    BytesOfConcat(accented[..3], [accented[3]]);
    BytesOfConcat(plain[..3], plain[3..]);
    BytesOfChar(accented[3]);
    BytesOfChar(accented[4]);
    ThreeLetters(accented[..3]);
    ThreeLetters(plain[..3]);
    ThreeLetters(plain[3..]);
  }

  // ---- case makes no difference ----

  /** The case of the input makes no difference. */
  lemma InputCaseIsIgnored(input: string, input': string, cands: seq<string>, r: Option<string>)
    requires SameText(input, input')
    ensures IsNearest(input, cands, r) <==> IsNearest(input', cands, r)
  {
    LowerMeansSameText(input, input');
  }

  /** The same candidates in the same places, up to ASCII case. */
  ghost predicate SameTexts(cands: seq<string>, cands': seq<string>) {
    |cands| == |cands'| && forall i :: 0 <= i < |cands| ==> SameText(cands[i], cands'[i])
  }

  lemma SameTextIsSymmetric(a: string, b: string)
    requires SameText(a, b)
    ensures SameText(b, a)
  {}

  lemma SameTextsMatchAlike(needle: string, c: string, c': string)
    requires SameText(c, c')
    ensures IsHit(needle, c) == IsHit(needle, c') && IsPrefixHit(needle, c) == IsPrefixHit(needle, c')
    ensures ByteLen(c) == ByteLen(c') && Distance(needle, c) == Distance(needle, c')
    ensures Threshold(needle, c) == Threshold(needle, c')
  {
    LowerMeansSameText(c, c');
    LowerKeepsByteLen(c);
    LowerKeepsByteLen(c');
  }

  lemma SameTextsDecideAlike(needle: string, cands: seq<string>, cands': seq<string>)
    requires SameTexts(cands, cands') && ContainmentDecides(needle, cands)
    ensures ContainmentDecides(needle, cands')
  {
    var c :| c in cands && IsHit(needle, c);
    var i :| 0 <= i < |cands| && cands[i] == c;
    SameTextsMatchAlike(needle, cands[i], cands'[i]);
    assert cands'[i] in cands';
  }

  lemma SameTextsAnswerAlike(needle: string, cands: seq<string>, cands': seq<string>, k: nat)
    requires SameTexts(cands, cands')
    ensures BestHit(needle, cands, k) ==> BestHit(needle, cands', k)
    ensures FirstClosest(needle, cands, k) ==> FirstClosest(needle, cands', k)
  {
    forall i | 0 <= i < |cands|
      ensures IsHit(needle, cands[i]) == IsHit(needle, cands'[i])
      ensures IsPrefixHit(needle, cands[i]) == IsPrefixHit(needle, cands'[i])
      ensures ByteLen(cands[i]) == ByteLen(cands'[i]) && Distance(needle, cands[i]) == Distance(needle, cands'[i])
    {
      SameTextsMatchAlike(needle, cands[i], cands'[i]);
    }
  }

  /** The answer up to ASCII case. */
  ghost predicate SameAnswer(r: Option<string>, r': Option<string>) {
    r.Some? == r'.Some? && (r.Some? ==> SameText(r.value, r'.value))
  }

  lemma CandidateCaseIsIgnoredOneWay(input: string, cands: seq<string>, cands': seq<string>, r: Option<string>)
    returns (r': Option<string>)
    requires SameTexts(cands, cands') && IsNearest(input, cands, r)
    ensures IsNearest(input, cands', r') && SameAnswer(r, r')
  {
    var needle := AsciiLower(input);
    forall i | 0 <= i < |cands| ensures SameText(cands'[i], cands[i]) { SameTextIsSymmetric(cands[i], cands'[i]); }
    if ContainmentDecides(needle, cands) {
      SameTextsDecideAlike(needle, cands, cands');
      var k: nat :| HitAnswer(needle, cands, k, r);
      SameTextsAnswerAlike(needle, cands, cands', k);
      r' := Some(cands'[k]);
      assert HitAnswer(needle, cands', k, r');
    } else {
      if ContainmentDecides(needle, cands') { SameTextsDecideAlike(needle, cands', cands); }
      r' := r;
      if cands != [] {
        var k: nat :| FuzzyAnswer(needle, cands, k, r);
        SameTextsAnswerAlike(needle, cands, cands', k);
        SameTextsMatchAlike(needle, cands[k], cands'[k]);
        r' := if r.Some? then Some(cands'[k]) else None;
        assert FuzzyAnswer(needle, cands', k, r');
      }
    }
  }

  /** The case of the candidates makes no difference but to the spelling of the answer. */
  lemma CandidateCaseIsIgnored(input: string, cands: seq<string>, cands': seq<string>, r: Option<string>,
                               r': Option<string>)
    requires SameTexts(cands, cands') && IsNearest(input, cands, r) && IsNearest(input, cands', r')
    ensures SameAnswer(r, r')
  {
    var s := CandidateCaseIsIgnoredOneWay(input, cands, cands', r);
    NearestIsUnique(input, cands', r', s);
  }

  /** A candidate equal to the input up to ASCII case is never passed over, whichever phase answers. */
  lemma ExactMatchWins(input: string, cands: seq<string>, r: Option<string>, exact: string)
    requires IsNearest(input, cands, r) && exact in cands && SameText(exact, input)
    ensures r.Some? && r.value in cands && SameText(r.value, input)
  {
    LowerMeansSameText(exact, input);
    LoweredMatchWins(input, cands, r, exact);
    LowerMeansSameText(r.value, input);
  }

  lemma LoweredMatchWins(input: string, cands: seq<string>, r: Option<string>, exact: string)
    requires IsNearest(input, cands, r)
    requires exact in cands && AsciiLower(exact) == AsciiLower(input)
    ensures r.Some? && r.value in cands && AsciiLower(r.value) == AsciiLower(input)
  {
    var needle := AsciiLower(input);
    var e: nat :| e < |cands| && cands[e] == exact;
    if ContainmentDecides(needle, cands) {
      var k: nat :| HitAnswer(needle, cands, k, r);
      ExactBestHit(needle, cands, k, e);
    } else {
      var k: nat :| FuzzyAnswer(needle, cands, k, r);
      ExactFirstClosest(needle, cands, k, e);
    }
  }

  lemma ExactBestHit(needle: string, cands: seq<string>, k: nat, e: nat)
    requires BestHit(needle, cands, k) && e < |cands| && AsciiLower(cands[e]) == needle
    ensures AsciiLower(cands[k]) == needle
  {
    assert needle <= AsciiLower(cands[e])[0..];
    assert HitLe(needle, cands[k], cands[e]);
    LowerKeepsByteLen(cands[e]);
    LowerKeepsByteLen(cands[k]);
    PrefixAsLongIsWhole(needle, AsciiLower(cands[k]));
  }

  lemma ExactFirstClosest(needle: string, cands: seq<string>, k: nat, e: nat)
    requires FirstClosest(needle, cands, k) && e < |cands| && AsciiLower(cands[e]) == needle
    ensures AsciiLower(cands[k]) == needle && Distance(needle, cands[k]) == 0
  {
    DistZeroIffEqual(needle, needle);
    assert Distance(needle, cands[k]) <= Distance(needle, cands[e]);
    DistZeroIffEqual(needle, AsciiLower(cands[k]));
  }

  /** Close enough, written out: one edit, or a third of the longer text. */
  lemma ThresholdIsAThird(needle: string, cand: string)
    ensures WithinThreshold(needle, cand)
       <==> var d := Dist(needle, AsciiLower(cand)); d <= 1 || 3 * d <= |needle| || 3 * d <= |cand|
  {}

  /** A suggestion outside containment is close, and is one of the closest. */
  lemma SuggestionIsClose(input: string, cands: seq<string>, r: Option<string>)
    requires IsNearest(input, cands, r) && !ContainmentDecides(AsciiLower(input), cands) && r.Some?
    ensures r.value in cands
    ensures var d := Dist(AsciiLower(input), AsciiLower(r.value));
      && (d <= 1 || 3 * d <= |input| || 3 * d <= |r.value|)
      && forall c :: c in cands ==> d <= Dist(AsciiLower(input), AsciiLower(c))
  {
    var needle := AsciiLower(input);
    var k: nat :| FuzzyAnswer(needle, cands, k, r);
    ThresholdIsAThird(needle, cands[k]);
    forall c | c in cands ensures Distance(needle, cands[k]) <= Dist(needle, AsciiLower(c)) {
      var i :| 0 <= i < |cands| && cands[i] == c;
      assert Distance(needle, cands[k]) <= Distance(needle, cands[i]);
    }
  }

  /** Outside containment the answer is Some exactly when the first closest candidate is within its own
      threshold; candidates that are further away have no say, even when their own threshold admits them. */
  lemma FuzzyAnswerDependsOnFirstClosest(input: string, cands: seq<string>, r: Option<string>, k: nat)
    requires IsNearest(input, cands, r) && !ContainmentDecides(AsciiLower(input), cands)
    requires FirstClosest(AsciiLower(input), cands, k)
    ensures r.Some? <==> WithinThreshold(AsciiLower(input), cands[k])
    ensures r.Some? ==> r.value == cands[k]
  {
    var needle := AsciiLower(input);
    var m: nat :| FuzzyAnswer(needle, cands, m, r);
    OneFirstClosest(needle, cands, k, m);
  }

  /** Some candidate is close enough by its own threshold. */
  ghost predicate SomeAdmissible(needle: string, cands: seq<string>) {
    exists c :: c in cands && WithinThreshold(needle, c)
  }

  /** The promise, that a candidate close enough means a suggestion, is kept exactly when containment answers, or no
      candidate is close enough, or the first closest one is. */
  lemma PromiseKeptIff(input: string, cands: seq<string>, r: Option<string>)
    requires IsNearest(input, cands, r)
    ensures var needle := AsciiLower(input);
      (SomeAdmissible(needle, cands) ==> r.Some?)
      <==> || ContainmentDecides(needle, cands) || !SomeAdmissible(needle, cands)
           || forall k: nat :: FirstClosest(needle, cands, k) ==> WithinThreshold(needle, cands[k])
  {
    var needle := AsciiLower(input);
    if !ContainmentDecides(needle, cands) && cands != [] {
      var k: nat :| FuzzyAnswer(needle, cands, k, r);
      forall m: nat | FirstClosest(needle, cands, m) ensures m == k {
        OneFirstClosest(needle, cands, k, m);
      }
    }
  }

  /** What a broken promise misses is longer than the input, and longer than the closer candidate it lost to. */
  lemma MissedCandidateIsLonger(input: string, cands: seq<string>, k: nat, missed: string)
    requires IsNearest(input, cands, None) && missed in cands && WithinThreshold(AsciiLower(input), missed)
    requires FirstClosest(AsciiLower(input), cands, k)
    ensures |missed| > |input| && |missed| > |cands[k]|
  {
    var needle := AsciiLower(input);
    if !ContainmentDecides(needle, cands) {
      FuzzyAnswerDependsOnFirstClosest(input, cands, None, k);
      var j: nat :| j < |cands| && cands[j] == missed;
      assert Distance(needle, cands[k]) <= Distance(needle, cands[j]);
    }
  }

  /** "abxycd" is two edits from "abcd" and its own threshold is two, but "ab" ties with it, comes first and
      is allowed one edit only: no suggestion. */
  lemma AdmissibleCandidateCanBeMissed(input: string, cands: seq<string>)
    requires input == "abcd" && cands == ["ab", "abxycd"]
    ensures IsNearest(input, cands, None) && WithinThreshold(AsciiLower(input), cands[1])
  {
    LowerCaseStays(input);
    LowerCaseStays(cands[0]);
    LowerCaseStays(cands[1]);
    NotContained(input, cands[0], cands[1]);
    TwoEditsAway(input, cands[0], cands[1]);
    MissedBetween(input, cands);
  }

  lemma MissedBetween(needle: string, cands: seq<string>)
    requires |cands| == 2 && AsciiLower(needle) == needle
    requires !IsHit(needle, cands[0]) && !IsHit(needle, cands[1])
    requires Distance(needle, cands[0]) == Distance(needle, cands[1]) == 2 && |needle| == 4 && |cands[0]| == 2
    ensures IsNearest(needle, cands, None)
  {
    assert !ContainmentDecides(needle, cands);
    assert FirstClosest(needle, cands, 0);
    assert FuzzyAnswer(needle, cands, 0, None);
  }

  lemma LowerCaseStays(s: string)
    requires forall i :: 0 <= i < |s| ==> 'a' <= s[i] <= 'z'
    ensures AsciiLower(s) == s
  {}

  lemma NotContained(input: string, short: string, long: string)
    requires input == "abcd" && short == "ab" && long == "abxycd"
    ensures !Contains(short, input) && !Contains(long, input)
  {
    forall i | 0 <= i <= |long| ensures !(input <= long[i..]) {
      if i <= 2 {
        assert long[i..][0] == long[i] && long[i..][2] == long[i + 2];
      }
    }
  }

  lemma TwoEditsAway(input: string, short: string, long: string)
    requires input == "abcd" && short == "ab" && long == "abxycd"
    ensures Dist(input, short) == 2 && Dist(input, long) == 2
  {
    DistBounds(input, short);
    DistBounds(input, long);
    assert EditAt(input, "abxcd", "ab", "", "x", "cd") && EditAt("abxcd", long, "abx", "", "y", "cd");
    OneEditIsNear(input, "abxcd");
    OneEditIsNear("abxcd", long);
    DistTriangle(input, "abxcd", long);
    assert EditAt(input, "abc", "abc", "d", "", "") && EditAt("abc", short, "ab", "c", "", "");
    OneEditIsNear(input, "abc");
    OneEditIsNear("abc", short);
    DistTriangle(input, "abc", short);
  }
}
