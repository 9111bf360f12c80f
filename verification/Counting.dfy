/** Counting the elements of a sequence that satisfy a predicate. */
module Counting {
  import opened Ordering

  /** How many elements satisfy p: the plain count. */
  function Count<T>(s: seq<T>, p: T -> bool): (c: nat)
    ensures c <= |s|
  {
    if s == [] then 0 else (if p(s[0]) then 1 else 0) + Count(s[1..], p)
  }

  lemma {:induction false} CountOfConcat<T>(s: seq<T>, t: seq<T>, p: T -> bool)
    ensures Count(s + t, p) == Count(s, p) + Count(t, p)
  {
    if s == [] {
      assert s + t == t;
    } else {
      assert (s + t)[1..] == s[1..] + t;
      CountOfConcat(s[1..], t, p);
    }
  }

  lemma SplitOut<T>(t: seq<T>, k: nat)
    requires k < |t|
    ensures multiset(t[..k] + t[k + 1..]) == multiset(t) - multiset{t[k]}
  {
    assert t == t[..k] + [t[k]] + t[k + 1..];
  }

  lemma CountWithout<T>(t: seq<T>, k: nat, p: T -> bool)
    requires k < |t|
    ensures Count(t, p) == (if p(t[k]) then 1 else 0) + Count(t[..k] + t[k + 1..], p)
  {
    CountOfConcat(t[..k], t[k + 1..], p);
    CountOfConcat(t[..k], t[k..], p);
    assert t == t[..k] + t[k..];
  }

  lemma HeadOccurs<T>(s: seq<T>, t: seq<T>) returns (k: nat)
    requires s != [] && multiset(s) == multiset(t)
    ensures k < |t| && t[k] == s[0]
    ensures multiset(s[1..]) == multiset(t[..k] + t[k + 1..])
  {
    assert s[0] in multiset(t);
    k :| 0 <= k < |t| && t[k] == s[0];
    TailMultiset(s);
    SplitOut(t, k);
  }

  /** Counting ignores arrangement. */
  lemma {:induction false} CountByMultiset<T>(s: seq<T>, t: seq<T>, p: T -> bool)
    requires multiset(s) == multiset(t)
    ensures Count(s, p) == Count(t, p)
  {
    if s == [] {
      assert |multiset(t)| == 0;
    } else {
      var k := HeadOccurs(s, t);
      CountByMultiset(s[1..], t[..k] + t[k + 1..], p);
      CountWithout(t, k, p);
    }
  }

  /** Which positions satisfy p: counting them is taking the cardinality of this set. */
  function Positions<T>(s: seq<T>, p: T -> bool): set<nat> {
    set i: nat | i < |s| && p(s[i])
  }

  lemma {:induction false} CountIsCardinality<T>(s: seq<T>, p: T -> bool)
    ensures Count(s, p) == |Positions(s, p)|
  {
    if s == [] {
      assert Positions(s, p) == {};
    } else {
      var n := |s| - 1;
      var front := s[..n];
      CountIsCardinality(front, p);
      assert s == front + [s[n]];
      CountOfConcat(front, [s[n]], p);
      assert Positions(s, p) == Positions(front, p) + if p(s[n]) then {n} else {};
    }
  }

  lemma {:induction false} CountMonotone<T(!new)>(s: seq<T>, p: T -> bool, r: T -> bool)
    requires forall x :: p(x) ==> r(x)
    ensures Count(s, p) <= Count(s, r)
  {
    if s != [] { CountMonotone(s[1..], p, r); }
  }
}
