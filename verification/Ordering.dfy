/** Orders, stable sorting and ordered key sets: the standard-library facilities
    (`sort_by`, `sort_by_key`, `sort_unstable_by`, `BTreeMap` iteration) that the
    modelled code relies on. */
module Ordering {

  datatype Option<+T> = None | Some(value: T)

  ghost predicate TotalPreorder<T(!new)>(le: (T, T) -> bool) {
    && (forall a, b :: le(a, b) || le(b, a))
    && (forall a, b, c :: le(a, b) && le(b, c) ==> le(a, c))
  }

  ghost predicate TotalOrder<T(!new)>(le: (T, T) -> bool) {
    && TotalPreorder(le)
    && (forall a, b :: le(a, b) && le(b, a) ==> a == b)
  }

  ghost predicate SortedBy<T>(s: seq<T>, le: (T, T) -> bool) {
    forall i, j :: 0 <= i < j < |s| ==> le(s[i], s[j])
  }

  ghost predicate Distinct<T>(s: seq<T>) {
    forall i, j :: 0 <= i < j < |s| ==> s[i] != s[j]
  }

  /** Places x before the first element it may precede, so that an earlier equal element stays earlier. */
  function Insert<T(!new)>(x: T, s: seq<T>, le: (T, T) -> bool): (r: seq<T>)
    requires TotalPreorder(le) && SortedBy(s, le)
    ensures multiset(r) == multiset{x} + multiset(s)
    ensures SortedBy(r, le)
  {
    if s == [] then [x]
    else if le(x, s[0]) then
      assert s == [s[0]] + s[1..];
      [x] + s
    else
      var rest := Insert(x, s[1..], le);
      assert s == [s[0]] + s[1..];
      assert forall y | y in rest :: le(s[0], y) by {
        forall y | y in rest ensures le(s[0], y) {
          assert y in multiset(rest);
          assert y == x || y in s[1..];
        }
      }
      [s[0]] + rest
  }

  function StableSort<T(!new)>(s: seq<T>, le: (T, T) -> bool): (r: seq<T>)
    requires TotalPreorder(le)
    ensures multiset(r) == multiset(s) && |r| == |s|
    ensures SortedBy(r, le)
  {
    if s == [] then []
    else
      assert s == [s[0]] + s[1..];
      var r := Insert(s[0], StableSort(s[1..], le), le);
      assert |multiset(r)| == |multiset(s)|;
      r
  }

  /** The position of the earliest of the least elements. */
  function FirstLeast<T(!new)>(s: seq<T>, le: (T, T) -> bool): (k: nat)
    requires s != []
    ensures k < |s|
  {
    if |s| == 1 then 0
    else
      var k := 1 + FirstLeast(s[1..], le);
      if le(s[0], s[k]) then 0 else k
  }

  lemma {:induction false} FirstLeastIsLeast<T(!new)>(s: seq<T>, le: (T, T) -> bool)
    requires TotalPreorder(le) && s != []
    ensures forall j :: 0 <= j < |s| ==> le(s[FirstLeast(s, le)], s[j])
    ensures forall j :: 0 <= j < FirstLeast(s, le) ==> !le(s[j], s[FirstLeast(s, le)])
  {
    if |s| > 1 {
      var tail := s[1..];
      FirstLeastIsLeast(tail, le);
      var k := 1 + FirstLeast(tail, le);
      forall j | 0 < j < |s| ensures le(s[k], s[j]) && (j < k ==> !le(s[j], s[k])) {
        assert s[j] == tail[j - 1];
      }
    }
  }

  /** The head of a stably sorted sequence is the earliest of its least elements. */
  lemma {:induction false} SortedHeadIsFirstLeast<T(!new)>(s: seq<T>, le: (T, T) -> bool)
    requires TotalPreorder(le) && s != []
    ensures StableSort(s, le)[0] == s[FirstLeast(s, le)]
  {
    if |s| > 1 {
      SortedHeadIsFirstLeast(s[1..], le);
      InsertHead(s[0], StableSort(s[1..], le), le);
    }
  }

  lemma InsertHead<T(!new)>(x: T, s: seq<T>, le: (T, T) -> bool)
    requires TotalPreorder(le) && SortedBy(s, le)
    ensures Insert(x, s, le) != []
    ensures Insert(x, s, le)[0] == if s == [] || le(x, s[0]) then x else s[0]
  {}

  lemma SortedHeadsAgree<T(!new)>(s: seq<T>, t: seq<T>, le: (T, T) -> bool)
    requires TotalOrder(le) && SortedBy(s, le) && SortedBy(t, le) && s != []
    requires multiset(s) == multiset(t)
    ensures t != [] && s[0] == t[0]
  {
    assert |multiset(s)| == |multiset(t)|;
    assert s[0] in multiset(t) && t[0] in multiset(s);
    assert s[0] in t && t[0] in s;
  }

  lemma TailMultiset<T>(s: seq<T>)
    requires s != []
    ensures multiset(s[1..]) == multiset(s) - multiset{s[0]}
  {
    assert s == [s[0]] + s[1..];
  }

  lemma TailsAgree<T>(s: seq<T>, t: seq<T>)
    requires s != [] && t != [] && s[0] == t[0] && multiset(s) == multiset(t)
    ensures multiset(s[1..]) == multiset(t[1..])
  {
    TailMultiset(s);
    TailMultiset(t);
  }

  /** Under a total order, a multiset has one sorted arrangement. */
  lemma {:induction false} SortedArrangementIsUnique<T(!new)>(s: seq<T>, t: seq<T>, le: (T, T) -> bool)
    requires TotalOrder(le) && SortedBy(s, le) && SortedBy(t, le)
    requires multiset(s) == multiset(t)
    ensures s == t
  {
    if s == [] {
      assert |multiset(t)| == 0;
    } else {
      SortedHeadsAgree(s, t, le);
      TailsAgree(s, t);
      SortedArrangementIsUnique(s[1..], t[1..], le);
      assert s == [s[0]] + s[1..] && t == [t[0]] + t[1..];
    }
  }

  lemma SortKeepsElements<T(!new)>(s: seq<T>, le: (T, T) -> bool)
    requires TotalPreorder(le)
    ensures forall x :: x in StableSort(s, le) <==> x in s
  {
    assert forall x :: x in StableSort(s, le) <==> x in multiset(StableSort(s, le));
    assert forall x :: x in s <==> x in multiset(s);
  }

  lemma DistinctByMultiset<T>(s: seq<T>)
    ensures Distinct(s) <==> forall x :: x in s ==> multiset(s)[x] == 1
  {
    forall i, j | 0 <= i < j < |s| && s[i] == s[j]
      ensures multiset(s)[s[i]] >= 2
    {
      assert s == s[..j] + s[j..];
      assert s[i] in s[..j] && s[j] in s[j..];
    }
    if Distinct(s) {
      forall x | x in s ensures multiset(s)[x] == 1 {
        var i :| 0 <= i < |s| && s[i] == x;
        assert s == s[..i] + [s[i]] + s[i + 1..];
        assert x !in s[..i] && x !in s[i + 1..];
      }
    }
  }

  lemma SortKeepsDistinct<T(!new)>(s: seq<T>, le: (T, T) -> bool)
    requires TotalPreorder(le) && Distinct(s)
    ensures Distinct(StableSort(s, le))
  {
    DistinctByMultiset(s);
    DistinctByMultiset(StableSort(s, le));
    SortKeepsElements(s, le);
  }

  /** The order of `str`: UTF-8 bytewise comparison, which is comparison by Unicode scalar values. */
  predicate StrLe(a: string, b: string) {
    a == [] || (b != [] && (a[0] < b[0] || (a[0] == b[0] && StrLe(a[1..], b[1..]))))
  }

  lemma StrLeTotal(a: string, b: string)
    ensures StrLe(a, b) || StrLe(b, a)
    ensures StrLe(a, b) && StrLe(b, a) ==> a == b
  {
    if a != [] && b != [] {
      assert a == [a[0]] + a[1..] && b == [b[0]] + b[1..];
      StrLeTotal(a[1..], b[1..]);
    }
  }

  lemma StrLeTransitive(a: string, b: string, c: string)
    requires StrLe(a, b) && StrLe(b, c)
    ensures StrLe(a, c)
  {
    if a != [] && a[0] == b[0] == c[0] {
      StrLeTransitive(a[1..], b[1..], c[1..]);
    }
  }

  /** The order of strings by their first difference; a prefix comes first. */
  ghost predicate Lexicographic(a: string, b: string) {
    a <= b || exists i :: DiffersAt(a, b, i)
  }

  /** a and b agree before position i, and a has the smaller character there. */
  ghost predicate DiffersAt(a: string, b: string, i: nat) {
    i < |a| && i < |b| && a[..i] == b[..i] && a[i] < b[i]
  }

  lemma {:induction false} StrLeIsLexicographic(a: string, b: string)
    ensures StrLe(a, b) <==> Lexicographic(a, b)
  {
    if a != [] && b != [] && a[0] == b[0] {
      StrLeIsLexicographic(a[1..], b[1..]);
      TailsDecide(a, b);
    } else if a != [] && b != [] {
      if a[0] < b[0] { assert DiffersAt(a, b, 0); }
      forall i: nat | i > 0 ensures !DiffersAt(a, b, i) {
        if i < |a| && i < |b| { assert a[..i][0] == a[0] && b[..i][0] == b[0]; }
      }
    }
  }

  lemma TailsDecide(a: string, b: string)
    requires a != [] && b != [] && a[0] == b[0]
    ensures Lexicographic(a[1..], b[1..]) <==> Lexicographic(a, b)
  {
    assert a == [a[0]] + a[1..] && b == [b[0]] + b[1..];
    assert a <= b <==> a[1..] <= b[1..];
    forall i: nat ensures DiffersAt(a[1..], b[1..], i) <==> DiffersAt(a, b, i + 1) {
      if i < |a[1..]| && i < |b[1..]| {
        assert a[..i + 1] == [a[0]] + a[1..][..i] && b[..i + 1] == [b[0]] + b[1..][..i];
      }
    }
    if i: nat :| DiffersAt(a, b, i) {
      assert i > 0;
      assert DiffersAt(a[1..], b[1..], i - 1);
    }
    if i: nat :| DiffersAt(a[1..], b[1..], i) {
      assert DiffersAt(a, b, i + 1);
    }
  }

  lemma StrLeIsTotalOrder()
    ensures TotalOrder(StrLe)
  {
    forall a, b ensures (StrLe(a, b) || StrLe(b, a)) && (StrLe(a, b) && StrLe(b, a) ==> a == b) {
      StrLeTotal(a, b);
    }
    forall a, b, c | StrLe(a, b) && StrLe(b, c) ensures StrLe(a, c) {
      StrLeTransitive(a, b, c);
    }
  }

  /** Some enumeration of a set, in no particular order: what iterating a hash map gives. */
  method Enumerate<T>(keys: set<T>) returns (s: seq<T>)
    ensures forall x :: x in s <==> x in keys
    ensures Distinct(s)
  {
    s := [];
    var rest := keys;
    while rest != {}
      invariant rest <= keys && Distinct(s)
      invariant forall x :: x in s <==> x in keys - rest
      decreases rest
    {
      var x :| x in rest;
      assert x !in s;
      s := s + [x];
      rest := rest - {x};
    }
  }

  lemma DistinctEnumerationsAgree<T>(s: seq<T>, t: seq<T>)
    requires Distinct(s) && Distinct(t) && forall x :: x in s <==> x in t
    ensures multiset(s) == multiset(t)
  {
    DistinctByMultiset(s);
    DistinctByMultiset(t);
    forall x ensures multiset(s)[x] == multiset(t)[x] {
      assert x in s <==> x in multiset(s);
      assert x in t <==> x in multiset(t);
    }
  }

  lemma {:induction false} DistinctLength<T>(s: seq<T>, keys: set<T>)
    requires Distinct(s) && forall x :: x in s <==> x in keys
    ensures |s| == |keys|
  {
    if s == [] {
      assert keys == {};
    } else {
      assert s[0] in s;
      forall x ensures x in s[1..] <==> x in keys - {s[0]} {
        assert x in s <==> x == s[0] || x in s[1..];
      }
      DistinctLength(s[1..], keys - {s[0]});
    }
  }

  /** The keys in ascending order, each once: the iteration order of a `BTreeMap`. */
  ghost predicate IsKeyOrder(s: seq<string>, keys: set<string>) {
    Distinct(s) && SortedBy(s, StrLe) && forall k :: k in s <==> k in keys
  }

  lemma KeyOrderIsLexicographic(s: seq<string>, keys: set<string>)
    requires IsKeyOrder(s, keys)
    ensures forall i, j :: 0 <= i < j < |s| ==> s[i] != s[j] && Lexicographic(s[i], s[j])
  {
    forall i, j | 0 <= i < j < |s| ensures s[i] != s[j] && Lexicographic(s[i], s[j]) {
      StrLeIsLexicographic(s[i], s[j]);
    }
  }

  method SortedKeys(keys: set<string>) returns (s: seq<string>)
    ensures IsKeyOrder(s, keys)
  {
    StrLeIsTotalOrder();
    var e := Enumerate(keys);
    s := StableSort(e, StrLe);
    SortKeepsElements(e, StrLe);
    SortKeepsDistinct(e, StrLe);
  }

  lemma KeyOrderIsUnique(s: seq<string>, t: seq<string>, keys: set<string>)
    requires IsKeyOrder(s, keys) && IsKeyOrder(t, keys)
    ensures s == t
  {
    StrLeIsTotalOrder();
    DistinctEnumerationsAgree(s, t);
    SortedArrangementIsUnique(s, t, StrLe);
  }
}
