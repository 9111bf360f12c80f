/** Lists of named records, the key maps collected from them, and the shape of a
    merge that walks one list, takes partners out of a map and appends the rest. */
module Named {
  import opened Ordering

  /** Collecting records into a map by name; a later record replaces an earlier one of the same name. */
  function IndexBy<T>(xs: seq<T>, name: T -> string): map<string, T> {
    if xs == [] then map[]
    else
      var last := xs[|xs| - 1];
      IndexBy(xs[..|xs| - 1], name)[name(last) := last]
  }

  ghost predicate DistinctNames<T>(xs: seq<T>, name: T -> string) {
    forall i, j :: 0 <= i < j < |xs| ==> name(xs[i]) != name(xs[j])
  }

  /** `iter().find`: the first record of that name. */
  function FindBy<T>(xs: seq<T>, name: T -> string, k: string): Option<T> {
    if xs == [] then None else if name(xs[0]) == k then Some(xs[0]) else FindBy(xs[1..], name, k)
  }

  function Opt<T>(m: map<string, T>, k: string): Option<T> {
    if k in m then Some(m[k]) else None
  }

  function Names<T>(xs: seq<T>, name: T -> string): (r: seq<string>)
    ensures |r| == |xs|
    ensures forall i :: 0 <= i < |xs| ==> r[i] == name(xs[i])
  {
    seq(|xs|, i requires 0 <= i < |xs| => name(xs[i]))
  }

  /** Collecting keeps the last record of each name. */
  lemma {:induction false} IndexKeepsLast<T>(xs: seq<T>, name: T -> string, j: nat)
    requires j < |xs| && forall i :: j < i < |xs| ==> name(xs[i]) != name(xs[j])
    ensures name(xs[j]) in IndexBy(xs, name) && IndexBy(xs, name)[name(xs[j])] == xs[j]
  {
    if j < |xs| - 1 {
      assert name(xs[|xs| - 1]) != name(xs[j]);
      IndexKeepsLast(xs[..|xs| - 1], name, j);
    }
  }

  lemma {:induction false} IndexHolds<T>(xs: seq<T>, name: T -> string)
    requires DistinctNames(xs, name)
    ensures forall i :: 0 <= i < |xs| ==> name(xs[i]) in IndexBy(xs, name) && IndexBy(xs, name)[name(xs[i])] == xs[i]
  {
    if xs != [] {
      IndexHolds(xs[..|xs| - 1], name);
    }
  }

  lemma {:induction false} IndexComesFrom<T>(xs: seq<T>, name: T -> string)
    ensures forall k :: k in IndexBy(xs, name) ==>
      name(IndexBy(xs, name)[k]) == k && exists i :: 0 <= i < |xs| && xs[i] == IndexBy(xs, name)[k]
    ensures forall i :: 0 <= i < |xs| ==> name(xs[i]) in IndexBy(xs, name)
  {
    if xs != [] {
      var front, last := xs[..|xs| - 1], xs[|xs| - 1];
      IndexComesFrom(front, name);
      forall k | k in IndexBy(xs, name)
        ensures exists i :: 0 <= i < |xs| && xs[i] == IndexBy(xs, name)[k]
      {
        if k == name(last) {
          assert xs[|xs| - 1] == IndexBy(xs, name)[k];
        } else {
          assert k in IndexBy(front, name) && IndexBy(front, name)[k] == IndexBy(xs, name)[k];
          var i :| 0 <= i < |front| && front[i] == IndexBy(front, name)[k];
          assert xs[i] == IndexBy(xs, name)[k];
        }
      }
      forall i | 0 <= i < |xs| ensures name(xs[i]) in IndexBy(xs, name) {
        if i < |front| { assert xs[i] == front[i]; }
      }
    }
  }

  lemma {:induction false} FoundIsSomewhere<T>(xs: seq<T>, name: T -> string, k: string)
    ensures var f := FindBy(xs, name, k);
            if f.Some? then name(f.value) == k && exists i :: 0 <= i < |xs| && xs[i] == f.value
            else forall i :: 0 <= i < |xs| ==> name(xs[i]) != k
  {
    if xs != [] && name(xs[0]) != k {
      FoundIsSomewhere(xs[1..], name, k);
      var f := FindBy(xs[1..], name, k);
      if f.Some? {
        var i :| 0 <= i < |xs[1..]| && xs[1..][i] == f.value;
        assert xs[i + 1] == f.value;
      } else {
        forall i | 0 <= i < |xs| ensures name(xs[i]) != k {
          if i > 0 { assert xs[i] == xs[1..][i - 1]; }
        }
      }
    }
  }

  /** With distinct names, the first match is the collected one. */
  lemma FindIsIndex<T>(xs: seq<T>, name: T -> string, k: string)
    requires DistinctNames(xs, name)
    ensures FindBy(xs, name, k) == Opt(IndexBy(xs, name), k)
  {
    FoundIsSomewhere(xs, name, k);
    IndexHolds(xs, name);
    IndexComesFrom(xs, name);
  }

  /** No earlier record has the name of record j. */
  ghost predicate FirstOfName<T>(xs: seq<T>, name: T -> string, j: nat)
    requires j < |xs|
  {
    forall i :: 0 <= i < j ==> name(xs[i]) != name(xs[j])
  }

  /** Each base record keeps its place. The first of its name is blended with its partner if there is one; partners
      are handed out once, so a later record of the same name stays as it is. The partners nobody took follow in name
      order. */
  ghost predicate MergedByName<T(!new)>(base: seq<T>, add: seq<T>, name: T -> string, blended: (T, T, T) -> bool,
                                        r: seq<T>)
  {
    var partners := IndexBy(add, name);
    && |base| <= |r|
    && (forall j :: 0 <= j < |base| ==>
          && name(r[j]) == name(base[j])
          && if name(base[j]) in partners && FirstOfName(base, name, j) then
               blended(base[j], partners[name(base[j])], r[j])
             else r[j] == base[j])
    && IsKeyOrder(Names(r[|base|..], name), partners.Keys - IndexBy(base, name).Keys)
    && (forall j :: |base| <= j < |r| ==> name(r[j]) in partners && r[j] == partners[name(r[j])])
  }

  lemma MergedNamesDistinct<T(!new)>(base: seq<T>, add: seq<T>, name: T -> string, blended: (T, T, T) -> bool,
                                     r: seq<T>)
    requires MergedByName(base, add, name, blended, r) && DistinctNames(base, name)
    ensures DistinctNames(r, name)
  {
    IndexComesFrom(base, name);
    var tail := Names(r[|base|..], name);
    forall i, j | 0 <= i < j < |r| ensures name(r[i]) != name(r[j]) {
      if j >= |base| {
        assert tail[j - |base|] == name(r[j]) && tail[j - |base|] in tail;
        if i >= |base| {
          assert tail[i - |base|] == name(r[i]);
        } else {
          assert name(base[i]) in IndexBy(base, name);
        }
      }
    }
  }

  /** What a merge means name by name: present on both sides means blended, present on one side means carried. */
  lemma MergedLookup<T(!new)>(base: seq<T>, add: seq<T>, name: T -> string, blended: (T, T, T) -> bool, r: seq<T>,
                              k: string)
    requires MergedByName(base, add, name, blended, r) && DistinctNames(base, name)
    ensures var b, a, m := IndexBy(base, name), IndexBy(add, name), IndexBy(r, name);
      && (k in m <==> k in b || k in a)
      && (k in b && k in a ==> k in m && blended(b[k], a[k], m[k]))
      && (k in b && k !in a ==> k in m && m[k] == b[k])
      && (k !in b && k in a ==> k in m && m[k] == a[k])
  {
    var b, a, m := IndexBy(base, name), IndexBy(add, name), IndexBy(r, name);
    MergedNamesDistinct(base, add, name, blended, r);
    IndexComesFrom(base, name);
    IndexComesFrom(r, name);
    IndexHolds(base, name);
    IndexHolds(r, name);
    if k in b {
      var i :| 0 <= i < |base| && base[i] == b[k];
      assert FirstOfName(base, name, i);
      assert name(r[i]) == k && m[k] == r[i];
    } else if k in a {
      var tail := Names(r[|base|..], name);
      assert k in tail;
      var i :| 0 <= i < |tail| && tail[i] == k;
      assert name(r[|base| + i]) == k;
    }
  }

  lemma {:induction false} FoundFirst<T>(xs: seq<T>, name: T -> string, k: string) returns (j: nat)
    requires FindBy(xs, name, k).Some?
    ensures j < |xs| && xs[j] == FindBy(xs, name, k).value && name(xs[j]) == k && FirstOfName(xs, name, j)
  {
    if name(xs[0]) == k {
      j := 0;
    } else {
      var i := FoundFirst(xs[1..], name, k);
      j := i + 1;
      forall m | 0 <= m < j ensures name(xs[m]) != k {
        if m > 0 { assert xs[m] == xs[1..][m - 1]; }
      }
    }
  }

  lemma {:induction false} FirstIsFound<T>(xs: seq<T>, name: T -> string, j: nat)
    requires j < |xs| && FirstOfName(xs, name, j)
    ensures FindBy(xs, name, name(xs[j])) == Some(xs[j])
  {
    if j > 0 {
      assert name(xs[0]) != name(xs[j]);
      assert forall i :: 0 <= i < j - 1 ==> xs[1..][i] == xs[i + 1];
      FirstIsFound(xs[1..], name, j - 1);
    }
  }

  /** What a first-match lookup finds after a merge, whatever names occur twice: the first base record of that name,
      blended with the last additional one if there is one; without a base record, the last additional one. */
  lemma MergedFirstMatch<T(!new)>(base: seq<T>, add: seq<T>, name: T -> string, blended: (T, T, T) -> bool, r: seq<T>,
                                  k: string)
    requires MergedByName(base, add, name, blended, r)
    ensures var b, a, m := FindBy(base, name, k), Opt(IndexBy(add, name), k), FindBy(r, name, k);
      && (m.Some? <==> b.Some? || a.Some?)
      && (b.Some? && a.Some? ==> blended(b.value, a.value, m.value))
      && (b.Some? && a.None? ==> m == b)
      && (b.None? ==> m == a)
  {
    var b, a, m := FindBy(base, name, k), Opt(IndexBy(add, name), k), FindBy(r, name, k);
    FoundIsSomewhere(base, name, k);
    FoundIsSomewhere(r, name, k);
    if b.Some? {
      var j := FoundFirst(base, name, k);
      FirstIsFound(r, name, j);
    } else if m.Some? {
      var j := FoundFirst(r, name, k);
      assert j >= |base|;
    } else if a.Some? {
      UntakenIsThere(base, add, name, blended, r, k);
    }
  }

  lemma UntakenIsThere<T(!new)>(base: seq<T>, add: seq<T>, name: T -> string, blended: (T, T, T) -> bool, r: seq<T>,
                                k: string)
    requires MergedByName(base, add, name, blended, r) && k in IndexBy(add, name)
    requires forall i :: 0 <= i < |base| ==> name(base[i]) != k
    ensures exists j :: 0 <= j < |r| && name(r[j]) == k
  {
    IndexComesFrom(base, name);
    var tail := Names(r[|base|..], name);
    assert k !in IndexBy(base, name);
    assert k in tail;
    var i :| 0 <= i < |tail| && tail[i] == k;
    assert name(r[|base| + i]) == k;
  }

  // ---- carrying a merge out ----

  /** The values of a map in key order. */
  method IntoValues<T>(m: map<string, T>) returns (keys: seq<string>, values: seq<T>)
    ensures IsKeyOrder(keys, m.Keys) && |values| == |keys|
    ensures forall i :: 0 <= i < |keys| ==> keys[i] in m && values[i] == m[keys[i]]
  {
    keys := SortedKeys(m.Keys);
    values := [];
    for i := 0 to |keys|
      invariant |values| == i && forall j :: 0 <= j < i ==> keys[j] in m && values[j] == m[keys[j]]
    {
      assert keys[i] in keys;
      values := values + [m[keys[i]]];
    }
  }

  /** The first i base records have been walked into out; rest holds the partners nobody has taken. */
  ghost predicate Walk<T>(base: seq<T>, i: nat, partners: map<string, T>, name: T -> string, blended: (T, T, T) -> bool,
                          out: seq<T>, rest: map<string, T>)
  {
    && i <= |base| && |out| == i
    && (forall j :: 0 <= j < i ==> WalkedOne(base, j, partners, name, blended, out[j]))
    && (forall k :: k in rest <==> k in partners && forall j :: 0 <= j < i ==> name(base[j]) != k)
    && (forall k :: k in rest ==> k in partners && rest[k] == partners[k])
  }

  /** One base record after the walk: blended with its partner, or unchanged. */
  ghost predicate WalkedOne<T>(base: seq<T>, j: nat, partners: map<string, T>, name: T -> string,
                               blended: (T, T, T) -> bool, r: T)
    requires j < |base|
  {
    && name(r) == name(base[j])
    && if name(base[j]) in partners && FirstOfName(base, name, j) then blended(base[j], partners[name(base[j])], r)
       else r == base[j]
  }

  lemma WalkStep<T>(base: seq<T>, i: nat, partners: map<string, T>, name: T -> string, blended: (T, T, T) -> bool,
                    out: seq<T>, rest: map<string, T>, r: T)
    requires i < |base| && Walk(base, i, partners, name, blended, out, rest)
    requires name(r) == name(base[i])
    requires if name(base[i]) in rest then blended(base[i], rest[name(base[i])], r) else r == base[i]
    ensures Walk(base, i + 1, partners, name, blended, out + [r], rest - {name(base[i])})
    ensures name(base[i]) !in rest ==> rest - {name(base[i])} == rest
  {
    assert name(base[i]) in rest <==> name(base[i]) in partners && FirstOfName(base, name, i);
    assert WalkedOne(base, i, partners, name, blended, r);
    forall j | 0 <= j < i + 1 ensures WalkedOne(base, j, partners, name, blended, (out + [r])[j]) {}
  }

  /** Walked records followed by the untaken partners in key order make a merge. */
  lemma AppendUntaken<T(!new)>(base: seq<T>, add: seq<T>, name: T -> string, blended: (T, T, T) -> bool,
                               walked: seq<T>, rest: map<string, T>, keys: seq<string>, values: seq<T>)
    requires Walk(base, |base|, IndexBy(add, name), name, blended, walked, rest)
    requires IsKeyOrder(keys, rest.Keys) && |values| == |keys|
    requires forall i :: 0 <= i < |keys| ==> keys[i] in rest && values[i] == rest[keys[i]]
    ensures MergedByName(base, add, name, blended, walked + values)
  {
    var r, partners := walked + values, IndexBy(add, name);
    IndexComesFrom(base, name);
    IndexComesFrom(add, name);
    assert r[|base|..] == values;
    assert Names(values, name) == keys;
    assert rest.Keys == partners.Keys - IndexBy(base, name).Keys;
    forall j | 0 <= j < |base|
      ensures WalkedOne(base, j, partners, name, blended, r[j])
    {
      assert WalkedOne(base, j, partners, name, blended, walked[j]);
    }
    forall j | |base| <= j < |r| ensures name(r[j]) in partners && r[j] == partners[name(r[j])] {
      assert r[j] == values[j - |base|];
    }
  }
}
