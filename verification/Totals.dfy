/** Totals over finite maps. */
module Totals {

  /** The sum of the sizes of all entries. */
  ghost function Total<K, V>(m: map<K, V>, size: V -> nat): nat {
    if m == map[] then 0
    else
      var k :| k in m;
      size(m[k]) + Total(m - {k}, size)
  }

  lemma FewerWithout<K, V>(m: map<K, V>, k: K)
    requires k in m
    ensures |m - {k}| < |m|
  {
    assert (m - {k}).Keys == m.Keys - {k};
  }

  /** Which entry is counted first makes no difference. */
  lemma {:induction false} TotalWithout<K, V>(m: map<K, V>, k: K, size: V -> nat)
    requires k in m
    ensures Total(m, size) == size(m[k]) + Total(m - {k}, size)
    decreases |m|
  {
    var j :| j in m && Total(m, size) == size(m[j]) + Total(m - {j}, size);
    if j != k {
      FewerWithout(m, j);
      FewerWithout(m, k);
      TotalWithout(m - {j}, k, size);
      TotalWithout(m - {k}, j, size);
      assert m - {j} - {k} == m - {k} - {j};
    }
  }

  lemma {:induction false} TotalOfPart<K, V>(part: map<K, V>, whole: map<K, V>, size: V -> nat)
    requires part.Keys <= whole.Keys && forall k :: k in part ==> part[k] == whole[k]
    ensures Total(part, size) <= Total(whole, size)
    decreases |part|
  {
    if part != map[] {
      var k :| k in part;
      TotalWithout(part, k, size);
      TotalWithout(whole, k, size);
      FewerWithout(part, k);
      TotalOfPart(part - {k}, whole - {k}, size);
    }
  }

  lemma TotalAfterUpdate<K, V>(m: map<K, V>, k: K, v: V, size: V -> nat)
    ensures Total(m[k := v], size) == size(v) + Total(m - {k}, size)
    ensures k !in m ==> m - {k} == m
  {
    TotalWithout(m[k := v], k, size);
    assert m[k := v] - {k} == m - {k};
  }
}
