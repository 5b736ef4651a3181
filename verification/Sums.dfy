/** The sum of a measure over the values of a finite map. */
module Sums {
  ghost function Sum<K(!new), V(!new)>(m: map<K, V>, f: V -> nat): nat
    decreases |m|
  {
    if m == map[] then 0 else
      var k :| k in m;
      f(m[k]) + Sum(m - {k}, f)
  }

  lemma {:induction false} SumRemove<K(!new), V(!new)>(m: map<K, V>, f: V -> nat, k: K)
    requires k in m
    ensures Sum(m, f) == f(m[k]) + Sum(m - {k}, f)
    decreases |m|
  {
    var j :| j in m && Sum(m, f) == f(m[j]) + Sum(m - {j}, f);
    if j != k {
      SumRemove(m - {j}, f, k);
      SumRemove(m - {k}, f, j);
      assert m - {j} - {k} == m - {k} - {j};
    }
  }

  lemma SumAdd<K(!new), V(!new)>(m: map<K, V>, f: V -> nat, k: K, v: V)
    requires k !in m
    ensures Sum(m[k := v], f) == Sum(m, f) + f(v)
  {
    SumRemove(m[k := v], f, k);
    assert m[k := v] - {k} == m;
  }

  lemma SumUpdate<K(!new), V(!new)>(m: map<K, V>, f: V -> nat, k: K, v: V)
    ensures Sum(m[k := v], f) + (if k in m then f(m[k]) else 0) == Sum(m, f) + f(v)
  {
    if k in m {
      SumRemove(m, f, k);
      SumRemove(m[k := v], f, k);
      assert m[k := v] - {k} == m - {k};
    } else {
      SumAdd(m, f, k, v);
    }
  }

  ghost predicate Within<K(!new), V(!new)>(m: map<K, V>, n: map<K, V>)
  {
    forall k :: k in m ==> k in n && m[k] == n[k]
  }

  lemma {:induction false} SumWithin<K(!new), V(!new)>(m: map<K, V>, n: map<K, V>, f: V -> nat)
    requires Within(m, n)
    ensures Sum(m, f) <= Sum(n, f)
    decreases |m|
  {
    if m != map[] {
      var k :| k in m;
      SumRemove(m, f, k);
      SumRemove(n, f, k);
      SumWithin(m - {k}, n - {k}, f);
    }
  }
}
