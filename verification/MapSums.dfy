/** Sums over the entries of a map, in whatever order they are taken. */
module MapSums {

  ghost function Pick<K(!new), V>(m: map<K, V>): (k: K)
    requires m != map[]
    ensures k in m
  {
    assert m.Keys != {};
    var k :| k in m; k
  }

  lemma Shrinks<K, V>(m: map<K, V>, k: K)
    requires k in m
    ensures |m - {k}| == |m| - 1
  {
    assert (m - {k}).Keys == m.Keys - {k};
    assert |m| == |m.Keys| && |m - {k}| == |(m - {k}).Keys|;
  }

  ghost function Sum<K(!new), V>(m: map<K, V>, weight: (K, V) -> nat): nat
    decreases |m|
  {
    if m == map[] then 0
    else
      var k := Pick(m);
      Shrinks(m, k);
      weight(k, m[k]) + Sum(m - {k}, weight)
  }

  /** The order in which the sum picks its entries does not matter. */
  lemma {:induction false} SumWithout<K(!new), V>(m: map<K, V>, k: K, weight: (K, V) -> nat)
    requires k in m
    ensures Sum(m, weight) == weight(k, m[k]) + Sum(m - {k}, weight)
    decreases |m|
  {
    var first := Pick(m);
    if first != k {
      var rest := m - {first};
      Shrinks(m, first);
      Shrinks(m, k);
      SumWithout(rest, k, weight);
      SumWithout(m - {k}, first, weight);
      assert rest - {k} == m - {k} - {first};
    }
  }

  lemma SumWith<K(!new), V>(m: map<K, V>, k: K, v: V, weight: (K, V) -> nat)
    requires k !in m
    ensures Sum(m[k := v], weight) == weight(k, v) + Sum(m, weight)
  {
    SumWithout(m[k := v], k, weight);
    assert m[k := v] - {k} == m;
  }
}
