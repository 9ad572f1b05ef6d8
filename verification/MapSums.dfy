/** Totals over the values of a finite map: the aggregate behind storage quotas,
    queue depth and drain measures. */
module MapSums {

  /** The sum of all values of m. */
  ghost function Total<K(!new)>(m: map<K, nat>): nat
  {
    if m == map[] then 0
    else
      var k :| k in m;
      m[k] + Total(m - {k})
  }

  /** Any key may be taken out first. */
  lemma {:induction false} TotalSplit<K(!new)>(m: map<K, nat>, k: K)
    requires k in m
    ensures Total(m) == m[k] + Total(m - {k})
    decreases |m|
  {
    var p :| p in m && Total(m) == m[p] + Total(m - {p});
    if p != k {
      TotalSplit(m - {p}, k);
      TotalSplit(m - {k}, p);
      assert m - {p} - {k} == m - {k} - {p};
    }
  }

  /** Writing one key replaces exactly that key's share of the total. */
  lemma TotalUpdate<K(!new)>(m: map<K, nat>, k: K, v: nat)
    ensures Total(m[k := v]) == v + Total(m - {k})
    ensures k !in m ==> Total(m[k := v]) == v + Total(m)
  {
    TotalSplit(m[k := v], k);
    assert m[k := v] - {k} == m - {k};
    if k !in m {
      assert m - {k} == m;
    }
  }

  lemma {:induction false} TotalOfZeros<K(!new)>(m: map<K, nat>)
    requires forall k :: k in m ==> m[k] == 0
    ensures Total(m) == 0
    decreases |m|
  {
    if m != map[] {
      var k :| k in m;
      TotalSplit(m, k);
      TotalOfZeros(m - {k});
    }
  }

  /** No share exceeds the total. */
  lemma {:induction false} TotalBoundsEach<K(!new)>(m: map<K, nat>, k: K)
    requires k in m
    ensures m[k] <= Total(m)
  {
    TotalSplit(m, k);
  }
}
