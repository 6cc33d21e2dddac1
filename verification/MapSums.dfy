/** Sums over the values of a map, and iteration in the arbitrary order of a map. */
module MapSums {

  /** The sum of `size` over all entries. */
  ghost function SumOf<K, V>(m: map<K, V>, size: V -> nat): nat
    decreases |m|
  {
    if m == map[] then 0 else
      var k :| k in m;
      size(m[k]) + SumOf(m - {k}, size)
  }

  /** Any entry can be taken out first. */
  lemma {:induction false} SumTakesOut<K, V>(m: map<K, V>, size: V -> nat, k: K)
    requires k in m
    ensures SumOf(m, size) == size(m[k]) + SumOf(m - {k}, size)
    decreases |m|
  {
    var p :| p in m && SumOf(m, size) == size(m[p]) + SumOf(m - {p}, size);
    if p != k {
      SumTakesOut(m - {p}, size, k);
      SumTakesOut(m - {k}, size, p);
      assert m - {p} - {k} == m - {k} - {p};
    }
  }

  lemma SumUpdates<K, V>(m: map<K, V>, size: V -> nat, k: K, v: V)
    ensures SumOf(m[k := v], size) == SumOf(m, size) - (if k in m then size(m[k]) else 0) + size(v)
  {
    SumTakesOut(m[k := v], size, k);
    assert m[k := v] - {k} == m - {k};
    if k in m {
      SumTakesOut(m, size, k);
    } else {
      assert m - {k} == m;
    }
  }

  /** The key an iteration happens to visit next. */
  method AnyKey<K, V>(m: map<K, V>) returns (k: K)
    requires m != map[]
    ensures k in m
  {
    k :| k in m;
  }

  /** The element an iteration happens to visit next. */
  method AnyOf<K>(s: set<K>) returns (k: K)
    requires s != {}
    ensures k in s
  {
    k :| k in s;
  }

  lemma MergeStep<K, V>(start: map<K, V>, loaded: map<K, V>, remaining: set<K>, k: K)
    requires k in remaining && k in loaded
    ensures (start + (loaded - remaining))[k := loaded[k]] == start + (loaded - (remaining - {k}))
  {
  }

  /** Writes the entries of `loaded` over `start`, one by one. */
  method Merge<K(==), V>(start: map<K, V>, loaded: map<K, V>) returns (merged: map<K, V>)
    ensures merged == start + loaded
  {
    merged := start;
    var remaining := loaded.Keys;
    assert loaded - remaining == map[] && start + map[] == start;
    while remaining != {}
      invariant remaining <= loaded.Keys && merged == start + (loaded - remaining)
      decreases |remaining|
    {
      var k := AnyOf(remaining);
      MergeStep(start, loaded, remaining, k);
      merged := merged[k := loaded[k]];
      remaining := remaining - {k};
    }
    assert loaded - {} == loaded;
  }
}
