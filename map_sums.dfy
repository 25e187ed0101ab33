/** The sum of the values of a finite map, used to state that groupings neither lose nor duplicate records. */
module MapSums {

  /** The sum of all values of `m`, taken in an unspecified key order. */
  ghost function SumValues<K>(m: map<K, nat>): nat
    decreases |m|
  {
    if m == map[] then 0
    else
      var k :| k in m;
      assert |m - {k}| == |m| - 1 by { assert (m - {k}).Keys == m.Keys - {k}; }
      m[k] + SumValues(m - {k})
  }

  /** The sum does not depend on which key is taken out first. */
  lemma {:induction false} SumValuesRemove<K>(m: map<K, nat>, j: K)
    requires j in m
    ensures SumValues(m) == m[j] + SumValues(m - {j})
    decreases |m|
  {
    var k :| k in m && SumValues(m) == m[k] + SumValues(m - {k});
    if k != j {
      assert (m - {k}).Keys == m.Keys - {k};
      assert |m - {k}| == |m| - 1;
      SumValuesRemove(m - {k}, j);
      assert (m - {k}) - {j} == (m - {j}) - {k};
      assert (m - {j}).Keys == m.Keys - {j};
      assert |m - {j}| == |m| - 1;
      SumValuesRemove(m - {j}, k);
    }
  }

  /** Storing `v` under `k` replaces that key's share of the sum by `v`. */
  lemma SumValuesUpdate<K>(m: map<K, nat>, k: K, v: nat)
    ensures SumValues(m[k := v]) == SumValues(m) - (if k in m then m[k] else 0) + v
  {
    SumValuesRemove(m[k := v], k);
    assert m[k := v] - {k} == m - {k};
    if k in m {
      SumValuesRemove(m, k);
    } else {
      assert m - {k} == m;
    }
  }
}
