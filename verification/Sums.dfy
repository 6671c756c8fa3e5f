/** Totals over maps of counts, independent of the order the entries come in. */
module Sums {
  ghost function Sum<K>(m: map<K, nat>): nat {
    if m == map[] then 0
    else
      var k :| k in m;
      m[k] + Sum(m - {k})
  }

  lemma {:induction false} SumRemove<K>(m: map<K, nat>, k: K)
    requires k in m
    ensures Sum(m) == m[k] + Sum(m - {k})
    decreases |m|
  {
    var j :| j in m && Sum(m) == m[j] + Sum(m - {j});
    if j != k {
      assert (m - {j}).Keys == m.Keys - {j};
      SumRemove(m - {j}, k);
      assert (m - {k}).Keys == m.Keys - {k};
      SumRemove(m - {k}, j);
      assert m - {j} - {k} == m - {k} - {j};
    }
  }

  lemma SumUpdate<K>(m: map<K, nat>, k: K, n: nat)
    ensures Sum(m[k := n]) == Sum(m) + n - if k in m then m[k] else 0
  {
    SumRemove(m[k := n], k);
    if k in m {
      SumRemove(m, k);
      assert m[k := n] - {k} == m - {k};
    } else {
      assert m[k := n] - {k} == m;
    }
  }

  /** An entry added to the total of its key, as a hash map accumulates it. */
  function Added<K>(m: map<K, nat>, k: K, n: nat): map<K, nat> {
    m[k := n + if k in m then m[k] else 0]
  }

  lemma SumAdded<K>(m: map<K, nat>, k: K, n: nat)
    ensures Sum(Added(m, k, n)) == Sum(m) + n
  {
    SumUpdate(m, k, n + if k in m then m[k] else 0);
  }
}
