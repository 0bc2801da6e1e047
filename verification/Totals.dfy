/** Sums over maps. */
module Totals {

  /** The sum of all values. */
  ghost function Total<K>(m: map<K, int>): int {
    if m == map[] then 0
    else
      var k :| k in m;
      m[k] + Total(m - {k})
  }

  lemma {:induction false} TotalPick<K>(m: map<K, int>, k: K)
    requires k in m
    ensures Total(m) == m[k] + Total(m - {k})
  {
    var j :| j in m && Total(m) == m[j] + Total(m - {j});
    if j != k {
      TotalPick(m - {j}, k);
      TotalPick(m - {k}, j);
      assert m - {j} - {k} == m - {k} - {j};
    }
  }

  lemma TotalPut<K>(m: map<K, int>, k: K, v: int)
    ensures Total(m[k := v]) == Total(m - {k}) + v
    ensures k !in m ==> Total(m[k := v]) == Total(m) + v
    ensures k in m ==> Total(m[k := v]) == Total(m) - m[k] + v
  {
    TotalPick(m[k := v], k);
    assert m[k := v] - {k} == m - {k};
    if k in m {
      TotalPick(m, k);
    } else {
      assert m - {k} == m;
    }
  }

  lemma {:induction false} TotalNat<K>(m: map<K, int>)
    requires forall k <- m :: m[k] >= 0
    ensures Total(m) >= 0
    ensures forall k <- m :: m[k] <= Total(m)
  {
    if m != map[] {
      var j :| j in m && Total(m) == m[j] + Total(m - {j});
      TotalNat(m - {j});
      forall k <- m
        ensures m[k] <= Total(m)
      {
        if k != j {
          assert (m - {j})[k] == m[k];
        }
      }
    }
  }
}
