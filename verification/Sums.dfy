/** The total of the values of a finite map. */
module Sums {

  ghost function MapTotal<K(!new)>(m: map<K, nat>): nat
    decreases |m|
  {
    if m == map[] then 0
    else
      var k :| k in m;
      m[k] + MapTotal(m - {k})
  }

  lemma {:induction false} TotalRemove<K(!new)>(m: map<K, nat>, k: K)
    requires k in m
    ensures MapTotal(m) == m[k] + MapTotal(m - {k})
    decreases |m|
  {
    var j :| j in m && MapTotal(m) == m[j] + MapTotal(m - {j});
    if j != k {
      TotalRemove(m - {j}, k);
      TotalRemove(m - {k}, j);
      assert m - {j} - {k} == m - {k} - {j};
    }
  }

  lemma {:induction false} TotalUpdate<K(!new)>(m: map<K, nat>, k: K, v: nat)
    ensures MapTotal(m[k := v]) == v + MapTotal(m - {k})
    ensures |m[k := v]| == |m| + if k in m then 0 else 1
  {
    hide MapTotal;
    TotalRemove(m[k := v], k);
    assert m[k := v] - {k} == m - {k};
    assert m[k := v].Keys == m.Keys + {k};
  }

  lemma {:induction false} TotalAtMost<K(!new)>(m: map<K, nat>, bound: nat)
    requires forall k :: k in m ==> m[k] <= bound
    ensures MapTotal(m) <= |m| * bound
    decreases |m|
  {
    if m != map[] {
      var k :| k in m;
      TotalRemove(m, k);
      var m' := m - {k};
      assert |m| == |m'| + 1 by {
        assert m'.Keys == m.Keys - {k};
      }
      TotalAtMost(m', bound);
      OneMore(|m'|, bound);
    }
  }

  lemma {:induction false} OneMore(n: nat, bound: nat)
    ensures (n + 1) * bound == n * bound + bound
  {
  }
}
