/** Sums over the values of a finite map. They give the route finder its
    termination measure and count the entries of an adjacency structure. */
module Sums {

  /** The sum of all values stored in `m`. */
  ghost function MapSum<K>(m: map<K, nat>): nat
    decreases |m.Keys|
  {
    if m.Keys == {} then 0
    else
      var k :| k in m.Keys;
      assert (m - {k}).Keys == m.Keys - {k};
      m[k] + MapSum(m - {k})
  }

  /** Whichever key is taken out first, the sum is the same. */
  lemma {:induction false} MapSumRemove<K>(m: map<K, nat>, k: K)
    requires k in m
    ensures MapSum(m) == m[k] + MapSum(m - {k})
    decreases |m.Keys|
  {
    var j :| j in m.Keys && MapSum(m) == m[j] + MapSum(m - {j});
    if j != k {
      var mj, mk := m - {j}, m - {k};
      assert mj.Keys == m.Keys - {j} && k in mj && mj[k] == m[k];
      assert mk.Keys == m.Keys - {k} && j in mk && mk[j] == m[j];
      MapSumRemove(mj, k);
      MapSumRemove(mk, j);
      assert mj - {k} == mk - {j};
    }
  }

  /** Storing `v` under `k` changes the sum by `v` less the value it replaces. */
  lemma MapSumUpdate<K>(m: map<K, nat>, k: K, v: nat)
    ensures k in m ==> MapSum(m[k := v]) + m[k] == MapSum(m) + v
    ensures k !in m ==> MapSum(m[k := v]) == MapSum(m) + v
  {
    MapSumRemove(m[k := v], k);
    assert m[k := v] - {k} == m - {k};
    if k in m {
      MapSumRemove(m, k);
    } else {
      assert m - {k} == m;
    }
  }

  /** `m` with the value under `k` raised by one, a missing key counting as zero. */
  function Bump<K>(m: map<K, nat>, k: K): map<K, nat> {
    m[k := (if k in m then m[k] else 0) + 1]
  }

  /** Raising one value by one raises the sum by one. */
  lemma MapSumBump<K>(m: map<K, nat>, k: K)
    ensures MapSum(Bump(m, k)) == MapSum(m) + 1
  {
    MapSumUpdate(m, k, (if k in m then m[k] else 0) + 1);
  }
}
