/** Sums over frequency tables (maps from a symbol to a count). */
module Frequencies {

  /** The sum of all values of `m`: the total count of a frequency table. */
  ghost function MapSum<K>(m: map<K, int>): int
  {
    if m == map[] then 0
    else
      var k :| k in m;
      m[k] + MapSum(m - {k})
  }

  /** The sum does not depend on which key is taken out first. */
  lemma {:induction false} MapSumRemove<K>(m: map<K, int>, k: K)
    requires k in m
    ensures MapSum(m) == m[k] + MapSum(m - {k})
    decreases |m|
  {
    var j :| j in m && MapSum(m) == m[j] + MapSum(m - {j});
    if j != k {
      var mj, mk := m - {j}, m - {k};
      assert mj.Keys == m.Keys - {j};
      assert mk.Keys == m.Keys - {k};
      MapSumRemove(mj, k);
      MapSumRemove(mk, j);
      assert mj - {k} == mk - {j};
    }
  }

  /** Removing a present key shrinks a map by one. */
  lemma CardRemove<K>(m: map<K, int>, k: K)
    requires k in m
    ensures |m - {k}| == |m| - 1
  {
    assert (m - {k}).Keys == m.Keys - {k};
  }

  /** Counting one more occurrence of `k` (new or already present) adds one to the total. */
  lemma MapSumIncrement<K>(m: map<K, int>, k: K)
    ensures MapSum(m[k := if k in m then m[k] + 1 else 1]) == MapSum(m) + 1
  {
    var m' := m[k := if k in m then m[k] + 1 else 1];
    MapSumRemove(m', k);
    if k in m {
      MapSumRemove(m, k);
      assert m' - {k} == m - {k};
    } else {
      assert m' - {k} == m;
    }
  }
}
