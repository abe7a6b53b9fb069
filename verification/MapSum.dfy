/** The sum of a finite map's values. */
module MapSum {

  ghost function Sum(m: map<int, nat>): nat
    decreases |m|
  {
    if exists k :: k in m then
      var k :| k in m;
      m[k] + Sum(m - {k})
    else 0
  }

  /** Any key may be summed first. */
  lemma {:induction false} SumSplit(m: map<int, nat>, k: int)
    requires k in m
    ensures Sum(m) == m[k] + Sum(m - {k})
    decreases |m|
  {
    var j :| j in m && Sum(m) == m[j] + Sum(m - {j});
    if j != k {
      SumSplit(m - {j}, k);
      SumSplit(m - {k}, j);
      assert m - {j} - {k} == m - {k} - {j};
    }
  }

  lemma SumUpdate(m: map<int, nat>, k: int, v: nat)
    ensures Sum(m[k := v]) == Sum(m) + v - if k in m then m[k] else 0
  {
    SumSplit(m[k := v], k);
    assert m[k := v] - {k} == m - {k};
    if k in m {
      SumSplit(m, k);
    } else {
      assert m - {k} == m;
    }
  }
}
