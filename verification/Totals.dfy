/** Sums over the counters of a map. */
module Totals {

  ghost function Total<T>(m: map<T, nat>): nat {
    if m == map[] then 0
    else
      var k :| k in m;
      m[k] + Total(m - {k})
  }

  lemma {:induction false} TotalTakesOut<T>(m: map<T, nat>, k: T)
    requires k in m
    ensures Total(m) == m[k] + Total(m - {k})
    decreases |m|
  {
    var x :| x in m && Total(m) == m[x] + Total(m - {x});
    if x != k {
      TotalTakesOut(m - {x}, k);
      TotalTakesOut(m - {k}, x);
      assert m - {x} - {k} == m - {k} - {x};
    }
  }

  lemma TotalPut<T>(m: map<T, nat>, k: T, v: nat)
    ensures Total(m[k := v]) == Total(m) - (if k in m then m[k] else 0) + v
  {
    TotalTakesOut(m[k := v], k);
    assert m[k := v] - {k} == m - {k};
    if k in m {
      TotalTakesOut(m, k);
    } else {
      assert m - {k} == m;
    }
  }

  /** Every count lowered by x, and only the positive ones kept. */
  ghost function Reduced<T>(m: map<T, nat>, x: nat): map<T, nat> {
    map k | k in m && m[k] > x :: m[k] - x
  }

  ghost function Heavy<T>(m: map<T, nat>, x: nat): set<T> {
    set k | k in m && m[k] >= x
  }

  /** Lowering takes x from each of the heavy counters. */
  lemma {:induction false} ReducedTotal<T>(m: map<T, nat>, x: nat)
    ensures Total(Reduced(m, x)) + |Heavy(m, x)| * x <= Total(m)
    decreases |m|
  {
    if m == map[] {
      assert Reduced(m, x) == map[] && Heavy(m, x) == {};
    } else {
      var k :| k in m;
      var rest := m - {k};
      ReducedTotal(rest, x);
      TotalTakesOut(m, k);
      if m[k] > x {
        TotalTakesOut(Reduced(m, x), k);
        assert Reduced(m, x) - {k} == Reduced(rest, x);
      } else {
        assert Reduced(m, x) == Reduced(rest, x);
      }
      HeavyRest(m, k, x);
    }
  }

  lemma HeavyRest<T>(m: map<T, nat>, k: T, x: nat)
    requires k in m
    ensures m[k] >= x ==> |Heavy(m, x)| * x == |Heavy(m - {k}, x)| * x + x
    ensures m[k] < x ==> |Heavy(m, x)| == |Heavy(m - {k}, x)|
  {
    if m[k] >= x {
      assert Heavy(m, x) == Heavy(m - {k}, x) + {k};
    } else {
      assert Heavy(m, x) == Heavy(m - {k}, x);
    }
  }
}
