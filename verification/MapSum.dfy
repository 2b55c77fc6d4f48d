/** Finite maps of amounts in which a missing key counts as 0, and their sums;
    sizes of sets. */
module MapSum {

  function Get<K>(m: map<K, int>, k: K): int
  {
    if k in m then m[k] else 0
  }

  ghost function Sum<K>(m: map<K, int>): int
  {
    if m == map[] then 0
    else
      var k :| k in m;
      m[k] + Sum(m - {k})
  }

  /** The sum does not depend on the order of summation. */
  lemma {:induction false} SumRemove<K>(m: map<K, int>, k: K)
    ensures Sum(m) == Get(m, k) + Sum(m - {k})
    decreases |m|
  {
    if k !in m {
      assert m - {k} == m;
    } else {
      var j :| j in m && Sum(m) == m[j] + Sum(m - {j});
      if j != k {
        SumRemove(m - {j}, k);
        SumRemove(m - {k}, j);
        assert m - {j} - {k} == m - {k} - {j};
      }
    }
  }

  lemma SumUpdate<K>(m: map<K, int>, k: K, v: int)
    ensures Sum(m[k := v]) == Sum(m) - Get(m, k) + v
  {
    SumRemove(m, k);
    SumRemove(m[k := v], k);
    assert m[k := v] - {k} == m - {k};
  }

  lemma {:induction false} SumNonNegative<K>(m: map<K, int>)
    requires forall k :: k in m ==> m[k] >= 0
    ensures Sum(m) >= 0
    decreases |m|
  {
    if m != map[] {
      var k :| k in m && Sum(m) == m[k] + Sum(m - {k});
      SumNonNegative(m - {k});
    }
  }

  /** Maps that are equal when missing keys count as 0 have equal sums; more
      generally sums add up when the maps do so pointwise. */
  lemma {:induction false} SumAdds<K(!new)>(m: map<K, int>, x: map<K, int>, y: map<K, int>)
    requires forall k :: Get(m, k) == Get(x, k) + Get(y, k)
    ensures Sum(m) == Sum(x) + Sum(y)
    decreases |m| + |x| + |y|
  {
    var keys := m.Keys + x.Keys + y.Keys;
    if keys == {} {
      assert m == map[] && x == map[] && y == map[];
    } else {
      var k :| k in keys;
      SumRemove(m, k); SumRemove(x, k); SumRemove(y, k);
      RemoveShrinks(m, k); RemoveShrinks(x, k); RemoveShrinks(y, k);
      RemoveKeepsPointwise(m, x, y, k);
      assert Get(m, k) == Get(x, k) + Get(y, k);
      hide Sum;
      SumAdds(m - {k}, x - {k}, y - {k});
    }
  }

  lemma RemoveKeepsPointwise<K(!new)>(m: map<K, int>, x: map<K, int>, y: map<K, int>, k: K)
    requires forall j :: Get(m, j) == Get(x, j) + Get(y, j)
    ensures forall j :: Get(m - {k}, j) == Get(x - {k}, j) + Get(y - {k}, j)
  {
    forall j ensures Get(m - {k}, j) == Get(x - {k}, j) + Get(y - {k}, j) {
      assert Get(m, j) == Get(x, j) + Get(y, j);
    }
  }

  lemma RemoveShrinks<K>(m: map<K, int>, k: K)
    ensures |m - {k}| == if k in m then |m| - 1 else |m|
  {
    assert (m - {k}).Keys == m.Keys - {k};
  }

  ghost function ToSet<T>(xs: seq<T>): set<T> { set x | x in xs }

  lemma {:induction false} ToSetSize<T>(xs: seq<T>)
    ensures |ToSet(xs)| <= |xs|
  {
    if xs == [] {
      assert ToSet(xs) == {};
    } else {
      var k := |xs| - 1;
      ToSetSize(xs[..k]);
      assert xs == xs[..k] + [xs[k]];
      assert ToSet(xs) == ToSet(xs[..k]) + {xs[k]};
    }
  }

  lemma {:induction false} SubsetSize<T>(x: set<T>, y: set<T>)
    requires x <= y
    ensures |x| <= |y|
    ensures |x| == |y| ==> x == y
    decreases |x|
  {
    if x == {} {
      assert |y| == 0 ==> y == {};
    } else {
      var a :| a in x;
      SubsetSize(x - {a}, y - {a});
      assert x == (x - {a}) + {a} && y == (y - {a}) + {a};
    }
  }
}
