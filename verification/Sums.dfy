/** Sums over finite maps. */
module Sums {
  lemma NoMembers(s: set<int>)
    requires forall x :: x !in s
    ensures s == {}
  {
    assert forall x | x in s :: x in {};
  }

  ghost function SumOver(keys: set<int>, m: map<int, int>): int
    requires keys <= m.Keys
  {
    if k :| k in keys then m[k] + SumOver(keys - {k}, m) else 0
  }

  ghost function Total(m: map<int, int>): int {
    SumOver(m.Keys, m)
  }

  lemma {:induction false} SumRemove(keys: set<int>, m: map<int, int>, k: int)
    requires keys <= m.Keys && k in keys
    ensures SumOver(keys, m) == m[k] + SumOver(keys - {k}, m)
  {
    var x :| x in keys && SumOver(keys, m) == m[x] + SumOver(keys - {x}, m);
    if x != k {
      SumRemove(keys - {x}, m, k);
      SumRemove(keys - {k}, m, x);
      assert keys - {x} - {k} == keys - {k} - {x};
    }
  }

  lemma {:induction false} SumSame(keys: set<int>, m: map<int, int>, n: map<int, int>)
    requires keys <= m.Keys && keys <= n.Keys && forall k :: k in keys ==> m[k] == n[k]
    ensures SumOver(keys, m) == SumOver(keys, n)
  {
    if k :| k in keys {
      SumRemove(keys, m, k);
      SumRemove(keys, n, k);
      SumSame(keys - {k}, m, n);
    }
  }

  lemma {:induction false} SumMonotone(keys: set<int>, m: map<int, int>, more: set<int>, n: map<int, int>)
    requires keys <= m.Keys && more <= n.Keys && keys <= more
    requires forall k :: k in more ==> 0 <= n[k]
    requires forall k :: k in keys ==> m[k] <= n[k]
    ensures SumOver(keys, m) <= SumOver(more, n)
  {
    if k :| k in more {
      SumRemove(more, n, k);
      SumMonotone(keys - {k}, m, more - {k}, n);
      if k in keys {
        SumRemove(keys, m, k);
      } else {
        assert keys - {k} == keys;
      }
    }
  }

  lemma TotalRemove(m: map<int, int>, k: int)
    requires k in m
    ensures Total(m) == m[k] + Total(m - {k})
  {
    SumRemove(m.Keys, m, k);
    assert (m - {k}).Keys == m.Keys - {k};
    SumSame(m.Keys - {k}, m, m - {k});
  }

  lemma TotalAdd(m: map<int, int>, k: int, v: int)
    requires k !in m
    ensures Total(m[k := v]) == Total(m) + v
  {
    TotalRemove(m[k := v], k);
    assert m[k := v] - {k} == m;
  }

  lemma TotalUpdate(m: map<int, int>, k: int, v: int)
    requires k in m
    ensures Total(m[k := v]) == Total(m) - m[k] + v
  {
    TotalRemove(m, k);
    TotalRemove(m[k := v], k);
    assert m[k := v] - {k} == m - {k};
  }

  lemma TotalMonotone(m: map<int, int>, n: map<int, int>)
    requires m.Keys <= n.Keys
    requires forall k :: k in n ==> 0 <= n[k]
    requires forall k :: k in m ==> m[k] <= n[k]
    ensures Total(m) <= Total(n)
  {
    SumMonotone(m.Keys, m, n.Keys, n);
  }
}
