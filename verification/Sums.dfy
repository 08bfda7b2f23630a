/** Sums of finite integer-valued maps: total balances, total voting power and
    total fees are all sums of this kind. */
module Sums {
  ghost function Sum<K>(m: map<K, int>): int
  {
    if m == map[] then 0
    else
      var k :| k in m;
      m[k] + Sum(m - {k})
  }

  /** The value stored under `k`, or 0. */
  function Get<K>(m: map<K, int>, k: K): int
  {
    if k in m then m[k] else 0
  }

  /** The sum does not depend on the key that is taken out first. */
  lemma {:induction false} SumRemove<K>(m: map<K, int>, k: K)
    requires k in m
    ensures Sum(m) == m[k] + Sum(m - {k})
    decreases |m|
  {
    var j :| j in m && Sum(m) == m[j] + Sum(m - {j});
    if j != k {
      SumRemove(m - {j}, k);
      assert m - {j} - {k} == m - {k} - {j};
      SumRemove(m - {k}, j);
    }
  }

  lemma SumWithout<K>(m: map<K, int>, k: K)
    ensures Sum(m - {k}) == Sum(m) - Get(m, k)
  {
    if k in m {
      SumRemove(m, k);
    } else {
      assert m - {k} == m;
    }
  }

  lemma SumUpdate<K>(m: map<K, int>, k: K, v: int)
    ensures Sum(m[k := v]) == Sum(m) - Get(m, k) + v
  {
    SumRemove(m[k := v], k);
    assert m[k := v] - {k} == m - {k};
    SumWithout(m, k);
  }

  /** Pointwise domination carries over to sums; keys missing on the left count as 0. */
  lemma {:induction false} SumLeq<K>(a: map<K, int>, b: map<K, int>)
    requires forall k :: k in a ==> k in b && a[k] <= b[k]
    requires forall k :: k in b ==> 0 <= b[k]
    ensures Sum(a) <= Sum(b)
    decreases |b|
  {
    if b == map[] {
      assert a == map[];
    } else {
      var k :| k in b;
      SumRemove(b, k);
      SumWithout(a, k);
      SumLeq(a - {k}, b - {k});
    }
  }

  lemma SumNonNegative<K>(m: map<K, int>)
    requires forall k :: k in m ==> 0 <= m[k]
    ensures 0 <= Sum(m)
  {
    assert Sum<K>(map[]) == 0;
    SumLeq(map[], m);
  }

  /** Two disjoint parts of a map add up to the whole. */
  lemma {:induction false} SumSplit<K>(m: map<K, int>, s: set<K>)
    ensures Sum(m) == Sum(m - s) + Sum(map k | k in m && k in s :: m[k])
    decreases |s|
  {
    var part := map k | k in m && k in s :: m[k];
    if s == {} {
      assert m - s == m && part == map[];
    } else {
      var k :| k in s;
      var s' := s - {k};
      SumSplit(m, s');
      var part' := map j | j in m && j in s' :: m[j];
      SumWithout(m - s', k);
      assert m - s' - {k} == m - s;
      SumWithout(part, k);
      assert part - {k} == part';
    }
  }

  /** Taking keys out lowers the sum by what they stand for. */
  lemma {:induction false} SumOver<K>(m: map<K, int>, s: set<K>)
    ensures Sum(map k | k in s :: Get(m, k)) == Sum(m) - Sum(m - s)
    decreases |s|
  {
    hide Sum;
    var all := map k | k in s :: Get(m, k);
    if s == {} {
      assert m - s == m && all == map[];
      NoKeys<K>();
    } else {
      var k :| k in s;
      SumOver(m, s - {k});
      assert all == (map j | j in s - {k} :: Get(m, j))[k := Get(m, k)];
      SumUpdate(map j | j in s - {k} :: Get(m, j), k, Get(m, k));
      SumWithout(m - (s - {k}), k);
      assert m - (s - {k}) - {k} == m - s;
    }
  }

  lemma NoKeys<K>()
    ensures Sum<K>(map[]) == 0
  {
  }

  /** Pointwise addition; missing keys count as 0. */
  function Plus<K>(a: map<K, int>, b: map<K, int>): map<K, int>
  {
    map k | k in a.Keys + b.Keys :: Get(a, k) + Get(b, k)
  }

  /** Adding one more key of `b` is one update of the sum so far. */
  lemma PlusUpdate<K>(a: map<K, int>, b: map<K, int>, k: K, v: int)
    requires k !in b
    ensures Plus(a, b[k := v]) == Plus(a, b)[k := Get(Plus(a, b), k) + v]
  {
    var p, q := Plus(a, b[k := v]), Plus(a, b)[k := Get(Plus(a, b), k) + v];
    assert p.Keys == q.Keys;
    forall j | j in p ensures p[j] == q[j] {
    }
  }

  lemma PlusNothing<K>(a: map<K, int>)
    ensures Plus(a, map[]) == a
  {
  }

  lemma {:induction false} SumPlus<K>(a: map<K, int>, b: map<K, int>)
    ensures Sum(Plus(a, b)) == Sum(a) + Sum(b)
    decreases |b|
  {
    hide Plus;
    if b == map[] {
      PlusNothing(a);
    } else {
      hide Sum;
      var k :| k in b;
      var b' := b - {k};
      SumPlus(a, b');
      SumUpdate(b', k, b[k]);
      assert b == b'[k := b[k]];
      PlusUpdate(a, b', k, b[k]);
      SumUpdate(Plus(a, b'), k, Get(Plus(a, b'), k) + b[k]);
    }
  }

  lemma {:induction false} SumConstant<K>(s: set<K>, c: int)
    ensures Sum(map k | k in s :: c) == c * |s|
    decreases |s|
  {
    var m := map k | k in s :: c;
    if s != {} {
      var k :| k in s;
      SumWithout(m, k);
      assert m - {k} == map j | j in s - {k} :: c;
      SumConstant(s - {k}, c);
      assert |s| == |s - {k}| + 1;
      assert c * |s| == c * |s - {k}| + c;
    }
  }
}
