/** Query results: a finite set delivered as a list, in an order the model leaves open. */
module Enumerations {
  function Elements<T>(q: seq<T>): set<T>
  {
    set x | x in q
  }

  ghost predicate Distinct<T>(q: seq<T>)
  {
    forall i, j :: 0 <= i < j < |q| ==> q[i] != q[j]
  }

  ghost predicate Enumerates<T>(q: seq<T>, s: set<T>)
  {
    Distinct(q) && (forall x :: x in q ==> x in s) && (forall x :: x in s ==> x in q)
  }

  method Enumerate<T(==)>(s: set<T>) returns (q: seq<T>)
    ensures Enumerates(q, s)
  {
    q := [];
    var rest := s;
    while rest != {}
      invariant Distinct(q) && Elements(q) !! rest && Elements(q) + rest == s
      decreases rest
    {
      var x :| x in rest;
      assert Elements(q + [x]) == Elements(q) + {x};
      q, rest := q + [x], rest - {x};
    }
  }

  lemma ElementsAppend<T>(q: seq<T>, x: T)
    ensures Elements(q + [x]) == Elements(q) + {x}
  {
  }

  lemma ElementsConcat<T>(p: seq<T>, q: seq<T>)
    ensures Elements(p + q) == Elements(p) + Elements(q)
  {
  }

  lemma DistinctAppend<T>(q: seq<T>, x: T)
    requires Distinct(q) && x !in q
    ensures Distinct(q + [x])
  {
  }

  lemma DistinctConcat<T>(p: seq<T>, q: seq<T>)
    ensures Distinct(p + q) <==> Distinct(p) && Distinct(q) && forall x :: x in p ==> x !in q
  {
    var r := p + q;
    if Distinct(r) {
      forall i, j | 0 <= i < j < |q| ensures q[i] != q[j] {
        assert r[|p| + i] == q[i] && r[|p| + j] == q[j];
      }
      forall i, j | 0 <= i < |p| && 0 <= j < |q| ensures p[i] != q[j] {
        assert r[i] == p[i] && r[|p| + j] == q[j];
      }
      forall i, j | 0 <= i < j < |p| ensures p[i] != p[j] {
        assert r[i] == p[i] && r[j] == p[j];
      }
    }
    if Distinct(p) && Distinct(q) && forall x :: x in p ==> x !in q {
      forall i, j | 0 <= i < j < |r| ensures r[i] != r[j] {
        if i < |p| <= j {
          assert r[i] in p && r[j] == q[j - |p|];
        }
      }
    }
  }

  lemma SubsetSize<T>(a: set<T>, b: set<T>)
    requires a <= b
    ensures |a| <= |b|
  {
    assert b == a + (b - a);
  }

  lemma {:induction false} DistinctBag<T>(q: seq<T>)
    requires Distinct(q)
    ensures multiset(q) == multiset(Elements(q)) && |Elements(q)| == |q|
  {
    if q != [] {
      var front, last := q[..|q| - 1], q[|q| - 1];
      assert q == front + [last];
      DistinctBag(front);
      ElementsAppend(front, last);
    }
  }
}
