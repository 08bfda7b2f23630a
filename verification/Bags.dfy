/** Sequences seen as bags, and the uniqueness of sorted sequences. */
module Bags {
  function FlatMap<S, T>(s: seq<S>, f: S -> seq<T>): seq<T>
  {
    if s == [] then [] else f(s[0]) + FlatMap(s[1..], f)
  }

  lemma {:induction false} FlatMapMember<S, T>(s: seq<S>, f: S -> seq<T>, y: T)
    requires y in FlatMap(s, f)
    ensures exists x :: x in s && y in f(x)
  {
    if y in f(s[0]) {
      assert s[0] in s;
    } else {
      FlatMapMember(s[1..], f, y);
      var x :| x in s[1..] && y in f(x);
      assert x in s;
    }
  }

  lemma {:induction false} FlatMapExactly<S, T>(s: seq<S>, f: S -> seq<T>, y: T)
    ensures y in FlatMap(s, f) <==> exists x :: x in s && y in f(x)
  {
    if y in FlatMap(s, f) {
      FlatMapMember(s, f, y);
    } else if s != [] {
      FlatMapExactly(s[1..], f, y);
      forall x | x in s ensures y !in f(x) {
        assert x == s[0] || x in s[1..];
      }
    }
  }

  lemma {:induction false} FlatMapConcat<S, T>(a: seq<S>, b: seq<S>, f: S -> seq<T>)
    ensures FlatMap(a + b, f) == FlatMap(a, f) + FlatMap(b, f)
  {
    if a == [] {
      assert a + b == b;
    } else {
      FlatMapConcat(a[1..], b, f);
      assert (a + b)[1..] == a[1..] + b;
      assert f(a[0]) + (FlatMap(a[1..], f) + FlatMap(b, f)) == f(a[0]) + FlatMap(a[1..], f) + FlatMap(b, f);
    }
  }

  /** Taking an element out of the middle of a list. */
  lemma SplitAt<S>(t: seq<S>, x: S) returns (i: nat)
    requires x in t
    ensures i < |t| && t[i] == x && t == t[..i] + [x] + t[i + 1..]
    ensures multiset(t) == multiset{x} + multiset(t[..i] + t[i + 1..])
  {
    i :| 0 <= i < |t| && t[i] == x;
    assert t == t[..i] + [x] + t[i + 1..];
  }

  lemma HeadOf<S>(s: seq<S>)
    requires s != []
    ensures multiset(s) == multiset{s[0]} + multiset(s[1..])
  {
    assert s == [s[0]] + s[1..];
  }

  lemma FlatMapWithout<S, T>(t: seq<S>, i: nat, g: S -> seq<T>)
    requires i < |t|
    ensures multiset(FlatMap(t, g)) == multiset(g(t[i])) + multiset(FlatMap(t[..i] + t[i + 1..], g))
  {
    var a, b := t[..i], t[i + 1..];
    assert t == a + ([t[i]] + b);
    FlatMapConcat(a, [t[i]] + b, g);
    FlatMapConcat(a, b, g);
    assert ([t[i]] + b)[1..] == b;
    assert FlatMap([t[i]] + b, g) == g(t[i]) + FlatMap(b, g);
  }

  /** Reordering the input, and the results of each element, only reorders the output. */
  lemma {:induction false} FlatMapPermutes<S, T>(s: seq<S>, t: seq<S>, f: S -> seq<T>, g: S -> seq<T>)
    requires multiset(s) == multiset(t)
    requires forall x :: x in s ==> multiset(f(x)) == multiset(g(x))
    ensures multiset(FlatMap(s, f)) == multiset(FlatMap(t, g))
    decreases |s|
  {
    if s == [] {
      assert |multiset(t)| == 0;
      assert t == [];
    } else {
      var x := s[0];
      assert x in multiset(t);
      var i := SplitAt(t, x);
      var rest := t[..i] + t[i + 1..];
      HeadOf(s);
      assert multiset(s[1..]) == multiset(s) - multiset{x} == multiset(rest);
      FlatMapPermutes(s[1..], rest, f, g);
      FlatMapWithout(t, i, g);
    }
  }

  // ---------------------------------------------------------------------
  // Sorted sequences
  // ---------------------------------------------------------------------

  ghost predicate SortedBy<T>(s: seq<T>, leq: (T, T) -> bool)
  {
    forall i, j :: 0 <= i < j < |s| ==> leq(s[i], s[j])
  }

  /** Two sorted arrangements of the same bag are equal when no two of its elements tie. */
  lemma {:induction false} SortedUnique<T>(a: seq<T>, b: seq<T>, leq: (T, T) -> bool)
    requires multiset(a) == multiset(b) && SortedBy(a, leq) && SortedBy(b, leq)
    requires forall x, y :: x in a && y in a && leq(x, y) && leq(y, x) ==> x == y
    ensures a == b
    decreases |a|
  {
    if a == [] {
      assert |multiset(b)| == 0;
    } else {
      assert |multiset(b)| == |a|;
      assert a[0] in multiset(b) && b[0] in multiset(a);
      assert a[0] == b[0];
      HeadOf(a);
      HeadOf(b);
      assert multiset(a[1..]) == multiset(a) - multiset{a[0]} == multiset(b[1..]);
      SortedUnique(a[1..], b[1..], leq);
    }
  }

  ghost predicate TotalOn<T>(s: seq<T>, leq: (T, T) -> bool)
  {
    && (forall x, y :: x in s && y in s ==> leq(x, y) || leq(y, x))
    && (forall x, y, z :: x in s && y in s && z in s && leq(x, y) && leq(y, z) ==> leq(x, z))
  }

  function Insert<T>(x: T, s: seq<T>, leq: (T, T) -> bool): seq<T>
  {
    if s == [] || leq(x, s[0]) then [x] + s else [s[0]] + Insert(x, s[1..], leq)
  }

  /** A reference sort. */
  function InsertionSort<T>(s: seq<T>, leq: (T, T) -> bool): seq<T>
  {
    if s == [] then [] else Insert(s[0], InsertionSort(s[1..], leq), leq)
  }

  lemma {:induction false} InsertBag<T>(x: T, s: seq<T>, leq: (T, T) -> bool)
    ensures multiset(Insert(x, s, leq)) == multiset{x} + multiset(s)
  {
    if s != [] && !leq(x, s[0]) {
      InsertBag(x, s[1..], leq);
      HeadOf(s);
    }
  }

  lemma SortedCons<T>(x: T, s: seq<T>, leq: (T, T) -> bool)
    requires SortedBy(s, leq) && forall j :: 0 <= j < |s| ==> leq(x, s[j])
    ensures SortedBy([x] + s, leq)
  {
  }

  lemma {:induction false} InsertSorted<T>(x: T, s: seq<T>, leq: (T, T) -> bool)
    requires SortedBy(s, leq) && TotalOn([x] + s, leq)
    ensures SortedBy(Insert(x, s, leq), leq)
  {
    if s == [] {
    } else if leq(x, s[0]) {
      forall j | 0 <= j < |s| ensures leq(x, s[j]) {
        assert s[j] in [x] + s && s[0] in [x] + s && x in [x] + s;
      }
      SortedCons(x, s, leq);
    } else {
      var rest := Insert(x, s[1..], leq);
      assert forall y :: y in [x] + s[1..] ==> y in [x] + s;
      InsertSorted(x, s[1..], leq);
      InsertBag(x, s[1..], leq);
      forall j | 0 <= j < |rest| ensures leq(s[0], rest[j]) {
        assert rest[j] in multiset(rest);
        assert s[0] in [x] + s && x in [x] + s;
      }
      SortedCons(s[0], rest, leq);
    }
  }

  lemma {:induction false} SortCorrect<T>(s: seq<T>, leq: (T, T) -> bool)
    requires TotalOn(s, leq)
    ensures SortedBy(InsertionSort(s, leq), leq)
    ensures multiset(InsertionSort(s, leq)) == multiset(s)
  {
    if s != [] {
      var rest := InsertionSort(s[1..], leq);
      assert forall y :: y in s[1..] ==> y in s;
      SortCorrect(s[1..], leq);
      HeadOf(s);
      forall y | y in [s[0]] + rest ensures y in s {
        if y in rest {
          assert y in multiset(rest);
        }
      }
      InsertSorted(s[0], rest, leq);
      InsertBag(s[0], rest, leq);
    }
  }

  /** Every bag can be listed. */
  lemma {:induction false} ListBag<T>(m: multiset<T>) returns (s: seq<T>)
    ensures multiset(s) == m
    decreases |m|
  {
    if m == multiset{} {
      s := [];
    } else {
      var x :| x in m;
      var rest := ListBag(m - multiset{x});
      s := [x] + rest;
    }
  }

  lemma RepeatedInBag<T>(s: seq<T>, p: nat, q: nat)
    requires p < q < |s| && s[p] == s[q]
    ensures multiset(s)[s[p]] >= 2
  {
    assert s == s[..p] + [s[p]] + s[p + 1..q] + [s[q]] + s[q + 1..];
  }
}
