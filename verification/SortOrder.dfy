/** ORDER BY: lexicographic comparison by a list of sort keys. */
module SortOrder {
  import opened Joins
  import opened Bags

  datatype SortKey<!X> = SortKey(f: X -> Value, desc: bool, nullsFirst: bool)

  /** NULLs compare equal to each other and sit at one end. */
  function LeqValue(desc: bool, nullsFirst: bool, v: Value, w: Value): bool
  {
    if v == w then true
    else if v.Null? then nullsFirst
    else if w.Null? then !nullsFirst
    else if desc then v.n >= w.n else v.n <= w.n
  }

  /** Values in the key's direction, NULLs first or last as it says. */
  lemma LeqExactly(desc: bool, nullsFirst: bool, v: Value, w: Value)
    ensures v.Val? && w.Val? && !desc ==> (LeqValue(desc, nullsFirst, v, w) <==> v.n <= w.n)
    ensures v.Val? && w.Val? && desc ==> (LeqValue(desc, nullsFirst, v, w) <==> w.n <= v.n)
    ensures v.Null? && w.Val? ==> LeqValue(desc, nullsFirst, v, w) == nullsFirst != LeqValue(desc, nullsFirst, w, v)
    ensures v == w ==> LeqValue(desc, nullsFirst, v, w)
  {
  }

  predicate LexLeq<X>(keys: seq<SortKey<X>>, a: X, b: X)
  {
    if keys == [] then true
    else if keys[0].f(a) == keys[0].f(b) then LexLeq(keys[1..], a, b)
    else LeqValue(keys[0].desc, keys[0].nullsFirst, keys[0].f(a), keys[0].f(b))
  }

  ghost predicate Tie<X>(keys: seq<SortKey<X>>, a: X, b: X)
  {
    forall i :: 0 <= i < |keys| ==> keys[i].f(a) == keys[i].f(b)
  }

  /** Rows compare equal only when they agree on every key. */
  lemma {:induction false} LexTie<X>(keys: seq<SortKey<X>>, a: X, b: X)
    ensures LexLeq(keys, a, b) && LexLeq(keys, b, a) <==> Tie(keys, a, b)
  {
    if keys != [] {
      LexTie(keys[1..], a, b);
      assert Tie(keys, a, b) <==> keys[0].f(a) == keys[0].f(b) && Tie(keys[1..], a, b) by {
        forall i | 0 <= i < |keys| - 1 ensures keys[1..][i] == keys[i + 1] {
        }
        if keys[0].f(a) == keys[0].f(b) && Tie(keys[1..], a, b) {
          forall i | 0 <= i < |keys| ensures keys[i].f(a) == keys[i].f(b) {
            assert i > 0 ==> keys[i] == keys[1..][i - 1];
          }
        }
      }
    }
  }

  /** Extra keys that cannot separate tied rows change no comparison. */
  lemma {:induction false} LexRedundant<X>(keys: seq<SortKey<X>>, extra: seq<SortKey<X>>, a: X, b: X)
    requires Tie(keys, a, b) ==> Tie(extra, a, b)
    ensures LexLeq(keys + extra, a, b) == LexLeq(keys, a, b)
  {
    if keys == [] {
      assert keys + extra == extra;
      LexTie(extra, a, b);
    } else {
      assert (keys + extra)[1..] == keys[1..] + extra;
      if keys[0].f(a) == keys[0].f(b) {
        if Tie(keys[1..], a, b) {
          forall i | 0 <= i < |keys| ensures keys[i].f(a) == keys[i].f(b) {
            assert i > 0 ==> keys[i] == keys[1..][i - 1];
          }
        }
        LexRedundant(keys[1..], extra, a, b);
      }
    }
  }

  /** A statement's row order: some arrangement of the bag that its ORDER BY accepts. */
  ghost predicate Arranges<X>(s: seq<X>, bag: multiset<X>, keys: seq<SortKey<X>>)
  {
    multiset(s) == bag && SortedBy(s, (a, b) => LexLeq(keys, a, b))
  }

  // ---------------------------------------------------------------------
  // Key vectors
  // ---------------------------------------------------------------------

  function Vector<X>(keys: seq<SortKey<X>>, a: X): seq<Value>
  {
    seq(|keys|, i requires 0 <= i < |keys| => keys[i].f(a))
  }

  function Directions<X>(keys: seq<SortKey<X>>): seq<(bool, bool)>
  {
    seq(|keys|, i requires 0 <= i < |keys| => (keys[i].desc, keys[i].nullsFirst))
  }

  predicate VectorLeq(dirs: seq<(bool, bool)>, u: seq<Value>, v: seq<Value>)
  {
    if dirs == [] || u == [] || v == [] then true
    else if u[0] == v[0] then VectorLeq(dirs[1..], u[1..], v[1..])
    else LeqValue(dirs[0].0, dirs[0].1, u[0], v[0])
  }

  lemma {:induction false} LexIsVector<X>(keys: seq<SortKey<X>>, a: X, b: X)
    ensures LexLeq(keys, a, b) == VectorLeq(Directions(keys), Vector(keys, a), Vector(keys, b))
  {
    if keys != [] {
      LexIsVector(keys[1..], a, b);
      assert Directions(keys)[1..] == Directions(keys[1..]);
      assert Vector(keys, a)[1..] == Vector(keys[1..], a) && Vector(keys, b)[1..] == Vector(keys[1..], b);
    }
  }

  lemma {:induction false} VectorAntisymmetric(dirs: seq<(bool, bool)>, u: seq<Value>, v: seq<Value>)
    requires |u| == |v| == |dirs| && VectorLeq(dirs, u, v) && VectorLeq(dirs, v, u)
    ensures u == v
  {
    if dirs != [] {
      VectorAntisymmetric(dirs[1..], u[1..], v[1..]);
      assert u == [u[0]] + u[1..] && v == [v[0]] + v[1..];
    }
  }

  /** Two arrangements of one bag may differ only between tied rows; whatever ties agree on is
      the same sequence in both. */
  lemma ObservationUnique<X, Y>(s: seq<X>, t: seq<X>, bag: multiset<X>, keys: seq<SortKey<X>>, g: X -> Y)
    requires Arranges(s, bag, keys) && Arranges(t, bag, keys)
    requires forall a, b :: a in bag && b in bag && Tie(keys, a, b) ==> g(a) == g(b)
    ensures |s| == |t| && forall i :: 0 <= i < |s| ==> g(s[i]) == g(t[i])
  {
    var dirs := Directions(keys);
    var vs, vt := Vectors(keys, s), Vectors(keys, t);
    VectorsSorted(s, keys);
    VectorsSorted(t, keys);
    VectorsBag(keys, s, t);
    forall u, v | u in vs && v in vs && VectorLeq(dirs, u, v) && VectorLeq(dirs, v, u) ensures u == v {
      VectorAntisymmetric(dirs, u, v);
    }
    SortedUnique(vs, vt, (u, v) => VectorLeq(dirs, u, v));
    forall i | 0 <= i < |s| ensures g(s[i]) == g(t[i]) {
      assert Vector(keys, s[i]) == vs[i] == vt[i] == Vector(keys, t[i]);
      assert s[i] in multiset(s) && t[i] in multiset(t);
      assert Tie(keys, s[i], t[i]) by {
        forall k | 0 <= k < |keys| ensures keys[k].f(s[i]) == keys[k].f(t[i]) {
          assert Vector(keys, s[i])[k] == Vector(keys, t[i])[k];
        }
      }
    }
  }

  function Vectors<X>(keys: seq<SortKey<X>>, s: seq<X>): seq<seq<Value>>
  {
    seq(|s|, i requires 0 <= i < |s| => Vector(keys, s[i]))
  }

  lemma VectorsSorted<X>(s: seq<X>, keys: seq<SortKey<X>>)
    requires SortedBy(s, (a, b) => LexLeq(keys, a, b))
    ensures SortedBy(Vectors(keys, s), (u, v) => VectorLeq(Directions(keys), u, v))
  {
    forall i, j | 0 <= i < j < |s| ensures VectorLeq(Directions(keys), Vectors(keys, s)[i], Vectors(keys, s)[j]) {
      LexIsVector(keys, s[i], s[j]);
    }
  }

  lemma {:induction false} VectorsFlat<X>(keys: seq<SortKey<X>>, s: seq<X>)
    ensures Vectors(keys, s) == FlatMap(s, x => [Vector(keys, x)])
  {
    if s != [] {
      VectorsFlat(keys, s[1..]);
      assert Vectors(keys, s) == [Vector(keys, s[0])] + Vectors(keys, s[1..]);
    }
  }

  lemma VectorsBag<X>(keys: seq<SortKey<X>>, s: seq<X>, t: seq<X>)
    requires multiset(s) == multiset(t)
    ensures multiset(Vectors(keys, s)) == multiset(Vectors(keys, t))
  {
    VectorsFlat(keys, s);
    VectorsFlat(keys, t);
    FlatMapPermutes(s, t, x => [Vector(keys, x)], x => [Vector(keys, x)]);
  }

  // ---------------------------------------------------------------------
  // Refinement
  // ---------------------------------------------------------------------

  lemma {:induction false} LexPrefix<X>(keys: seq<SortKey<X>>, extra: seq<SortKey<X>>, a: X, b: X)
    requires LexLeq(keys + extra, a, b)
    ensures LexLeq(keys, a, b)
  {
    if keys != [] {
      assert (keys + extra)[1..] == keys[1..] + extra;
      if keys[0].f(a) == keys[0].f(b) {
        LexPrefix(keys[1..], extra, a, b);
      }
    }
  }

  /** More sort keys only rule arrangements out. */
  lemma MoreKeysRefine<X>(s: seq<X>, bag: multiset<X>, keys: seq<SortKey<X>>, extra: seq<SortKey<X>>)
    requires Arranges(s, bag, keys + extra)
    ensures Arranges(s, bag, keys)
  {
    forall i, j | 0 <= i < j < |s| ensures LexLeq(keys, s[i], s[j]) {
      LexPrefix(keys, extra, s[i], s[j]);
    }
  }

  /** Keys that repeat earlier ones accept the same arrangements. */
  lemma RepeatedKeys<X>(s: seq<X>, bag: multiset<X>, keys: seq<SortKey<X>>, extra: seq<SortKey<X>>)
    requires forall a, b :: Tie(keys, a, b) ==> Tie(extra, a, b)
    ensures Arranges(s, bag, keys + extra) <==> Arranges(s, bag, keys)
  {
    if Arranges(s, bag, keys) {
      forall i, j | 0 <= i < j < |s| ensures LexLeq(keys + extra, s[i], s[j]) {
        LexRedundant(keys, extra, s[i], s[j]);
      }
    } else if Arranges(s, bag, keys + extra) {
      MoreKeysRefine(s, bag, keys, extra);
    }
  }

  lemma {:induction false} LexTotal<X>(keys: seq<SortKey<X>>, a: X, b: X, c: X)
    ensures LexLeq(keys, a, b) || LexLeq(keys, b, a)
    ensures LexLeq(keys, a, b) && LexLeq(keys, b, c) ==> LexLeq(keys, a, c)
  {
    if keys != [] {
      LexTotal(keys[1..], a, b, c);
    }
  }

  /** Every bag has an arrangement for every list of keys. */
  lemma ArrangementExists<X>(rows: seq<X>, keys: seq<SortKey<X>>) returns (s: seq<X>)
    ensures Arranges(s, multiset(rows), keys)
  {
    forall a, b, c | a in rows && b in rows && c in rows
      ensures LexLeq(keys, a, b) || LexLeq(keys, b, a)
      ensures LexLeq(keys, a, b) && LexLeq(keys, b, c) ==> LexLeq(keys, a, c)
    {
      LexTotal(keys, a, b, c);
    }
    s := InsertionSort(rows, (a, b) => LexLeq(keys, a, b));
    SortCorrect(rows, (a, b) => LexLeq(keys, a, b));
  }
}
