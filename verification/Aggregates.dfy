/** The aggregate functions of the engine (count, sum, min and max in parse/functions.go), over
    bags of rows. */
module Aggregates {
  import opened Wrappers
  import opened Bags
  import opened Joins

  datatype Kind = Count | Sum | Min | Max

  function Empty(k: Kind): Value
  {
    if k.Count? then Val(0) else Null
  }

  /** NULLs do not take part. */
  function Combine(k: Kind, v: Value, acc: Value): Value
  {
    if v.Null? then acc
    else if acc.Null? then if k.Count? then Val(1) else v
    else
      match k
      case Count => Val(acc.n + 1)
      case Sum => Val(v.n + acc.n)
      case Min => if v.n <= acc.n then v else acc
      case Max => if v.n >= acc.n then v else acc
  }

  function Over<X>(k: Kind, f: X -> Value, xs: seq<X>): Value
  {
    if xs == [] then Empty(k) else Combine(k, f(xs[0]), Over(k, f, xs[1..]))
  }

  lemma {:induction false} OverTakes<X>(k: Kind, f: X -> Value, a: seq<X>, x: X, b: seq<X>)
    ensures Over(k, f, a + [x] + b) == Combine(k, f(x), Over(k, f, a + b))
  {
    if a == [] {
      assert a + [x] + b == [x] + b && a + b == b && ([x] + b)[1..] == b;
    } else {
      assert (a + [x] + b)[1..] == a[1..] + [x] + b && (a + b)[1..] == a[1..] + b;
      OverTakes(k, f, a[1..], x, b);
    }
  }

  /** The order of the rows does not matter. */
  lemma {:induction false} OverPermutes<X>(k: Kind, f: X -> Value, s: seq<X>, t: seq<X>)
    requires multiset(s) == multiset(t)
    ensures Over(k, f, s) == Over(k, f, t)
    decreases |s|
  {
    assert |s| == |multiset(s)| == |multiset(t)| == |t|;
    if s != [] {
      hide Combine;
      assert s[0] in multiset(t);
      var i := SplitAt(t, s[0]);
      assert t == t[..i] + [s[0]] + t[i + 1..];
      HeadOf(s);
      assert multiset(s[1..]) == multiset(s) - multiset{s[0]} == multiset(t[..i] + t[i + 1..]);
      OverPermutes(k, f, s[1..], t[..i] + t[i + 1..]);
      OverTakes(k, f, t[..i], s[0], t[i + 1..]);
    }
  }

  ghost function Listed<X>(m: multiset<X>): (s: seq<X>)
    ensures multiset(s) == m
  {
    if m == multiset{} then [] else var x :| x in m; [x] + Listed(m - multiset{x})
  }

  ghost function OverBag<X>(k: Kind, f: X -> Value, m: multiset<X>): Value
  {
    Over(k, f, Listed(m))
  }

  /** So an aggregate of a bag is that of any list of it. */
  lemma OverBagIs<X>(k: Kind, f: X -> Value, s: seq<X>)
    ensures OverBag(k, f, multiset(s)) == Over(k, f, s)
  {
    OverPermutes(k, f, Listed(multiset(s)), s);
  }

  lemma {:induction false} OverAlike<X, Y>(k: Kind, f: X -> Value, xs: seq<X>, g: Y -> Value, ys: seq<Y>)
    requires |xs| == |ys| && forall i :: 0 <= i < |xs| ==> f(xs[i]) == g(ys[i])
    ensures Over(k, f, xs) == Over(k, g, ys)
  {
    if xs != [] {
      OverAlike(k, f, xs[1..], g, ys[1..]);
    }
  }

  // ---------------------------------------------------------------------
  // Aggregates do not determine each other
  // ---------------------------------------------------------------------

  /** One row of a sample: its value in one chosen column, and in every other. */
  datatype Cell = Cell(chosen: Value, other: Value)

  function Chosen(): Cell -> Value
  {
    (x: Cell) => x.chosen
  }

  function Other(): Cell -> Value
  {
    (x: Cell) => x.other
  }

  function Ints(a: int, b: int, c: int): seq<Cell>
  {
    [Cell(Val(a), Val(0)), Cell(Val(b), Val(0)), Cell(Val(c), Val(0))]
  }

  /** Two samples that one aggregate of the chosen column tells apart (the number of rows, for
      `None`) and no other. */
  function Sample(k: Option<Kind>, second: bool): seq<Cell>
  {
    match k
    case None => [Cell(Val(0), Val(0))] + (if second then [Cell(Null, Null)] else [])
    case Some(Count) => [Cell(Val(0), Val(0)), Cell(if second then Val(0) else Null, Val(0))]
    case Some(Sum) => if second then Ints(0, 1, 1) else Ints(0, 0, 1)
    case Some(Min) => if second then Ints(1, 1, 2) else Ints(0, 2, 2)
    case Some(Max) => if second then Ints(0, 1, 1) else Ints(0, 0, 2)
  }

  /** The samples, one row at a time. */
  lemma OverFew<X>(k: Kind, f: X -> Value, s: seq<X>)
    ensures |s| == 1 ==> Over(k, f, s) == Combine(k, f(s[0]), Empty(k))
    ensures |s| == 2 ==> Over(k, f, s) == Combine(k, f(s[0]), Combine(k, f(s[1]), Empty(k)))
    ensures |s| == 3 ==> Over(k, f, s) == Combine(k, f(s[0]), Combine(k, f(s[1]), Combine(k, f(s[2]), Empty(k))))
  {
    hide Combine;
    if |s| == 2 {
      assert s[1..][1..] == [];
    } else if |s| == 3 {
      assert s[1..][1..][1..] == [];
      assert Over(k, f, s[1..][1..]) == Combine(k, f(s[2]), Empty(k));
    }
  }

  /** What an aggregate shows of a sample. */
  function Total(kind: Kind, a: Value, b: Value, c: Value): Value
  {
    Combine(kind, a, Combine(kind, b, Combine(kind, c, Empty(kind))))
  }

  lemma SampleTotals(kind: Kind, s: seq<Cell>)
    requires 1 <= |s| <= 3
    ensures Over(kind, Chosen(), s) ==
            Total(kind, s[0].chosen, if |s| > 1 then s[1].chosen else Null, if |s| > 2 then s[2].chosen else Null)
    ensures Over(kind, Other(), s) ==
            Total(kind, s[0].other, if |s| > 1 then s[1].other else Null, if |s| > 2 then s[2].other else Null)
  {
    hide Over;
    OverFew(kind, Chosen(), s);
    OverFew(kind, Other(), s);
  }

  function Least(a: int, b: int): int
  {
    if a <= b then a else b
  }

  lemma TotalOfInts(kind: Kind, a: int, b: int, c: int)
    ensures Total(kind, Val(a), Val(b), Val(c)) ==
            match kind
            case Count => Val(3)
            case Sum => Val(a + b + c)
            case Min => Val(Least(a, Least(b, c)))
            case Max => Val(-Least(-a, Least(-b, -c)))
    ensures Total(kind, Val(a), Val(b), Null) ==
            match kind
            case Count => Val(2)
            case Sum => Val(a + b)
            case Min => Val(Least(a, b))
            case Max => Val(-Least(-a, -b))
    ensures Total(kind, Val(a), Null, Null) == if kind.Count? then Val(1) else Val(a)
  {
  }

  /** The arithmetic of the samples: which kinds tell them apart. */
  lemma SampleArithmetic(kind: Kind)
    ensures Total(kind, Val(0), Null, Null) == Total(kind, Val(0), Val(0), Null) <==> kind != Count
    ensures Total(kind, Val(0), Val(0), Val(1)) == Total(kind, Val(0), Val(1), Val(1)) <==> kind != Sum
    ensures Total(kind, Val(0), Val(2), Val(2)) == Total(kind, Val(1), Val(1), Val(2)) <==> kind != Min
    ensures Total(kind, Val(0), Val(0), Val(2)) == Total(kind, Val(0), Val(1), Val(1)) <==> kind != Max
  {
    hide Total;
    TotalOfInts(kind, 0, 0, 0);
    TotalOfInts(kind, 0, 0, 1);
    TotalOfInts(kind, 0, 1, 1);
    TotalOfInts(kind, 0, 2, 2);
    TotalOfInts(kind, 1, 1, 2);
    TotalOfInts(kind, 0, 0, 2);
  }

  /** Only the aggregate in question differs between the two samples. */
  lemma SamplesDiffer(k: Option<Kind>, kind: Kind)
    ensures |Sample(k, false)| == |Sample(k, true)| <==> k.Some?
    ensures Over(kind, Other(), Sample(k, false)) == Over(kind, Other(), Sample(k, true))
    ensures Over(kind, Chosen(), Sample(k, false)) == Over(kind, Chosen(), Sample(k, true)) <==> k != Some(kind)
  {
    hide Over, Total, Chosen, Other;
    SampleTotals(kind, Sample(k, false));
    SampleTotals(kind, Sample(k, true));
    SampleArithmetic(kind);
  }
}
