/** Bag semantics of FROM and JOIN: what rows a SELECT core sees, in no particular order. */
module Joins {
  import opened Bags

  /** A column value. Values of one column are totally ordered; the model uses the order of the
      integers. */
  datatype Value = Null | Val(n: int)

  /** A joined row: the visible value of every column of every joined relation. A relation that
      an outer join could not match shows NULL in all its columns. */
  type JoinedRow = map<(string, string), Value>

  /** A joined relation, under the name it has in the statement. */
  datatype Relation = Relation(name: string, attributes: seq<string>)

  datatype JoinKind = Inner | Left | Right | Full
  datatype Join = Join(kind: JoinKind, on: JoinedRow -> bool)

  /** The rows of each relation, as one node happens to store or produce them. */
  type Input = seq<seq<JoinedRow>>

  function Keys(r: Relation): set<(string, string)>
  {
    set c | c in r.attributes :: (r.name, c)
  }

  function AllKeys(rels: seq<Relation>): set<(string, string)>
  {
    if rels == [] then {} else AllKeys(rels[..|rels| - 1]) + Keys(rels[|rels| - 1])
  }

  function NullRow(r: Relation): (n: JoinedRow)
    ensures n.Keys == Keys(r)
  {
    map k | k in Keys(r) :: Null
  }

  function NullRows(rels: seq<Relation>): (n: JoinedRow)
    ensures n.Keys == AllKeys(rels)
  {
    if rels == [] then map[] else NullRows(rels[..|rels| - 1]) + NullRow(rels[|rels| - 1])
  }

  // ---------------------------------------------------------------------
  // Evaluation
  // ---------------------------------------------------------------------

  function Matched(l: JoinedRow, r: JoinedRow, on: JoinedRow -> bool): seq<JoinedRow>
  {
    if on(l + r) then [l + r] else []
  }

  function RightMatches(l: JoinedRow, rs: seq<JoinedRow>, on: JoinedRow -> bool): seq<JoinedRow>
  {
    FlatMap(rs, r => Matched(l, r, on))
  }

  function LeftMatches(ls: seq<JoinedRow>, r: JoinedRow, on: JoinedRow -> bool): seq<JoinedRow>
  {
    FlatMap(ls, l => Matched(l, r, on))
  }

  function OrElse(m: seq<JoinedRow>, alt: JoinedRow): seq<JoinedRow>
  {
    if m == [] then [alt] else m
  }

  function IfNone(m: seq<JoinedRow>, alt: JoinedRow): seq<JoinedRow>
  {
    if m == [] then [alt] else []
  }

  function JoinTwo(j: Join, ls: seq<JoinedRow>, rs: seq<JoinedRow>, nullL: JoinedRow, nullR: JoinedRow): seq<JoinedRow>
  {
    match j.kind
    case Inner => FlatMap(ls, l => RightMatches(l, rs, j.on))
    case Left => FlatMap(ls, l => OrElse(RightMatches(l, rs, j.on), l + nullR))
    case Right => FlatMap(rs, r => OrElse(LeftMatches(ls, r, j.on), nullL + r))
    case Full =>
      FlatMap(ls, l => OrElse(RightMatches(l, rs, j.on), l + nullR)) +
      FlatMap(rs, r => IfNone(LeftMatches(ls, r, j.on), nullL + r))
  }

  /** Relations are joined left to right onto a single empty row. */
  function Eval(rels: seq<Relation>, joins: seq<Join>, input: Input): seq<JoinedRow>
    requires |rels| == |joins| == |input|
  {
    if rels == [] then [map[]]
    else
      var n := |rels| - 1;
      JoinTwo(joins[n], Eval(rels[..n], joins[..n], input[..n]), input[n], NullRows(rels[..n]), NullRow(rels[n]))
  }

  // ---------------------------------------------------------------------
  // Which rows a join produces
  // ---------------------------------------------------------------------

  /** A pair that the condition accepts. */
  ghost predicate IsPair(on: JoinedRow -> bool, ls: seq<JoinedRow>, rs: seq<JoinedRow>, row: JoinedRow)
  {
    exists l, r :: l in ls && r in rs && on(l + r) && row == l + r
  }

  /** A left row without a partner, beside NULLs. */
  ghost predicate IsLeftAlone(on: JoinedRow -> bool, ls: seq<JoinedRow>, rs: seq<JoinedRow>, nullR: JoinedRow, row: JoinedRow)
  {
    exists l :: l in ls && row == l + nullR && forall r :: r in rs ==> !on(l + r)
  }

  ghost predicate IsRightAlone(on: JoinedRow -> bool, ls: seq<JoinedRow>, rs: seq<JoinedRow>, nullL: JoinedRow, row: JoinedRow)
  {
    exists r :: r in rs && row == nullL + r && forall l :: l in ls ==> !on(l + r)
  }

  lemma RightMatchesExactly(l: JoinedRow, rs: seq<JoinedRow>, on: JoinedRow -> bool)
    ensures forall row :: row in RightMatches(l, rs, on) <==> exists r :: r in rs && on(l + r) && row == l + r
    ensures RightMatches(l, rs, on) == [] <==> forall r :: r in rs ==> !on(l + r)
  {
    hide FlatMap;
    var m := RightMatches(l, rs, on);
    forall row ensures row in m <==> exists r :: r in rs && on(l + r) && row == l + r {
      FlatMapExactly(rs, r => Matched(l, r, on), row);
    }
    if m != [] {
      assert m[0] in m;
    }
    if r :| r in rs && on(l + r) {
      assert l + r in m;
    }
  }

  lemma LeftMatchesExactly(ls: seq<JoinedRow>, r: JoinedRow, on: JoinedRow -> bool)
    ensures forall row :: row in LeftMatches(ls, r, on) <==> exists l :: l in ls && on(l + r) && row == l + r
    ensures LeftMatches(ls, r, on) == [] <==> forall l :: l in ls ==> !on(l + r)
  {
    hide FlatMap;
    var m := LeftMatches(ls, r, on);
    forall row ensures row in m <==> exists l :: l in ls && on(l + r) && row == l + r {
      FlatMapExactly(ls, l => Matched(l, r, on), row);
    }
    if m != [] {
      assert m[0] in m;
    }
    if l :| l in ls && on(l + r) {
      assert l + r in m;
    }
  }

  lemma InnerExactly(on: JoinedRow -> bool, ls: seq<JoinedRow>, rs: seq<JoinedRow>, row: JoinedRow)
    ensures row in FlatMap(ls, l => RightMatches(l, rs, on)) <==> IsPair(on, ls, rs, row)
  {
    hide FlatMap, RightMatches;
    FlatMapExactly(ls, l => RightMatches(l, rs, on), row);
    forall l ensures row in RightMatches(l, rs, on) <==> exists r :: r in rs && on(l + r) && row == l + r {
      RightMatchesExactly(l, rs, on);
    }
  }

  lemma LeftExactly(on: JoinedRow -> bool, ls: seq<JoinedRow>, rs: seq<JoinedRow>, nullR: JoinedRow, row: JoinedRow)
    ensures row in FlatMap(ls, l => OrElse(RightMatches(l, rs, on), l + nullR)) <==>
            IsPair(on, ls, rs, row) || IsLeftAlone(on, ls, rs, nullR, row)
  {
    hide FlatMap, RightMatches;
    FlatMapExactly(ls, l => OrElse(RightMatches(l, rs, on), l + nullR), row);
    forall l ensures row in OrElse(RightMatches(l, rs, on), l + nullR) <==>
                     || (exists r :: r in rs && on(l + r) && row == l + r)
                     || (row == l + nullR && forall r :: r in rs ==> !on(l + r))
    {
      RightMatchesExactly(l, rs, on);
    }
  }

  lemma RightExactly(on: JoinedRow -> bool, ls: seq<JoinedRow>, rs: seq<JoinedRow>, nullL: JoinedRow, row: JoinedRow)
    ensures row in FlatMap(rs, r => OrElse(LeftMatches(ls, r, on), nullL + r)) <==>
            IsPair(on, ls, rs, row) || IsRightAlone(on, ls, rs, nullL, row)
  {
    hide FlatMap, LeftMatches;
    FlatMapExactly(rs, r => OrElse(LeftMatches(ls, r, on), nullL + r), row);
    forall r ensures row in OrElse(LeftMatches(ls, r, on), nullL + r) <==>
                     || (exists l :: l in ls && on(l + r) && row == l + r)
                     || (row == nullL + r && forall l :: l in ls ==> !on(l + r))
    {
      LeftMatchesExactly(ls, r, on);
    }
  }

  lemma UnmatchedExactly(on: JoinedRow -> bool, ls: seq<JoinedRow>, rs: seq<JoinedRow>, nullL: JoinedRow, row: JoinedRow)
    ensures row in FlatMap(rs, r => IfNone(LeftMatches(ls, r, on), nullL + r)) <==> IsRightAlone(on, ls, rs, nullL, row)
  {
    hide FlatMap, LeftMatches;
    FlatMapExactly(rs, r => IfNone(LeftMatches(ls, r, on), nullL + r), row);
    forall r ensures row in IfNone(LeftMatches(ls, r, on), nullL + r) <==>
                     row == nullL + r && forall l :: l in ls ==> !on(l + r)
    {
      LeftMatchesExactly(ls, r, on);
    }
  }

  /** The rows of each kind of join: the accepted pairs, and the rows without a partner of the sides
      that an outer join keeps. */
  lemma JoinExactly(j: Join, ls: seq<JoinedRow>, rs: seq<JoinedRow>, nullL: JoinedRow, nullR: JoinedRow, row: JoinedRow)
    ensures row in JoinTwo(j, ls, rs, nullL, nullR) <==>
            || IsPair(j.on, ls, rs, row)
            || ((j.kind == Left || j.kind == Full) && IsLeftAlone(j.on, ls, rs, nullR, row))
            || ((j.kind == Right || j.kind == Full) && IsRightAlone(j.on, ls, rs, nullL, row))
  {
    hide FlatMap, RightMatches, LeftMatches, OrElse, IfNone, IsPair, IsLeftAlone, IsRightAlone;
    InnerExactly(j.on, ls, rs, row);
    LeftExactly(j.on, ls, rs, nullR, row);
    RightExactly(j.on, ls, rs, nullL, row);
    UnmatchedExactly(j.on, ls, rs, nullL, row);
  }

  // ---------------------------------------------------------------------
  // Physical order does not matter
  // ---------------------------------------------------------------------

  lemma RightMatchesPermute(l: JoinedRow, rs: seq<JoinedRow>, rs': seq<JoinedRow>, on: JoinedRow -> bool)
    requires multiset(rs) == multiset(rs')
    ensures multiset(RightMatches(l, rs, on)) == multiset(RightMatches(l, rs', on))
  {
    FlatMapPermutes(rs, rs', r => Matched(l, r, on), r => Matched(l, r, on));
  }

  lemma LeftMatchesPermute(ls: seq<JoinedRow>, ls': seq<JoinedRow>, r: JoinedRow, on: JoinedRow -> bool)
    requires multiset(ls) == multiset(ls')
    ensures multiset(LeftMatches(ls, r, on)) == multiset(LeftMatches(ls', r, on))
  {
    FlatMapPermutes(ls, ls', l => Matched(l, r, on), l => Matched(l, r, on));
  }

  lemma EmptyTogether(m: seq<JoinedRow>, m': seq<JoinedRow>)
    requires multiset(m) == multiset(m')
    ensures m == [] <==> m' == []
  {
    assert |multiset(m)| == |m| && |multiset(m')| == |m'|;
  }

  lemma InnerPermutes(on: JoinedRow -> bool, ls: seq<JoinedRow>, ls': seq<JoinedRow>, rs: seq<JoinedRow>, rs': seq<JoinedRow>)
    requires multiset(ls) == multiset(ls') && multiset(rs) == multiset(rs')
    ensures multiset(FlatMap(ls, l => RightMatches(l, rs, on))) == multiset(FlatMap(ls', l => RightMatches(l, rs', on)))
  {
    forall l | l in ls ensures multiset(RightMatches(l, rs, on)) == multiset(RightMatches(l, rs', on)) {
      RightMatchesPermute(l, rs, rs', on);
    }
    FlatMapPermutes(ls, ls', l => RightMatches(l, rs, on), l => RightMatches(l, rs', on));
  }

  lemma LeftPermutes(on: JoinedRow -> bool, ls: seq<JoinedRow>, ls': seq<JoinedRow>,
                     rs: seq<JoinedRow>, rs': seq<JoinedRow>, nullR: JoinedRow)
    requires multiset(ls) == multiset(ls') && multiset(rs) == multiset(rs')
    ensures multiset(FlatMap(ls, l => OrElse(RightMatches(l, rs, on), l + nullR))) ==
            multiset(FlatMap(ls', l => OrElse(RightMatches(l, rs', on), l + nullR)))
  {
    forall l | l in ls
      ensures multiset(OrElse(RightMatches(l, rs, on), l + nullR)) == multiset(OrElse(RightMatches(l, rs', on), l + nullR))
    {
      RightMatchesPermute(l, rs, rs', on);
      EmptyTogether(RightMatches(l, rs, on), RightMatches(l, rs', on));
    }
    FlatMapPermutes(ls, ls', l => OrElse(RightMatches(l, rs, on), l + nullR),
                    l => OrElse(RightMatches(l, rs', on), l + nullR));
  }

  lemma RightPermutes(on: JoinedRow -> bool, ls: seq<JoinedRow>, ls': seq<JoinedRow>,
                      rs: seq<JoinedRow>, rs': seq<JoinedRow>, nullL: JoinedRow)
    requires multiset(ls) == multiset(ls') && multiset(rs) == multiset(rs')
    ensures multiset(FlatMap(rs, r => OrElse(LeftMatches(ls, r, on), nullL + r))) ==
            multiset(FlatMap(rs', r => OrElse(LeftMatches(ls', r, on), nullL + r)))
  {
    forall r | r in rs
      ensures multiset(OrElse(LeftMatches(ls, r, on), nullL + r)) == multiset(OrElse(LeftMatches(ls', r, on), nullL + r))
    {
      LeftMatchesPermute(ls, ls', r, on);
      EmptyTogether(LeftMatches(ls, r, on), LeftMatches(ls', r, on));
    }
    FlatMapPermutes(rs, rs', r => OrElse(LeftMatches(ls, r, on), nullL + r),
                    r => OrElse(LeftMatches(ls', r, on), nullL + r));
  }

  lemma UnmatchedPermutes(on: JoinedRow -> bool, ls: seq<JoinedRow>, ls': seq<JoinedRow>,
                          rs: seq<JoinedRow>, rs': seq<JoinedRow>, nullL: JoinedRow)
    requires multiset(ls) == multiset(ls') && multiset(rs) == multiset(rs')
    ensures multiset(FlatMap(rs, r => IfNone(LeftMatches(ls, r, on), nullL + r))) ==
            multiset(FlatMap(rs', r => IfNone(LeftMatches(ls', r, on), nullL + r)))
  {
    forall r | r in rs
      ensures multiset(IfNone(LeftMatches(ls, r, on), nullL + r)) == multiset(IfNone(LeftMatches(ls', r, on), nullL + r))
    {
      LeftMatchesPermute(ls, ls', r, on);
      EmptyTogether(LeftMatches(ls, r, on), LeftMatches(ls', r, on));
    }
    FlatMapPermutes(rs, rs', r => IfNone(LeftMatches(ls, r, on), nullL + r),
                    r => IfNone(LeftMatches(ls', r, on), nullL + r));
  }

  lemma JoinTwoPermutes(j: Join, ls: seq<JoinedRow>, ls': seq<JoinedRow>, rs: seq<JoinedRow>, rs': seq<JoinedRow>,
                        nullL: JoinedRow, nullR: JoinedRow)
    requires multiset(ls) == multiset(ls') && multiset(rs) == multiset(rs')
    ensures multiset(JoinTwo(j, ls, rs, nullL, nullR)) == multiset(JoinTwo(j, ls', rs', nullL, nullR))
  {
    match j.kind
    case Inner => InnerPermutes(j.on, ls, ls', rs, rs');
    case Left => LeftPermutes(j.on, ls, ls', rs, rs', nullR);
    case Right => RightPermutes(j.on, ls, ls', rs, rs', nullL);
    case Full =>
      LeftPermutes(j.on, ls, ls', rs, rs', nullR);
      UnmatchedPermutes(j.on, ls, ls', rs, rs', nullL);
  }

  /** Two nodes hold the same rows, stored in any order. */
  ghost predicate SameRows(a: Input, b: Input)
  {
    |a| == |b| && forall i :: 0 <= i < |a| ==> multiset(a[i]) == multiset(b[i])
  }

  /** Whatever order the rows are stored in, every chain of inner and outer joins produces the
      same bag of joined rows. */
  lemma {:induction false} EvalPermutes(rels: seq<Relation>, joins: seq<Join>, a: Input, b: Input)
    requires |rels| == |joins| == |a| && SameRows(a, b)
    ensures multiset(Eval(rels, joins, a)) == multiset(Eval(rels, joins, b))
  {
    if rels != [] {
      hide JoinTwo, NullRow, NullRows;
      var n := |rels| - 1;
      EvalPermutes(rels[..n], joins[..n], a[..n], b[..n]);
      JoinTwoPermutes(joins[n], Eval(rels[..n], joins[..n], a[..n]), Eval(rels[..n], joins[..n], b[..n]),
                      a[n], b[n], NullRows(rels[..n]), NullRow(rels[n]));
    }
  }

  // ---------------------------------------------------------------------
  // What a joined row is made of
  // ---------------------------------------------------------------------

  function Segment(row: JoinedRow, r: Relation): JoinedRow
  {
    map k | k in Keys(r) && k in row :: row[k]
  }

  ghost predicate DistinctNames(rels: seq<Relation>)
  {
    forall i, j :: 0 <= i < j < |rels| ==> rels[i].name != rels[j].name
  }

  /** Rows carry exactly the columns of their relation. */
  ghost predicate WellTyped(rels: seq<Relation>, input: Input)
  {
    |input| == |rels| && forall i, r :: 0 <= i < |rels| && r in input[i] ==> r.Keys == Keys(rels[i])
  }

  /** Every relation contributes one of its rows or nothing but NULLs. */
  ghost predicate Composed(rels: seq<Relation>, input: Input, row: JoinedRow)
    requires |rels| == |input|
  {
    && row.Keys == AllKeys(rels)
    && forall i :: 0 <= i < |rels| ==> Segment(row, rels[i]) in input[i] || Segment(row, rels[i]) == NullRow(rels[i])
  }

  /** A row of the left side's part of a join. */
  lemma LeftPartShape(on: JoinedRow -> bool, ls: seq<JoinedRow>, rs: seq<JoinedRow>, nullR: JoinedRow, row: JoinedRow)
    returns (l: JoinedRow, r: JoinedRow)
    requires row in FlatMap(ls, l => OrElse(RightMatches(l, rs, on), l + nullR))
    ensures row == l + r && l in ls && (r in rs || r == nullR)
  {
    hide FlatMap, RightMatches;
    FlatMapMember(ls, l => OrElse(RightMatches(l, rs, on), l + nullR), row);
    l :| l in ls && row in OrElse(RightMatches(l, rs, on), l + nullR);
    r := nullR;
    if row in RightMatches(l, rs, on) {
      r := RightShape(l, rs, on, row);
    }
  }

  lemma RightPartShape(on: JoinedRow -> bool, ls: seq<JoinedRow>, rs: seq<JoinedRow>, nullL: JoinedRow, row: JoinedRow)
    returns (l: JoinedRow, r: JoinedRow)
    requires row in FlatMap(rs, r => OrElse(LeftMatches(ls, r, on), nullL + r))
    ensures row == l + r && (l in ls || l == nullL) && r in rs
  {
    hide FlatMap, LeftMatches;
    FlatMapMember(rs, r => OrElse(LeftMatches(ls, r, on), nullL + r), row);
    r :| r in rs && row in OrElse(LeftMatches(ls, r, on), nullL + r);
    l := nullL;
    if row in LeftMatches(ls, r, on) {
      l := LeftShape(ls, r, on, row);
    }
  }

  lemma JoinTwoShape(j: Join, ls: seq<JoinedRow>, rs: seq<JoinedRow>, nullL: JoinedRow, nullR: JoinedRow, row: JoinedRow)
    returns (l: JoinedRow, r: JoinedRow)
    requires row in JoinTwo(j, ls, rs, nullL, nullR)
    ensures row == l + r && (l in ls || l == nullL) && (r in rs || r == nullR)
  {
    hide FlatMap, RightMatches, LeftMatches, OrElse;
    if j.kind == Inner {
      FlatMapMember(ls, l => RightMatches(l, rs, j.on), row);
      l :| l in ls && row in RightMatches(l, rs, j.on);
      r := RightShape(l, rs, j.on, row);
    } else if j.kind == Right {
      l, r := RightPartShape(j.on, ls, rs, nullL, row);
    } else if row in FlatMap(ls, l => OrElse(RightMatches(l, rs, j.on), l + nullR)) {
      l, r := LeftPartShape(j.on, ls, rs, nullR, row);
    } else {
      FlatMapMember(rs, r => IfNone(LeftMatches(ls, r, j.on), nullL + r), row);
      r :| r in rs && row in IfNone(LeftMatches(ls, r, j.on), nullL + r);
      l := nullL;
    }
  }

  lemma RightShape(l: JoinedRow, rs: seq<JoinedRow>, on: JoinedRow -> bool, row: JoinedRow) returns (r: JoinedRow)
    requires row in RightMatches(l, rs, on)
    ensures r in rs && row == l + r
  {
    FlatMapMember(rs, r => Matched(l, r, on), row);
    r :| r in rs && row in Matched(l, r, on);
  }

  lemma LeftShape(ls: seq<JoinedRow>, r: JoinedRow, on: JoinedRow -> bool, row: JoinedRow) returns (l: JoinedRow)
    requires row in LeftMatches(ls, r, on)
    ensures l in ls && row == l + r
  {
    FlatMapMember(ls, l => Matched(l, r, on), row);
    l :| l in ls && row in Matched(l, r, on);
  }

  lemma {:induction false} AllKeysNames(rels: seq<Relation>, k: (string, string))
    requires k in AllKeys(rels)
    ensures exists i :: 0 <= i < |rels| && k in Keys(rels[i])
  {
    var n := |rels| - 1;
    if k !in Keys(rels[n]) {
      AllKeysNames(rels[..n], k);
      var i :| 0 <= i < n && k in Keys(rels[..n][i]);
      assert k in Keys(rels[i]);
    }
  }

  lemma {:induction false} KeysInAll(rels: seq<Relation>, i: nat)
    requires i < |rels|
    ensures Keys(rels[i]) <= AllKeys(rels)
  {
    if i < |rels| - 1 {
      KeysInAll(rels[..|rels| - 1], i);
    }
  }

  lemma {:induction false} NullRowsComposed(rels: seq<Relation>, i: nat)
    requires i < |rels|
    ensures Segment(NullRows(rels), rels[i]) == NullRow(rels[i])
  {
    KeysInAll(rels, i);
    AllNull(rels);
  }

  lemma {:induction false} AllNull(rels: seq<Relation>)
    ensures forall k :: k in NullRows(rels) ==> NullRows(rels)[k] == Null
  {
    if rels != [] {
      AllNull(rels[..|rels| - 1]);
    }
  }

  /** Adding a row of the last relation leaves the segments of the earlier ones alone. */
  lemma SegmentsKept(rels: seq<Relation>, l: JoinedRow, r: JoinedRow)
    requires rels != [] && DistinctNames(rels)
    requires r.Keys == Keys(rels[|rels| - 1]) && l.Keys == AllKeys(rels[..|rels| - 1])
    ensures Segment(l + r, rels[|rels| - 1]) == r
    ensures forall i :: 0 <= i < |rels| - 1 ==> Segment(l + r, rels[i]) == Segment(l, rels[i])
  {
    forall i | 0 <= i < |rels| - 1 ensures Segment(l + r, rels[i]) == Segment(l, rels[i]) {
      assert forall k :: k in Keys(rels[i]) ==> k !in r;
    }
  }

  /** Joining a row of the last relation onto a composed one, either side possibly all NULL. */
  lemma ComposedJoin(rels: seq<Relation>, input: Input, l: JoinedRow, r: JoinedRow)
    requires rels != [] && WellTyped(rels, input) && DistinctNames(rels)
    requires var n := |rels| - 1;
             && (r in input[n] || r == NullRow(rels[n]))
             && (Composed(rels[..n], input[..n], l) || l == NullRows(rels[..n]))
    ensures Composed(rels, input, l + r)
  {
    hide Segment, NullRow, NullRows;
    var n := |rels| - 1;
    var prefix, pin := rels[..n], input[..n];
    SegmentsKept(rels, l, r);
    forall i | 0 <= i < n ensures Segment(l, rels[i]) in input[i] || Segment(l, rels[i]) == NullRow(rels[i]) {
      assert prefix[i] == rels[i] && pin[i] == input[i];
      if l == NullRows(prefix) { NullRowsComposed(prefix, i); }
    }
  }

  lemma {:induction false} EvalComposed(rels: seq<Relation>, joins: seq<Join>, input: Input, row: JoinedRow)
    requires |rels| == |joins| && WellTyped(rels, input) && DistinctNames(rels)
    requires row in Eval(rels, joins, input)
    ensures Composed(rels, input, row)
  {
    if rels != [] {
      var n := |rels| - 1;
      var prefix, pin := rels[..n], input[..n];
      var ls := Eval(prefix, joins[..n], pin);
      var l, r := JoinTwoShape(joins[n], ls, input[n], NullRows(prefix), NullRow(rels[n]), row);
      hide Eval, JoinTwo, Segment, NullRow, NullRows, Composed;
      if l in ls {
        EvalComposed(prefix, joins[..n], pin, l);
      }
      ComposedJoin(rels, input, l, r);
    }
  }

  /** A joined row is determined by its segments. */
  lemma SegmentsDetermine(rels: seq<Relation>, a: JoinedRow, b: JoinedRow)
    requires a.Keys == b.Keys == AllKeys(rels)
    requires forall i :: 0 <= i < |rels| ==> Segment(a, rels[i]) == Segment(b, rels[i])
    ensures a == b
  {
    forall k | k in a ensures a[k] == b[k] {
      AllKeysNames(rels, k);
      var i :| 0 <= i < |rels| && k in Keys(rels[i]);
      assert Segment(a, rels[i])[k] == Segment(b, rels[i])[k];
    }
  }
}
