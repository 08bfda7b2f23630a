/** SELECT from one subquery or procedure without an alias. Its columns have no table name to
    qualify them, so a result column of the same name takes over a default ordering term. Such a
    relation is always the only one of its statement. */
module UnnamedSelect {
  import opened Wrappers
  import opened Bags
  import opened Joins
  import opened SortOrder
  import opened SelectScope
  import opened DefaultOrdering
  import opened PlainSelect

  /** The statement reads one unnamed relation with these columns. */
  ghost predicate Unnamed(q: Query, attributes: seq<string>)
  {
    && q.scope == Scope([Relation("", attributes)], map[])
    && |q.joins| == 1 && q.joins[0].kind == Inner && forall row :: q.joins[0].on(row)
  }

  ghost predicate RowOf(attributes: seq<string>, row: JoinedRow)
  {
    row.Keys == Keys(Relation("", attributes))
  }

  lemma UnnamedTerms<X>(attributes: seq<string>)
    ensures PlainTerms<X>(map[], [Relation("", attributes)]) == Ok(ColumnTerms("", attributes))
  {
    var r := Relation("", attributes);
    assert [r][..0] == [];
    assert PlainTerms<X>(map[], [r]) == Ok([] + ColumnTerms<X>("", attributes));
    assert [] + ColumnTerms<X>("", attributes) == ColumnTerms("", attributes);
  }

  /** The rewrite appends every column, unqualified, to the user's terms. */
  lemma UnnamedRewrite(q: Query, attributes: seq<string>, user: seq<Term<JoinedRow>>)
    requires Unnamed(q, attributes)
    ensures Rewritten(user, [ShapeOf(q)]) == Ok(user + ColumnTerms("", attributes))
  {
    UnnamedTerms<JoinedRow>(attributes);
  }

  // ---------------------------------------------------------------------
  // Evaluation over one relation
  // ---------------------------------------------------------------------

  lemma {:induction false} FlatMapSame<T>(s: seq<T>, f: T -> seq<T>)
    requires forall x :: x in s ==> f(x) == [x]
    ensures FlatMap(s, f) == s
  {
    if s != [] {
      FlatMapSame(s[1..], f);
    }
  }

  /** The relation's rows are the joined rows. */
  lemma UnnamedRows(q: Query, attributes: seq<string>, rows: seq<JoinedRow>)
    requires Unnamed(q, attributes)
    ensures Eval(q.scope.relations, q.joins, [rows]) == rows
  {
    var rels, joins := q.scope.relations, q.joins;
    assert rels[..0] == [] && joins[..0] == [] && [rows][..0] == [];
    var unit: JoinedRow := map[];
    assert Eval([], [], []) == [unit];
    var f := (r: JoinedRow) => Matched(unit, r, joins[0].on);
    forall r | r in rows ensures f(r) == [r] {
      assert unit + r == r;
    }
    FlatMapSame(rows, f);
    assert RightMatches(unit, rows, joins[0].on) == rows;
    var g := (l: JoinedRow) => RightMatches(l, rows, joins[0].on);
    assert [unit][1..] == [];
    assert FlatMap([unit], g) == g(unit) + FlatMap([], g);
  }

  lemma UnnamedFiltered(q: Query, attributes: seq<string>, rows: seq<JoinedRow>)
    requires Unnamed(q, attributes) && forall row :: row in rows ==> q.where(row)
    ensures Filtered(q, [rows]) == rows
  {
    hide Eval;
    UnnamedRows(q, attributes, rows);
    FlatMapSame(rows, row => if q.where(row) then [row] else []);
  }

  lemma UnnamedFilteredRow(q: Query, attributes: seq<string>, input: Input, row: JoinedRow)
    requires Unnamed(q, attributes) && WellTyped(q.scope.relations, input) && row in Filtered(q, input)
    ensures RowOf(attributes, row) && q.where(row)
  {
    hide Eval;
    assert input == [input[0]];
    UnnamedRows(q, attributes, input[0]);
    FlatMapMember(input[0], row => if q.where(row) then [row] else [], row);
  }

  // ---------------------------------------------------------------------
  // Exactly when the result is deterministic
  // ---------------------------------------------------------------------

  /** Any two answers over the same rows, in any physical order, are the same sequence. */
  ghost predicate Deterministic(q: Query, terms: seq<Term<JoinedRow>>)
  {
    forall a, b, ra, rb :: SameRows(a, b) && Answer(q, terms, a, ra) && Answer(q, terms, b, rb) ==> ra == rb
  }

  ghost predicate Answer(q: Query, terms: seq<Term<JoinedRow>>, input: Input, r: seq<OutRow>)
  {
    |q.scope.relations| == |q.joins| && WellTyped(q.scope.relations, input) && IsResult(q, terms, input, r)
  }

  /** Two rows that pass WHERE and agree on every ordering term show the same result columns. */
  ghost predicate TermsDecide(q: Query, attributes: seq<string>, terms: seq<Term<JoinedRow>>)
  {
    forall x, y :: Eligible(q, attributes, x) && Eligible(q, attributes, y) && Tie(KeysOf(q.out, terms), x, y) ==>
                     Project(q, x) == Project(q, y)
  }

  ghost predicate Eligible(q: Query, attributes: seq<string>, row: JoinedRow)
  {
    RowOf(attributes, row) && q.where(row)
  }

  lemma DecidedMeansDeterministic(q: Query, attributes: seq<string>, terms: seq<Term<JoinedRow>>,
                                  a: Input, b: Input, ra: seq<OutRow>, rb: seq<OutRow>)
    requires Unnamed(q, attributes) && (q.limit == Some(0) || TermsDecide(q, attributes, terms))
    requires SameRows(a, b) && Answer(q, terms, a, ra) && Answer(q, terms, b, rb)
    ensures ra == rb
  {
    hide Filtered, KeysOf, Project, RowOf;
    if q.limit == Some(0) {
    } else {
      hide IsResult;
      forall x, y | x in Filtered(q, a) && y in Filtered(q, a) && Tie(KeysOf(q.out, terms), x, y)
        ensures Project(q, x) == Project(q, y)
      {
        UnnamedFilteredRow(q, attributes, a, x);
        UnnamedFilteredRow(q, attributes, a, y);
      }
      AnswersAgree(q, terms, a, b, ra, rb);
    }
  }

  /** Copies of one row, then `x` and `y`: OFFSET skips the copies. */
  function Padded(n: nat, pad: JoinedRow, x: JoinedRow, y: JoinedRow): (s: seq<JoinedRow>)
    ensures |s| == n + 2 && s[n] == x && s[n + 1] == y && forall i :: 0 <= i < n ==> s[i] == pad
  {
    seq(n, _ => pad) + [x, y]
  }

  lemma PaddedSame(n: nat, pad: JoinedRow, x: JoinedRow, y: JoinedRow)
    ensures multiset(Padded(n, pad, x, y)) == multiset(Padded(n, pad, y, x))
  {
    var front := seq(n, _ => pad);
    assert multiset(front + [x, y]) == multiset(front) + multiset([x, y]);
    assert multiset(front + [y, x]) == multiset(front) + multiset([y, x]);
  }

  /** Rows that all tie are an arrangement as they stand. */
  lemma TiedArranged<X>(s: seq<X>, keys: seq<SortKey<X>>)
    requires forall i, j :: 0 <= i < j < |s| ==> Tie(keys, s[i], s[j])
    ensures Arranges(s, multiset(s), keys)
  {
    hide Tie, LexLeq;
    forall i, j | 0 <= i < j < |s| ensures LexLeq(keys, s[i], s[j]) {
      LexTie(keys, s[i], s[j]);
    }
  }

  lemma TieSymmetric<X>(keys: seq<SortKey<X>>, x: X, y: X)
    requires Tie(keys, x, y)
    ensures Tie(keys, y, x) && Tie(keys, x, x) && Tie(keys, y, y)
  {
  }

  lemma PaddedAnswer(q: Query, attributes: seq<string>, terms: seq<Term<JoinedRow>>, pad: JoinedRow, x: JoinedRow, y: JoinedRow)
    requires Unnamed(q, attributes) && Eligible(q, attributes, x) && Eligible(q, attributes, y)
    requires (pad == x || pad == y) && Tie(KeysOf(q.out, terms), x, y)
    ensures var rows := Padded(q.offset, pad, x, y);
            Answer(q, terms, [rows], Window(ProjectAll(q, rows), q.offset, q.limit))
  {
    hide Filtered, KeysOf, Project, Tie;
    var keys, rows := KeysOf(q.out, terms), Padded(q.offset, pad, x, y);
    TieSymmetric(keys, x, y);
    TiedArranged(rows, keys);
    UnnamedFiltered(q, attributes, rows);
  }

  lemma UndecidedMeansNondeterministic(q: Query, attributes: seq<string>, terms: seq<Term<JoinedRow>>, x: JoinedRow, y: JoinedRow)
    requires Unnamed(q, attributes) && q.limit != Some(0)
    requires Eligible(q, attributes, x) && Eligible(q, attributes, y) && Tie(KeysOf(q.out, terms), x, y)
    requires Project(q, x) != Project(q, y)
    ensures !Deterministic(q, terms)
  {
    hide Answer, KeysOf, Project, Eligible, Tie, Padded;
    var a, b := Padded(q.offset, x, x, y), Padded(q.offset, x, y, x);
    PaddedAnswer(q, attributes, terms, x, x, y);
    TieSymmetric(KeysOf(q.out, terms), x, y);
    PaddedAnswer(q, attributes, terms, x, y, x);
    PaddedSame(q.offset, x, x, y);
    assert SameRows([a], [b]);
    var ra, rb := Window(ProjectAll(q, a), q.offset, q.limit), Window(ProjectAll(q, b), q.offset, q.limit);
    assert ra[0] == Project(q, x) && rb[0] == Project(q, y);
  }

  /** For every statement over an unnamed relation, whatever its WHERE, its result expressions, the
      user's terms, LIMIT and OFFSET: the rewritten statement is deterministic if and only if LIMIT
      is 0 or the ordering terms decide every result column. */
  lemma UnnamedDeterministicExactly(q: Query, attributes: seq<string>, user: seq<Term<JoinedRow>>)
    requires Unnamed(q, attributes)
    ensures Rewritten(user, [ShapeOf(q)]).Ok?
    ensures var terms := Rewritten(user, [ShapeOf(q)]).value;
            Deterministic(q, terms) <==> q.limit == Some(0) || TermsDecide(q, attributes, terms)
  {
    hide Answer, KeysOf, Project, Eligible, Tie, Unnamed;
    UnnamedRewrite(q, attributes, user);
    var terms := user + ColumnTerms<JoinedRow>("", attributes);
    if q.limit == Some(0) || TermsDecide(q, attributes, terms) {
      forall a, b, ra, rb | SameRows(a, b) && Answer(q, terms, a, ra) && Answer(q, terms, b, rb) ensures ra == rb {
        DecidedMeansDeterministic(q, attributes, terms, a, b, ra, rb);
      }
    } else {
      var x, y :| Eligible(q, attributes, x) && Eligible(q, attributes, y) && Tie(KeysOf(q.out, terms), x, y) &&
                  Project(q, x) != Project(q, y);
      UndecidedMeansNondeterministic(q, attributes, terms, x, y);
    }
  }
}
