/** Deterministic ordering of plain SELECTs: every node returns the same row sequence. */
module PlainSelect {
  import opened Wrappers
  import opened Bags
  import opened Joins
  import opened SortOrder
  import opened Schema
  import opened SelectScope
  import opened DefaultOrdering

  datatype OutColumn = OutColumn(name: string, f: JoinedRow -> Value)
  type OutRow = seq<Value>

  /** A select core without DISTINCT, GROUP BY or aggregates. */
  datatype Query = Query(
    scope: Scope,
    joins: seq<Join>,
    where: JoinedRow -> bool,
    out: seq<OutColumn>,
    offset: nat,
    limit: Option<nat>)

  function ShapeOf(q: Query): Shape
  {
    Shape(q.scope, seq(|q.out|, i requires 0 <= i < |q.out| => q.out[i].name), false, None, false)
  }

  function Project(q: Query, row: JoinedRow): OutRow
  {
    seq(|q.out|, i requires 0 <= i < |q.out| => q.out[i].f(row))
  }

  function ProjectAll(q: Query, rows: seq<JoinedRow>): seq<OutRow>
  {
    seq(|rows|, i requires 0 <= i < |rows| => Project(q, rows[i]))
  }

  /** The rows WHERE lets through, in some physical order. */
  function Filtered(q: Query, input: Input): seq<JoinedRow>
    requires |q.scope.relations| == |q.joins| == |input|
  {
    FlatMap(Eval(q.scope.relations, q.joins, input), row => if q.where(row) then [row] else [])
  }

  function Window<T>(rows: seq<T>, offset: nat, limit: Option<nat>): seq<T>
  {
    var rest := if offset <= |rows| then rows[offset..] else [];
    if limit.Some? && limit.value <= |rest| then rest[..limit.value] else rest
  }

  // ---------------------------------------------------------------------
  // What an ORDER BY term refers to
  // ---------------------------------------------------------------------

  /** The first result column with this name. */
  function Named(out: seq<OutColumn>, name: string): (r: Option<nat>)
    ensures r.Some? ==> r.value < |out| && out[r.value].name == name
    ensures r.None? ==> forall i :: 0 <= i < |out| ==> out[i].name != name
  {
    if out == [] then None
    else
      match Named(out[..|out| - 1], name)
      case Some(i) => Some(i)
      case None => if out[|out| - 1].name == name then Some(|out| - 1) else None
  }

  /** An unqualified name means a result column if there is one, and an input column otherwise. */
  function ColumnValue(out: seq<OutColumn>, table: string, column: string, row: JoinedRow): Value
  {
    if table == "" && Named(out, column).Some? then out[Named(out, column).value].f(row)
    else if (table, column) in row then row[(table, column)]
    else Null
  }

  function KeyOf(out: seq<OutColumn>, term: Term<JoinedRow>): SortKey<JoinedRow>
  {
    match term
    case UserTerm(key) => key
    case ColumnTerm(table, column) => SortKey(row => ColumnValue(out, table, column, row), false, false)
  }

  function KeysOf(out: seq<OutColumn>, terms: seq<Term<JoinedRow>>): seq<SortKey<JoinedRow>>
  {
    seq(|terms|, i requires 0 <= i < |terms| => KeyOf(out, terms[i]))
  }

  /** `result` is a possible answer: some arrangement of the filtered rows that the ORDER BY
      accepts, projected and cut to OFFSET and LIMIT. */
  ghost predicate IsResult(q: Query, terms: seq<Term<JoinedRow>>, input: Input, result: seq<OutRow>)
    requires |q.scope.relations| == |q.joins| == |input|
  {
    exists s :: Arranges(s, multiset(Filtered(q, input)), KeysOf(q.out, terms)) &&
                result == Window(ProjectAll(q, s), q.offset, q.limit)
  }

  // ---------------------------------------------------------------------
  // Stored rows
  // ---------------------------------------------------------------------

  /** A primary key: not empty, made of the table's columns, never NULL, and identifying. */
  ghost predicate KeyedBy(r: Relation, pk: seq<string>, rows: seq<JoinedRow>)
  {
    && pk != []
    && (forall i :: 0 <= i < |pk| ==> pk[i] in r.attributes)
    && (forall x, c :: x in rows && c in pk && (r.name, c) in x ==> x[(r.name, c)] != Null)
    && (forall x, y :: x in rows && y in rows && AgreeOn(r, pk, x, y) ==> x == y)
  }

  ghost predicate AgreeOn(r: Relation, columns: seq<string>, x: JoinedRow, y: JoinedRow)
  {
    forall c :: c in columns && (r.name, c) in x && (r.name, c) in y ==> x[(r.name, c)] == y[(r.name, c)]
  }

  /** Typed rows, and every table keyed by its declared primary key. */
  ghost predicate ValidInput(s: Scope, input: Input)
  {
    && WellTyped(s.relations, input)
    && forall i, key :: 0 <= i < |s.relations| && s.relations[i].name in s.tables &&
                        Declares(s.tables[s.relations[i].name], key) ==>
         KeyedBy(s.relations[i], key, input[i])
  }

  lemma FilteredMember(q: Query, input: Input, row: JoinedRow)
    requires |q.scope.relations| == |q.joins| == |input|
    requires row in Filtered(q, input)
    ensures row in Eval(q.scope.relations, q.joins, input)
  {
    var rows := Eval(q.scope.relations, q.joins, input);
    FlatMapMember(rows, row => if q.where(row) then [row] else [], row);
  }

  /** The same stored rows give the same bag of filtered rows. */
  lemma FilteredPermutes(q: Query, a: Input, b: Input)
    requires |q.scope.relations| == |q.joins| == |a| && SameRows(a, b)
    ensures multiset(Filtered(q, a)) == multiset(Filtered(q, b))
  {
    EvalPermutes(q.scope.relations, q.joins, a, b);
    var f := row => if q.where(row) then [row] else [];
    FlatMapPermutes(Eval(q.scope.relations, q.joins, a), Eval(q.scope.relations, q.joins, b), f, f);
  }

  // ---------------------------------------------------------------------
  // The default terms identify a joined row
  // ---------------------------------------------------------------------

  lemma {:induction false} ColumnTermsMember<X>(table: string, columns: seq<string>, c: string)
    requires c in columns
    ensures ColumnTerm(table, c) in ColumnTerms<X>(table, columns)
  {
    if c != columns[|columns| - 1] {
      assert c in columns[..|columns| - 1];
      ColumnTermsMember<X>(table, columns[..|columns| - 1], c);
    }
  }

  lemma {:induction false} PlainTermsMember<X>(tables: map<string, Table>, relations: seq<Relation>, i: nat, c: string)
    requires i < |relations| && PlainTerms<X>(tables, relations).Ok?
    requires RelationColumns(tables, relations[i]).Ok? && c in RelationColumns(tables, relations[i]).value
    ensures ColumnTerm(relations[i].name, c) in PlainTerms<X>(tables, relations).value
  {
    var n := |relations| - 1;
    if i < n {
      PlainTermsMember<X>(tables, relations[..n], i, c);
    } else {
      ColumnTermsMember<X>(relations[n].name, RelationColumns(tables, relations[n]).value, c);
    }
  }

  lemma {:induction false} PlainTermsOk<X>(tables: map<string, Table>, relations: seq<Relation>, i: nat)
    requires i < |relations| && PlainTerms<X>(tables, relations).Ok?
    ensures RelationColumns(tables, relations[i]).Ok?
  {
    if i < |relations| - 1 {
      PlainTermsOk<X>(tables, relations[..|relations| - 1], i);
    }
  }

  /** Rows that tie on a term agree on its value. */
  lemma TieOnTerm(out: seq<OutColumn>, terms: seq<Term<JoinedRow>>, a: JoinedRow, b: JoinedRow, table: string, column: string)
    requires Tie(KeysOf(out, terms), a, b) && ColumnTerm(table, column) in terms
    ensures ColumnValue(out, table, column, a) == ColumnValue(out, table, column, b)
  {
    var i :| 0 <= i < |terms| && terms[i] == ColumnTerm(table, column);
    assert KeysOf(out, terms)[i].f(a) == KeysOf(out, terms)[i].f(b);
  }

  /** A result column carries the name of a column of an unnamed relation. */
  ghost predicate Shadows(q: Query, r: Relation, c: string)
  {
    r.name == "" && c in r.attributes && Named(q.out, c).Some?
  }

  /** In an unnamed relation, a result column may take over the name of an input column only if
      it is that column. */
  ghost predicate NoShadow(q: Query)
  {
    forall i, c, row :: 0 <= i < |q.scope.relations| && Shadows(q, q.scope.relations[i], c) && ("", c) in row ==>
                          q.out[Named(q.out, c).value].f(row) == row[("", c)]
  }

  lemma KeyedRelation(s: Scope, input: Input, i: nat)
    requires ValidInput(s, input) && i < |s.relations| && s.relations[i].name in s.tables
    requires RelationColumns(s.tables, s.relations[i]).Ok?
    ensures KeyedBy(s.relations[i], RelationColumns(s.tables, s.relations[i]).value, input[i])
  {
    hide PrimaryKey, Declares, KeyedBy;
    PrimaryKeyExactly(s.tables[s.relations[i].name]);
  }

  /** Two joined rows that tie on the rewritten ORDER BY agree on one relation. */
  lemma TiedSegments(q: Query, terms: seq<Term<JoinedRow>>, input: Input, a: JoinedRow, b: JoinedRow, i: nat)
    requires |q.scope.relations| == |q.joins| && ValidScope(q.scope) && ValidInput(q.scope, input) && NoShadow(q)
    requires i < |q.scope.relations|
    requires Composed(q.scope.relations, input, a) && Composed(q.scope.relations, input, b)
    requires RelationColumns(q.scope.tables, q.scope.relations[i]).Ok?
    requires forall c :: c in RelationColumns(q.scope.tables, q.scope.relations[i]).value ==>
               ColumnTerm(q.scope.relations[i].name, c) in terms
    requires Tie(KeysOf(q.out, terms), a, b)
    ensures Segment(a, q.scope.relations[i]) == Segment(b, q.scope.relations[i])
  {
    var r := q.scope.relations[i];
    var sa, sb := Segment(a, r), Segment(b, r);
    KeysInAll(q.scope.relations, i);
    var columns := RelationColumns(q.scope.tables, r).value;
    forall c | c in columns && (r.name, c) in a && (r.name, c) in b ensures a[(r.name, c)] == b[(r.name, c)] {
      TieOnTerm(q.out, terms, a, b, r.name, c);
      if r.name == "" {
        assert c in r.attributes by { assert r.name !in q.scope.tables; }
      }
    }
    assert AgreeOn(r, columns, sa, sb);
    if r.name in q.scope.tables {
      assert KeyedBy(r, columns, input[i]) by { KeyedRelation(q.scope, input, i); }
      var c := columns[0];
      assert c in r.attributes && (r.name, c) in Keys(r);
      assert sa[(r.name, c)] == sb[(r.name, c)];
      assert sa == NullRow(r) <==> sa[(r.name, c)] == Null by {
        if sa in input[i] { assert sa[(r.name, c)] != Null; }
      }
      assert sb == NullRow(r) <==> sb[(r.name, c)] == Null by {
        if sb in input[i] { assert sb[(r.name, c)] != Null; }
      }
    } else {
      forall k | k in sa ensures k in sb && sa[k] == sb[k] {
        assert k.1 in r.attributes;
      }
    }
  }

  /** The primary keys of the joined tables, with all columns of the other relations, fix every
      visible joined row, whatever the joins left unmatched. */
  lemma TiedRowsEqual(q: Query, user: seq<Term<JoinedRow>>, input: Input, a: JoinedRow, b: JoinedRow)
    requires |q.scope.relations| == |q.joins| && ValidScope(q.scope) && ValidInput(q.scope, input) && NoShadow(q)
    requires Rewritten(user, [ShapeOf(q)]).Ok?
    requires a in Filtered(q, input) && b in Filtered(q, input)
    requires Tie(KeysOf(q.out, Rewritten(user, [ShapeOf(q)]).value), a, b)
    ensures a == b
  {
    hide Eval, Segment, NullRow, KeysOf;
    var terms := Rewritten(user, [ShapeOf(q)]).value;
    FilteredMember(q, input, a);
    FilteredMember(q, input, b);
    EvalComposed(q.scope.relations, q.joins, input, a);
    EvalComposed(q.scope.relations, q.joins, input, b);
    forall i | 0 <= i < |q.scope.relations|
      ensures Segment(a, q.scope.relations[i]) == Segment(b, q.scope.relations[i])
    {
      PlainTermsOk<JoinedRow>(q.scope.tables, q.scope.relations, i);
      forall c | c in RelationColumns(q.scope.tables, q.scope.relations[i]).value
        ensures ColumnTerm(q.scope.relations[i].name, c) in terms
      {
        PlainTermsMember<JoinedRow>(q.scope.tables, q.scope.relations, i, c);
      }
      TiedSegments(q, terms, input, a, b, i);
    }
    SegmentsDetermine(q.scope.relations, a, b);
  }

  ghost predicate TiesProjectAlike(q: Query, keys: seq<SortKey<JoinedRow>>, rows: seq<JoinedRow>)
  {
    forall x, y :: x in rows && y in rows && Tie(keys, x, y) ==> Project(q, x) == Project(q, y)
  }

  lemma ArrangedAlike(q: Query, keys: seq<SortKey<JoinedRow>>, rows: seq<JoinedRow>, s: seq<JoinedRow>, t: seq<JoinedRow>)
    requires TiesProjectAlike(q, keys, rows) && Arranges(s, multiset(rows), keys) && Arranges(t, multiset(rows), keys)
    ensures ProjectAll(q, s) == ProjectAll(q, t)
  {
    hide Arranges, Project, Tie;
    ObservationUnique(s, t, multiset(rows), keys, x => Project(q, x));
  }

  /** If ties cannot be told apart in the result, all answers over the same rows are equal. */
  lemma AnswersAgree(q: Query, terms: seq<Term<JoinedRow>>, a: Input, b: Input, ra: seq<OutRow>, rb: seq<OutRow>)
    requires |q.scope.relations| == |q.joins| == |a| && SameRows(a, b)
    requires IsResult(q, terms, a, ra) && IsResult(q, terms, b, rb)
    requires TiesProjectAlike(q, KeysOf(q.out, terms), Filtered(q, a))
    ensures ra == rb
  {
    hide Filtered, KeysOf, Arranges, ProjectAll, TiesProjectAlike;
    var keys := KeysOf(q.out, terms);
    FilteredPermutes(q, a, b);
    var bag := multiset(Filtered(q, a));
    var s :| Arranges(s, bag, keys) && ra == Window(ProjectAll(q, s), q.offset, q.limit);
    var t :| Arranges(t, bag, keys) && rb == Window(ProjectAll(q, t), q.offset, q.limit);
    ArrangedAlike(q, keys, Filtered(q, a), s, t);
  }

  /** The theorem for plain SELECT: over any chain of inner and outer joins, two nodes holding the
      same rows in any physical order, each free to break ties and to scan as it likes, return
      the same sequence of rows, LIMIT and OFFSET included. */
  lemma PlainSelectDeterministic(q: Query, user: seq<Term<JoinedRow>>, a: Input, b: Input, ra: seq<OutRow>, rb: seq<OutRow>)
    requires |q.scope.relations| == |q.joins| && ValidScope(q.scope) && NoShadow(q)
    requires ValidInput(q.scope, a) && SameRows(a, b)
    requires Rewritten(user, [ShapeOf(q)]).Ok?
    requires IsResult(q, Rewritten(user, [ShapeOf(q)]).value, a, ra)
    requires IsResult(q, Rewritten(user, [ShapeOf(q)]).value, b, rb)
    ensures ra == rb
  {
    var terms := Rewritten(user, [ShapeOf(q)]).value;
    hide Filtered, KeysOf, Rewritten, IsResult, NoShadow, ValidScope;
    forall x, y | x in Filtered(q, a) && y in Filtered(q, a) && Tie(KeysOf(q.out, terms), x, y)
      ensures Project(q, x) == Project(q, y)
    {
      TiedRowsEqual(q, user, a, x, y);
    }
    AnswersAgree(q, terms, a, b, ra, rb);
  }

  /** The rewrite preserves meaning: every answer to the rewritten statement is an answer to the
      statement the user wrote, and there always is one. */
  lemma RewriteRefines(q: Query, user: seq<Term<JoinedRow>>, input: Input)
    requires |q.scope.relations| == |q.joins| == |input| && Rewritten(user, [ShapeOf(q)]).Ok?
    ensures user <= Rewritten(user, [ShapeOf(q)]).value
    ensures forall r :: IsResult(q, Rewritten(user, [ShapeOf(q)]).value, input, r) ==> IsResult(q, user, input, r)
    ensures exists r :: IsResult(q, Rewritten(user, [ShapeOf(q)]).value, input, r)
  {
    var terms := Rewritten(user, [ShapeOf(q)]).value;
    var bag := multiset(Filtered(q, input));
    forall r | IsResult(q, terms, input, r) ensures IsResult(q, user, input, r) {
      var s :| Arranges(s, bag, KeysOf(q.out, terms)) && r == Window(ProjectAll(q, s), q.offset, q.limit);
      assert KeysOf(q.out, terms) == KeysOf(q.out, user) + KeysOf(q.out, terms[|user|..]);
      MoreKeysRefine(s, bag, KeysOf(q.out, user), KeysOf(q.out, terms[|user|..]));
    }
    var s := ArrangementExists(Filtered(q, input), KeysOf(q.out, terms));
    assert IsResult(q, terms, input, Window(ProjectAll(q, s), q.offset, q.limit));
  }

  /** Analysing a statement again appends the same terms once more, which changes no answer. */
  lemma RewriteTwice(q: Query, user: seq<Term<JoinedRow>>, input: Input, r: seq<OutRow>)
    requires |q.scope.relations| == |q.joins| == |input| && Rewritten(user, [ShapeOf(q)]).Ok?
    ensures var once := Rewritten(user, [ShapeOf(q)]).value;
            && Rewritten(once, [ShapeOf(q)]).Ok?
            && (IsResult(q, Rewritten(once, [ShapeOf(q)]).value, input, r) <==> IsResult(q, once, input, r))
  {
    var once := Rewritten(user, [ShapeOf(q)]).value;
    var twice := Rewritten(once, [ShapeOf(q)]).value;
    var extra := Defaults<JoinedRow>([ShapeOf(q)]).value;
    var keys, more := KeysOf(q.out, once), KeysOf(q.out, extra);
    assert KeysOf(q.out, twice) == keys + more;
    var n := |user|;
    assert forall i :: 0 <= i < |more| ==> more[i] == keys[n + i];
    forall s ensures Arranges(s, multiset(Filtered(q, input)), keys + more) <==>
                     Arranges(s, multiset(Filtered(q, input)), keys)
    {
      RepeatedKeys(s, multiset(Filtered(q, input)), keys, more);
    }
  }
}
