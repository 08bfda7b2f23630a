/** The default ordering the analyzer appends to every SELECT (VisitSelectStatement in
    parse/analyze.go). */
module DefaultOrdering {
  import opened Wrappers
  import opened Joins
  import opened SortOrder
  import opened Schema
  import opened SelectScope

  /** An ORDER BY term: one the user wrote, or a plain column in ascending order. An empty table
      name leaves the column unqualified. */
  datatype Term<!X> = UserTerm(key: SortKey<X>) | ColumnTerm(table: string, column: string)

  /** What the rewrite looks at in a select core. */
  datatype Shape = Shape(
    scope: Scope,
    result: seq<string>,                      // names of the result columns
    distinct: bool,
    groupBy: Option<seq<(string, string)>>,   // (table, column) of each term
    aggregate: bool                           // an aggregate without GROUP BY
  )

  datatype OrderingError = AggregateError | PrimaryKeyError(e: KeyError)
  type TermResult<!X> = Result<seq<Term<X>>, OrderingError>

  function ColumnTerms<X>(table: string, columns: seq<string>): seq<Term<X>>
  {
    if columns == [] then []
    else ColumnTerms(table, columns[..|columns| - 1]) + [ColumnTerm(table, columns[|columns| - 1])]
  }

  function GroupTerms<X>(columns: seq<(string, string)>): seq<Term<X>>
  {
    if columns == [] then []
    else
      var last := columns[|columns| - 1];
      GroupTerms(columns[..|columns| - 1]) + [ColumnTerm(last.0, last.1)]
  }

  /** A table contributes its primary key, any other relation all its columns. */
  function RelationColumns(tables: map<string, Table>, r: Relation): Result<seq<string>, KeyError>
  {
    if r.name in tables then PrimaryKey(tables[r.name]) else Ok(r.attributes)
  }

  function PlainTerms<X>(tables: map<string, Table>, relations: seq<Relation>): TermResult<X>
  {
    if relations == [] then Ok([])
    else
      var last := relations[|relations| - 1];
      match PlainTerms(tables, relations[..|relations| - 1])
      case Err(e) => Err(e)
      case Ok(terms) =>
        match RelationColumns(tables, last)
        case Err(e) => Err(PrimaryKeyError(e))
        case Ok(columns) => Ok(terms + ColumnTerms(last.name, columns))
  }

  function Defaults<X>(cores: seq<Shape>): TermResult<X>
    requires cores != []
  {
    var first := cores[0];
    if |cores| > 1 then
      if exists i :: 0 <= i < |cores| && cores[i].groupBy.Some? then Err(AggregateError)
      else Ok(ColumnTerms("", first.result))
    else if first.aggregate then Ok([])
    else if first.groupBy.Some? then Ok(GroupTerms(first.groupBy.value))
    else if first.distinct then Ok(ColumnTerms("", first.result))
    else PlainTerms(first.scope.tables, first.scope.relations)
  }

  function Rewritten<X>(ordering: seq<Term<X>>, cores: seq<Shape>): TermResult<X>
    requires cores != []
  {
    match Defaults(cores)
    case Err(e) => Err(e)
    case Ok(terms) =>
      if cores[0].aggregate && ordering + terms != [] then Err(AggregateError) else Ok(ordering + terms)
  }

  lemma {:induction false} PlainTermsPrefix<X>(tables: map<string, Table>, relations: seq<Relation>, i: nat)
    requires i <= |relations| && PlainTerms<X>(tables, relations[..i]).Err?
    ensures PlainTerms<X>(tables, relations) == PlainTerms<X>(tables, relations[..i])
    decreases |relations|
  {
    if i == |relations| {
      assert relations[..i] == relations;
    } else {
      assert relations[..|relations| - 1][..i] == relations[..i];
      PlainTermsPrefix<X>(tables, relations[..|relations| - 1], i);
    }
  }

  // ---------------------------------------------------------------------
  // Which terms are appended, from the statement
  // ---------------------------------------------------------------------

  lemma {:induction false} ColumnTermsAt<X>(table: string, columns: seq<string>)
    ensures |ColumnTerms<X>(table, columns)| == |columns|
    ensures forall i :: 0 <= i < |columns| ==> ColumnTerms<X>(table, columns)[i] == ColumnTerm(table, columns[i])
  {
    if columns != [] {
      ColumnTermsAt<X>(table, columns[..|columns| - 1]);
    }
  }

  lemma {:induction false} GroupTermsAt<X>(columns: seq<(string, string)>)
    ensures |GroupTerms<X>(columns)| == |columns|
    ensures forall i :: 0 <= i < |columns| ==> GroupTerms<X>(columns)[i] == ColumnTerm(columns[i].0, columns[i].1)
  {
    if columns != [] {
      GroupTermsAt<X>(columns[..|columns| - 1]);
    }
  }

  /** Column `c` of the relation orders a plain SELECT: a column of the declared key of a table, any
      column of another relation. */
  ghost predicate OrdersBy(tables: map<string, Table>, r: Relation, c: string)
  {
    if r.name in tables then exists key :: Declares(tables[r.name], key) && c in key else c in r.attributes
  }

  ghost predicate HasKey(tables: map<string, Table>, r: Relation)
  {
    r.name in tables ==> exists key :: Declares(tables[r.name], key)
  }

  lemma RelationColumnsExactly(tables: map<string, Table>, r: Relation)
    ensures RelationColumns(tables, r).Ok? <==> HasKey(tables, r)
    ensures RelationColumns(tables, r).Ok? ==> forall c :: c in RelationColumns(tables, r).value <==> OrdersBy(tables, r, c)
  {
    if r.name in tables {
      hide Declares, PrimaryKey;
      PrimaryKeyExactly(tables[r.name]);
    }
  }

  ghost predicate IsDefault<X>(tables: map<string, Table>, relations: seq<Relation>, term: Term<X>)
  {
    term.ColumnTerm? && exists i :: 0 <= i < |relations| && relations[i].name == term.table &&
                                    OrdersBy(tables, relations[i], term.column)
  }

  lemma IsDefaultStep<X>(tables: map<string, Table>, relations: seq<Relation>, term: Term<X>)
    requires relations != []
    ensures var front, last := relations[..|relations| - 1], relations[|relations| - 1];
            IsDefault(tables, relations, term) <==>
              || IsDefault(tables, front, term)
              || (term.ColumnTerm? && term.table == last.name && OrdersBy(tables, last, term.column))
  {
    hide OrdersBy;
    var n := |relations| - 1;
    var front := relations[..n];
    if IsDefault(tables, front, term) {
      var i :| 0 <= i < n && front[i].name == term.table && OrdersBy(tables, front[i], term.column);
      assert relations[i] == front[i];
    }
    if IsDefault(tables, relations, term) {
      var i :| 0 <= i < |relations| && relations[i].name == term.table && OrdersBy(tables, relations[i], term.column);
      assert i < n ==> front[i] == relations[i];
    }
  }

  lemma ColumnTermsIn<X>(table: string, columns: seq<string>, term: Term<X>)
    ensures term in ColumnTerms<X>(table, columns) <==> term.ColumnTerm? && term.table == table && term.column in columns
  {
    hide ColumnTerms;
    ColumnTermsAt<X>(table, columns);
    if term.ColumnTerm? && term.table == table && term.column in columns {
      var k :| 0 <= k < |columns| && columns[k] == term.column;
      assert ColumnTerms<X>(table, columns)[k] == term;
    }
  }

  lemma {:induction false} PlainTermsOkExactly<X>(tables: map<string, Table>, relations: seq<Relation>)
    ensures PlainTerms<X>(tables, relations).Ok? <==> forall i :: 0 <= i < |relations| ==> HasKey(tables, relations[i])
  {
    hide HasKey;
    if relations != [] {
      var n := |relations| - 1;
      PlainTermsOkExactly<X>(tables, relations[..n]);
      RelationColumnsExactly(tables, relations[n]);
      assert forall i :: 0 <= i < n ==> relations[..n][i] == relations[i];
    }
  }

  /** A plain SELECT can be ordered if and only if every joined table declares a key, and it is then
      ordered by exactly the keys of its tables and all columns of its other relations. */
  lemma {:induction false} PlainTermsExactly<X>(tables: map<string, Table>, relations: seq<Relation>, term: Term<X>)
    ensures PlainTerms<X>(tables, relations).Ok? <==> forall i :: 0 <= i < |relations| ==> HasKey(tables, relations[i])
    ensures PlainTerms<X>(tables, relations).Ok? ==>
              (term in PlainTerms<X>(tables, relations).value <==> IsDefault(tables, relations, term))
  {
    PlainTermsOkExactly<X>(tables, relations);
    hide HasKey, OrdersBy, ColumnTerms;
    if relations != [] && PlainTerms<X>(tables, relations).Ok? {
      hide IsDefault;
      var n := |relations| - 1;
      PlainTermsExactly<X>(tables, relations[..n], term);
      RelationColumnsExactly(tables, relations[n]);
      IsDefaultStep(tables, relations, term);
      ColumnTermsIn(relations[n].name, RelationColumns(tables, relations[n]).value, term);
    }
  }

  /** What each kind of statement is ordered by, after the user's terms: a compound one and a
      DISTINCT one by their result columns, a grouped one by its grouping columns, an aggregate
      without GROUP BY by nothing; and which statements are refused. */
  lemma RewriteExactly<X>(user: seq<Term<X>>, cores: seq<Shape>)
    requires cores != []
    ensures |cores| > 1 && (exists i :: 0 <= i < |cores| && cores[i].groupBy.Some?) ==> Rewritten(user, cores).Err?
    ensures |cores| > 1 && !cores[0].aggregate && (forall i :: 0 <= i < |cores| ==> cores[i].groupBy.None?) ==>
              Rewritten(user, cores) == Ok(user + ColumnTerms("", cores[0].result))
    ensures |cores| == 1 && cores[0].aggregate ==> (Rewritten(user, cores) == if user == [] then Ok([]) else Err(AggregateError))
    ensures |cores| == 1 && !cores[0].aggregate && cores[0].groupBy.Some? ==>
              Rewritten(user, cores) == Ok(user + GroupTerms(cores[0].groupBy.value))
    ensures |cores| == 1 && !cores[0].aggregate && cores[0].groupBy.None? && cores[0].distinct ==>
              Rewritten(user, cores) == Ok(user + ColumnTerms("", cores[0].result))
    ensures |cores| == 1 && !cores[0].aggregate && cores[0].groupBy.None? && !cores[0].distinct ==>
              (Rewritten(user, cores).Ok? <==>
                 forall i :: 0 <= i < |cores[0].scope.relations| ==> HasKey(cores[0].scope.tables, cores[0].scope.relations[i]))
  {
    hide HasKey, PlainTerms, GroupTerms, ColumnTerms;
    PlainTermsOkExactly<X>(cores[0].scope.tables, cores[0].scope.relations);
    assert user + [] == user;
  }

  lemma PlainTermsNext<X>(tables: map<string, Table>, relations: seq<Relation>, i: nat)
    requires i < |relations| && PlainTerms<X>(tables, relations[..i]).Ok?
    ensures PlainTerms<X>(tables, relations[..i + 1]) ==
            match RelationColumns(tables, relations[i])
            case Err(e) => Err(PrimaryKeyError(e))
            case Ok(columns) => Ok(PlainTerms<X>(tables, relations[..i]).value + ColumnTerms(relations[i].name, columns))
  {
    hide ColumnTerms, RelationColumns;
    assert relations[..i + 1][..i] == relations[..i];
  }

  lemma NoPlainTerms<X>(tables: map<string, Table>, relations: seq<Relation>)
    ensures PlainTerms<X>(tables, relations[..0]) == Ok([])
  {
  }

  /** The statement whose `Ordering` the analyzer extends in place. */
  class SelectStatement<!X> {
    var ordering: seq<Term<X>>

    constructor (ordering: seq<Term<X>>)
      ensures this.ordering == ordering
    {
      this.ordering := ordering;
    }

    method AppendColumns(table: string, columns: seq<string>)
      modifies this
      ensures ordering == old(ordering) + ColumnTerms(table, columns)
    {
      for i := 0 to |columns|
        invariant ordering == old(ordering) + ColumnTerms(table, columns[..i])
      {
        assert columns[..i + 1][..i] == columns[..i];
        ordering := ordering + [ColumnTerm(table, columns[i])];
      }
      assert columns[..|columns|] == columns;
    }

    method AppendPlain(scope: Scope) returns (err: Option<OrderingError>)
      modifies this
      ensures match PlainTerms<X>(scope.tables, scope.relations)
              case Ok(terms) => err == None && ordering == old(ordering) + terms
              case Err(e) => err == Some(e)
    {
      hide PlainTerms, ColumnTerms, PrimaryKey;
      NoPlainTerms<X>(scope.tables, scope.relations);
      for i := 0 to |scope.relations|
        invariant PlainTerms<X>(scope.tables, scope.relations[..i]).Ok?
        invariant ordering == old(ordering) + PlainTerms<X>(scope.tables, scope.relations[..i]).value
      {
        var rel := scope.relations[i];
        PlainTermsNext<X>(scope.tables, scope.relations, i);
        if rel.name in scope.tables {
          var pks := GetPrimaryKey(scope.tables[rel.name]);
          if pks.Err? {
            PlainTermsPrefix<X>(scope.tables, scope.relations, i + 1);
            return Some(PrimaryKeyError(pks.error));
          }
          AppendColumns(rel.name, pks.value);
        } else {
          AppendColumns(rel.name, rel.attributes);
        }
      }
      assert scope.relations[..|scope.relations|] == scope.relations;
      return None;
    }

    /** Appends the default terms after the user's. */
    method ApplyDefaults(cores: seq<Shape>) returns (err: Option<OrderingError>)
      requires cores != []
      modifies this
      ensures match Rewritten(old(ordering), cores)
              case Ok(terms) => err == None && ordering == terms && old(ordering) <= ordering
              case Err(e) => err == Some(e)
    {
      var first := cores[0];
      if |cores| > 1 {
        for i := 0 to |cores|
          invariant forall j :: 0 <= j < i ==> cores[j].groupBy.None?
        {
          if cores[i].groupBy.Some? { return Some(AggregateError); }
        }
        AppendColumns("", first.result);
      } else if first.aggregate {
      } else if first.groupBy.Some? {
        var columns := first.groupBy.value;
        for i := 0 to |columns|
          invariant ordering == old(ordering) + GroupTerms(columns[..i])
        {
          assert columns[..i + 1][..i] == columns[..i];
          ordering := ordering + [ColumnTerm(columns[i].0, columns[i].1)];
        }
        assert columns[..|columns|] == columns;
      } else if first.distinct {
        AppendColumns("", first.result);
      } else {
        err := AppendPlain(first.scope);
        if err.Some? { return; }
      }
      if first.aggregate && ordering != [] { return Some(AggregateError); }
      return None;
    }
  }
}
