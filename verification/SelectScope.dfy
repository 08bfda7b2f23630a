/** The analyzer's view of FROM and JOIN (sqlContext in parse/analyze.go): which relations are
    joined under which names, and which of them are tables. */
module SelectScope {
  import opened Wrappers
  import opened Joins
  import opened Schema

  datatype Scope = Scope(relations: seq<Relation>, tables: map<string, Table>)

  /** A relation listed in FROM or JOIN. Subqueries and function calls come with the columns
      they return; their alias may be empty only for a single relation. */
  datatype FromItem =
    | FromTable(table: string, alias: string)
    | FromQuery(alias: string, attributes: seq<string>)

  ghost predicate HasName(relations: seq<Relation>, name: string)
  {
    exists i :: 0 <= i < |relations| && relations[i].name == name
  }

  /** Names are distinct; a name registered as a table names a relation with that table's
      columns; an unnamed relation is alone and no table. */
  ghost predicate ValidScope(s: Scope)
  {
    && DistinctNames(s.relations)
    && (forall i :: 0 <= i < |s.relations| && s.relations[i].name in s.tables ==>
          s.relations[i].attributes == ColumnNames(s.tables[s.relations[i].name]))
    && (forall n :: n in s.tables ==> HasName(s.relations, n))
    && (HasName(s.relations, "") ==> |s.relations| == 1)
    && "" !in s.tables
  }

  /** The scope after one more relation, or None for an analysis error. */
  ghost function Visited(s: Scope, schema: map<string, Table>, ctes: map<string, seq<string>>, item: FromItem): Option<Scope>
  {
    if HasName(s.relations, "") then None
    else
      match item
      case FromTable(table, alias) =>
        var name := if alias != "" then alias else table;
        if table in schema then
          if name in s.tables || HasName(s.relations, name) then None
          else Some(Scope(s.relations + [Relation(name, ColumnNames(schema[table]))], s.tables[name := schema[table]]))
        else if table in ctes && !HasName(s.relations, name) then
          Some(s.(relations := s.relations + [Relation(name, ctes[table])]))
        else None
      case FromQuery(alias, attributes) =>
        if (alias == "" && s.relations != []) || HasName(s.relations, alias) then None
        else Some(s.(relations := s.relations + [Relation(alias, attributes)]))
  }

  class SqlContext {
    var joinedRelations: seq<Relation>
    var joinedTables: map<string, Table>
    var hasAnonymousTable: bool

    ghost predicate Valid()
      reads this
    {
      && ValidScope(Scope(joinedRelations, joinedTables))
      && (HasName(joinedRelations, "") <==> hasAnonymousTable)
    }

    constructor ()
      ensures Valid() && joinedRelations == [] && joinedTables == map[]
    {
      joinedRelations, joinedTables, hasAnonymousTable := [], map[], false;
    }

    method GetJoinedRelation(name: string) returns (found: bool)
      ensures found <==> HasName(joinedRelations, name)
    {
      for i := 0 to |joinedRelations|
        invariant forall j :: 0 <= j < i ==> joinedRelations[j].name != name
      {
        if joinedRelations[i].name == name { return true; }
      }
      return false;
    }

    method JoinRelation(r: Relation) returns (ok: bool)
      modifies this`joinedRelations
      ensures ok <==> !HasName(old(joinedRelations), r.name)
      ensures joinedRelations == if ok then old(joinedRelations) + [r] else old(joinedRelations)
    {
      var found := GetJoinedRelation(r.name);
      if found { return false; }
      joinedRelations := joinedRelations + [r];
      return true;
    }

    method JoinTable(name: string, t: Table) returns (ok: bool)
      modifies this`joinedTables
      ensures ok <==> name !in old(joinedTables)
      ensures joinedTables == if ok then old(joinedTables)[name := t] else old(joinedTables)
    {
      if name in joinedTables { return false; }
      joinedTables := joinedTables[name := t];
      return true;
    }

    /** Visits one relation. Failure is an analysis error: the statement is rejected. */
    method Visit(schema: map<string, Table>, ctes: map<string, seq<string>>, item: FromItem) returns (ok: bool)
      requires Valid()
      requires forall n :: n in schema ==> n != "" && schema[n].name == n
      requires item.FromTable? ==> item.table != ""
      modifies this
      ensures ok <==> Visited(Scope(old(joinedRelations), old(joinedTables)), schema, ctes, item).Some?
      ensures ok ==> Valid()
      ensures ok ==> Visited(Scope(old(joinedRelations), old(joinedTables)), schema, ctes, item) ==
                       Some(Scope(joinedRelations, joinedTables))
    {
      if hasAnonymousTable { return false; }
      var rel;
      match item {
        case FromTable(table, alias) =>
          var name := if alias != "" then alias else table;
          if table in schema {
            rel := Relation(name, ColumnNames(schema[table]));
            ok := JoinTable(name, schema[table]);
            if !ok { return; }
          } else if table in ctes {
            rel := Relation(name, ctes[table]);
          } else {
            return false;
          }
        case FromQuery(alias, attributes) =>
          if alias == "" {
            if joinedRelations != [] { return false; }
            hasAnonymousTable := true;
          }
          rel := Relation(alias, attributes);
      }
      ok := JoinRelation(rel);
      if ok {
        VisitedValid(Scope(old(joinedRelations), old(joinedTables)), schema, ctes, item);
      }
    }
  }

  lemma VisitedValid(s: Scope, schema: map<string, Table>, ctes: map<string, seq<string>>, item: FromItem)
    requires ValidScope(s) && Visited(s, schema, ctes, item).Some?
    requires item.FromTable? ==> item.table != ""
    ensures ValidScope(Visited(s, schema, ctes, item).value)
    ensures HasName(Visited(s, schema, ctes, item).value.relations, "") <==> item.alias == "" && item.FromQuery?
  {
    var s' := Visited(s, schema, ctes, item).value;
    var n := |s.relations|;
    forall t | t in s'.tables ensures HasName(s'.relations, t) {
      if t in s.tables {
        var i :| 0 <= i < n && s.relations[i].name == t;
        assert s'.relations[i].name == t;
      } else {
        assert s'.relations[n].name == t;
      }
    }
    assert s'.relations[n].name == "" <==> item.alias == "" && item.FromQuery?;
    if HasName(s'.relations, "") {
      var i :| 0 <= i < |s'.relations| && s'.relations[i].name == "";
      assert i == n;
    }
  }

  /** A table is found under its alias if it has one and under its own name otherwise, with its
      columns and its definition; it is refused exactly when that name is taken or an unnamed
      relation is there. */
  lemma TableVisited(s: Scope, schema: map<string, Table>, ctes: map<string, seq<string>>, table: string, alias: string)
    requires ValidScope(s) && table in schema
    ensures var r, name := Visited(s, schema, ctes, FromTable(table, alias)), if alias == "" then table else alias;
            && (r.Some? <==> forall i :: 0 <= i < |s.relations| ==> s.relations[i].name != "" && s.relations[i].name != name)
            && (r.Some? ==>
                  && r.value.relations == s.relations + [Relation(name, ColumnNames(schema[table]))]
                  && r.value.tables.Keys == s.tables.Keys + {name} && r.value.tables[name] == schema[table]
                  && forall n :: n in s.tables && n != name ==> r.value.tables[n] == s.tables[n])
  {
  }

  /** A common table expression is found the same way; it is no table. */
  lemma ExpressionVisited(s: Scope, schema: map<string, Table>, ctes: map<string, seq<string>>, table: string, alias: string)
    requires ValidScope(s) && table !in schema
    ensures var r, name := Visited(s, schema, ctes, FromTable(table, alias)), if alias == "" then table else alias;
            && (r.Some? <==>
                  table in ctes && forall i :: 0 <= i < |s.relations| ==> s.relations[i].name != "" && s.relations[i].name != name)
            && (r.Some? ==> r.value.relations == s.relations + [Relation(name, ctes[table])] && r.value.tables == s.tables)
  {
  }

  /** A subquery needs a free name, or to be the only relation. */
  lemma QueryVisited(s: Scope, schema: map<string, Table>, ctes: map<string, seq<string>>, alias: string, attributes: seq<string>)
    requires ValidScope(s)
    ensures var r := Visited(s, schema, ctes, FromQuery(alias, attributes));
            && (r.Some? <==>
                  && (alias == "" ==> s.relations == [])
                  && forall i :: 0 <= i < |s.relations| ==> s.relations[i].name != "" && s.relations[i].name != alias)
            && (r.Some? ==> r.value.relations == s.relations + [Relation(alias, attributes)] && r.value.tables == s.tables)
  {
    if s.relations != [] {
      assert s.relations[0].name == s.relations[0].name;
    }
  }

  /** So one table can be joined twice, under two aliases. */
  lemma JoinedTwice(s: Scope, schema: map<string, Table>, ctes: map<string, seq<string>>, table: string, a: string, b: string)
    requires ValidScope(s) && table in schema && table != "" && a != "" && b != "" && a != b
    requires forall i :: 0 <= i < |s.relations| ==>
               s.relations[i].name != "" && s.relations[i].name != a && s.relations[i].name != b
    ensures var one := Visited(s, schema, ctes, FromTable(table, a));
            && one.Some?
            && var two := Visited(one.value, schema, ctes, FromTable(table, b));
               && two.Some? && two.value.tables.Keys == s.tables.Keys + {a, b}
               && two.value.tables[a] == two.value.tables[b] == schema[table]
               && two.value.relations == s.relations +
                    [Relation(a, ColumnNames(schema[table])), Relation(b, ColumnNames(schema[table]))]
  {
    hide ValidScope, Visited;
    TableVisited(s, schema, ctes, table, a);
    var one := Visited(s, schema, ctes, FromTable(table, a)).value;
    VisitedValid(s, schema, ctes, FromTable(table, a));
    TableVisited(one, schema, ctes, table, b);
    var r := ColumnNames(schema[table]);
    assert s.relations + [Relation(a, r)] + [Relation(b, r)] == s.relations + [Relation(a, r), Relation(b, r)];
  }
}
