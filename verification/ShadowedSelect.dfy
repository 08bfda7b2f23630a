/** Renaming the columns of one unnamed subquery: exactly when the default ordering survives it. */
module ShadowedSelect {
  import opened Wrappers
  import opened Joins
  import opened SortOrder
  import opened SelectScope
  import opened DefaultOrdering
  import opened PlainSelect
  import opened UnnamedSelect

  /** SELECT source AS alias, ... FROM (subquery without alias) LIMIT ... OFFSET ... */
  datatype Renaming = Renaming(source: string, alias: string)

  function Column(source: string): JoinedRow -> Value
  {
    row => if ("", source) in row then row[("", source)] else Null
  }

  function Statement(attributes: seq<string>, sel: seq<Renaming>, offset: nat, limit: Option<nat>): Query
  {
    Query(
      Scope([Relation("", attributes)], map[]),
      [Join(Inner, (row: JoinedRow) => true)],
      (row: JoinedRow) => true,
      seq(|sel|, i requires 0 <= i < |sel| => OutColumn(sel[i].alias, Column(sel[i].source))),
      offset, limit)
  }

  /** Sources exist, and the analyzer rejects repeated result names. */
  ghost predicate ValidSelection(attributes: seq<string>, sel: seq<Renaming>)
  {
    && (forall i :: 0 <= i < |sel| ==> sel[i].source in attributes)
    && (forall i, j :: 0 <= i < j < |sel| ==> sel[i].alias != sel[j].alias)
  }

  /** With ORDER BY terms of these names, column `c` is sorted on: its own name is free, or it is
      selected under one of the names. */
  ghost predicate SortedOn(names: seq<string>, sel: seq<Renaming>, c: string)
  {
    || (c in names && forall i :: 0 <= i < |sel| ==> sel[i].alias != c)
    || (exists j :: 0 <= j < |sel| && sel[j].source == c && sel[j].alias in names)
  }

  ghost predicate EverySourceSortedOn(names: seq<string>, sel: seq<Renaming>)
  {
    forall k :: 0 <= k < |sel| ==> SortedOn(names, sel, sel[k].source)
  }

  lemma {:induction false} ColumnTermsConcat<X>(a: seq<string>, b: seq<string>)
    ensures ColumnTerms<X>("", a) + ColumnTerms<X>("", b) == ColumnTerms<X>("", a + b)
  {
    if b == [] {
      assert a + b == a && ColumnTerms<X>("", a) + [] == ColumnTerms<X>("", a);
    } else {
      ColumnTermsConcat<X>(a, b[..|b| - 1]);
      assert (a + b)[..|a + b| - 1] == a + b[..|b| - 1];
    }
  }

  /** The value an ordering term sorts by. */
  lemma TermValue(q: Query, sel: seq<Renaming>, c: string, row: JoinedRow)
    requires |q.out| == |sel| && forall i :: 0 <= i < |sel| ==> q.out[i] == OutColumn(sel[i].alias, Column(sel[i].source))
    requires forall i, j :: 0 <= i < j < |sel| ==> sel[i].alias != sel[j].alias
    ensures var v := ColumnValue(q.out, "", c, row);
            && (forall i :: 0 <= i < |sel| && sel[i].alias == c ==> v == Column(sel[i].source)(row))
            && ((forall i :: 0 <= i < |sel| ==> sel[i].alias != c) ==> v == Column(c)(row))
  {
    assert forall i :: 0 <= i < |sel| ==> q.out[i].name == sel[i].alias;
  }

  lemma TiedSources(q: Query, attributes: seq<string>, sel: seq<Renaming>, names: seq<string>, a: JoinedRow, b: JoinedRow, k: nat)
    requires q == Statement(attributes, sel, q.offset, q.limit) && ValidSelection(attributes, sel)
    requires k < |sel| && SortedOn(names, sel, sel[k].source)
    requires Tie(KeysOf(q.out, ColumnTerms("", names)), a, b)
    ensures Column(sel[k].source)(a) == Column(sel[k].source)(b)
  {
    var c := sel[k].source;
    var d := c;
    if !(c in names && forall i :: 0 <= i < |sel| ==> sel[i].alias != c) {
      var j :| 0 <= j < |sel| && sel[j].source == c && sel[j].alias in names;
      d := sel[j].alias;
    }
    ColumnTermsMember<JoinedRow>("", names, d);
    TieOnTerm(q.out, ColumnTerms("", names), a, b, "", d);
    TermValue(q, sel, d, a);
    TermValue(q, sel, d, b);
  }

  lemma SortedMeansDecided(q: Query, attributes: seq<string>, sel: seq<Renaming>, names: seq<string>)
    requires q == Statement(attributes, sel, q.offset, q.limit) && ValidSelection(attributes, sel)
    requires EverySourceSortedOn(names, sel)
    ensures TermsDecide(q, attributes, ColumnTerms("", names))
  {
    hide KeysOf, Tie, SortedOn;
    forall x, y | Tie(KeysOf(q.out, ColumnTerms("", names)), x, y) ensures Project(q, x) == Project(q, y) {
      forall k | 0 <= k < |sel| ensures Project(q, x)[k] == Project(q, y)[k] {
        TiedSources(q, attributes, sel, names, x, y, k);
      }
    }
  }

  // ---------------------------------------------------------------------
  // A column that is not sorted on
  // ---------------------------------------------------------------------

  function Zeroes(attributes: seq<string>): JoinedRow
  {
    map k | k in Keys(Relation("", attributes)) :: Val(0)
  }

  lemma WitnessTies(q: Query, attributes: seq<string>, sel: seq<Renaming>, names: seq<string>, c: string)
    requires q == Statement(attributes, sel, q.offset, q.limit) && ValidSelection(attributes, sel)
    requires c in attributes && !SortedOn(names, sel, c)
    ensures var a, b := Zeroes(attributes), Zeroes(attributes)[("", c) := Val(1)];
            Tie(KeysOf(q.out, ColumnTerms("", names)), a, b)
  {
    var terms := ColumnTerms<JoinedRow>("", names);
    var a, b := Zeroes(attributes), Zeroes(attributes)[("", c) := Val(1)];
    forall i | 0 <= i < |terms| ensures KeysOf(q.out, terms)[i].f(a) == KeysOf(q.out, terms)[i].f(b) {
      ColumnTermsShape<JoinedRow>("", names, i);
      var d := terms[i].column;
      TermValue(q, sel, d, a);
      TermValue(q, sel, d, b);
      if j :| 0 <= j < |sel| && sel[j].alias == d {
        assert sel[j].source != c;
      }
    }
  }

  lemma {:induction false} ColumnTermsShape<X>(table: string, columns: seq<string>, i: nat)
    requires i < |ColumnTerms<X>(table, columns)|
    ensures ColumnTerms<X>(table, columns)[i].ColumnTerm? && ColumnTerms<X>(table, columns)[i].table == table
    ensures ColumnTerms<X>(table, columns)[i].column in columns
  {
    if i < |ColumnTerms<X>(table, columns[..|columns| - 1])| {
      ColumnTermsShape<X>(table, columns[..|columns| - 1], i);
    }
  }

  lemma UnsortedMeansUndecided(q: Query, attributes: seq<string>, sel: seq<Renaming>, names: seq<string>, k: nat)
    requires q == Statement(attributes, sel, q.offset, q.limit) && ValidSelection(attributes, sel)
    requires k < |sel| && !SortedOn(names, sel, sel[k].source)
    ensures !TermsDecide(q, attributes, ColumnTerms("", names))
  {
    hide KeysOf, SortedOn, Tie;
    var c := sel[k].source;
    var a, b := Zeroes(attributes), Zeroes(attributes)[("", c) := Val(1)];
    WitnessTies(q, attributes, sel, names, c);
    assert ("", c) in Keys(Relation("", attributes));
    assert b.Keys == a.Keys;
    assert Eligible(q, attributes, a) && Eligible(q, attributes, b);
    assert Project(q, a)[k] == Val(0) && Project(q, b)[k] == Val(1);
  }

  /** Exactly when renaming the columns of an unnamed subquery keeps the result deterministic, with
      any columns in the user's ORDER BY: LIMIT is 0, or every selected column keeps a free name or
      is selected under the name of an ordering term. */
  lemma RenamingDeterministicExactly(attributes: seq<string>, sel: seq<Renaming>, user: seq<string>, offset: nat, limit: Option<nat>)
    requires ValidSelection(attributes, sel)
    ensures var q := Statement(attributes, sel, offset, limit);
            && Rewritten<JoinedRow>(ColumnTerms("", user), [ShapeOf(q)]).Ok?
            && (Deterministic(q, Rewritten<JoinedRow>(ColumnTerms("", user), [ShapeOf(q)]).value) <==>
                limit == Some(0) || EverySourceSortedOn(user + attributes, sel))
  {
    hide SortedOn, TermsDecide, Deterministic;
    var q, names := Statement(attributes, sel, offset, limit), user + attributes;
    assert Unnamed(q, attributes);
    UnnamedDeterministicExactly(q, attributes, ColumnTerms("", user));
    UnnamedRewrite(q, attributes, ColumnTerms("", user));
    ColumnTermsConcat<JoinedRow>(user, attributes);
    if EverySourceSortedOn(names, sel) {
      SortedMeansDecided(q, attributes, sel, names);
    } else {
      var k :| 0 <= k < |sel| && !SortedOn(names, sel, sel[k].source);
      UnsortedMeansUndecided(q, attributes, sel, names, k);
    }
  }

  /** SELECT a AS b, b AS c FROM (SELECT a, b ...): the default terms are a and b, but b now means
      the first result column, so nothing orders the second. */
  lemma RenamingWitness()
    ensures var q := Statement(["a", "b"], [Renaming("a", "b"), Renaming("b", "c")], 0, None);
            && Rewritten<JoinedRow>([], [ShapeOf(q)]).Ok?
            && !Deterministic(q, Rewritten<JoinedRow>([], [ShapeOf(q)]).value)
  {
    hide Deterministic;
    var sel := [Renaming("a", "b"), Renaming("b", "c")];
    assert sel[0].alias == "b" && sel[1].source == "b";
    assert "c" !in ["a", "b"] && [] + ["a", "b"] == ["a", "b"];
    assert !SortedOn(["a", "b"], sel, sel[1].source);
    RenamingDeterministicExactly(["a", "b"], sel, [], 0, None);
  }
}
