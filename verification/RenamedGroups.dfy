/** Grouping columns and aggregates of one unnamed subquery, under any names: exactly when the
    default ordering survives. */
module RenamedGroups {
  import opened Wrappers
  import opened Bags
  import opened Joins
  import opened SortOrder
  import opened DefaultOrdering
  import opened PlainSelect
  import opened GroupedSelect
  import opened UnnamedSelect
  import opened ShadowedSelect
  import opened UnnamedGroups
  import opened Aggregates

  /** What a result column shows: a grouping column, count(*), or an aggregate of a column that is
      not grouped by. */
  datatype What = Key(source: string) | CountRows | Fold(kind: Kind, source: string)

  datatype Item = Item(what: What, alias: string)

  /** SELECT items FROM (subquery without alias) GROUP BY keys LIMIT ... OFFSET ... */
  datatype Plan = Plan(attributes: seq<string>, keys: seq<string>, sel: seq<Item>, offset: nat, limit: Option<nat>)

  function Columns(keys: seq<string>): (r: seq<(string, string)>)
    ensures |r| == |keys| && forall i :: 0 <= i < |keys| ==> r[i] == ("", keys[i])
  {
    seq(|keys|, i requires 0 <= i < |keys| => ("", keys[i]))
  }

  ghost function Shown(keys: seq<string>, what: What): Group -> Value
  {
    match what
    case Key(c) => (g: Group) => KeyColumn(keys, c, g)
    case CountRows => (g: Group) => Val(|g.rows|)
    case Fold(k, c) => (g: Group) => OverBag(k, Column(c), g.rows)
  }

  function KeyColumn(keys: seq<string>, c: string, g: Group): Value
  {
    var p := PositionOf(Columns(keys), ("", c));
    if p < |g.key| then g.key[p] else Null
  }

  ghost function Planned(p: Plan): GroupedQuery
  {
    GroupedQuery(
      Statement(p.attributes, [], p.offset, p.limit),
      Columns(p.keys),
      (g: Group) => true,
      seq(|p.sel|, i requires 0 <= i < |p.sel| => GroupColumn(p.sel[i].alias, Shown(p.keys, p.sel[i].what))))
  }

  ghost predicate ValidWhat(p: Plan, what: What)
  {
    match what
    case Key(c) => c in p.keys
    case CountRows => true
    case Fold(_, c) => c in p.attributes && c !in p.keys
  }

  /** Columns exist, and the analyzer rejects repeated result names. */
  ghost predicate ValidPlan(p: Plan)
  {
    && (forall i :: 0 <= i < |p.keys| ==> p.keys[i] in p.attributes)
    && (forall i :: 0 <= i < |p.sel| ==> ValidWhat(p, p.sel[i].what))
    && (forall i, j :: 0 <= i < j < |p.sel| ==> p.sel[i].alias != p.sel[j].alias)
  }

  ghost predicate IsAlias(p: Plan, d: string)
  {
    exists j :: 0 <= j < |p.sel| && p.sel[j].alias == d
  }

  /** Names an ORDER BY may use: grouping columns and result columns. */
  ghost predicate ValidNames(p: Plan, names: seq<string>)
  {
    forall d :: d in names ==> d in p.keys || IsAlias(p, d)
  }

  /** What a term of this name means: a result column if there is one. */
  ghost predicate Means(p: Plan, d: string, what: What)
  {
    || (what == Key(d) && !IsAlias(p, d))
    || exists j :: 0 <= j < |p.sel| && p.sel[j].alias == d && p.sel[j].what == what
  }

  /** Some ordering term means it. */
  ghost predicate SortedBySome(p: Plan, names: seq<string>, what: What)
  {
    exists d :: d in names && Means(p, d, what)
  }

  /** Every grouping column is sorted on, or at least everything that is selected. */
  ghost predicate OrderSurvives(p: Plan, names: seq<string>)
  {
    || (forall c :: c in p.keys ==> SortedBySome(p, names, Key(c)))
    || (forall k :: 0 <= k < |p.sel| ==> SortedBySome(p, names, p.sel[k].what))
  }

  lemma {:induction false} GroupTermsAreColumns<X>(keys: seq<string>)
    ensures GroupTerms<X>(Columns(keys)) == ColumnTerms<X>("", keys)
  {
    if keys != [] {
      GroupTermsAreColumns<X>(keys[..|keys| - 1]);
      assert Columns(keys)[..|keys| - 1] == Columns(keys[..|keys| - 1]);
    }
  }

  /** What a term of this name sorts groups by. */
  lemma NamedValue(p: Plan, d: string, what: What, g: Group)
    requires ValidPlan(p) && Means(p, d, what)
    ensures GroupValue(Planned(p), "", d, g) == Shown(p.keys, what)(g)
  {
    hide Shown, PositionOf;
    var q := Planned(p);
    assert forall i :: 0 <= i < |p.sel| ==> q.out[i].name == p.sel[i].alias;
    if what == Key(d) && !IsAlias(p, d) {
      KeyShown(p.keys, d, g);
    } else {
      var j :| 0 <= j < |p.sel| && p.sel[j].alias == d && p.sel[j].what == what;
      assert q.out[j].name == d;
    }
  }

  lemma KeyShown(keys: seq<string>, c: string, g: Group)
    ensures Shown(keys, Key(c))(g) == KeyColumn(keys, c, g)
  {
  }

  lemma TieOnName(q: GroupedQuery, names: seq<string>, g: Group, h: Group, d: string)
    requires Tie(GroupKeys(q, ColumnTerms("", names)), g, h) && d in names
    ensures GroupValue(q, "", d, g) == GroupValue(q, "", d, h)
  {
    var terms := ColumnTerms<Group>("", names);
    ColumnTermsMember<Group>("", names, d);
    var i :| 0 <= i < |terms| && terms[i] == ColumnTerm("", d);
    assert GroupKeys(q, terms)[i].f(g) == GroupKeys(q, terms)[i].f(h);
  }

  lemma SortedValueTies(p: Plan, names: seq<string>, g: Group, h: Group, what: What)
    requires ValidPlan(p) && SortedBySome(p, names, what)
    requires Tie(GroupKeys(Planned(p), ColumnTerms("", names)), g, h)
    ensures Shown(p.keys, what)(g) == Shown(p.keys, what)(h)
  {
    hide GroupKeys, Tie, Shown, Means, GroupValue, Planned;
    var d :| d in names && Means(p, d, what);
    TieOnName(Planned(p), names, g, h, d);
    NamedValue(p, d, what, g);
    NamedValue(p, d, what, h);
  }

  /** A group's key, column by column. */
  lemma KeyColumnOf(keys: seq<string>, g: Group, row: JoinedRow, i: nat)
    requires i < |keys| && g.key == KeyValues(Columns(keys), row)
    ensures KeyColumn(keys, keys[i], g) == g.key[i] == Column(keys[i])(row)
  {
    var p := PositionOf(Columns(keys), ("", keys[i]));
    assert Columns(keys)[i] == ("", keys[i]) && Columns(keys)[p] == ("", keys[i]);
  }

  lemma SurvivingOrderDecides(p: Plan, names: seq<string>)
    requires ValidPlan(p) && OrderSurvives(p, names)
    ensures GroupTermsDecide(Planned(p), p.attributes, ColumnTerms("", names))
  {
    hide GroupKeys, Tie, Possible, SortedBySome, Shown, LexLeq, SortedBy;
    var q, terms := Planned(p), ColumnTerms<Group>("", names);
    forall gs | Contest(q, p.attributes, terms, gs)
      ensures ProjectGroup(q, gs[Skipped(q)]) == ProjectGroup(q, gs[Skipped(q) + 1])
    {
      var g, h := gs[Skipped(q)], gs[Skipped(q) + 1];
      if forall k :: 0 <= k < |p.sel| ==> SortedBySome(p, names, p.sel[k].what) {
        forall k | 0 <= k < |p.sel| ensures ProjectGroup(q, g)[k] == ProjectGroup(q, h)[k] {
          SortedValueTies(p, names, g, h, p.sel[k].what);
        }
      } else {
        SortedKeysEqual(p, names, g, h);
        assert false;
      }
    }
  }

  lemma SortedKeysEqual(p: Plan, names: seq<string>, g: Group, h: Group)
    requires ValidPlan(p) && forall c :: c in p.keys ==> SortedBySome(p, names, Key(c))
    requires Possible(Planned(p), p.attributes, g) && Possible(Planned(p), p.attributes, h)
    requires Tie(GroupKeys(Planned(p), ColumnTerms("", names)), g, h)
    ensures g.key == h.key
  {
    hide GroupKeys, Tie, KeyColumn, SortedBySome;
    var x :| x in g.rows;
    var y :| y in h.rows;
    forall i | 0 <= i < |p.keys| ensures g.key[i] == h.key[i] {
      SortedValueTies(p, names, g, h, Key(p.keys[i]));
      KeyColumnOf(p.keys, g, x, i);
      KeyColumnOf(p.keys, h, y, i);
    }
    assert g.key == h.key;
  }

  // ---------------------------------------------------------------------
  // Groups that only an unsorted column tells apart
  // ---------------------------------------------------------------------

  /** The column an aggregate reads; for the others any will do. */
  function Target(what: What, c: string): string
  {
    if what.Fold? then what.source else c
  }

  function Cells(what: What, second: bool): seq<Cell>
  {
    match what
    case Key(_) => [Cell(Val(0), Val(0))]
    case CountRows => Sample(None, second)
    case Fold(k, _) => Sample(Some(k), second)
  }

  /** Grouping column `c` holds `n`, the other grouping columns zero. */
  function Row(p: Plan, c: string, b: string, n: int, x: Cell): JoinedRow
  {
    map k | k in Joins.Keys(Relation("", p.attributes)) ::
      if k.1 == c then Val(n) else if k.1 in p.keys then Val(0) else if k.1 == b then x.chosen else x.other
  }

  function Rows(p: Plan, c: string, b: string, n: int, cells: seq<Cell>): (rows: seq<JoinedRow>)
    ensures |rows| == |cells| && forall i :: 0 <= i < |rows| ==> rows[i] == Row(p, c, b, n, cells[i])
  {
    seq(|cells|, i requires 0 <= i < |cells| => Row(p, c, b, n, cells[i]))
  }

  function SampleGroup(p: Plan, c: string, b: string, n: int, cells: seq<Cell>): Group
  {
    Group(KeyValues(Columns(p.keys), Row(p, c, b, n, Cell(Null, Null))), multiset(Rows(p, c, b, n, cells)))
  }

  /** What such a group shows. */
  function Expected(c: string, b: string, n: int, cells: seq<Cell>, what: What): Value
  {
    match what
    case Key(d) => if d == c then Val(n) else Val(0)
    case CountRows => Val(|cells|)
    case Fold(k, d) => Over(k, if d == b then Chosen() else Other(), cells)
  }

  lemma SampleShows(p: Plan, c: string, b: string, n: int, cells: seq<Cell>, what: What)
    requires ValidPlan(p) && c in p.keys && ValidWhat(p, what)
    ensures Shown(p.keys, what)(SampleGroup(p, c, b, n, cells)) == Expected(c, b, n, cells, what)
  {
    hide Over, OverBag, KeyColumn, KeyValues, Rows;
    var g, rows := SampleGroup(p, c, b, n, cells), Rows(p, c, b, n, cells);
    match what
    case Key(d) =>
      var i :| 0 <= i < |p.keys| && p.keys[i] == d;
      KeyColumnOf(p.keys, g, Row(p, c, b, n, Cell(Null, Null)), i);
      assert ("", d) in Joins.Keys(Relation("", p.attributes));
    case CountRows =>
      assert |multiset(rows)| == |rows|;
    case Fold(k, d) =>
      assert ("", d) in Joins.Keys(Relation("", p.attributes));
      OverBagIs(k, Column(d), rows);
      OverAlike(k, Column(d), rows, if d == b then Chosen() else Other(), cells);
  }

  /** The cells do not reach the grouping columns. */
  lemma RowKeys(p: Plan, c: string, b: string, n: int, x: Cell, y: Cell)
    ensures KeyValues(Columns(p.keys), Row(p, c, b, n, x)) == KeyValues(Columns(p.keys), Row(p, c, b, n, y))
    ensures RowOf(p.attributes, Row(p, c, b, n, x))
  {
  }

  lemma SamplePossible(p: Plan, c: string, b: string, n: int, cells: seq<Cell>)
    requires ValidPlan(p) && cells != []
    ensures Possible(Planned(p), p.attributes, SampleGroup(p, c, b, n, cells))
  {
    hide Shown, Rows, Column, Row, KeyValues;
    var g, rows := SampleGroup(p, c, b, n, cells), Rows(p, c, b, n, cells);
    assert rows[0] in multiset(rows);
    forall row | row in g.rows
      ensures Eligible(Planned(p).base, p.attributes, row) && KeyValues(Columns(p.keys), row) == g.key
    {
      assert row in rows;
      var i :| 0 <= i < |rows| && rows[i] == row;
      RowKeys(p, c, b, n, cells[i], Cell(Null, Null));
    }
  }

  /** Only `what` and the grouping column `c` tell two of these groups apart. */
  lemma SamplesAlike(what: What, c: string, m: int, n: int, first: bool, second: bool, other: What)
    requires other != what && other != Key(c) && (what.Fold? ==> what.source != c)
    ensures var b := Target(what, c);
            Expected(c, b, m, Cells(what, first), other) == Expected(c, b, n, Cells(what, second), other)
  {
    hide Over, Sample;
    var k := if what.Fold? then Some(what.kind) else None;
    var kind := if other.Fold? then other.kind else Count;
    SamplesDiffer(k, kind);
  }

  lemma SamplesApart(what: What, c: string, n: int)
    requires what.Key? ==> what.source == c
    ensures var b := Target(what, c);
            Expected(c, b, n, Cells(what, false), what) != Expected(c, b, n + 1, Cells(what, true), what)
  {
    hide Over, Sample;
    if what.Fold? {
      SamplesDiffer(Some(what.kind), what.kind);
    } else if what.CountRows? {
      SamplesDiffer(None, Count);
    }
  }

  /** The contest: as many groups as OFFSET needs, the last of them the second sample. */
  function Contenders(p: Plan, c: string, what: What, count: nat): (gs: seq<Group>)
    ensures |gs| == count
  {
    seq(count, n requires 0 <= n < count => SampleGroup(p, c, Target(what, c), n, Cells(what, n == count - 1)))
  }

  lemma ContendersTie(p: Plan, names: seq<string>, c: string, what: What, m: nat, n: nat, first: bool, second: bool)
    requires ValidPlan(p) && ValidNames(p, names) && c in p.keys && ValidWhat(p, what)
    requires !SortedBySome(p, names, Key(c)) && !SortedBySome(p, names, what)
    ensures var b := Target(what, c);
            Tie(GroupKeys(Planned(p), ColumnTerms("", names)),
                SampleGroup(p, c, b, m, Cells(what, first)), SampleGroup(p, c, b, n, Cells(what, second)))
  {
    var q, terms, b := Planned(p), ColumnTerms<Group>("", names), Target(what, c);
    var g, h := SampleGroup(p, c, b, m, Cells(what, first)), SampleGroup(p, c, b, n, Cells(what, second));
    forall i | 0 <= i < |terms| ensures GroupKeys(q, terms)[i].f(g) == GroupKeys(q, terms)[i].f(h) {
      hide GroupValue, SampleGroup, Planned, Shown, Expected, Cells;
      ColumnTermsShape<Group>("", names, i);
      var d := terms[i].column;
      var other := MeaningOf(p, names, d);
      NamedValue(p, d, other, g);
      NamedValue(p, d, other, h);
      SampleShows(p, c, b, m, Cells(what, first), other);
      SampleShows(p, c, b, n, Cells(what, second), other);
      SamplesAlike(what, c, m, n, first, second, other);
    }
  }

  lemma MeaningOf(p: Plan, names: seq<string>, d: string) returns (what: What)
    requires ValidPlan(p) && ValidNames(p, names) && d in names
    ensures Means(p, d, what) && ValidWhat(p, what) && SortedBySome(p, names, what)
  {
    if j :| 0 <= j < |p.sel| && p.sel[j].alias == d {
      what := p.sel[j].what;
    } else {
      what := Key(d);
    }
  }

  lemma ContendersContest(p: Plan, names: seq<string>, c: string, what: What)
    requires ValidPlan(p) && ValidNames(p, names) && c in p.keys && ValidWhat(p, what)
    requires !SortedBySome(p, names, Key(c)) && !SortedBySome(p, names, what)
    ensures Contest(Planned(p), p.attributes, ColumnTerms("", names), Contenders(p, c, what, Skipped(Planned(p)) + 2))
  {
    hide GroupKeys, Tie, Possible, SortedBySome, SampleGroup, Cells, LexLeq;
    var q, keys := Planned(p), GroupKeys(Planned(p), ColumnTerms("", names));
    var gs := Contenders(p, c, what, Skipped(q) + 2);
    forall i, j | 0 <= i < |gs| && 0 <= j < |gs| ensures Tie(keys, gs[i], gs[j]) {
      ContendersTie(p, names, c, what, i, j, i == |gs| - 1, j == |gs| - 1);
    }
    TiedArranged(gs, keys);
    forall i | 0 <= i < |gs| ensures Possible(q, p.attributes, gs[i]) {
      CellsNotEmpty(what, i == |gs| - 1);
      SamplePossible(p, c, Target(what, c), i, Cells(what, i == |gs| - 1));
    }
    forall i, j | 0 <= i < j < |gs| ensures gs[i].key != gs[j].key {
      SampleShows(p, c, Target(what, c), i, Cells(what, i == |gs| - 1), Key(c));
      SampleShows(p, c, Target(what, c), j, Cells(what, j == |gs| - 1), Key(c));
    }
  }

  lemma CellsNotEmpty(what: What, second: bool)
    ensures Cells(what, second) != []
  {
  }

  /** An unsorted grouping column `c` and an unsorted item: if that item is a grouping column, take
      `c` to be it. */
  lemma LostOrderUndecided(p: Plan, names: seq<string>, c: string, k: nat)
    requires ValidPlan(p) && ValidNames(p, names) && c in p.keys && !SortedBySome(p, names, Key(c))
    requires k < |p.sel| && !SortedBySome(p, names, p.sel[k].what) && (p.sel[k].what.Key? ==> p.sel[k].what.source == c)
    ensures !GroupTermsDecide(Planned(p), p.attributes, ColumnTerms("", names))
  {
    hide Contest, SortedBySome, SampleGroup, Cells, Expected, Shown;
    var q, what := Planned(p), p.sel[k].what;
    var n := Skipped(q);
    var gs := Contenders(p, c, what, n + 2);
    ContendersContest(p, names, c, what);
    SampleShows(p, c, Target(what, c), n, Cells(what, false), what);
    SampleShows(p, c, Target(what, c), n + 1, Cells(what, true), what);
    SamplesApart(what, c, n);
    assert ProjectGroup(q, gs[n])[k] != ProjectGroup(q, gs[n + 1])[k];
  }

  /** Grouping columns and any mix of count(*), count, sum, min and max over an unnamed subquery,
      with any of them in the user's ORDER BY, any LIMIT and any OFFSET: the result is deterministic
      if and only if LIMIT is 0, or some ordering term means each grouping column, or some ordering
      term means each result column. */
  lemma GroupRenamingExactly(p: Plan, user: seq<string>)
    requires ValidPlan(p) && ValidNames(p, user)
    ensures var q := Planned(p);
            && Rewritten<Group>(ColumnTerms("", user), [GroupShape(q)]).Ok?
            && (GroupsDeterministic(q, Rewritten<Group>(ColumnTerms("", user), [GroupShape(q)]).value) <==>
                p.limit == Some(0) || OrderSurvives(p, user + p.keys))
  {
    hide GroupTermsDecide, GroupsDeterministic, SortedBySome, Shown;
    var q, names := Planned(p), user + p.keys;
    assert Unnamed(q.base, p.attributes);
    GroupsDeterministicExactly(q, p.attributes, ColumnTerms("", user));
    GroupTermsAreColumns<Group>(p.keys);
    ColumnTermsConcat<Group>(user, p.keys);
    if OrderSurvives(p, names) {
      SurvivingOrderDecides(p, names);
    } else {
      var k :| 0 <= k < |p.sel| && !SortedBySome(p, names, p.sel[k].what);
      var c :| c in p.keys && !SortedBySome(p, names, Key(c));
      assert ValidWhat(p, p.sel[k].what);
      LostOrderUndecided(p, names, if p.sel[k].what.Key? then p.sel[k].what.source else c, k);
    }
  }

  /** SELECT agg(b) AS a, a AS c FROM (SELECT a, b ...) GROUP BY a, for each aggregate: the appended
      term a means the aggregate, so groups where it is equal come in any order. */
  lemma GroupRenamingWitness(what: What)
    requires what == CountRows || (what.Fold? && what.source == "b")
    ensures var q := Planned(Plan(["a", "b"], ["a"], [Item(what, "a"), Item(Key("a"), "c")], 0, None));
            && Rewritten<Group>([], [GroupShape(q)]).Ok?
            && !GroupsDeterministic(q, Rewritten<Group>([], [GroupShape(q)]).value)
  {
    hide GroupsDeterministic, Planned;
    var p := Plan(["a", "b"], ["a"], [Item(what, "a"), Item(Key("a"), "c")], 0, None);
    assert [] + p.keys == ["a"] && "b" !in ["a"] && "c" != "a";
    assert p.sel[0].alias == "a" && p.sel[1].alias == "c";
    assert forall d :: d in p.keys ==> d == "a";
    assert !SortedBySome(p, ["a"], Key("a"));
    assert "a" in p.keys && p.sel[1].what == Key("a");
    GroupRenamingExactly(p, []);
  }
}
