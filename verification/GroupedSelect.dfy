/** Deterministic ordering of SELECT ... GROUP BY plain columns. */
module GroupedSelect {
  import opened Wrappers
  import opened Bags
  import opened Joins
  import opened SortOrder
  import opened DefaultOrdering
  import opened PlainSelect

  /** A group: the values of its GROUP BY columns and the bag of its rows. */
  datatype Group = Group(key: seq<Value>, rows: multiset<JoinedRow>)

  /** A result column: a grouping column or an aggregate, so a function of the group. */
  datatype GroupColumn = GroupColumn(name: string, f: Group -> Value)

  /** The joined and filtered rows of `base`, grouped by `columns`. */
  datatype GroupedQuery = GroupedQuery(
    base: Query,
    columns: seq<(string, string)>,
    having: Group -> bool,
    out: seq<GroupColumn>)

  function GroupShape(q: GroupedQuery): Shape
  {
    Shape(q.base.scope, seq(|q.out|, i requires 0 <= i < |q.out| => q.out[i].name), false, Some(q.columns), false)
  }

  function KeyValues(columns: seq<(string, string)>, row: JoinedRow): seq<Value>
  {
    seq(|columns|, i requires 0 <= i < |columns| => if columns[i] in row then row[columns[i]] else Null)
  }

  function RowsOf(rows: seq<JoinedRow>, columns: seq<(string, string)>, key: seq<Value>): seq<JoinedRow>
  {
    FlatMap(rows, row => if KeyValues(columns, row) == key then [row] else [])
  }

  function GroupOf(rows: seq<JoinedRow>, columns: seq<(string, string)>, key: seq<Value>): Group
  {
    Group(key, multiset(RowsOf(rows, columns, key)))
  }

  function Groups(rows: seq<JoinedRow>, columns: seq<(string, string)>): set<Group>
  {
    set row | row in rows :: GroupOf(rows, columns, KeyValues(columns, row))
  }

  ghost function GroupBag(q: GroupedQuery, input: Input): multiset<Group>
    requires |q.base.scope.relations| == |q.base.joins| == |input|
  {
    multiset(set g | g in Groups(Filtered(q.base, input), q.columns) && q.having(g))
  }

  // ---------------------------------------------------------------------
  // Ordering by group columns
  // ---------------------------------------------------------------------

  function NamedGroup(out: seq<GroupColumn>, name: string): (r: Option<nat>)
    ensures r.Some? ==> r.value < |out| && out[r.value].name == name
    ensures r.None? ==> forall i :: 0 <= i < |out| ==> out[i].name != name
  {
    if out == [] then None
    else
      match NamedGroup(out[..|out| - 1], name)
      case Some(i) => Some(i)
      case None => if out[|out| - 1].name == name then Some(|out| - 1) else None
  }

  function PositionOf(columns: seq<(string, string)>, column: (string, string)): (i: nat)
    ensures column in columns ==> i < |columns| && columns[i] == column
  {
    if columns == [] then 0
    else if column in columns[..|columns| - 1] then PositionOf(columns[..|columns| - 1], column)
    else |columns| - 1
  }

  function GroupValue(q: GroupedQuery, table: string, column: string, g: Group): Value
  {
    if table == "" && NamedGroup(q.out, column).Some? then q.out[NamedGroup(q.out, column).value].f(g)
    else if PositionOf(q.columns, (table, column)) < |g.key| then g.key[PositionOf(q.columns, (table, column))]
    else Null
  }

  function GroupKeys(q: GroupedQuery, terms: seq<Term<Group>>): seq<SortKey<Group>>
  {
    seq(|terms|, i requires 0 <= i < |terms| =>
      match terms[i]
      case UserTerm(key) => key
      case ColumnTerm(table, column) => SortKey(g => GroupValue(q, table, column, g), false, false))
  }

  function ProjectGroup(q: GroupedQuery, g: Group): OutRow
  {
    seq(|q.out|, i requires 0 <= i < |q.out| => q.out[i].f(g))
  }

  function ProjectGroups(q: GroupedQuery, gs: seq<Group>): seq<OutRow>
  {
    seq(|gs|, i requires 0 <= i < |gs| => ProjectGroup(q, gs[i]))
  }

  ghost predicate IsGroupResult(q: GroupedQuery, terms: seq<Term<Group>>, input: Input, result: seq<OutRow>)
    requires |q.base.scope.relations| == |q.base.joins| == |input|
  {
    exists s :: Arranges(s, GroupBag(q, input), GroupKeys(q, terms)) &&
                result == Window(ProjectGroups(q, s), q.base.offset, q.base.limit)
  }

  /** Grouping does not see the order of rows. */
  lemma GroupsSame(r: seq<JoinedRow>, s: seq<JoinedRow>, columns: seq<(string, string)>)
    requires multiset(r) == multiset(s)
    ensures Groups(r, columns) == Groups(s, columns)
  {
    forall key ensures GroupOf(r, columns, key) == GroupOf(s, columns, key) {
      var f := row => if KeyValues(columns, row) == key then [row] else [];
      FlatMapPermutes(r, s, f, f);
    }
    assert forall row :: row in r <==> row in s by {
      assert forall row :: row in r <==> row in multiset(r);
      assert forall row :: row in s <==> row in multiset(s);
    }
  }

  lemma {:induction false} GroupTermsMember<X>(columns: seq<(string, string)>, i: nat)
    requires i < |columns|
    ensures ColumnTerm(columns[i].0, columns[i].1) in GroupTerms<X>(columns)
  {
    if i < |columns| - 1 {
      GroupTermsMember<X>(columns[..|columns| - 1], i);
    }
  }

  /** No result column takes over the name of a grouping column of an unnamed relation, unless it
      is that column. */
  ghost predicate ValidGrouping(q: GroupedQuery)
  {
    forall i, g: Group :: 0 <= i < |q.columns| && TakenOver(q, i) && |g.key| == |q.columns| ==>
      q.out[NamedGroup(q.out, q.columns[i].1).value].f(g) == g.key[i]
  }

  /** An unqualified grouping column whose name is also a result column's. */
  ghost predicate TakenOver(q: GroupedQuery, i: int)
    requires 0 <= i < |q.columns|
  {
    q.columns[i].0 == "" && NamedGroup(q.out, q.columns[i].1).Some?
  }

  lemma TiedGroupsEqual(q: GroupedQuery, user: seq<Term<Group>>, rows: seq<JoinedRow>, x: Group, y: Group)
    requires ValidGrouping(q) && x in Groups(rows, q.columns) && y in Groups(rows, q.columns)
    requires Tie(GroupKeys(q, user + GroupTerms(q.columns)), x, y)
    ensures x == y
  {
    var terms := user + GroupTerms<Group>(q.columns);
    forall i | 0 <= i < |q.columns| ensures x.key[i] == y.key[i] {
      GroupTermsMember<Group>(q.columns, i);
      assert ColumnTerm(q.columns[i].0, q.columns[i].1) in terms;
      var k :| 0 <= k < |terms| && terms[k] == ColumnTerm(q.columns[i].0, q.columns[i].1);
      assert GroupKeys(q, terms)[k].f(x) == GroupKeys(q, terms)[k].f(y);
      assert (q.columns[i].0, q.columns[i].1) == q.columns[i];
      var p := PositionOf(q.columns, q.columns[i]);
      assert q.columns[p] == q.columns[i] && x.key[p] == x.key[i] && y.key[p] == y.key[i];
    }
    assert x.key == y.key;
  }

  /** The theorem for GROUP BY plain columns. */
  lemma GroupedSelectDeterministic(q: GroupedQuery, user: seq<Term<Group>>, a: Input, b: Input, ra: seq<OutRow>, rb: seq<OutRow>)
    requires |q.base.scope.relations| == |q.base.joins| == |a| && SameRows(a, b) && ValidGrouping(q)
    requires Rewritten(user, [GroupShape(q)]).Ok?
    requires IsGroupResult(q, Rewritten(user, [GroupShape(q)]).value, a, ra)
    requires IsGroupResult(q, Rewritten(user, [GroupShape(q)]).value, b, rb)
    ensures ra == rb
  {
    var terms := Rewritten(user, [GroupShape(q)]).value;
    assert terms == user + GroupTerms(q.columns);
    FilteredPermutes(q.base, a, b);
    GroupsSame(Filtered(q.base, a), Filtered(q.base, b), q.columns);
    var bag, keys := GroupBag(q, a), GroupKeys(q, terms);
    assert forall g :: g in bag ==> g in Groups(Filtered(q.base, a), q.columns);
    hide GroupBag, GroupKeys, Arranges, GroupTerms, Groups, Filtered, ValidGrouping, ProjectGroup;
    var s :| Arranges(s, bag, keys) && ra == Window(ProjectGroups(q, s), q.base.offset, q.base.limit);
    var t :| Arranges(t, bag, keys) && rb == Window(ProjectGroups(q, t), q.base.offset, q.base.limit);
    forall x, y | x in bag && y in bag && Tie(keys, x, y) ensures x == y {
      TiedGroupsEqual(q, user, Filtered(q.base, a), x, y);
    }
    ObservationUnique(s, t, bag, keys, x => x);
    assert s == t;
  }

  /** The rewrite keeps the user's terms in front, keeps the groups and only rules answers out:
      every answer to the rewritten statement answers the user's, and there is one. */
  lemma GroupRewriteRefines(q: GroupedQuery, user: seq<Term<Group>>, input: Input)
    requires |q.base.scope.relations| == |q.base.joins| == |input| && Rewritten(user, [GroupShape(q)]).Ok?
    ensures user <= Rewritten(user, [GroupShape(q)]).value
    ensures forall r :: IsGroupResult(q, Rewritten(user, [GroupShape(q)]).value, input, r) ==>
                        IsGroupResult(q, user, input, r)
    ensures exists r :: IsGroupResult(q, Rewritten(user, [GroupShape(q)]).value, input, r)
  {
    var terms, bag := Rewritten(user, [GroupShape(q)]).value, GroupBag(q, input);
    var keys, extra := GroupKeys(q, user), GroupKeys(q, terms[|user|..]);
    assert GroupKeys(q, terms) == keys + extra;
    forall r | IsGroupResult(q, terms, input, r) ensures IsGroupResult(q, user, input, r) {
      var s :| Arranges(s, bag, GroupKeys(q, terms)) && r == Window(ProjectGroups(q, s), q.base.offset, q.base.limit);
      MoreKeysRefine(s, bag, keys, extra);
    }
    var rows := ListBag(bag);
    var s := ArrangementExists(rows, GroupKeys(q, terms));
    assert IsGroupResult(q, terms, input, Window(ProjectGroups(q, s), q.base.offset, q.base.limit));
  }

  /** Analysing the statement again changes no answer. */
  lemma GroupRewriteTwice(q: GroupedQuery, user: seq<Term<Group>>, input: Input, r: seq<OutRow>)
    requires |q.base.scope.relations| == |q.base.joins| == |input| && Rewritten(user, [GroupShape(q)]).Ok?
    ensures var once := Rewritten(user, [GroupShape(q)]).value;
            && Rewritten(once, [GroupShape(q)]).Ok?
            && (IsGroupResult(q, Rewritten(once, [GroupShape(q)]).value, input, r) <==> IsGroupResult(q, once, input, r))
  {
    var bag, once := GroupBag(q, input), Rewritten(user, [GroupShape(q)]).value;
    var extra := Defaults<Group>([GroupShape(q)]).value;
    var keys, more := GroupKeys(q, once), GroupKeys(q, extra);
    assert GroupKeys(q, Rewritten(once, [GroupShape(q)]).value) == keys + more;
    assert forall i :: 0 <= i < |more| ==> more[i] == keys[|user| + i];
    hide GroupBag, GroupKeys;
    forall s ensures Arranges(s, bag, keys + more) <==> Arranges(s, bag, keys) {
      RepeatedKeys(s, bag, keys, more);
    }
  }
}
