/** GROUP BY over one unnamed subquery: an appended grouping column is unqualified, and a result
    column of the same name, an aggregate for instance, takes it over. */
module UnnamedGroups {
  import opened Wrappers
  import opened Bags
  import opened Enumerations
  import opened Joins
  import opened SortOrder
  import opened DefaultOrdering
  import opened PlainSelect
  import opened GroupedSelect
  import opened UnnamedSelect

  // ---------------------------------------------------------------------
  // Any grouped statement
  // ---------------------------------------------------------------------

  /** A group that some input produces and HAVING keeps. */
  ghost predicate Possible(q: GroupedQuery, attributes: seq<string>, g: Group)
  {
    && g.rows != multiset{} && q.having(g)
    && forall row :: row in g.rows ==> Eligible(q.base, attributes, row) && KeyValues(q.columns, row) == g.key
  }

  ghost predicate GroupAnswer(q: GroupedQuery, terms: seq<Term<Group>>, input: Input, r: seq<OutRow>)
  {
    && |q.base.scope.relations| == |q.base.joins| && WellTyped(q.base.scope.relations, input)
    && IsGroupResult(q, terms, input, r)
  }

  ghost predicate GroupsDeterministic(q: GroupedQuery, terms: seq<Term<Group>>)
  {
    forall a, b, ra, rb :: SameRows(a, b) && GroupAnswer(q, terms, a, ra) && GroupAnswer(q, terms, b, rb) ==> ra == rb
  }

  /** How many groups come before two that OFFSET may separate. */
  function Skipped(q: GroupedQuery): nat
  {
    if q.base.offset == 0 then 0 else q.base.offset - 1
  }

  /** Groups of one input in an order the terms accept, the last two tied, the first of these or
      the second being the first group that OFFSET shows. */
  ghost predicate Contest(q: GroupedQuery, attributes: seq<string>, terms: seq<Term<Group>>, gs: seq<Group>)
  {
    && |gs| == Skipped(q) + 2
    && (forall i :: 0 <= i < |gs| ==> Possible(q, attributes, gs[i]))
    && KeysApart(gs)
    && SortedBy(gs, (x, y) => LexLeq(GroupKeys(q, terms), x, y))
    && Tie(GroupKeys(q, terms), gs[Skipped(q)], gs[Skipped(q) + 1])
  }

  ghost predicate KeysApart(gs: seq<Group>)
  {
    forall i, j :: 0 <= i < j < |gs| ==> gs[i].key != gs[j].key
  }

  /** The ordering terms decide every result column that OFFSET can show. */
  ghost predicate GroupTermsDecide(q: GroupedQuery, attributes: seq<string>, terms: seq<Term<Group>>)
  {
    forall gs :: Contest(q, attributes, terms, gs) ==>
      ProjectGroup(q, gs[Skipped(q)]) == ProjectGroup(q, gs[Skipped(q) + 1])
  }

  lemma {:induction false} RowsOfMember(rows: seq<JoinedRow>, columns: seq<(string, string)>, key: seq<Value>, row: JoinedRow)
    ensures row in RowsOf(rows, columns, key) <==> row in rows && KeyValues(columns, row) == key
  {
    var f := (row: JoinedRow) => if KeyValues(columns, row) == key then [row] else [];
    if rows != [] {
      RowsOfMember(rows[1..], columns, key, row);
      assert RowsOf(rows, columns, key) == f(rows[0]) + RowsOf(rows[1..], columns, key);
      assert rows == [rows[0]] + rows[1..];
    }
  }

  lemma BagGroupPossible(q: GroupedQuery, attributes: seq<string>, input: Input, g: Group)
    requires Unnamed(q.base, attributes) && WellTyped(q.base.scope.relations, input) && g in GroupBag(q, input)
    ensures Possible(q, attributes, g) && g == GroupOf(Filtered(q.base, input), q.columns, g.key)
  {
    hide Filtered, RowsOf;
    var rows := Filtered(q.base, input);
    var at :| at in rows && g == GroupOf(rows, q.columns, KeyValues(q.columns, at));
    RowsOfMember(rows, q.columns, g.key, at);
    assert at in g.rows;
    forall row | row in g.rows ensures Eligible(q.base, attributes, row) && KeyValues(q.columns, row) == g.key {
      RowsOfMember(rows, q.columns, g.key, row);
      UnnamedFilteredRow(q.base, attributes, input, row);
    }
  }

  lemma SameGroups(q: GroupedQuery, a: Input, b: Input)
    requires |q.base.scope.relations| == |q.base.joins| == |a| && SameRows(a, b)
    ensures GroupBag(q, a) == GroupBag(q, b)
  {
    hide Filtered, Groups;
    FilteredPermutes(q.base, a, b);
    GroupsSame(Filtered(q.base, a), Filtered(q.base, b), q.columns);
  }

  // ---------------------------------------------------------------------
  // Two arrangements that differ
  // ---------------------------------------------------------------------

  /** At each position, two arrangements hold elements that tie. */
  lemma TiedAt<X>(s: seq<X>, t: seq<X>, bag: multiset<X>, keys: seq<SortKey<X>>, p: nat)
    requires Arranges(s, bag, keys) && Arranges(t, bag, keys) && p < |s|
    ensures p < |t| && Tie(keys, s[p], t[p])
  {
    hide Arranges;
    forall x, y | x in bag && y in bag && Tie(keys, x, y) ensures Vector(keys, x) == Vector(keys, y) {
      assert forall i :: 0 <= i < |keys| ==> Vector(keys, x)[i] == Vector(keys, y)[i];
    }
    ObservationUnique(s, t, bag, keys, x => Vector(keys, x));
    forall i | 0 <= i < |keys| ensures keys[i].f(s[p]) == keys[i].f(t[p]) {
      assert Vector(keys, s[p])[i] == Vector(keys, t[p])[i];
    }
  }

  /** `n` elements before position `b` other than the one at `a`, then those at `a` and `b`. */
  function Picked<X>(s: seq<X>, n: nat, a: nat, b: nat): (gs: seq<X>)
    requires a < b < |s| && n <= b - 1
    ensures |gs| == n + 2 && gs[n] == s[a] && gs[n + 1] == s[b]
  {
    (s[..a] + s[a + 1..b])[..n] + [s[a], s[b]]
  }

  lemma PickedAt<X>(s: seq<X>, n: nat, a: nat, b: nat, i: nat)
    requires a < b < |s| && n <= b - 1 && i < n
    ensures Picked(s, n, a, b)[i] == s[if i < a then i else i + 1]
  {
  }

  lemma PickedSorted<X>(s: seq<X>, n: nat, a: nat, b: nat, keys: seq<SortKey<X>>)
    requires a < b < |s| && n <= b - 1 && SortedBy(s, (x, y) => LexLeq(keys, x, y)) && Tie(keys, s[a], s[b])
    ensures SortedBy(Picked(s, n, a, b), (x, y) => LexLeq(keys, x, y))
  {
    hide Picked, LexLeq, Tie;
    var gs := Picked(s, n, a, b);
    LexTie(keys, s[a], s[b]);
    forall i, j | 0 <= i < j < |gs| ensures LexLeq(keys, gs[i], gs[j]) {
      if i < n {
        var k := if i < a then i else i + 1;
        PickedAt(s, n, a, b, i);
        if j < n {
          PickedAt(s, n, a, b, j);
        } else {
          LexTotal(keys, s[k], s[b], s[a]);
        }
      }
    }
  }

  lemma PickedDistinct(s: seq<Group>, n: nat, a: nat, b: nat)
    requires a < b < |s| && n <= b - 1 && KeysApart(s)
    ensures KeysApart(Picked(s, n, a, b))
    ensures forall i :: 0 <= i < n + 2 ==> Picked(s, n, a, b)[i] in s
  {
    hide Picked;
    var gs := Picked(s, n, a, b);
    forall i | 0 <= i < n ensures gs[i] == s[if i < a then i else i + 1] {
      PickedAt(s, n, a, b, i);
    }
  }

  lemma BagKeysApart(q: GroupedQuery, attributes: seq<string>, input: Input, s: seq<Group>)
    requires Unnamed(q.base, attributes) && WellTyped(q.base.scope.relations, input) && multiset(s) == GroupBag(q, input)
    ensures KeysApart(s) && forall i :: 0 <= i < |s| ==> Possible(q, attributes, s[i])
  {
    hide Filtered, Possible, GroupOf, Groups;
    forall i | 0 <= i < |s|
      ensures Possible(q, attributes, s[i]) && s[i] == GroupOf(Filtered(q.base, input), q.columns, s[i].key)
    {
      assert s[i] in multiset(s);
      BagGroupPossible(q, attributes, input, s[i]);
    }
    forall i, j | 0 <= i < j < |s| ensures s[i].key != s[j].key {
      if s[i] == s[j] {
        RepeatedInBag(s, i, j);
      }
    }
  }

  lemma DecidedAt(q: GroupedQuery, attributes: seq<string>, terms: seq<Term<Group>>, a: Input, s: seq<Group>, t: seq<Group>, p: nat)
    requires Unnamed(q.base, attributes) && GroupTermsDecide(q, attributes, terms) && WellTyped(q.base.scope.relations, a)
    requires Arranges(s, GroupBag(q, a), GroupKeys(q, terms)) && Arranges(t, GroupBag(q, a), GroupKeys(q, terms))
    requires q.base.offset <= p < |s|
    ensures p < |t| && ProjectGroup(q, s[p]) == ProjectGroup(q, t[p])
  {
    hide GroupBag, GroupKeys, ProjectGroup, Possible, Tie, Picked, LexLeq;
    var keys, n := GroupKeys(q, terms), Skipped(q);
    TiedAt(s, t, GroupBag(q, a), keys, p);
    assert t[p] in multiset(t);
    var r :| 0 <= r < |s| && s[r] == t[p];
    if r != p {
      var i, j := if r < p then r else p, if r < p then p else r;
      TieSymmetric(keys, s[p], s[r]);
      BagKeysApart(q, attributes, a, s);
      PickedSorted(s, n, i, j, keys);
      PickedDistinct(s, n, i, j);
      assert Contest(q, attributes, terms, Picked(s, n, i, j));
    }
  }

  lemma DecidedGroupsDeterministic(q: GroupedQuery, attributes: seq<string>, terms: seq<Term<Group>>,
                                   a: Input, b: Input, ra: seq<OutRow>, rb: seq<OutRow>)
    requires Unnamed(q.base, attributes) && GroupTermsDecide(q, attributes, terms)
    requires SameRows(a, b) && GroupAnswer(q, terms, a, ra) && GroupAnswer(q, terms, b, rb)
    ensures ra == rb
  {
    hide GroupBag, GroupKeys, GroupTermsDecide, Unnamed, ProjectGroup, SortedBy;
    SameGroups(q, a, b);
    var bag, keys := GroupBag(q, a), GroupKeys(q, terms);
    var s :| Arranges(s, bag, keys) && ra == Window(ProjectGroups(q, s), q.base.offset, q.base.limit);
    var t :| Arranges(t, bag, keys) && rb == Window(ProjectGroups(q, t), q.base.offset, q.base.limit);
    assert |s| == |multiset(s)| == |multiset(t)| == |t|;
    forall p | q.base.offset <= p < |s| ensures ProjectGroup(q, s[p]) == ProjectGroup(q, t[p]) {
      DecidedAt(q, attributes, terms, a, s, t, p);
    }
    WindowsAlike(ProjectGroups(q, s), ProjectGroups(q, t), q.base.offset, q.base.limit);
  }

  lemma WindowsAlike<T>(s: seq<T>, t: seq<T>, offset: nat, limit: Option<nat>)
    requires |s| == |t| && forall p :: offset <= p < |s| ==> s[p] == t[p]
    ensures Window(s, offset, limit) == Window(t, offset, limit)
  {
    if offset <= |s| {
      assert s[offset..] == t[offset..];
    }
  }

  // ---------------------------------------------------------------------
  // Groups that tie
  // ---------------------------------------------------------------------

  /** The rows of a group in a list are those of its parts. */
  lemma GroupConcat(columns: seq<(string, string)>, a: seq<JoinedRow>, b: seq<JoinedRow>, key: seq<Value>)
    ensures GroupOf(a + b, columns, key).rows == GroupOf(a, columns, key).rows + GroupOf(b, columns, key).rows
  {
    FlatMapConcat(a, b, (row: JoinedRow) => if KeyValues(columns, row) == key then [row] else []);
  }

  lemma {:induction false} RowsOfKey(rows: seq<JoinedRow>, columns: seq<(string, string)>, own: seq<Value>, key: seq<Value>)
    requires forall row :: row in rows ==> KeyValues(columns, row) == own
    ensures RowsOf(rows, columns, key) == if own == key then rows else []
  {
    if rows != [] {
      RowsOfKey(rows[1..], columns, own, key);
      var f := (row: JoinedRow) => if KeyValues(columns, row) == key then [row] else [];
      assert RowsOf(rows, columns, key) == f(rows[0]) + RowsOf(rows[1..], columns, key);
    }
  }

  ghost predicate Uniform(columns: seq<(string, string)>, g: Group)
  {
    g.rows != multiset{} && forall row :: row in g.rows ==> KeyValues(columns, row) == g.key
  }

  /** The rows that a list of groups has under a key. */
  ghost function RowsUnder(gs: seq<Group>, key: seq<Value>): multiset<JoinedRow>
  {
    if gs == [] then multiset{}
    else RowsUnder(gs[..|gs| - 1], key) + (if gs[|gs| - 1].key == key then gs[|gs| - 1].rows else multiset{})
  }

  lemma {:induction false} UnderOwnKey(gs: seq<Group>, i: nat)
    requires KeysApart(gs) && i < |gs|
    ensures RowsUnder(gs, gs[i].key) == gs[i].rows
  {
    if i == |gs| - 1 {
      UnderNoKey(gs[..i], gs[i].key);
    } else {
      UnderOwnKey(gs[..|gs| - 1], i);
    }
  }

  lemma {:induction false} UnderNoKey(gs: seq<Group>, key: seq<Value>)
    requires forall i :: 0 <= i < |gs| ==> gs[i].key != key
    ensures RowsUnder(gs, key) == multiset{}
  {
    if gs != [] {
      UnderNoKey(gs[..|gs| - 1], key);
    }
  }

  /** A list of all their rows. */
  lemma {:induction false} ListGroups(columns: seq<(string, string)>, gs: seq<Group>) returns (rows: seq<JoinedRow>)
    requires forall i :: 0 <= i < |gs| ==> Uniform(columns, gs[i])
    ensures forall key :: GroupOf(rows, columns, key) == Group(key, RowsUnder(gs, key))
  {
    hide KeyValues;
    rows := [];
    if gs != [] {
      var last := gs[|gs| - 1];
      var before := ListGroups(columns, gs[..|gs| - 1]);
      var own := ListBag(last.rows);
      assert forall row :: row in own ==> row in multiset(own);
      rows := before + own;
      forall key ensures GroupOf(rows, columns, key) == Group(key, RowsUnder(gs, key)) {
        assert Uniform(columns, last);
        GroupConcat(columns, before, own, key);
        RowsOfKey(own, columns, last.key, key);
      }
    }
  }

  lemma GroupInput(q: GroupedQuery, attributes: seq<string>, gs: seq<Group>) returns (rows: seq<JoinedRow>)
    requires Unnamed(q.base, attributes) && KeysApart(gs) && forall i :: 0 <= i < |gs| ==> Possible(q, attributes, gs[i])
    ensures WellTyped(q.base.scope.relations, [rows]) && GroupBag(q, [rows]) == multiset(gs)
  {
    hide Filtered, KeyValues, GroupOf, Groups, RowsUnder, Eligible;
    forall i | 0 <= i < |gs| ensures Uniform(q.columns, gs[i]) {
      assert Possible(q, attributes, gs[i]);
    }
    rows := ListGroups(q.columns, gs);
    forall row | row in rows ensures Eligible(q.base, attributes, row) {
      var i := RowPlace(q.columns, gs, rows, row);
      assert Possible(q, attributes, gs[i]);
    }
    assert forall row :: row in rows ==> Eligible(q.base, attributes, row);
    EligibleRows(q.base, attributes, rows);
    forall i | 0 <= i < |gs| ensures gs[i] in Groups(rows, q.columns) && q.having(gs[i]) {
      UnderOwnKey(gs, i);
      GroupRow(rows, q.columns, gs[i]);
    }
    forall g | g in Groups(rows, q.columns) ensures g in gs {
      GroupListed(q.columns, gs, rows, g);
    }
    var all := set g | g in Groups(rows, q.columns) && q.having(g);
    assert Elements(gs) == all;
    DistinctBag(gs);
  }

  lemma EligibleRows(q: Query, attributes: seq<string>, rows: seq<JoinedRow>)
    requires Unnamed(q, attributes) && forall row :: row in rows ==> Eligible(q, attributes, row)
    ensures WellTyped(q.scope.relations, [rows]) && Filtered(q, [rows]) == rows
  {
    hide Filtered;
    UnnamedFiltered(q, attributes, rows);
  }

  /** A row of that list is a row of the group with its key. */
  lemma RowPlace(columns: seq<(string, string)>, gs: seq<Group>, rows: seq<JoinedRow>, row: JoinedRow) returns (i: nat)
    requires forall key :: GroupOf(rows, columns, key) == Group(key, RowsUnder(gs, key))
    requires KeysApart(gs) && row in rows
    ensures i < |gs| && row in gs[i].rows && gs[i].key == KeyValues(columns, row)
  {
    hide RowsOf, RowsUnder, KeyValues;
    var key := KeyValues(columns, row);
    RowsOfMember(rows, columns, key, row);
    assert GroupOf(rows, columns, key) == Group(key, RowsUnder(gs, key));
    assert row in RowsUnder(gs, key);
    if j :| 0 <= j < |gs| && gs[j].key == key {
      i := j;
      UnderOwnKey(gs, j);
    } else {
      UnderNoKey(gs, key);
      assert false;
    }
  }

  lemma GroupListed(columns: seq<(string, string)>, gs: seq<Group>, rows: seq<JoinedRow>, g: Group)
    requires forall key :: GroupOf(rows, columns, key) == Group(key, RowsUnder(gs, key))
    requires KeysApart(gs) && g in Groups(rows, columns)
    ensures g in gs
  {
    hide GroupOf, RowsUnder, KeyValues;
    var row :| row in rows && g == GroupOf(rows, columns, KeyValues(columns, row));
    var i := RowPlace(columns, gs, rows, row);
    UnderOwnKey(gs, i);
    assert g == gs[i];
  }

  /** A group that is not empty is the group of one of its rows. */
  lemma GroupRow(rows: seq<JoinedRow>, columns: seq<(string, string)>, g: Group)
    requires g.rows != multiset{} && g == GroupOf(rows, columns, g.key)
    ensures g in Groups(rows, columns)
  {
    hide RowsOf;
    var row :| row in g.rows;
    RowsOfMember(rows, columns, g.key, row);
  }

  lemma ArrangedAnswer(q: GroupedQuery, terms: seq<Term<Group>>, input: Input, gs: seq<Group>)
    requires |q.base.scope.relations| == |q.base.joins| && WellTyped(q.base.scope.relations, input)
    requires GroupBag(q, input) == multiset(gs) && SortedBy(gs, (x, y) => LexLeq(GroupKeys(q, terms), x, y))
    ensures GroupAnswer(q, terms, input, Window(ProjectGroups(q, gs), q.base.offset, q.base.limit))
  {
    hide GroupBag, GroupKeys, SortedBy;
  }

  function LastSwapped<X>(s: seq<X>): (t: seq<X>)
    requires |s| >= 2
    ensures |t| == |s| && t[|s| - 2] == s[|s| - 1] && t[|s| - 1] == s[|s| - 2]
    ensures forall i :: 0 <= i < |s| - 2 ==> t[i] == s[i]
  {
    s[..|s| - 2] + [s[|s| - 1], s[|s| - 2]]
  }

  lemma LastSwappedArranges<X>(s: seq<X>, keys: seq<SortKey<X>>)
    requires |s| >= 2 && SortedBy(s, (x, y) => LexLeq(keys, x, y)) && Tie(keys, s[|s| - 2], s[|s| - 1])
    ensures SortedBy(LastSwapped(s), (x, y) => LexLeq(keys, x, y)) && multiset(LastSwapped(s)) == multiset(s)
  {
    hide LexLeq, Tie;
    LexTie(keys, s[|s| - 2], s[|s| - 1]);
    assert s == s[..|s| - 2] + [s[|s| - 2], s[|s| - 1]];
  }

  lemma UndecidedGroupsNondeterministic(q: GroupedQuery, attributes: seq<string>, terms: seq<Term<Group>>, gs: seq<Group>)
    requires Unnamed(q.base, attributes) && q.base.limit != Some(0) && Contest(q, attributes, terms, gs)
    requires ProjectGroup(q, gs[Skipped(q)]) != ProjectGroup(q, gs[Skipped(q) + 1])
    ensures !GroupsDeterministic(q, terms)
  {
    hide GroupBag, GroupKeys, Tie, ProjectGroup, Possible, GroupAnswer, LexLeq, SortedBy, LastSwapped;
    var rows := GroupInput(q, attributes, gs);
    var hs := LastSwapped(gs);
    LastSwappedArranges(gs, GroupKeys(q, terms));
    ArrangedAnswer(q, terms, [rows], gs);
    ArrangedAnswer(q, terms, [rows], hs);
    var ra := Window(ProjectGroups(q, gs), q.base.offset, q.base.limit);
    var rb := Window(ProjectGroups(q, hs), q.base.offset, q.base.limit);
    assert ra[0] == ProjectGroup(q, gs[q.base.offset]) && rb[0] == ProjectGroup(q, hs[q.base.offset]);
    assert SameRows([rows], [rows]);
  }

  /** For every grouped statement over an unnamed relation, whatever its WHERE, HAVING, result
      expressions, user terms, LIMIT and OFFSET: the rewritten statement is deterministic if and
      only if LIMIT is 0 or the ordering terms decide every result column that can be shown. */
  lemma GroupsDeterministicExactly(q: GroupedQuery, attributes: seq<string>, user: seq<Term<Group>>)
    requires Unnamed(q.base, attributes)
    ensures Rewritten(user, [GroupShape(q)]) == Ok(user + GroupTerms(q.columns))
    ensures var terms := Rewritten(user, [GroupShape(q)]).value;
            GroupsDeterministic(q, terms) <==> q.base.limit == Some(0) || GroupTermsDecide(q, attributes, terms)
  {
    hide GroupKeys, ProjectGroup, Contest, Unnamed, GroupTerms;
    var terms := user + GroupTerms<Group>(q.columns);
    if q.base.limit == Some(0) {
    } else if GroupTermsDecide(q, attributes, terms) {
      hide GroupAnswer;
      forall a, b, ra, rb | SameRows(a, b) && GroupAnswer(q, terms, a, ra) && GroupAnswer(q, terms, b, rb) ensures ra == rb {
        DecidedGroupsDeterministic(q, attributes, terms, a, b, ra, rb);
      }
    } else {
      hide GroupAnswer;
      ContestSize(q, attributes, terms);
      var gs :| Contest(q, attributes, terms, gs) && ProjectGroup(q, gs[Skipped(q)]) != ProjectGroup(q, gs[Skipped(q) + 1]);
      UndecidedGroupsNondeterministic(q, attributes, terms, gs);
    }
  }

  lemma ContestSize(q: GroupedQuery, attributes: seq<string>, terms: seq<Term<Group>>)
    ensures forall gs :: Contest(q, attributes, terms, gs) ==> |gs| == Skipped(q) + 2
  {
  }
}
