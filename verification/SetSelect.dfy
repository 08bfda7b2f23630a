/** Deterministic ordering of DISTINCT and compound SELECTs: these order by every result column. */
module SetSelect {
  import opened Wrappers
  import opened Bags
  import opened Joins
  import opened SortOrder
  import opened DefaultOrdering
  import opened PlainSelect

  datatype Operator = Union | UnionAll | Intersect | Except

  /** Select cores combined by compound operators, nested as the database parses them. */
  datatype Compound =
    | Core(q: Query, distinct: bool)
    | Combined(op: Operator, left: Compound, right: Compound)

  /** The rows each core reads. */
  datatype Stored =
    | CoreRows(input: Input)
    | CombinedRows(left: Stored, right: Stored)

  ghost predicate Fits(c: Compound, st: Stored)
  {
    match c
    case Core(q, _) => st.CoreRows? && |q.scope.relations| == |q.joins| == |st.input|
    case Combined(_, l, r) => st.CombinedRows? && Fits(l, st.left) && Fits(r, st.right)
  }

  ghost predicate SameStored(a: Stored, b: Stored)
  {
    match a
    case CoreRows(x) => b.CoreRows? && SameRows(x, b.input)
    case CombinedRows(l, r) => b.CombinedRows? && SameStored(l, b.left) && SameStored(r, b.right)
  }

  function Support(m: multiset<OutRow>): set<OutRow>
  {
    set x | x in m
  }

  /** The bag of rows before ordering. */
  ghost function Bag(c: Compound, st: Stored): multiset<OutRow>
    requires Fits(c, st)
  {
    match c
    case Core(q, distinct) =>
      var rows := multiset(ProjectAll(q, Filtered(q, st.input)));
      if distinct then multiset(Support(rows)) else rows
    case Combined(op, l, r) =>
      var x, y := Bag(l, st.left), Bag(r, st.right);
      match op
      case UnionAll => x + y
      case Union => multiset(Support(x + y))
      case Intersect => multiset(Support(x) * Support(y))
      case Except => multiset(Support(x) - Support(y))
  }

  /** How often a row is in each compound: UNION ALL adds, every other operator and DISTINCT leave
      it at most once. */
  lemma BagExactly(c: Compound, st: Stored, row: OutRow)
    requires Fits(c, st)
    ensures c.Core? ==>
              var rows := multiset(ProjectAll(c.q, Filtered(c.q, st.input)));
              Bag(c, st)[row] == if c.distinct then (if row in rows then 1 else 0) else rows[row]
    ensures c.Combined? ==>
              var x, y := Bag(c.left, st.left), Bag(c.right, st.right);
              Bag(c, st)[row] == match c.op
                                 case UnionAll => x[row] + y[row]
                                 case Union => if row in x || row in y then 1 else 0
                                 case Intersect => if row in x && row in y then 1 else 0
                                 case Except => if row in x && row !in y then 1 else 0
  {
    hide Filtered, ProjectAll;
  }

  function Shapes(c: Compound): (s: seq<Shape>)
    ensures s != []
  {
    match c
    case Core(q, distinct) => [ShapeOf(q).(distinct := distinct)]
    case Combined(_, l, r) => Shapes(l) + Shapes(r)
  }

  function ResultNames(c: Compound): seq<string>
  {
    match c
    case Core(q, _) => ShapeOf(q).result
    case Combined(_, l, _) => ResultNames(l)
  }

  /** The analyzer only combines cores of the same shape. */
  ghost predicate HasWidth(c: Compound, n: nat)
  {
    match c
    case Core(q, _) => |q.out| == n
    case Combined(_, l, r) => HasWidth(l, n) && HasWidth(r, n)
  }

  // ---------------------------------------------------------------------
  // Ordering by result columns
  // ---------------------------------------------------------------------

  function Position(names: seq<string>, name: string): (i: nat)
    ensures name in names ==> i < |names| && names[i] == name
  {
    if names == [] then 0
    else if name in names[..|names| - 1] then Position(names[..|names| - 1], name)
    else |names| - 1
  }

  function ResultValue(names: seq<string>, column: string, row: OutRow): Value
  {
    var i := Position(names, column);
    if i < |row| then row[i] else Null
  }

  function ResultKeys(names: seq<string>, terms: seq<Term<OutRow>>): seq<SortKey<OutRow>>
  {
    seq(|terms|, i requires 0 <= i < |terms| =>
      match terms[i]
      case UserTerm(key) => key
      case ColumnTerm(_, column) => SortKey(row => ResultValue(names, column, row), false, false))
  }

  ghost predicate IsSetResult(c: Compound, terms: seq<Term<OutRow>>, st: Stored, offset: nat, limit: Option<nat>, result: seq<OutRow>)
    requires Fits(c, st)
  {
    exists s :: Arranges(s, Bag(c, st), ResultKeys(ResultNames(c), terms)) && result == Window(s, offset, limit)
  }

  lemma ProjectPermutes(q: Query, s: seq<JoinedRow>, t: seq<JoinedRow>)
    requires multiset(s) == multiset(t)
    ensures multiset(ProjectAll(q, s)) == multiset(ProjectAll(q, t))
  {
    ProjectFlat(q, s);
    ProjectFlat(q, t);
    FlatMapPermutes(s, t, x => [Project(q, x)], x => [Project(q, x)]);
  }

  lemma {:induction false} ProjectFlat(q: Query, s: seq<JoinedRow>)
    ensures ProjectAll(q, s) == FlatMap(s, x => [Project(q, x)])
  {
    if s != [] {
      ProjectFlat(q, s[1..]);
      assert ProjectAll(q, s) == [Project(q, s[0])] + ProjectAll(q, s[1..]);
    }
  }

  /** The same stored rows give the same bag, through every operator. */
  lemma {:induction false} BagSame(c: Compound, a: Stored, b: Stored)
    requires Fits(c, a) && Fits(c, b) && SameStored(a, b)
    ensures Bag(c, a) == Bag(c, b)
  {
    match c
    case Core(q, _) =>
      FilteredPermutes(q, a.input, b.input);
      ProjectPermutes(q, Filtered(q, a.input), Filtered(q, b.input));
    case Combined(_, l, r) =>
      BagSame(l, a.left, b.left);
      BagSame(r, a.right, b.right);
  }

  lemma {:induction false} BagWidth(c: Compound, st: Stored, n: nat, row: OutRow)
    requires Fits(c, st) && HasWidth(c, n) && row in Bag(c, st)
    ensures |row| == n
  {
    match c
    case Core(q, _) => assert row in ProjectAll(q, Filtered(q, st.input));
    case Combined(op, l, r) =>
      if row in Bag(l, st.left) {
        BagWidth(l, st.left, n, row);
      } else {
        BagWidth(r, st.right, n, row);
      }
  }

  lemma {:induction false} NamesWidth(c: Compound, n: nat)
    requires HasWidth(c, n)
    ensures |ResultNames(c)| == n
  {
    if c.Combined? {
      NamesWidth(c.left, n);
    }
  }

  lemma {:induction false} FirstNames(c: Compound)
    ensures Shapes(c)[0].result == ResultNames(c) && !Shapes(c)[0].aggregate
    ensures forall i :: 0 <= i < |Shapes(c)| ==> Shapes(c)[i].groupBy == None
    ensures c.Combined? ==> |Shapes(c)| > 1
  {
    if c.Combined? {
      FirstNames(c.left);
      FirstNames(c.right);
    }
  }

  ghost predicate DistinctResultNames(names: seq<string>)
  {
    "" !in names && forall i, j :: 0 <= i < j < |names| ==> names[i] != names[j]
  }

  lemma TiedResultsEqual(names: seq<string>, user: seq<Term<OutRow>>, x: OutRow, y: OutRow)
    requires DistinctResultNames(names) && |x| == |y| == |names|
    requires Tie(ResultKeys(names, user + ColumnTerms("", names)), x, y)
    ensures x == y
  {
    var terms := user + ColumnTerms<OutRow>("", names);
    forall i | 0 <= i < |names| ensures x[i] == y[i] {
      ColumnTermsMember<OutRow>("", names, names[i]);
      assert ColumnTerm("", names[i]) in terms;
      var k :| 0 <= k < |terms| && terms[k] == ColumnTerm("", names[i]);
      assert ResultKeys(names, terms)[k].f(x) == ResultKeys(names, terms)[k].f(y);
      assert Position(names, names[i]) == i;
    }
  }

  /** The theorem for DISTINCT and compound SELECTs with named result columns. */
  lemma SetSelectDeterministic(c: Compound, user: seq<Term<OutRow>>, a: Stored, b: Stored, offset: nat, limit: Option<nat>,
                               ra: seq<OutRow>, rb: seq<OutRow>)
    requires Fits(c, a) && Fits(c, b) && SameStored(a, b)
    requires (c.Combined? || c.distinct) && HasWidth(c, |ResultNames(c)|) && DistinctResultNames(ResultNames(c))
    requires Rewritten(user, Shapes(c)).Ok?
    requires IsSetResult(c, Rewritten(user, Shapes(c)).value, a, offset, limit, ra)
    requires IsSetResult(c, Rewritten(user, Shapes(c)).value, b, offset, limit, rb)
    ensures ra == rb
  {
    FirstNames(c);
    var names, terms := ResultNames(c), Rewritten(user, Shapes(c)).value;
    assert terms == user + ColumnTerms("", names);
    BagSame(c, a, b);
    var bag, keys := Bag(c, a), ResultKeys(names, terms);
    hide Bag, ResultKeys, Arranges, ColumnTerms;
    var s :| Arranges(s, bag, keys) && ra == Window(s, offset, limit);
    var t :| Arranges(t, bag, keys) && rb == Window(t, offset, limit);
    forall x, y | x in bag && y in bag && Tie(keys, x, y) ensures x == y {
      BagWidth(c, a, |names|, x);
      BagWidth(c, a, |names|, y);
      TiedResultsEqual(names, user, x, y);
    }
    ObservationUnique(s, t, bag, keys, x => x);
    assert s == t;
  }

  /** The rewrite keeps the user's terms in front, keeps the bag of rows and only rules answers
      out: every answer to the rewritten statement answers the user's, and there is one. */
  lemma SetRewriteRefines(c: Compound, user: seq<Term<OutRow>>, st: Stored, offset: nat, limit: Option<nat>)
    requires Fits(c, st) && Rewritten(user, Shapes(c)).Ok?
    ensures user <= Rewritten(user, Shapes(c)).value
    ensures forall r :: IsSetResult(c, Rewritten(user, Shapes(c)).value, st, offset, limit, r) ==>
                        IsSetResult(c, user, st, offset, limit, r)
    ensures exists r :: IsSetResult(c, Rewritten(user, Shapes(c)).value, st, offset, limit, r)
  {
    var names, terms, bag := ResultNames(c), Rewritten(user, Shapes(c)).value, Bag(c, st);
    var keys, extra := ResultKeys(names, user), ResultKeys(names, terms[|user|..]);
    assert ResultKeys(names, terms) == keys + extra;
    forall r | IsSetResult(c, terms, st, offset, limit, r) ensures IsSetResult(c, user, st, offset, limit, r) {
      var s :| Arranges(s, bag, ResultKeys(names, terms)) && r == Window(s, offset, limit);
      MoreKeysRefine(s, bag, keys, extra);
    }
    var rows := ListBag(bag);
    var s := ArrangementExists(rows, ResultKeys(names, terms));
    assert IsSetResult(c, terms, st, offset, limit, Window(s, offset, limit));
  }

  /** Analysing the statement again changes no answer. */
  lemma SetRewriteTwice(c: Compound, user: seq<Term<OutRow>>, st: Stored, offset: nat, limit: Option<nat>, r: seq<OutRow>)
    requires Fits(c, st) && Rewritten(user, Shapes(c)).Ok? && (c.Combined? || c.distinct)
    ensures var once := Rewritten(user, Shapes(c)).value;
            && Rewritten(once, Shapes(c)).Ok?
            && (IsSetResult(c, Rewritten(once, Shapes(c)).value, st, offset, limit, r) <==>
                IsSetResult(c, once, st, offset, limit, r))
  {
    FirstNames(c);
    var names, bag, once := ResultNames(c), Bag(c, st), Rewritten(user, Shapes(c)).value;
    var extra := Defaults<OutRow>(Shapes(c)).value;
    var keys, more := ResultKeys(names, once), ResultKeys(names, extra);
    assert ResultKeys(names, Rewritten(once, Shapes(c)).value) == keys + more;
    assert forall i :: 0 <= i < |more| ==> more[i] == keys[|user| + i];
    hide Bag, ResultKeys;
    forall s ensures Arranges(s, bag, keys + more) <==> Arranges(s, bag, keys) {
      RepeatedKeys(s, bag, keys, more);
    }
  }
}
