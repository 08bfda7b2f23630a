/** Table definitions and their primary keys (core/types/schema.go). */
module Schema {
  import opened Wrappers

  datatype ColumnAttribute = PrimaryKeyAttribute | OtherAttribute
  datatype Column = Column(name: string, attributes: seq<ColumnAttribute>)
  datatype IndexKind = Btree | UniqueBtree | PrimaryIndex
  datatype Index = Index(kind: IndexKind, columns: seq<string>)
  datatype Table = Table(name: string, columns: seq<Column>, indexes: seq<Index>)

  datatype KeyError = MultipleAttributes | MultipleIndexes | NoPrimaryKey | BothKinds

  function ColumnNames(t: Table): (names: seq<string>)
    ensures |names| == |t.columns|
  {
    seq(|t.columns|, i requires 0 <= i < |t.columns| => t.columns[i].name)
  }

  /** The column's name, once for each primary-key attribute it carries. */
  function MarksOf(name: string, attributes: seq<ColumnAttribute>): seq<string>
  {
    if attributes == [] then []
    else
      MarksOf(name, attributes[..|attributes| - 1]) +
      (if attributes[|attributes| - 1] == PrimaryKeyAttribute then [name] else [])
  }

  function Marks(columns: seq<Column>): seq<string>
  {
    if columns == [] then []
    else
      var last := columns[|columns| - 1];
      Marks(columns[..|columns| - 1]) + MarksOf(last.name, last.attributes)
  }

  function PrimaryIndexes(indexes: seq<Index>): seq<seq<string>>
  {
    if indexes == [] then []
    else
      var last := indexes[|indexes| - 1];
      PrimaryIndexes(indexes[..|indexes| - 1]) + (if last.kind == PrimaryIndex then [last.columns] else [])
  }

  /** A table has a primary key exactly when it is declared once, by attribute or by index. */
  function PrimaryKey(t: Table): Result<seq<string>, KeyError>
  {
    var marks, indexes := Marks(t.columns), PrimaryIndexes(t.indexes);
    if |marks| > 1 then Err(MultipleAttributes)
    else if |indexes| > 1 then Err(MultipleIndexes)
    else if marks == [] && indexes == [] then Err(NoPrimaryKey)
    else if marks != [] && indexes != [] then Err(BothKinds)
    else if marks != [] then Ok(marks)
    else Ok(indexes[0])
  }

  // ---------------------------------------------------------------------
  // The same, position by position
  // ---------------------------------------------------------------------

  /** Attribute `p.1` of column `p.0` declares a primary key. */
  ghost predicate IsMark(columns: seq<Column>, p: (int, int))
  {
    && 0 <= p.0 < |columns| && 0 <= p.1 < |columns[p.0].attributes|
    && columns[p.0].attributes[p.1] == PrimaryKeyAttribute
  }

  /** Index `k` declares a primary key. */
  ghost predicate IsKeyIndex(indexes: seq<Index>, k: int)
  {
    0 <= k < |indexes| && indexes[k].kind == PrimaryIndex
  }

  ghost predicate OnlyMark(columns: seq<Column>, p: (int, int))
  {
    IsMark(columns, p) && forall q :: IsMark(columns, q) ==> q == p
  }

  ghost predicate OnlyKeyIndex(indexes: seq<Index>, k: int)
  {
    IsKeyIndex(indexes, k) && forall l :: IsKeyIndex(indexes, l) ==> l == k
  }

  ghost predicate NoMark(columns: seq<Column>)
  {
    forall p :: !IsMark(columns, p)
  }

  ghost predicate NoKeyIndex(indexes: seq<Index>)
  {
    forall k :: !IsKeyIndex(indexes, k)
  }

  /** The key a declaration gives: the name of the one marked column, or the columns of the one
      primary index, with no declaration of the other kind. */
  ghost predicate Declares(t: Table, key: seq<string>)
  {
    || (NoKeyIndex(t.indexes) && exists p :: OnlyMark(t.columns, p) && key == [t.columns[p.0].name])
    || (NoMark(t.columns) && exists k :: OnlyKeyIndex(t.indexes, k) && key == t.indexes[k].columns)
  }

  lemma {:induction false} MarksOfWhere(name: string, attributes: seq<ColumnAttribute>)
    ensures forall i :: 0 <= i < |MarksOf(name, attributes)| ==> MarksOf(name, attributes)[i] == name
    ensures MarksOf(name, attributes) == [] <==> forall j :: 0 <= j < |attributes| ==> attributes[j] != PrimaryKeyAttribute
    ensures |MarksOf(name, attributes)| > 1 <==>
            exists i, j :: 0 <= i < j < |attributes| && attributes[i] == attributes[j] == PrimaryKeyAttribute
  {
    if attributes != [] {
      var n := |attributes| - 1;
      MarksOfWhere(name, attributes[..n]);
      var front := MarksOf(name, attributes[..n]);
      if |MarksOf(name, attributes)| > 1 {
        if |front| > 1 {
          var i, j :| 0 <= i < j < n && attributes[..n][i] == attributes[..n][j] == PrimaryKeyAttribute;
          assert attributes[i] == attributes[j] == PrimaryKeyAttribute;
        } else {
          var i :| 0 <= i < n && attributes[..n][i] == PrimaryKeyAttribute;
          assert attributes[i] == attributes[n] == PrimaryKeyAttribute;
        }
      }
      if i, j :| 0 <= i < j < |attributes| && attributes[i] == attributes[j] == PrimaryKeyAttribute {
        assert attributes[..n][i] == PrimaryKeyAttribute;
        if j < n {
          assert attributes[..n][j] == PrimaryKeyAttribute;
        }
      }
    }
  }

  /** How many marks there are, and what the only one says. */
  ghost predicate CountsMarks(columns: seq<Column>)
  {
    && (Marks(columns) == [] <==> NoMark(columns))
    && (|Marks(columns)| == 1 <==> exists p :: OnlyMark(columns, p))
    && forall p :: OnlyMark(columns, p) ==> Marks(columns) == [columns[p.0].name]
  }

  lemma OnePlace(columns: seq<Column>, j: int)
    requires columns != [] && NoMark(columns[..|columns| - 1])
    requires var a := columns[|columns| - 1].attributes;
             && 0 <= j < |a| && a[j] == PrimaryKeyAttribute
             && forall i :: 0 <= i < |a| && a[i] == PrimaryKeyAttribute ==> i == j
    ensures OnlyMark(columns, (|columns| - 1, j))
  {
    var n := |columns| - 1;
    forall q | IsMark(columns, q) ensures q == (n, j) {
      if q.0 < n {
        assert IsMark(columns[..n], q);
      }
    }
  }

  lemma MarksBelow(columns: seq<Column>, p: (int, int))
    requires columns != []
    ensures p.0 < |columns| - 1 ==> (IsMark(columns, p) <==> IsMark(columns[..|columns| - 1], p))
  {
  }

  /** Nothing marked before the last column. */
  lemma FirstMarks(columns: seq<Column>)
    requires columns != [] && NoMark(columns[..|columns| - 1])
    ensures var last := columns[|columns| - 1]; var m := MarksOf(last.name, last.attributes);
            && (m == [] <==> NoMark(columns)) && (|m| == 1 <==> exists p :: OnlyMark(columns, p))
            && forall p :: OnlyMark(columns, p) ==> m == [columns[p.0].name]
  {
    var n := |columns| - 1;
    var front, last := columns[..n], columns[n];
    MarksOfWhere(last.name, last.attributes);
    hide MarksOf;
    forall p: (int, int) | IsMark(columns, p) ensures p.0 == n {
      MarksBelow(columns, p);
    }
    var m := MarksOf(last.name, last.attributes);
    if |m| == 1 {
      var j :| 0 <= j < |last.attributes| && last.attributes[j] == PrimaryKeyAttribute;
      OnePlace(columns, j);
    } else if |m| > 1 {
      var i, j :| 0 <= i < j < |last.attributes| && last.attributes[i] == last.attributes[j] == PrimaryKeyAttribute;
      assert IsMark(columns, (n, i)) && IsMark(columns, (n, j));
    }
  }

  /** Something marked before the last column. */
  lemma LaterMarks(columns: seq<Column>)
    requires columns != [] && !NoMark(columns[..|columns| - 1])
    ensures var front, last := columns[..|columns| - 1], columns[|columns| - 1];
            var m := MarksOf(last.name, last.attributes);
            && !NoMark(columns)
            && (forall p :: OnlyMark(columns, p) <==> m == [] && OnlyMark(front, p))
            && (forall p :: OnlyMark(front, p) ==> front[p.0] == columns[p.0])
  {
    var n := |columns| - 1;
    var front, last := columns[..n], columns[n];
    MarksOfWhere(last.name, last.attributes);
    hide MarksOf;
    forall p: (int, int) | p.0 < n ensures IsMark(columns, p) <==> IsMark(front, p) {
      MarksBelow(columns, p);
    }
    var p :| IsMark(front, p);
    if MarksOf(last.name, last.attributes) != [] {
      var j :| 0 <= j < |last.attributes| && last.attributes[j] == PrimaryKeyAttribute;
      assert IsMark(columns, (n, j)) && IsMark(columns, p);
    } else {
      assert forall q :: IsMark(columns, q) <==> IsMark(front, q);
    }
  }

  lemma {:induction false} MarksWhere(columns: seq<Column>)
    ensures CountsMarks(columns)
  {
    if columns != [] {
      hide MarksOf, IsMark;
      MarksWhere(columns[..|columns| - 1]);
      if NoMark(columns[..|columns| - 1]) {
        FirstMarks(columns);
      } else {
        LaterMarks(columns);
      }
    }
  }

  ghost predicate CountsIndexes(indexes: seq<Index>)
  {
    && (PrimaryIndexes(indexes) == [] <==> NoKeyIndex(indexes))
    && (|PrimaryIndexes(indexes)| == 1 <==> exists k :: OnlyKeyIndex(indexes, k))
    && forall k :: OnlyKeyIndex(indexes, k) ==> PrimaryIndexes(indexes) == [indexes[k].columns]
  }

  lemma {:induction false} IndexesWhere(indexes: seq<Index>)
    ensures CountsIndexes(indexes)
  {
    if indexes != [] {
      var n := |indexes| - 1;
      var front := indexes[..n];
      IndexesWhere(front);
      assert forall k :: 0 <= k < n ==> (IsKeyIndex(indexes, k) <==> IsKeyIndex(front, k));
      if indexes[n].kind == PrimaryIndex {
        assert IsKeyIndex(indexes, n);
        if NoKeyIndex(front) {
          assert forall k :: 0 <= k < n ==> !IsKeyIndex(front, k);
          assert OnlyKeyIndex(indexes, n);
        } else {
          var k :| IsKeyIndex(front, k);
          assert IsKeyIndex(indexes, k);
        }
      } else {
        forall k ensures IsKeyIndex(indexes, k) <==> IsKeyIndex(front, k) {
        }
        forall k ensures OnlyKeyIndex(indexes, k) <==> OnlyKeyIndex(front, k) {
        }
      }
    }
  }

  /** The primary key of a table, from its declaration: exactly when there is one, which it is, and
      which error stands for which other case. */
  lemma PrimaryKeyExactly(t: Table)
    ensures forall key :: PrimaryKey(t) == Ok(key) <==> Declares(t, key)
    ensures PrimaryKey(t) == Err(MultipleAttributes) <==>
            exists p, q :: IsMark(t.columns, p) && IsMark(t.columns, q) && p != q
    ensures PrimaryKey(t) == Err(MultipleIndexes) <==>
            && (exists k, l :: IsKeyIndex(t.indexes, k) && IsKeyIndex(t.indexes, l) && k != l)
            && !(exists p, q :: IsMark(t.columns, p) && IsMark(t.columns, q) && p != q)
    ensures PrimaryKey(t) == Err(NoPrimaryKey) <==> NoMark(t.columns) && NoKeyIndex(t.indexes)
    ensures PrimaryKey(t) == Err(BothKinds) <==>
            (exists p :: OnlyMark(t.columns, p)) && (exists k :: OnlyKeyIndex(t.indexes, k))
  {
    hide Marks, PrimaryIndexes, IsMark, IsKeyIndex;
    MarksWhere(t.columns);
    IndexesWhere(t.indexes);
    SeveralMarks(t.columns);
    SeveralIndexes(t.indexes);
  }

  lemma SeveralMarks(columns: seq<Column>)
    ensures (exists p, q :: IsMark(columns, p) && IsMark(columns, q) && p != q) <==>
            !NoMark(columns) && !exists p :: OnlyMark(columns, p)
  {
    hide IsMark;
    if !NoMark(columns) && !exists p :: OnlyMark(columns, p) {
      var p :| IsMark(columns, p);
      assert !OnlyMark(columns, p);
    }
  }

  lemma SeveralIndexes(indexes: seq<Index>)
    ensures (exists k, l :: IsKeyIndex(indexes, k) && IsKeyIndex(indexes, l) && k != l) <==>
            !NoKeyIndex(indexes) && !exists k :: OnlyKeyIndex(indexes, k)
  {
    hide IsKeyIndex;
    if !NoKeyIndex(indexes) && !exists k :: OnlyKeyIndex(indexes, k) {
      var k :| IsKeyIndex(indexes, k);
      assert !OnlyKeyIndex(indexes, k);
    }
  }

  lemma {:induction false} MarksGrow(columns: seq<Column>, i: nat)
    requires i <= |columns|
    ensures |Marks(columns[..i])| <= |Marks(columns)|
    decreases |columns|
  {
    if i < |columns| {
      MarksGrow(columns[..|columns| - 1], i);
      assert columns[..|columns| - 1][..i] == columns[..i];
    } else {
      assert columns[..i] == columns;
    }
  }

  lemma {:induction false} MarksOfGrow(name: string, attributes: seq<ColumnAttribute>, i: nat)
    requires i <= |attributes|
    ensures |MarksOf(name, attributes[..i])| <= |MarksOf(name, attributes)|
    decreases |attributes|
  {
    if i < |attributes| {
      MarksOfGrow(name, attributes[..|attributes| - 1], i);
      assert attributes[..|attributes| - 1][..i] == attributes[..i];
    } else {
      assert attributes[..i] == attributes;
    }
  }

  lemma {:induction false} IndexesGrow(indexes: seq<Index>, i: nat)
    requires i <= |indexes|
    ensures |PrimaryIndexes(indexes[..i])| <= |PrimaryIndexes(indexes)|
    decreases |indexes|
  {
    if i < |indexes| {
      IndexesGrow(indexes[..|indexes| - 1], i);
      assert indexes[..|indexes| - 1][..i] == indexes[..i];
    } else {
      assert indexes[..i] == indexes;
    }
  }

  /** The marks of one column, found while at most one has been seen before it. */
  method ScanAttributes(column: Column, seen: seq<string>) returns (ok: bool, marks: seq<string>)
    requires |seen| <= 1
    ensures ok <==> |seen + MarksOf(column.name, column.attributes)| <= 1
    ensures ok ==> marks == seen + MarksOf(column.name, column.attributes)
  {
    marks := seen;
    for j := 0 to |column.attributes|
      invariant marks == seen + MarksOf(column.name, column.attributes[..j])
      invariant |marks| <= 1
    {
      assert column.attributes[..j + 1][..j] == column.attributes[..j];
      if column.attributes[j] == PrimaryKeyAttribute {
        if marks != [] {
          MarksOfGrow(column.name, column.attributes, j + 1);
          return false, marks;
        }
        marks := [column.name];
      }
    }
    assert column.attributes[..|column.attributes|] == column.attributes;
    return true, marks;
  }

  method GetPrimaryKey(t: Table) returns (r: Result<seq<string>, KeyError>)
    ensures r == PrimaryKey(t)
  {
    var marks: seq<string> := [];
    for i := 0 to |t.columns|
      invariant marks == Marks(t.columns[..i]) && |marks| <= 1
    {
      assert t.columns[..i + 1][..i] == t.columns[..i];
      var ok;
      ok, marks := ScanAttributes(t.columns[i], marks);
      if !ok {
        MarksGrow(t.columns, i + 1);
        return Err(MultipleAttributes);
      }
    }
    assert t.columns[..|t.columns|] == t.columns;

    var indexes: seq<seq<string>> := [];
    for i := 0 to |t.indexes|
      invariant indexes == PrimaryIndexes(t.indexes[..i]) && |indexes| <= 1
    {
      assert t.indexes[..i + 1][..i] == t.indexes[..i];
      if t.indexes[i].kind == PrimaryIndex {
        if indexes != [] {
          IndexesGrow(t.indexes, i + 1);
          return Err(MultipleIndexes);
        }
        indexes := [t.indexes[i].columns];
      }
    }
    assert t.indexes[..|t.indexes|] == t.indexes;

    if marks == [] && indexes == [] { return Err(NoPrimaryKey); }
    if marks != [] && indexes != [] { return Err(BothKinds); }
    return Ok(if marks != [] then marks else indexes[0]);
  }
}
