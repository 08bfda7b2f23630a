/** Why a sanitised dump is canonical: it is a normal form of what the dump says. */
module CanonicalDump {
  import opened Bags
  import opened SanitizeDump

  /** What a dump says: its statements in order, and every COPY block's rows as a bag. */
  datatype Segment = Text(line: string) | Block(rows: multiset<string>)

  /** Parses a dump; a block that is never closed says nothing. */
  ghost function Segments(lines: seq<string>, inCopy: bool, rows: multiset<string>): seq<Segment>
  {
    if lines == [] then []
    else if inCopy then
      if lines[0] == END_OF_COPY then [Block(rows)] + Segments(lines[1..], false, multiset{})
      else Segments(lines[1..], true, rows + multiset{lines[0]})
    else if Skipped(lines[0]) then Segments(lines[1..], false, multiset{})
    else [Text(lines[0])] + Segments(lines[1..], StartsCopy(lines[0]), multiset{})
  }

  ghost function Meaning(lines: seq<string>): seq<Segment>
  {
    Segments(lines, false, multiset{})
  }

  /** `out` lists the segments one after the other, each block's rows in hash order. */
  ghost predicate Renders(segments: seq<Segment>, out: seq<string>, hash: Hash)
  {
    if segments == [] then out == []
    else match segments[0]
      case Text(line) => out != [] && out[0] == line && Renders(segments[1..], out[1..], hash)
      case Block(rows) =>
        && |rows| < |out| && multiset(out[..|rows|]) == rows && SortedBy(out[..|rows|], ByHash(hash))
        && out[|rows|] == END_OF_COPY
        && Renders(segments[1..], out[|rows| + 1..], hash)
  }

  lemma {:induction false} CleanRenders(lines: seq<string>, inCopy: bool, rows: seq<string>, hash: Hash)
    requires !inCopy ==> rows == []
    ensures Renders(Segments(lines, inCopy, multiset(rows)), Clean(lines, inCopy, rows, hash), hash)
  {
    hide Skipped, StartsCopy, SortedBy, InsertionSort;
    if lines == [] {
    } else if inCopy && lines[0] == END_OF_COPY {
      CleanRenders(lines[1..], false, [], hash);
      SortCorrect(rows, ByHash(hash));
      RenderBlock(InsertionSort(rows, ByHash(hash)), Segments(lines[1..], false, multiset{}),
                  Clean(lines[1..], false, [], hash), hash);
    } else if inCopy {
      CleanRenders(lines[1..], true, rows + [lines[0]], hash);
      assert multiset(rows + [lines[0]]) == multiset(rows) + multiset{lines[0]};
    } else {
      CleanRenders(lines[1..], !Skipped(lines[0]) && StartsCopy(lines[0]), [], hash);
      var rest := Clean(lines[1..], StartsCopy(lines[0]), [], hash);
      var segments := Segments(lines[1..], StartsCopy(lines[0]), multiset{});
      assert ([lines[0]] + rest)[1..] == rest && ([Text(lines[0])] + segments)[1..] == segments;
    }
  }

  lemma RenderBlock(sorted: seq<string>, segments: seq<Segment>, rest: seq<string>, hash: Hash)
    requires SortedBy(sorted, ByHash(hash)) && Renders(segments, rest, hash)
    ensures Renders([Block(multiset(sorted))] + segments, sorted + [END_OF_COPY] + rest, hash)
  {
    var out, all := sorted + [END_OF_COPY] + rest, [Block(multiset(sorted))] + segments;
    assert |multiset(sorted)| == |sorted|;
    assert out[..|sorted|] == sorted && out[|sorted| + 1..] == rest && all[1..] == segments;
  }

  lemma SortedRowsUnique(a: seq<string>, b: seq<string>, hash: Hash)
    requires Injective(hash) && multiset(a) == multiset(b) && SortedBy(a, ByHash(hash)) && SortedBy(b, ByHash(hash))
    ensures a == b
  {
    SortedUnique(a, b, ByHash(hash));
  }

  /** There is one way to render given segments. */
  lemma {:induction false} RenderUnique(segments: seq<Segment>, a: seq<string>, b: seq<string>, hash: Hash)
    requires Injective(hash) && Renders(segments, a, hash) && Renders(segments, b, hash)
    ensures a == b
  {
    hide Injective, SortedBy, ByHash;
    if segments != [] {
      match segments[0]
      case Text(line) =>
        RenderUnique(segments[1..], a[1..], b[1..], hash);
        assert a == [a[0]] + a[1..] && b == [b[0]] + b[1..];
      case Block(rows) =>
        var n := |rows|;
        RenderUnique(segments[1..], a[n + 1..], b[n + 1..], hash);
        SortedRowsUnique(a[..n], b[..n], hash);
        assert a == a[..n] + [a[n]] + a[n + 1..] && b == b[..n] + [b[n]] + b[n + 1..];
    }
  }

  /** Reading a finished block back. */
  lemma {:induction false} ParseBlock(block: seq<string>, rest: seq<string>, rows: multiset<string>)
    requires END_OF_COPY !in block
    ensures Segments(block + [END_OF_COPY] + rest, true, rows) ==
            [Block(rows + multiset(block))] + Segments(rest, false, multiset{})
  {
    hide Skipped, StartsCopy;
    var lines := block + [END_OF_COPY] + rest;
    if block == [] {
      assert lines[1..] == rest && rows + multiset(block) == rows;
    } else {
      assert lines[1..] == block[1..] + [END_OF_COPY] + rest;
      ParseBlock(block[1..], rest, rows + multiset{block[0]});
      assert block == [block[0]] + block[1..];
      assert rows + multiset{block[0]} + multiset(block[1..]) == rows + multiset(block);
    }
  }

  /** Sanitising keeps what the dump says. */
  lemma {:induction false} CleanKeepsMeaning(lines: seq<string>, inCopy: bool, rows: seq<string>, hash: Hash)
    requires (!inCopy ==> rows == []) && END_OF_COPY !in rows
    ensures Segments(Clean(lines, inCopy, rows, hash), inCopy, multiset{}) == Segments(lines, inCopy, multiset(rows))
  {
    hide Skipped, StartsCopy, InsertionSort;
    if lines == [] {
    } else if inCopy && lines[0] == END_OF_COPY {
      CleanKeepsMeaning(lines[1..], false, [], hash);
      SortCorrect(rows, ByHash(hash));
      var sorted := InsertionSort(rows, ByHash(hash));
      assert END_OF_COPY !in multiset(sorted);
      ParseBlock(sorted, Clean(lines[1..], false, [], hash), multiset{});
      assert multiset{} + multiset(sorted) == multiset(rows);
    } else if inCopy {
      CleanKeepsMeaning(lines[1..], true, rows + [lines[0]], hash);
      assert multiset(rows + [lines[0]]) == multiset(rows) + multiset{lines[0]};
    } else {
      CleanKeepsMeaning(lines[1..], !Skipped(lines[0]) && StartsCopy(lines[0]), [], hash);
      var rest := Clean(lines[1..], StartsCopy(lines[0]), [], hash);
      assert ([lines[0]] + rest)[1..] == rest;
    }
  }

  lemma {:induction false} CleanNoNewlines(lines: seq<string>, inCopy: bool, rows: seq<string>, hash: Hash)
    requires NoNewlines(lines) && NoNewlines(rows)
    ensures NoNewlines(Clean(lines, inCopy, rows, hash))
  {
    hide Skipped, StartsCopy, InsertionSort;
    if lines == [] {
    } else if inCopy && lines[0] == END_OF_COPY {
      CleanNoNewlines(lines[1..], false, [], hash);
      SortCorrect(rows, ByHash(hash));
      var sorted := InsertionSort(rows, ByHash(hash));
      forall i | 0 <= i < |sorted| ensures '\n' !in sorted[i] {
        assert sorted[i] in multiset(rows);
      }
    } else if inCopy {
      CleanNoNewlines(lines[1..], true, rows + [lines[0]], hash);
    } else {
      CleanNoNewlines(lines[1..], !Skipped(lines[0]) && StartsCopy(lines[0]), [], hash);
    }
  }

  /** The sanitised file, as sanitizeDump writes it for a dump without carriage returns. */
  function Sanitized(lines: seq<string>, hash: Hash): string
  {
    Join(Clean(lines, false, [], hash))
  }

  /** Two dumps sanitise to the same bytes exactly when they say the same thing: the same
      statements and, block by block, the same bag of rows. */
  lemma SanitizedIsCanonical(a: seq<string>, b: seq<string>, hash: Hash)
    requires Injective(hash) && NoNewlines(a) && NoNewlines(b)
    ensures Sanitized(a, hash) == Sanitized(b, hash) <==> Meaning(a) == Meaning(b)
  {
    hide Segments, Clean, Join, Renders;
    CleanNoNewlines(a, false, [], hash);
    CleanNoNewlines(b, false, [], hash);
    CleanKeepsMeaning(a, false, [], hash);
    CleanKeepsMeaning(b, false, [], hash);
    CleanRenders(a, false, [], hash);
    CleanRenders(b, false, [], hash);
    if Meaning(a) == Meaning(b) {
      RenderUnique(Meaning(a), Clean(a, false, [], hash), Clean(b, false, [], hash), hash);
    }
    if Sanitized(a, hash) == Sanitized(b, hash) {
      JoinInjective(Clean(a, false, [], hash), Clean(b, false, [], hash));
    }
  }

  /** Sanitising a sanitised dump changes nothing. */
  lemma SanitizedTwice(lines: seq<string>, hash: Hash)
    requires Injective(hash) && NoNewlines(lines)
    ensures Sanitized(Clean(lines, false, [], hash), hash) == Sanitized(lines, hash)
  {
    hide Segments, Clean, Join;
    CleanNoNewlines(lines, false, [], hash);
    CleanKeepsMeaning(lines, false, [], hash);
    SanitizedIsCanonical(Clean(lines, false, [], hash), lines, hash);
  }

  /** Rows of an open block only add to its bag. */
  lemma {:induction false} ReadRows(block: seq<string>, rest: seq<string>, rows: multiset<string>)
    requires END_OF_COPY !in block
    ensures Segments(block + rest, true, rows) == Segments(rest, true, rows + multiset(block))
  {
    hide Skipped, StartsCopy;
    if block == [] {
      assert block + rest == rest && rows + multiset(block) == rows;
    } else {
      assert (block + rest)[1..] == block[1..] + rest;
      ReadRows(block[1..], rest, rows + multiset{block[0]});
      HeadOf(block);
      assert rows + multiset{block[0]} + multiset(block[1..]) == rows + multiset(block);
    }
  }

  /** Reordering rows inside a COPY block does not change what the dump says. */
  lemma {:induction false} RowOrderIsNoise(before: seq<string>, p: seq<string>, q: seq<string>, after: seq<string>,
                                           inCopy: bool, rows: multiset<string>)
    requires multiset(p) == multiset(q) && END_OF_COPY !in p && OpenAfter(before, inCopy)
    ensures Segments(before + p + after, inCopy, rows) == Segments(before + q + after, inCopy, rows)
  {
    hide Skipped, StartsCopy;
    if before == [] {
      assert before + p + after == p + after && before + q + after == q + after;
      assert END_OF_COPY !in multiset(q);
      ReadRows(p, after, rows);
      ReadRows(q, after, rows);
    } else {
      assert (before + p + after)[1..] == before[1..] + p + after;
      assert (before + q + after)[1..] == before[1..] + q + after;
      var next := if inCopy then before[0] != END_OF_COPY else !Skipped(before[0]) && StartsCopy(before[0]);
      RowOrderIsNoise(before[1..], p, q, after, next,
                      if inCopy && before[0] != END_OF_COPY then rows + multiset{before[0]} else multiset{});
    }
  }

  /** So dumps that differ only in the order of rows inside COPY blocks give identical files. */
  lemma ReorderedRowsSameFile(before: seq<string>, p: seq<string>, q: seq<string>, after: seq<string>, hash: Hash)
    requires Injective(hash) && NoNewlines(before + p + after) && NoNewlines(before + q + after)
    requires multiset(p) == multiset(q) && END_OF_COPY !in p && OpenAfter(before, false)
    ensures Sanitized(before + p + after, hash) == Sanitized(before + q + after, hash)
  {
    hide Segments, OpenAfter, Sanitized;
    RowOrderIsNoise(before, p, q, after, false, multiset{});
    SanitizedIsCanonical(before + p + after, before + q + after, hash);
  }

  /** Whether a COPY block is open after the given lines. */
  ghost predicate OpenAfter(lines: seq<string>, inCopy: bool)
  {
    if lines == [] then inCopy
    else OpenAfter(lines[1..], if inCopy then lines[0] != END_OF_COPY else !Skipped(lines[0]) && StartsCopy(lines[0]))
  }
}
