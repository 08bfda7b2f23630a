/** Making a database dump canonical (sanitizeDump in internal/statesync/snapshotter.go). */
module SanitizeDump {
  import opened Bags

  const END_OF_COPY := "\\."

  // ---------------------------------------------------------------------
  // Lines of a file
  // ---------------------------------------------------------------------

  /** A file of newline-terminated lines. */
  function Join(lines: seq<string>): string
  {
    if lines == [] then "" else lines[0] + "\n" + Join(lines[1..])
  }

  ghost predicate NoNewlines(lines: seq<string>)
  {
    forall i :: 0 <= i < |lines| ==> '\n' !in lines[i]
  }

  /** bufio's line splitter drops a carriage return before the newline. */
  function DropCR(line: string): string
  {
    if line != "" && line[|line| - 1] == '\r' then line[..|line| - 1] else line
  }

  ghost predicate NoCarriageReturns(lines: seq<string>)
  {
    forall i :: 0 <= i < |lines| ==> DropCR(lines[i]) == lines[i]
  }

  /** The bytes from the current position up to the next newline. */
  function TakeLine(s: string): string
  {
    if s == "" || s[0] == '\n' then "" else [s[0]] + TakeLine(s[1..])
  }

  /** Where line `i` starts in the file. */
  function Start(lines: seq<string>, i: nat): nat
    requires i <= |lines|
  {
    if i == 0 then 0 else Start(lines, i - 1) + |lines[i - 1]| + 1
  }

  /** The offset the line loop has reached before line `i`: it counts scanned lines. */
  function Offset(lines: seq<string>, i: nat): nat
    requires i <= |lines|
  {
    if i == 0 then 0 else Offset(lines, i - 1) + |DropCR(lines[i - 1])| + 1
  }

  /** Recorded offsets point at the start of their line exactly as long as no earlier line ends
      in a carriage return. */
  lemma {:induction false} OffsetsExactly(lines: seq<string>, i: nat)
    requires i <= |lines|
    ensures Offset(lines, i) <= Start(lines, i)
    ensures Offset(lines, i) == Start(lines, i) <==> forall j :: 0 <= j < i ==> DropCR(lines[j]) == lines[j]
  {
    if i != 0 {
      OffsetsExactly(lines, i - 1);
    }
  }

  lemma {:induction false} TakeLineStops(line: string, rest: string)
    requires '\n' !in line
    ensures TakeLine(line + "\n" + rest) == line
  {
    if line != "" {
      assert (line + "\n" + rest)[1..] == line[1..] + "\n" + rest;
      TakeLineStops(line[1..], rest);
    }
  }

  lemma {:induction false} JoinFrom(lines: seq<string>, i: nat)
    requires i <= |lines|
    ensures Start(lines, i) <= |Join(lines)|
    ensures Join(lines)[Start(lines, i)..] == Join(lines[i..])
  {
    if i == 0 {
      assert lines[0..] == lines;
    } else {
      JoinFrom(lines, i - 1);
      var k := Start(lines, i - 1);
      assert lines[i - 1..][1..] == lines[i..];
      assert Join(lines)[k..] == lines[i - 1] + "\n" + Join(lines[i..]);
      assert Join(lines)[k..][|lines[i - 1]| + 1..] == Join(lines[i..]);
      assert Join(lines)[Start(lines, i)..] == Join(lines)[k..][|lines[i - 1]| + 1..];
    }
  }

  /** Seeking to the start of a line and reading up to the newline gives that line. */
  lemma SeekReadsLine(lines: seq<string>, i: nat)
    requires i < |lines| && NoNewlines(lines)
    ensures Start(lines, i) <= |Join(lines)|
    ensures TakeLine(Join(lines)[Start(lines, i)..]) == lines[i]
  {
    JoinFrom(lines, i);
    assert lines[i..][0] == lines[i];
    TakeLineStops(lines[i], Join(lines[i..][1..]));
  }

  lemma {:induction false} JoinInjective(a: seq<string>, b: seq<string>)
    requires NoNewlines(a) && NoNewlines(b) && Join(a) == Join(b)
    ensures a == b
  {
    if a == [] || b == [] {
      assert |Join(a)| == 0;
    } else {
      TakeLineStops(a[0], Join(a[1..]));
      TakeLineStops(b[0], Join(b[1..]));
      var k := |a[0]| + 1;
      assert Join(a)[k..] == Join(a[1..]) && Join(b)[k..] == Join(b[1..]);
      JoinInjective(a[1..], b[1..]);
      assert a == [a[0]] + a[1..] && b == [b[0]] + b[1..];
    }
  }

  // ---------------------------------------------------------------------
  // What each line means
  // ---------------------------------------------------------------------

  /** unicode.IsSpace. */
  predicate IsSpace(c: char)
  {
    || ('\t' <= c <= '\r') || c == ' ' || c == '\U{0085}' || c == '\U{00A0}' || c == '\U{1680}'
    || ('\U{2000}' <= c <= '\U{200A}') || c == '\U{2028}' || c == '\U{2029}' || c == '\U{202F}'
    || c == '\U{205F}' || c == '\U{3000}'
  }

  predicate IsBlank(line: string)
  {
    forall i :: 0 <= i < |line| ==> IsSpace(line[i])
  }

  predicate Contains(line: string, part: string)
  {
    part <= line || (line != "" && Contains(line[1..], part))
  }

  /** Outside COPY blocks: blank lines, comments, and statements that differ between nodes. */
  predicate Skipped(line: string)
  {
    || IsBlank(line)
    || "--" <= line || "SET" <= line || "SELECT" <= line
    || (|line| > 1 && "connect" <= line[1..])
    || "CREATE DATABASE" <= line
  }

  predicate StartsCopy(line: string)
  {
    "COPY" <= line && Contains(line, "FROM stdin;")
  }

  // ---------------------------------------------------------------------
  // The same, written out
  // ---------------------------------------------------------------------

  /** `part` stands in the line from position `i` on. */
  ghost predicate Occurs(line: string, part: string, i: int)
  {
    0 <= i <= |line| - |part| && forall k :: 0 <= k < |part| ==> line[i + k] == part[k]
  }

  const ASCII_SPACES: set<char> := {'\t', '\n', '\U{000B}', '\U{000C}', '\r', ' '}
  const OTHER_SPACES: set<char> :=
    {'\U{0085}', '\U{00A0}', '\U{1680}', '\U{2000}', '\U{2001}', '\U{2002}', '\U{2003}', '\U{2004}', '\U{2005}', '\U{2006}',
     '\U{2007}', '\U{2008}', '\U{2009}', '\U{200A}', '\U{2028}', '\U{2029}', '\U{202F}', '\U{205F}', '\U{3000}'}

  /** A line outside COPY blocks that reaches the output: something other than white space in it,
      and none of the beginnings of comments and of statements that differ between nodes. */
  ghost predicate Stays(line: string)
  {
    && (exists i :: 0 <= i < |line| && line[i] !in ASCII_SPACES && line[i] !in OTHER_SPACES)
    && !Occurs(line, "--", 0) && !Occurs(line, "SET", 0) && !Occurs(line, "SELECT", 0)
    && !Occurs(line, "CREATE DATABASE", 0) && !Occurs(line, "connect", 1)
  }

  /** A line after which rows follow. */
  ghost predicate OpensBlock(line: string)
  {
    Occurs(line, "COPY", 0) && exists i :: Occurs(line, "FROM stdin;", i)
  }

  lemma PrefixOccurs(line: string, part: string)
    ensures part <= line <==> Occurs(line, part, 0)
  {
    if Occurs(line, part, 0) {
      assert line[..|part|] == part;
    }
  }

  lemma TailOccurs(line: string, part: string, i: int)
    requires line != ""
    ensures 0 <= i ==> (Occurs(line[1..], part, i) <==> Occurs(line, part, i + 1))
  {
    if 0 <= i && Occurs(line, part, i + 1) {
      forall k | 0 <= k < |part| ensures line[1..][i + k] == part[k] {
        assert line[i + 1 + k] == part[k];
      }
    }
    if 0 <= i && Occurs(line[1..], part, i) {
      forall k | 0 <= k < |part| ensures line[i + 1 + k] == part[k] {
        assert line[1..][i + k] == part[k];
      }
    }
  }

  lemma {:induction false} ContainsExactly(line: string, part: string)
    ensures Contains(line, part) <==> exists i :: Occurs(line, part, i)
  {
    PrefixOccurs(line, part);
    if line != "" {
      ContainsExactly(line[1..], part);
      hide Occurs;
      if Contains(line[1..], part) {
        var i :| Occurs(line[1..], part, i);
        assert 0 <= i by { OccursInside(line[1..], part, i); }
        TailOccurs(line, part, i);
      }
      if i :| Occurs(line, part, i) {
        OccursInside(line, part, i);
        TailOccurs(line, part, i - 1);
      }
    } else if i :| Occurs(line, part, i) {
      OccursInside(line, part, i);
    }
  }

  lemma OccursInside(line: string, part: string, i: int)
    requires Occurs(line, part, i)
    ensures 0 <= i <= |line|
  {
  }

  lemma SpacesExactly(c: char)
    ensures IsSpace(c) <==> c in ASCII_SPACES || c in OTHER_SPACES
  {
    var n := c as int;
    if 9 <= n <= 13 {
      assert n == 9 || n == 10 || n == 11 || n == 12 || n == 13;
    } else if 0x2000 <= n <= 0x200A {
      assert n == 0x2000 || n == 0x2001 || n == 0x2002 || n == 0x2003 || n == 0x2004 || n == 0x2005 || n == 0x2006 ||
             n == 0x2007 || n == 0x2008 || n == 0x2009 || n == 0x200A;
    }
  }

  /** Which lines are skipped and which open a block, written out. */
  lemma LinesExactly(line: string)
    ensures Skipped(line) <==> !Stays(line)
    ensures StartsCopy(line) <==> OpensBlock(line)
  {
    hide Occurs, Contains, IsSpace;
    forall c ensures IsSpace(c) <==> c in ASCII_SPACES || c in OTHER_SPACES { SpacesExactly(c); }
    PrefixOccurs(line, "--");
    PrefixOccurs(line, "SET");
    PrefixOccurs(line, "SELECT");
    PrefixOccurs(line, "CREATE DATABASE");
    PrefixOccurs(line, "COPY");
    ContainsExactly(line, "FROM stdin;");
    ConnectOccurs(line);
  }

  lemma ConnectOccurs(line: string)
    ensures Occurs(line, "connect", 1) <==> |line| > 1 && "connect" <= line[1..]
  {
    if line != "" {
      PrefixOccurs(line[1..], "connect");
      TailOccurs(line, "connect", 0);
    }
  }

  /** The lines outside COPY blocks, in order. */
  ghost function Outside(lines: seq<string>, inCopy: bool): seq<string>
  {
    if lines == [] then []
    else if inCopy then Outside(lines[1..], lines[0] != "\\.")
    else [lines[0]] + Outside(lines[1..], Stays(lines[0]) && OpensBlock(lines[0]))
  }

  ghost function Staying(lines: seq<string>): seq<string>
  {
    if lines == [] then [] else (if Stays(lines[0]) then [lines[0]] else []) + Staying(lines[1..])
  }

  type Hash = string -> int

  /** SHA-256 of a row, as a number; distinct rows have distinct hashes. */
  ghost predicate Injective(hash: Hash)
  {
    forall a, b :: hash(a) == hash(b) ==> a == b
  }

  function ByHash(hash: Hash): (string, string) -> bool
  {
    (a, b) => hash(a) <= hash(b)
  }

  /** The reference: sort every COPY block's rows by hash in memory. `rows` are the rows of the
      open block; rows of a block that is never closed are not written. */
  function Clean(lines: seq<string>, inCopy: bool, rows: seq<string>, hash: Hash): seq<string>
  {
    if lines == [] then []
    else if inCopy then
      if lines[0] == END_OF_COPY
      then InsertionSort(rows, ByHash(hash)) + [END_OF_COPY] + Clean(lines[1..], false, [], hash)
      else Clean(lines[1..], true, rows + [lines[0]], hash)
    else if Skipped(lines[0]) then Clean(lines[1..], false, [], hash)
    else [lines[0]] + Clean(lines[1..], StartsCopy(lines[0]), [], hash)
  }

  lemma {:induction false} OutsideBlock(block: seq<string>, rest: seq<string>)
    requires END_OF_COPY !in block
    ensures Outside(block + [END_OF_COPY] + rest, true) == Outside(rest, false)
  {
    var lines := block + [END_OF_COPY] + rest;
    if block == [] {
      assert lines[1..] == rest;
    } else {
      assert lines[1..] == block[1..] + [END_OF_COPY] + rest;
      OutsideBlock(block[1..], rest);
    }
  }

  lemma StayingStep(line: string, rest: seq<string>)
    ensures Staying([line] + rest) == (if Stays(line) then [line] else []) + Staying(rest)
  {
    assert ([line] + rest)[1..] == rest;
  }

  /** Outside COPY blocks the lines of the output are, in order, exactly the lines of the dump that
      stay. */
  lemma {:induction false} OutsideKept(lines: seq<string>, inCopy: bool, rows: seq<string>, hash: Hash)
    requires (!inCopy ==> rows == []) && END_OF_COPY !in rows
    ensures Outside(Clean(lines, inCopy, rows, hash), inCopy) == Staying(Outside(lines, inCopy))
  {
    hide Stays, OpensBlock, Skipped, StartsCopy, InsertionSort, Staying;
    if lines == [] {
      assert Staying([]) == [] by { NothingStays(); }
    } else if inCopy && lines[0] == END_OF_COPY {
      OutsideKept(lines[1..], false, [], hash);
      SortCorrect(rows, ByHash(hash));
      var sorted := InsertionSort(rows, ByHash(hash));
      assert END_OF_COPY !in multiset(sorted);
      OutsideBlock(sorted, Clean(lines[1..], false, [], hash));
    } else if inCopy {
      OutsideKept(lines[1..], true, rows + [lines[0]], hash);
    } else {
      LinesExactly(lines[0]);
      StayingStep(lines[0], Outside(lines[1..], Stays(lines[0]) && OpensBlock(lines[0])));
      OutsideKept(lines[1..], Stays(lines[0]) && OpensBlock(lines[0]), [], hash);
      if Stays(lines[0]) {
        var rest := Clean(lines[1..], StartsCopy(lines[0]), [], hash);
        assert ([lines[0]] + rest)[1..] == rest;
      }
    }
  }

  lemma NothingStays()
    ensures Staying([]) == []
  {
  }

  // ---------------------------------------------------------------------
  // What the line loop does, on any dump
  // ---------------------------------------------------------------------

  datatype HashedLine = HashedLine(hash: int, offset: nat)

  ghost predicate SortedHashes(s: seq<HashedLine>)
  {
    forall i, j :: 0 <= i < j < |s| ==> s[i].hash <= s[j].hash
  }

  ghost predicate WithinFile(dump: string, recs: seq<HashedLine>)
  {
    forall i :: 0 <= i < |recs| ==> recs[i].offset <= |dump|
  }

  function ReadBack(dump: string, recs: seq<HashedLine>): seq<string>
    requires forall i :: 0 <= i < |recs| ==> recs[i].offset <= |dump|
  {
    seq(|recs|, i requires 0 <= i < |recs| => TakeLine(dump[recs[i].offset..]))
  }

  /** slices.SortFunc: some sorted permutation. */
  ghost predicate SortedVersion(recs: seq<HashedLine>, sorted: seq<HashedLine>)
  {
    multiset(sorted) == multiset(recs) && SortedHashes(sorted)
  }

  /** The variables of the line loop. */
  datatype Scan = Scan(inCopy: bool, recs: seq<HashedLine>, out: string)

  const START := Scan(false, [], "")

  /** One turn of the loop, for a scanned line and the offset reached. */
  ghost predicate LineStep(dump: string, hash: Hash, line: string, offset: nat, s: Scan, s': Scan)
  {
    if !s.inCopy then
      s' == if Skipped(line) then s else Scan(StartsCopy(line), s.recs, s.out + line + "\n")
    else if line != END_OF_COPY then
      s' == Scan(true, s.recs + [HashedLine(hash(line), offset)], s.out)
    else
      exists sorted :: SortedVersion(s.recs, sorted) && WithinFile(dump, sorted) &&
                       s' == Scan(false, [], s.out + Join(ReadBack(dump, sorted)) + END_OF_COPY + "\n")
  }

  /** A state the loop may be in after `k` lines. */
  ghost predicate Scanned(dump: string, hash: Hash, lines: seq<string>, k: nat, s: Scan)
    requires k <= |lines|
    decreases k, 0
  {
    if k == 0 then s == START else ScannedNext(dump, hash, lines, k - 1, s)
  }

  ghost predicate ScannedNext(dump: string, hash: Hash, lines: seq<string>, k: nat, s: Scan)
    requires k < |lines|
    decreases k, 1
  {
    exists s0 :: Scanned(dump, hash, lines, k, s0) && LineStep(dump, hash, DropCR(lines[k]), Offset(lines, k), s0, s)
  }

  /** A file the loop may write for the dump made of these lines. */
  ghost predicate Sanitizes(hash: Hash, lines: seq<string>, out: string)
  {
    exists s :: Scanned(Join(lines), hash, lines, |lines|, s) && s.out == out
  }

  // ---------------------------------------------------------------------
  // The code
  // ---------------------------------------------------------------------

  method SortHashes(s: seq<HashedLine>) returns (r: seq<HashedLine>)
    ensures SortedVersion(s, r)
  {
    var leq := (a: HashedLine, b: HashedLine) => a.hash <= b.hash;
    SortCorrect(s, leq);
    r := InsertionSort(s, leq);
  }

  lemma SortedWithin(dump: string, recs: seq<HashedLine>, sorted: seq<HashedLine>)
    requires WithinFile(dump, recs) && SortedVersion(recs, sorted)
    ensures WithinFile(dump, sorted)
  {
    forall i | 0 <= i < |sorted| ensures sorted[i].offset <= |dump| {
      assert sorted[i] in multiset(recs);
    }
  }

  lemma {:induction false} JoinConcat(a: seq<string>, b: seq<string>)
    ensures Join(a + b) == Join(a) + Join(b)
  {
    if a == [] {
      assert a + b == b;
    } else {
      JoinConcat(a[1..], b);
      assert (a + b)[1..] == a[1..] + b;
    }
  }

  /** Writes the recorded rows of a finished block, in hash order, by seeking to each. */
  method WriteBlock(dump: string, recs: seq<HashedLine>) returns (out: string)
    requires WithinFile(dump, recs)
    ensures exists sorted :: SortedVersion(recs, sorted) && WithinFile(dump, sorted) && out == Join(ReadBack(dump, sorted))
  {
    var lineHashes := SortHashes(recs);
    SortedWithin(dump, recs, lineHashes);
    ghost var back := ReadBack(dump, lineHashes);
    out := "";
    for i := 0 to |lineHashes|
      invariant out == Join(back[..i])
    {
      assert back[..i + 1] == back[..i] + [back[i]];
      JoinConcat(back[..i], [back[i]]);
      assert [back[i]][1..] == [] && Join([back[i]]) == back[i] + "\n" + "";
      out := out + TakeLine(dump[lineHashes[i].offset..]) + "\n";
    }
    assert back[..|back|] == back;
  }

  /** A line inside a COPY block: record it, or write the block out. */
  method CopyLine(dump: string, hash: Hash, line: string, offset: nat, recs: seq<HashedLine>, out: string)
    returns (inCopy': bool, recs': seq<HashedLine>, out': string)
    requires WithinFile(dump, recs) && offset <= |dump|
    ensures WithinFile(dump, recs')
    ensures LineStep(dump, hash, line, offset, Scan(true, recs, out), Scan(inCopy', recs', out'))
  {
    if line == END_OF_COPY {
      var block := WriteBlock(dump, recs);
      inCopy', recs', out' := false, [], out + block + END_OF_COPY + "\n";
    } else {
      inCopy', recs', out' := true, recs + [HashedLine(hash(line), offset)], out;
    }
  }

  /** A line outside COPY blocks: skip it, or write it and see whether a block begins. */
  method PlainLine(line: string, recs: seq<HashedLine>, out: string, ghost dump: string, ghost hash: Hash, ghost offset: nat)
    returns (inCopy': bool, out': string)
    ensures LineStep(dump, hash, line, offset, Scan(false, recs, out), Scan(inCopy', recs, out'))
  {
    inCopy', out' := false, out;
    if !Skipped(line) {
      inCopy' := StartsCopy(line);
      out' := out + line + "\n";
    }
  }

  const MAX_LINE := 64 * 1024

  /** The line loop. `lines` are the lines of the file; the scanner fails on one that does not
      fit its buffer. */
  method ScanLines(dump: string, hash: Hash, ghost lines: seq<string>) returns (ok: bool, out: string)
    requires NoNewlines(lines) && dump == Join(lines)
    ensures ok <==> forall i :: 0 <= i < |lines| ==> |lines[i]| < MAX_LINE
    ensures ok ==> Sanitizes(hash, lines, out)
  {
    hide TakeLine, LineStep;
    ghost var k := 0;
    var pos, offset, inCopyBlock := 0, 0, false;
    var lineHashes: seq<HashedLine> := [];
    out := "";
    JoinFrom(lines, |lines|);
    assert lines[|lines|..] == [];
    while pos < |dump|
      invariant k <= |lines| && pos == Start(lines, k) && offset == Offset(lines, k)
      invariant pos <= |dump| && (pos == |dump| <==> k == |lines|)
      invariant forall i :: 0 <= i < k ==> |lines[i]| < MAX_LINE
      invariant WithinFile(dump, lineHashes)
      invariant Scanned(dump, hash, lines, k, Scan(inCopyBlock, lineHashes, out))
      decreases |dump| - pos
    {
      hide Join, WithinFile;
      SeekReadsLine(lines, k);
      EndOfLine(lines, k);
      OffsetsExactly(lines, k);
      var raw := TakeLine(dump[pos..]);
      if |raw| >= MAX_LINE { return false, out; }
      var line := DropCR(raw);
      assert Scanned(dump, hash, lines, k, Scan(inCopyBlock, lineHashes, out));
      if inCopyBlock {
        inCopyBlock, lineHashes, out := CopyLine(dump, hash, line, offset, lineHashes, out);
      } else {
        inCopyBlock, out := PlainLine(line, lineHashes, out, dump, hash, offset);
      }
      assert ScannedNext(dump, hash, lines, k, Scan(inCopyBlock, lineHashes, out));
      offset := offset + |line| + 1;
      pos := pos + |raw| + 1;
      k := k + 1;
    }
    assert Scanned(Join(lines), hash, lines, |lines|, Scan(inCopyBlock, lineHashes, out));
    return true, out;
  }

  method Sanitize(dump: string, hash: Hash, ghost lines: seq<string>) returns (ok: bool, out: string)
    requires NoNewlines(lines) && dump == Join(lines)
    ensures ok <==> forall i :: 0 <= i < |lines| ==> |lines[i]| < 65536
    ensures ok ==> Sanitizes(hash, lines, out)
    ensures ok && NoCarriageReturns(lines) && Injective(hash) ==>
              var written := Clean(lines, false, [], hash);
              out == Join(written) && Outside(written, false) == Staying(Outside(lines, false))
  {
    hide Sanitizes, Injective, Clean, Outside, Staying, Join;
    ok, out := ScanLines(dump, hash, lines);
    if ok && NoCarriageReturns(lines) && Injective(hash) {
      SanitizesClean(hash, lines, out);
      OutsideKept(lines, false, [], hash);
    }
  }

  lemma EndOfLine(lines: seq<string>, k: nat)
    requires k < |lines|
    ensures Start(lines, k + 1) <= |Join(lines)|
    ensures Start(lines, k + 1) == |Join(lines)| <==> k + 1 == |lines|
  {
    JoinFrom(lines, k + 1);
    if k + 1 < |lines| {
      assert lines[k + 1..] != [] && |Join(lines[k + 1..])| > 0;
    } else {
      assert lines[k + 1..] == [];
    }
  }

  // ---------------------------------------------------------------------
  // Without carriage returns the loop writes the reference output
  // ---------------------------------------------------------------------

  /** Every recorded row: its hash, and an offset from which it can be read back. */
  ghost predicate Recorded(dump: string, hash: Hash, rows: seq<string>, recs: seq<HashedLine>)
  {
    && |recs| == |rows|
    && forall i :: 0 <= i < |rows| ==>
         recs[i].offset <= |dump| && recs[i].hash == hash(rows[i]) && TakeLine(dump[recs[i].offset..]) == rows[i]
  }

  /** Reading the sorted records back gives the in-memory sort of the rows. */
  lemma SeekSortIsSort(dump: string, hash: Hash, rows: seq<string>, recs: seq<HashedLine>, sorted: seq<HashedLine>)
    requires Injective(hash) && Recorded(dump, hash, rows, recs)
    requires SortedVersion(recs, sorted)
    ensures forall i :: 0 <= i < |sorted| ==> sorted[i].offset <= |dump|
    ensures ReadBack(dump, sorted) == InsertionSort(rows, ByHash(hash))
  {
    forall i | 0 <= i < |sorted|
      ensures sorted[i].offset <= |dump| && hash(TakeLine(dump[sorted[i].offset..])) == sorted[i].hash
    {
      assert sorted[i] in multiset(recs);
      var j :| 0 <= j < |recs| && recs[j] == sorted[i];
    }
    var back := ReadBack(dump, sorted);
    assert SortedBy(back, ByHash(hash));
    assert ReadBack(dump, recs) == rows;
    var f := (h: HashedLine) => [if h.offset <= |dump| then TakeLine(dump[h.offset..]) else ""];
    ReadBackFlat(dump, sorted, f);
    ReadBackFlat(dump, recs, f);
    FlatMapPermutes(sorted, recs, f, f);
    SortCorrect(rows, ByHash(hash));
    SortedUnique(back, InsertionSort(rows, ByHash(hash)), ByHash(hash));
  }

  lemma {:induction false} ReadBackFlat(dump: string, recs: seq<HashedLine>, f: HashedLine -> seq<string>)
    requires forall i :: 0 <= i < |recs| ==> recs[i].offset <= |dump|
    requires forall h :: f(h) == [if h.offset <= |dump| then TakeLine(dump[h.offset..]) else ""]
    ensures ReadBack(dump, recs) == FlatMap(recs, f)
  {
    if recs != [] {
      ReadBackFlat(dump, recs[1..], f);
      assert ReadBack(dump, recs) == [TakeLine(dump[recs[0].offset..])] + ReadBack(dump, recs[1..]);
    }
  }

  /** One line outside a COPY block. */
  lemma CleanPlain(lines: seq<string>, k: nat, hash: Hash)
    requires k < |lines|
    ensures Join(Clean(lines[k..], false, [], hash)) ==
            if Skipped(lines[k]) then Join(Clean(lines[k + 1..], false, [], hash))
            else lines[k] + "\n" + Join(Clean(lines[k + 1..], StartsCopy(lines[k]), [], hash))
  {
    assert lines[k..][1..] == lines[k + 1..] && lines[k..][0] == lines[k];
    var rest := Clean(lines[k + 1..], StartsCopy(lines[k]), [], hash);
    assert ([lines[k]] + rest)[1..] == rest;
  }

  /** One line inside a COPY block. */
  lemma CleanCopy(lines: seq<string>, k: nat, rows: seq<string>, hash: Hash)
    requires k < |lines|
    ensures Join(Clean(lines[k..], true, rows, hash)) ==
            if lines[k] == END_OF_COPY
            then Join(InsertionSort(rows, ByHash(hash))) + END_OF_COPY + "\n" + Join(Clean(lines[k + 1..], false, [], hash))
            else Join(Clean(lines[k + 1..], true, rows + [lines[k]], hash))
  {
    assert lines[k..][1..] == lines[k + 1..] && lines[k..][0] == lines[k];
    if lines[k] == END_OF_COPY {
      var sorted, rest := InsertionSort(rows, ByHash(hash)), Clean(lines[k + 1..], false, [], hash);
      assert sorted + [END_OF_COPY] + rest == sorted + ([END_OF_COPY] + rest);
      JoinConcat(sorted, [END_OF_COPY] + rest);
      assert ([END_OF_COPY] + rest)[1..] == rest;
    }
  }

  lemma RecordOne(dump: string, lines: seq<string>, k: nat, hash: Hash, rows: seq<string>, recs: seq<HashedLine>)
    requires k < |lines| && NoNewlines(lines) && dump == Join(lines) && Recorded(dump, hash, rows, recs)
    ensures Start(lines, k) <= |dump|
    ensures Recorded(dump, hash, rows + [lines[k]], recs + [HashedLine(hash(lines[k]), Start(lines, k))])
  {
    hide Join;
    SeekReadsLine(lines, k);
  }

  /** What the line loop has established before line `k`: the rest of the reference output
      follows what was written, and the open block's rows are on record. */
  ghost predicate Progress(lines: seq<string>, k: nat, hash: Hash, s: Scan, rows: seq<string>)
    requires k <= |lines|
  {
    && (!s.inCopy ==> rows == [] && s.recs == [])
    && Recorded(Join(lines), hash, rows, s.recs)
    && Join(Clean(lines, false, [], hash)) == s.out + Join(Clean(lines[k..], s.inCopy, rows, hash))
  }

  lemma PlainProgress(lines: seq<string>, k: nat, hash: Hash, s: Scan, s': Scan)
    requires k < |lines| && !s.inCopy && Progress(lines, k, hash, s, [])
    requires LineStep(Join(lines), hash, lines[k], Start(lines, k), s, s')
    ensures Progress(lines, k + 1, hash, s', [])
  {
    hide Clean, Skipped, StartsCopy, Join;
    CleanPlain(lines, k, hash);
  }

  lemma CopyProgress(lines: seq<string>, k: nat, hash: Hash, s: Scan, s': Scan, rows: seq<string>) returns (rows': seq<string>)
    requires k < |lines| && NoNewlines(lines) && Injective(hash) && s.inCopy && Progress(lines, k, hash, s, rows)
    requires LineStep(Join(lines), hash, lines[k], Start(lines, k), s, s')
    ensures Progress(lines, k + 1, hash, s', rows')
  {
    hide Clean, TakeLine, Join, Injective;
    CleanCopy(lines, k, rows, hash);
    if lines[k] == END_OF_COPY {
      var sorted :| SortedVersion(s.recs, sorted) && WithinFile(Join(lines), sorted) &&
                    s' == Scan(false, [], s.out + Join(ReadBack(Join(lines), sorted)) + END_OF_COPY + "\n");
      SeekSortIsSort(Join(lines), hash, rows, s.recs, sorted);
      rows' := [];
    } else {
      RecordOne(Join(lines), lines, k, hash, rows, s.recs);
      rows' := rows + [lines[k]];
    }
  }

  lemma {:induction false} ScannedProgress(lines: seq<string>, k: nat, hash: Hash, s: Scan) returns (rows: seq<string>)
    requires NoNewlines(lines) && NoCarriageReturns(lines) && Injective(hash)
    requires k <= |lines| && Scanned(Join(lines), hash, lines, k, s)
    ensures Progress(lines, k, hash, s, rows)
  {
    hide Progress, LineStep, Injective, Join, Clean;
    if k == 0 {
      ProgressStart(lines, hash);
      rows := [];
    } else {
      var s0 :| Scanned(Join(lines), hash, lines, k - 1, s0) &&
                LineStep(Join(lines), hash, DropCR(lines[k - 1]), Offset(lines, k - 1), s0, s);
      OffsetsExactly(lines, k - 1);
      rows := ScannedProgress(lines, k - 1, hash, s0);
      if s0.inCopy {
        rows := CopyProgress(lines, k - 1, hash, s0, s, rows);
      } else {
        ProgressClosed(lines, k - 1, hash, s0, rows);
        PlainProgress(lines, k - 1, hash, s0, s);
        rows := [];
      }
    }
  }

  lemma ProgressStart(lines: seq<string>, hash: Hash)
    ensures Progress(lines, 0, hash, START, [])
  {
    assert lines[0..] == lines;
  }

  lemma ProgressClosed(lines: seq<string>, k: nat, hash: Hash, s: Scan, rows: seq<string>)
    requires k <= |lines| && Progress(lines, k, hash, s, rows)
    ensures !s.inCopy ==> rows == []
  {
  }

  /** A dump without carriage returns has one sanitised file: the reference output. */
  lemma SanitizesClean(hash: Hash, lines: seq<string>, out: string)
    requires NoNewlines(lines) && NoCarriageReturns(lines) && Injective(hash) && Sanitizes(hash, lines, out)
    ensures out == Join(Clean(lines, false, [], hash))
  {
    hide Scanned, Injective;
    var s :| Scanned(Join(lines), hash, lines, |lines|, s) && s.out == out;
    var rows := ScannedProgress(lines, |lines|, hash, s);
    assert lines[|lines|..] == [];
  }

  // ---------------------------------------------------------------------
  // With one it may not
  // ---------------------------------------------------------------------

  const COPY_LINE := "COPY t FROM stdin;"

  /** A statement line that ends in a carriage return, before a COPY block with one row. */
  const CR_DUMP := ["X\r", COPY_LINE, "1", END_OF_COPY]

  /** The lines as the scanner delivers them. */
  const CR_SCANNED := ["X", COPY_LINE, "1", END_OF_COPY]

  lemma {:induction false} ContainsAt(line: string, part: string, i: nat)
    requires i <= |line| && part <= line[i..]
    ensures Contains(line, part)
  {
    if i == 0 {
      assert line[0..] == line;
    } else {
      assert line[1..][i - 1..] == line[i..];
      ContainsAt(line[1..], part, i - 1);
    }
  }

  lemma CopyLineStarts()
    ensures StartsCopy(COPY_LINE) && !Skipped(COPY_LINE) && !Skipped("X") && !StartsCopy("X")
  {
    hide Contains;
    assert COPY_LINE[7..] == "FROM stdin;";
    ContainsAt(COPY_LINE, "FROM stdin;", 7);
    assert !IsSpace(COPY_LINE[0]) && !IsSpace("X"[0]);
    NotSkipped(COPY_LINE, 'C', 'O');
    assert |"X"| == 1 && "X"[0] == 'X';
  }

  lemma NotSkipped(line: string, a: char, b: char)
    requires |line| > 2 && line[0] == a && line[1] == b && !IsSpace(a)
    requires a != '-' && a != 'S' && b != 'c' && (a == 'C' ==> b != 'R')
    ensures !Skipped(line)
  {
    assert "connect"[0] == 'c' && line[1..][0] == b;
    assert "CREATE DATABASE"[0] == 'C' && "CREATE DATABASE"[1] == 'R';
    assert "--"[0] == '-' && "SET"[0] == 'S' && "SELECT"[0] == 'S';
  }

  lemma DumpStart()
    ensures Start(CR_DUMP, 2) == |COPY_LINE| + 4 && Offset(CR_DUMP, 2) == |COPY_LINE| + 3
    ensures |COPY_LINE| + 3 < |Join(CR_DUMP)| && Join(CR_DUMP)[|COPY_LINE| + 3] == '\n'
  {
    var d := CR_DUMP;
    assert Start(d, 1) == 3 && Offset(d, 1) == 2 by { assert Start(d, 0) == 0 && Offset(d, 0) == 0; }
    assert DropCR(COPY_LINE) == COPY_LINE;
    assert d[1..] == [COPY_LINE, "1", END_OF_COPY];
    var rest := Join(d[1..][1..]);
    assert Join(d) == "X\r" + "\n" + (COPY_LINE + "\n" + rest);
  }

  /** Where the row "1" was recorded, the file has the newline before it. */
  lemma RowIsLost(recs: seq<HashedLine>, hash: Hash)
    requires recs == [HashedLine(hash("1"), |COPY_LINE| + 3)]
    ensures WithinFile(Join(CR_DUMP), recs) && Join(ReadBack(Join(CR_DUMP), recs)) == "\n"
  {
    hide Join;
    DumpStart();
    assert TakeLine(Join(CR_DUMP)[|COPY_LINE| + 3..]) == "";
    assert ReadBack(Join(CR_DUMP), recs) == [""];
    JoinEmptyLine();
  }

  lemma JoinEmptyLine()
    ensures Join([""]) == "\n"
  {
    assert [""][1..] == [];
  }

  function AfterLines(hash: Hash, k: nat): Scan
    requires k <= 4
  {
    var recs := [HashedLine(hash("1"), |COPY_LINE| + 3)];
    var out := "X\n" + COPY_LINE + "\n";
    if k == 0 then START
    else if k == 1 then Scan(false, [], "X\n")
    else if k == 2 then Scan(true, [], out)
    else if k == 3 then Scan(true, recs, out)
    else Scan(false, [], out + "\n" + END_OF_COPY + "\n")
  }

  lemma AfterLine(hash: Hash, k: nat, s: Scan)
    requires k < 4
    ensures LineStep(Join(CR_DUMP), hash, DropCR(CR_DUMP[k]), Offset(CR_DUMP, k), AfterLines(hash, k), s) <==>
            s == AfterLines(hash, k + 1)
  {
    hide Join, Contains, IsBlank, Skipped, StartsCopy, TakeLine, Offset;
    CopyLineStarts();
    assert DropCR("X\r") == "X" && DropCR(COPY_LINE) == COPY_LINE && DropCR("1") == "1" && DropCR(END_OF_COPY) == END_OF_COPY;
    assert "1" != END_OF_COPY;
    if k == 0 {
      assert "" + "X" + "\n" == "X\n";
    } else if k == 2 {
      DumpStart();
    } else if k == 3 {
      OnlySort(hash, s);
    }
  }

  lemma OnlySort(hash: Hash, s: Scan)
    ensures LineStep(Join(CR_DUMP), hash, END_OF_COPY, Offset(CR_DUMP, 3), AfterLines(hash, 3), s) <==>
            s == AfterLines(hash, 4)
  {
    hide Join, TakeLine, Offset;
    var recs := AfterLines(hash, 3).recs;
    RowIsLost(recs, hash);
    forall sorted ensures SortedVersion(recs, sorted) <==> sorted == recs {
      if SortedVersion(recs, sorted) {
        assert |multiset(sorted)| == |sorted| == 1;
        assert sorted[0] in multiset(recs);
      }
    }
    assert SortedVersion(recs, recs);
  }

  lemma {:induction false} OnlyScan(hash: Hash, k: nat, s: Scan)
    requires k <= 4
    ensures Scanned(Join(CR_DUMP), hash, CR_DUMP, k, s) <==> s == AfterLines(hash, k)
  {
    hide LineStep, Join, AfterLines;
    if k == 0 {
      assert AfterLines(hash, 0) == START by { NothingScanned(hash); }
    } else {
      var j: nat := k - 1;
      forall s0 ensures Scanned(Join(CR_DUMP), hash, CR_DUMP, j, s0) <==> s0 == AfterLines(hash, j) {
        OnlyScan(hash, j, s0);
      }
      AfterLine(hash, j, s);
      assert ScannedNext(Join(CR_DUMP), hash, CR_DUMP, j, s) <==> s == AfterLines(hash, k);
    }
  }

  lemma NothingScanned(hash: Hash)
    ensures AfterLines(hash, 0) == START
  {
  }

  /** The row is written as an empty line: the file differs from the reference output of the lines
      the scanner delivered, whatever the hash. */
  lemma CarriageReturnWitness(hash: Hash, out: string)
    ensures Sanitizes(hash, CR_DUMP, out) <==> out == "X\n" + COPY_LINE + "\n" + "\n" + END_OF_COPY + "\n"
    ensures Sanitizes(hash, CR_DUMP, out) ==> out != Join(Clean(CR_SCANNED, false, [], hash))
  {
    hide Scanned, LineStep, Contains, IsBlank, Skipped, StartsCopy;
    forall s ensures Scanned(Join(CR_DUMP), hash, CR_DUMP, 4, s) <==> s == AfterLines(hash, 4) {
      OnlyScan(hash, 4, s);
    }
    assert Scanned(Join(CR_DUMP), hash, CR_DUMP, 4, AfterLines(hash, 4));
    ReferenceLength(hash);
  }

  lemma ReferenceLength(hash: Hash)
    ensures |Join(Clean(CR_SCANNED, false, [], hash))| == |COPY_LINE| + 8
  {
    hide Contains, IsBlank, Skipped, StartsCopy, Clean, InsertionSort, Join;
    CopyLineStarts();
    var c := CR_SCANNED;
    assert c[0..] == c && c[4..] == [] && [] + ["1"] == ["1"] && "1" != END_OF_COPY;
    CleanPlain(c, 0, hash);
    CleanPlain(c, 1, hash);
    CleanCopy(c, 2, [], hash);
    CleanCopy(c, 3, ["1"], hash);
    OneRow(hash);
  }

  lemma OneRow(hash: Hash)
    ensures |Join(InsertionSort(["1"], ByHash(hash)))| == 2 && Join(Clean([], false, [], hash)) == ""
  {
    assert ["1"][1..] == [];
    assert InsertionSort(["1"], ByHash(hash)) == ["1"];
  }
}
