/** What survives a crash (InitChain, FinalizeBlock, Commit and NewAbciApp in
    internal/abci/abci.go, SetChainState in internal/abci/meta/meta.go).

    One outer database transaction is open at a time; it lives in memory until it commits. */
module ChainState {
  import opened Wrappers
  import opened TableModel

  /** An application hash: given bytes, or SHA-256 of the previous hash followed by the
      32-byte digest of a block's changes, modelled as injective. */
  datatype AppHash = Raw(bytes: Bytes) | Chained(prev: AppHash, change: Bytes)

  /** The dummy hash stored with a block's data. */
  const MARKER := Raw([0x42])

  /** A block whose data is stored, and the hash FinalizeBlock reported for it. */
  datatype BlockRow = BlockRow(height: int, change: Bytes, reported: AppHash)

  datatype ChainRow = ChainRow(height: int, hash: AppHash)

  /** The database: genesis data, block data, and the chain state row. */
  datatype Disk = Disk(genesis: bool, blocks: seq<BlockRow>, row: Option<ChainRow>)

  const FRESH := Disk(false, [], None)

  /** Everything, with the in-memory fields of AbciApp. `writing` is the gap inside Commit
      between storing the block's data and storing its hash. */
  datatype Node = Node(
    disk: Disk,
    genesisTx: Option<Disk>,
    consensusTx: Option<Disk>,
    appHash: AppHash,
    height: int,
    writing: bool)

  /** NewAbciApp: open transactions are gone and the hash starts from the genesis hash. */
  function Started(disk: Disk, genesisHash: AppHash): Node
  {
    Node(disk, None, None, genesisHash, 0, false)
  }

  datatype Call = InitChain | FinalizeBlock(height: int, change: Bytes) | CommitData | CommitHash | Crash

  /** The handshake lets blocks through only on a database whose stored hash is a real one;
      on an empty database it calls InitChain first. */
  predicate Resumable(disk: Disk)
  {
    disk.row.Some? && disk.row.value.hash != MARKER
  }

  function Executed(d: Disk, height: int, change: Bytes, reported: AppHash): Disk
  {
    Disk(d.genesis, d.blocks + [BlockRow(height, change, reported)], Some(ChainRow(height, MARKER)))
  }

  /** The call ends the process: a crash, or an error that CometBFT answers by stopping. */
  predicate Restarts(n: Node, c: Call)
  {
    match c
    case InitChain => n.genesisTx.Some? || n.consensusTx.Some? || n.writing || n.disk.row.Some?
    case FinalizeBlock(_, _) => n.consensusTx.Some? || n.writing
    case CommitData => n.consensusTx.None?
    case CommitHash => false
    case Crash => true
  }

  /** One call, or a crash. */
  function After(n: Node, genesisHash: AppHash, c: Call): Node
  {
    if Restarts(n, c) then Started(n.disk, genesisHash)
    else
      match c
      case InitChain => n.(genesisTx := Some(n.disk.(genesis := true)))
      case FinalizeBlock(height, change) =>
        var reported := Chained(n.appHash, change);
        if n.genesisTx.Some? then
          n.(genesisTx := None, consensusTx := Some(Executed(n.genesisTx.value, height, change, reported)),
             appHash := reported, height := height)
        else if Resumable(n.disk) then
          n.(consensusTx := Some(Executed(n.disk, height, change, reported)), appHash := reported, height := height)
        else n
      case CommitData => n.(disk := n.consensusTx.value, consensusTx := None, writing := true)
      case CommitHash =>
        if n.writing then n.(disk := n.disk.(row := Some(ChainRow(n.height, n.appHash))), writing := false) else n
      case Crash => n
  }

  function Run(n: Node, genesisHash: AppHash, calls: seq<Call>): Node
  {
    if calls == [] then n else After(Run(n, genesisHash, calls[..|calls| - 1]), genesisHash, calls[|calls| - 1])
  }

  // ---------------------------------------------------------------------
  // The code
  // ---------------------------------------------------------------------

  class AbciApp {
    var disk: Disk
    var genesisTx: Option<Disk>
    var consensusTx: Option<Disk>
    var appHash: AppHash
    var height: int
    ghost var writing: bool

    ghost function State(): Node
      reads this
    {
      Node(disk, genesisTx, consensusTx, appHash, height, writing)
    }

    constructor (d: Disk, genesisHash: AppHash)
      ensures State() == Started(d, genesisHash)
    {
      disk, genesisTx, consensusTx, appHash, height, writing := d, None, None, genesisHash, 0, false;
    }

    method InitChainCall() returns (ok: bool)
      requires genesisTx.None? && consensusTx.None? && !writing
      modifies this
      ensures ok <==> old(disk).row.None?
      ensures ok ==> forall g :: State() == After(old(State()), g, InitChain)
      ensures disk == old(disk)
    {
      genesisTx := Some(disk);
      if disk.row.Some? { return false; }
      genesisTx := Some(genesisTx.value.(genesis := true));
      return true;
    }

    /** `change` is the digest Precommit computes for the block's changes. */
    method FinalizeBlockCall(h: int, change: Bytes) returns (reported: AppHash)
      requires consensusTx.None? && !writing && (genesisTx.Some? || Resumable(disk))
      modifies this
      ensures forall g :: State() == After(old(State()), g, FinalizeBlock(h, change))
      ensures disk == old(disk) && reported == appHash
    {
      if genesisTx.Some? {
        consensusTx, genesisTx := genesisTx, None;
      } else {
        consensusTx := Some(disk);
      }
      reported := Chained(appHash, change);
      consensusTx := Some(Executed(consensusTx.value, h, change, reported));
      appHash := reported;
      height := h;
    }

    /** Commit as a whole: the block's data, then its hash. */
    method Commit()
      requires consensusTx.Some? && !writing
      modifies this
      ensures forall g :: State() == After(After(old(State()), g, CommitData), g, CommitHash)
    {
      disk, consensusTx := consensusTx.value, None;
      var tx := disk.(row := Some(ChainRow(height, appHash)));
      disk := tx;
    }
  }

  // ---------------------------------------------------------------------
  // Crash safety
  // ---------------------------------------------------------------------

  /** Stored data and recorded height agree; the recorded hash is the reported one or the marker. */
  ghost predicate Agrees(d: Disk)
  {
    match d.row
    case None => d == FRESH
    case Some(row) =>
      && d.genesis && d.blocks != []
      && var last := d.blocks[|d.blocks| - 1];
         row.height == last.height && (row.hash == last.reported || row.hash == MARKER)
  }

  ghost predicate Coherent(n: Node)
  {
    && Agrees(n.disk)
    && (n.genesisTx.Some? ==> n.disk == FRESH && n.genesisTx.value == FRESH.(genesis := true) && n.consensusTx.None?)
    && (n.consensusTx.Some? ==> Pending(n, n.consensusTx.value))
    && (n.writing ==> n.consensusTx.None? && n.genesisTx.None? && Pending(n, n.disk))
  }

  /** A block's data, stored or about to be, with the marker in place of its hash. */
  ghost predicate Pending(n: Node, d: Disk)
  {
    && d.genesis && d.blocks != []
    && d.blocks[|d.blocks| - 1].height == n.height && d.blocks[|d.blocks| - 1].reported == n.appHash
    && d.row == Some(ChainRow(n.height, MARKER)) && n.appHash.Chained?
  }

  lemma CallCoherent(n: Node, genesisHash: AppHash, c: Call)
    requires Coherent(n)
    ensures Coherent(After(n, genesisHash, c))
  {
  }

  /** Wherever the run crashes, what is on disk agrees with itself. */
  lemma {:induction false} RunCoherent(genesisHash: AppHash, calls: seq<Call>)
    ensures Coherent(Run(Started(FRESH, genesisHash), genesisHash, calls))
    ensures Agrees(Run(Started(FRESH, genesisHash), genesisHash, calls + [Crash]).disk)
  {
    hide After, Agrees;
    var start := Started(FRESH, genesisHash);
    assert Coherent(start) by { StartCoherent(genesisHash); }
    if calls != [] {
      RunCoherent(genesisHash, calls[..|calls| - 1]);
      CallCoherent(Run(start, genesisHash, calls[..|calls| - 1]), genesisHash, calls[|calls| - 1]);
    }
    assert (calls + [Crash])[..|calls|] == calls;
    CallCoherent(Run(start, genesisHash, calls), genesisHash, Crash);
  }

  lemma StartCoherent(genesisHash: AppHash)
    ensures Coherent(Started(FRESH, genesisHash))
  {
  }

  /** Until a first Commit stores a block the database stays uninitialised, so a crash between
      InitChain and the first Commit can be recovered by InitChain again. */
  lemma {:induction false} UninitialisedUntilCommit(genesisHash: AppHash, calls: seq<Call>)
    requires CommitData !in calls
    ensures Run(Started(FRESH, genesisHash), genesisHash, calls).disk == FRESH
  {
    if calls != [] {
      var front := calls[..|calls| - 1];
      assert calls == front + [calls[|calls| - 1]];
      UninitialisedUntilCommit(genesisHash, front);
      RunCoherent(genesisHash, front);
    }
  }

  // ---------------------------------------------------------------------
  // Restarts
  // ---------------------------------------------------------------------

  /** The node before call `k` of a run from an empty database. */
  function Before(genesisHash: AppHash, calls: seq<Call>, k: nat): Node
    requires k <= |calls|
  {
    Run(Started(FRESH, genesisHash), genesisHash, calls[..k])
  }

  lemma BeforeFront(genesisHash: AppHash, calls: seq<Call>, k: nat)
    requires calls != [] && k < |calls|
    ensures Before(genesisHash, calls[..|calls| - 1], k) == Before(genesisHash, calls, k)
  {
    assert calls[..|calls| - 1][..k] == calls[..k];
  }

  // ---------------------------------------------------------------------
  // Recovery
  // ---------------------------------------------------------------------

  ghost predicate Recoverable(d: Disk)
  {
    d == FRESH || Resumable(d)
  }

  /** Some restart fell between the two writes of Commit. */
  ghost predicate TornCommit(genesisHash: AppHash, calls: seq<Call>)
  {
    exists k :: 0 <= k < |calls| && Before(genesisHash, calls, k).writing && Restarts(Before(genesisHash, calls, k), calls[k])
  }

  lemma {:induction false} TornCommitStep(genesisHash: AppHash, calls: seq<Call>)
    requires calls != []
    ensures var front, n := calls[..|calls| - 1], Before(genesisHash, calls, |calls| - 1);
            TornCommit(genesisHash, calls) <==> TornCommit(genesisHash, front) || (n.writing && Restarts(n, calls[|calls| - 1]))
  {
    hide Run;
    var front := calls[..|calls| - 1];
    forall k | 0 <= k < |front| ensures Before(genesisHash, front, k) == Before(genesisHash, calls, k) && front[k] == calls[k] {
      BeforeFront(genesisHash, calls, k);
    }
    if TornCommit(genesisHash, calls) {
      var k :| 0 <= k < |calls| && Before(genesisHash, calls, k).writing && Restarts(Before(genesisHash, calls, k), calls[k]);
      assert k < |front| ==> Before(genesisHash, front, k).writing;
    }
    if TornCommit(genesisHash, front) {
      var k :| 0 <= k < |front| && Before(genesisHash, front, k).writing && Restarts(Before(genesisHash, front, k), front[k]);
      assert Before(genesisHash, calls, k).writing;
    }
  }

  /** What a node and its past have to do with each other: `torn` says whether some restart fell
      between the two writes of a Commit. After that no block is executed any more. */
  ghost predicate Settled(n: Node, torn: bool)
  {
    && (n.consensusTx.Some? || n.writing ==> !torn)
    && (Recoverable(n.disk) <==> !n.writing && !torn)
  }

  lemma CallSettled(n: Node, genesisHash: AppHash, c: Call, torn: bool)
    requires Coherent(n) && Settled(n, torn)
    ensures Settled(After(n, genesisHash, c), torn || (n.writing && Restarts(n, c)))
  {
  }

  /** The database is empty or carries a real hash, so that the handshake can go on from it, if
      and only if no restart ever fell between the two writes of a Commit and the node is not
      between them now. */
  lemma {:induction false} RecoverableExactly(genesisHash: AppHash, calls: seq<Call>)
    ensures var n := Before(genesisHash, calls, |calls|);
            && (n.consensusTx.Some? || n.writing ==> !TornCommit(genesisHash, calls))
            && (Recoverable(n.disk) <==> !n.writing && !TornCommit(genesisHash, calls))
  {
    hide After, Coherent, Recoverable, Restarts, TornCommit;
    assert calls[..|calls|] == calls;
    if calls == [] {
      NothingTorn(genesisHash);
    } else {
      var front, last := calls[..|calls| - 1], calls[|calls| - 1];
      RecoverableExactly(genesisHash, front);
      RunCoherent(genesisHash, front);
      assert front[..|front|] == front;
      TornCommitStep(genesisHash, calls);
      CallSettled(Before(genesisHash, front, |front|), genesisHash, last, TornCommit(genesisHash, front));
    }
  }

  lemma NothingTorn(genesisHash: AppHash)
    ensures Recoverable(FRESH) && !TornCommit(genesisHash, [])
  {
  }

  // ---------------------------------------------------------------------
  // The hash chain
  // ---------------------------------------------------------------------

  /** The hash of a chain of blocks. */
  function ChainHash(genesisHash: AppHash, changes: seq<Bytes>): AppHash
  {
    if changes == [] then genesisHash
    else Chained(ChainHash(genesisHash, changes[..|changes| - 1]), changes[|changes| - 1])
  }

  function Changes(blocks: seq<BlockRow>): (r: seq<Bytes>)
    ensures |r| == |blocks|
  {
    seq(|blocks|, i requires 0 <= i < |blocks| => blocks[i].change)
  }

  function Depth(h: AppHash): nat
  {
    match h
    case Raw(_) => 0
    case Chained(prev, _) => 1 + Depth(prev)
  }

  lemma {:induction false} ChainDepth(genesisHash: AppHash, changes: seq<Bytes>)
    ensures Depth(ChainHash(genesisHash, changes)) == Depth(genesisHash) + |changes|
  {
    if changes != [] {
      ChainDepth(genesisHash, changes[..|changes| - 1]);
    }
  }

  lemma ChainNext(genesisHash: AppHash, changes: seq<Bytes>, change: Bytes)
    ensures ChainHash(genesisHash, changes + [change]) == Chained(ChainHash(genesisHash, changes), change)
  {
    assert (changes + [change])[..|changes|] == changes;
  }

  /** The number of blocks that were stored when the node last started. */
  function Since(genesisHash: AppHash, calls: seq<Call>): nat
  {
    if calls == [] then 0
    else
      var n := Before(genesisHash, calls, |calls| - 1);
      if Restarts(n, calls[|calls| - 1]) then |n.disk.blocks| else Since(genesisHash, calls[..|calls| - 1])
  }

  /** The blocks of the transaction under way, or else those stored. */
  function Current(n: Node): seq<BlockRow>
  {
    if n.consensusTx.Some? then n.consensusTx.value.blocks else n.disk.blocks
  }

  /** The node carries the hash of the blocks since it started. */
  ghost predicate Carries(n: Node, genesisHash: AppHash, since: nat)
  {
    && since <= |n.disk.blocks|
    && (n.consensusTx.Some? ==> |n.disk.blocks| < |n.consensusTx.value.blocks|)
    && n.appHash == ChainHash(genesisHash, Changes(Current(n)[since..]))
  }

  lemma NewBlock(genesisHash: AppHash, blocks: seq<BlockRow>, since: nat, row: BlockRow)
    requires since <= |blocks|
    ensures ChainHash(genesisHash, Changes((blocks + [row])[since..])) ==
            Chained(ChainHash(genesisHash, Changes(blocks[since..])), row.change)
  {
    assert Changes((blocks + [row])[since..]) == Changes(blocks[since..]) + [row.change];
    ChainNext(genesisHash, Changes(blocks[since..]), row.change);
  }

  lemma NoBlocks(genesisHash: AppHash, blocks: seq<BlockRow>)
    ensures ChainHash(genesisHash, Changes(blocks[|blocks|..])) == genesisHash
  {
  }

  lemma CallCarries(n: Node, genesisHash: AppHash, c: Call, since: nat)
    requires Coherent(n) && Carries(n, genesisHash, since)
    ensures Carries(After(n, genesisHash, c), genesisHash, if Restarts(n, c) then |n.disk.blocks| else since)
  {
    hide ChainHash, Agrees, Pending;
    NoBlocks(genesisHash, n.disk.blocks);
    if c.FinalizeBlock? {
      NewBlock(genesisHash, n.disk.blocks, since, BlockRow(c.height, c.change, Chained(n.appHash, c.change)));
    }
  }

  /** Over every run, crashes anywhere included: the field a node carries covers exactly the
      blocks since it last started. */
  lemma {:induction false} CarriedHash(genesisHash: AppHash, calls: seq<Call>)
    ensures Carries(Before(genesisHash, calls, |calls|), genesisHash, Since(genesisHash, calls))
  {
    hide After, Coherent, Restarts, Carries;
    assert calls[..|calls|] == calls;
    if calls == [] {
      StartCarries(genesisHash);
    } else {
      var front, last := calls[..|calls| - 1], calls[|calls| - 1];
      assert front[..|front|] == front;
      CarriedHash(genesisHash, front);
      RunCoherent(genesisHash, front);
      CallCarries(Before(genesisHash, front, |front|), genesisHash, last, Since(genesisHash, front));
    }
  }

  lemma StartCarries(genesisHash: AppHash)
    ensures Carries(Started(FRESH, genesisHash), genesisHash, 0)
  {
  }

  /** Some restart happened while blocks were stored. */
  ghost predicate LostHash(genesisHash: AppHash, calls: seq<Call>)
  {
    exists k :: 0 <= k < |calls| && Before(genesisHash, calls, k).disk.blocks != [] &&
                Restarts(Before(genesisHash, calls, k), calls[k])
  }

  lemma LostHashStep(genesisHash: AppHash, calls: seq<Call>)
    requires calls != []
    ensures var front, n := calls[..|calls| - 1], Before(genesisHash, calls, |calls| - 1);
            LostHash(genesisHash, calls) <==>
              LostHash(genesisHash, front) || (n.disk.blocks != [] && Restarts(n, calls[|calls| - 1]))
  {
    hide Run, Restarts;
    var front := calls[..|calls| - 1];
    forall k | 0 <= k < |front| ensures Before(genesisHash, front, k) == Before(genesisHash, calls, k) && front[k] == calls[k] {
      BeforeFront(genesisHash, calls, k);
    }
    if LostHash(genesisHash, calls) {
      var k :| 0 <= k < |calls| && Before(genesisHash, calls, k).disk.blocks != [] && Restarts(Before(genesisHash, calls, k), calls[k]);
      assert k < |front| ==> Before(genesisHash, front, k).disk.blocks != [];
    }
    if LostHash(genesisHash, front) {
      var k :| 0 <= k < |front| && Before(genesisHash, front, k).disk.blocks != [] && Restarts(Before(genesisHash, front, k), front[k]);
      assert Before(genesisHash, calls, k).disk.blocks != [];
    }
  }

  lemma {:induction false} SinceGenesisExactly(genesisHash: AppHash, calls: seq<Call>)
    ensures Since(genesisHash, calls) == 0 <==> !LostHash(genesisHash, calls)
  {
    hide Run, Restarts, LostHash;
    if calls == [] {
      NothingLost(genesisHash);
    } else {
      var front := calls[..|calls| - 1];
      SinceGenesisExactly(genesisHash, front);
      CarriedHash(genesisHash, front);
      assert front[..|front|] == front;
      LostHashStep(genesisHash, calls);
    }
  }

  lemma NothingLost(genesisHash: AppHash)
    ensures !LostHash(genesisHash, [])
  {
  }

  /** Over every run: when a block is executed, the hash reported for it is that of the whole
      chain if and only if the node never restarted while blocks were stored. NewAbciApp does
      not read the stored hash back. */
  lemma NextHashExactly(genesisHash: AppHash, calls: seq<Call>, height: int, change: Bytes)
    ensures var n := Before(genesisHash, calls, |calls|);
            var next := After(n, genesisHash, FinalizeBlock(height, change));
            n.consensusTx.None? && next.consensusTx.Some? ==>
              && Current(next) == n.disk.blocks + [BlockRow(height, change, next.appHash)]
              && (next.appHash == ChainHash(genesisHash, Changes(Current(next))) <==> !LostHash(genesisHash, calls))
  {
    hide Run, ChainHash, LostHash, Since;
    var n := Before(genesisHash, calls, |calls|);
    var next := After(n, genesisHash, FinalizeBlock(height, change));
    if n.consensusTx.None? && next.consensusTx.Some? {
      assert calls[..|calls|] == calls;
      CarriedHash(genesisHash, calls);
      RunCoherent(genesisHash, calls);
      SinceGenesisExactly(genesisHash, calls);
      var since, blocks := Since(genesisHash, calls), n.disk.blocks;
      assert blocks[0..] == blocks;
      NewBlock(genesisHash, blocks, 0, BlockRow(height, change, next.appHash));
      assert Current(next)[0..] == Current(next);
      ChainDepth(genesisHash, Changes(blocks[since..]));
      ChainDepth(genesisHash, Changes(blocks));
    }
  }

  /** The calls of a node that runs without interruption. */
  function Smooth(blocks: seq<(int, Bytes)>): seq<Call>
  {
    if blocks == [] then [InitChain]
    else
      var last := blocks[|blocks| - 1];
      Smooth(blocks[..|blocks| - 1]) + [FinalizeBlock(last.0, last.1)] + [CommitData] + [CommitHash]
  }

  lemma RunMore(n: Node, genesisHash: AppHash, calls: seq<Call>, c: Call)
    ensures Run(n, genesisHash, calls + [c]) == After(Run(n, genesisHash, calls), genesisHash, c)
  {
    assert (calls + [c])[..|calls|] == calls;
  }

  /** Between two blocks of an uninterrupted run: everything is stored, the last height with the
      hash of the whole chain, and nothing is open; before the first block only genesis is. */
  ghost predicate AtRest(n: Node, genesisHash: AppHash, blocks: seq<(int, Bytes)>)
  {
    && n.consensusTx.None? && !n.writing && |n.disk.blocks| == |blocks|
    && (forall i :: 0 <= i < |blocks| ==> n.disk.blocks[i].height == blocks[i].0 && n.disk.blocks[i].change == blocks[i].1)
    && n.appHash == ChainHash(genesisHash, seq(|blocks|, i requires 0 <= i < |blocks| => blocks[i].1))
    && (if blocks == [] then n.disk == FRESH && n.genesisTx == Some(FRESH.(genesis := true))
        else && n.genesisTx.None? && n.disk.genesis && n.appHash.Chained?
             && n.disk.row == Some(ChainRow(blocks[|blocks| - 1].0, n.appHash)))
  }

  lemma NextAtRest(n: Node, genesisHash: AppHash, blocks: seq<(int, Bytes)>, height: int, change: Bytes)
    requires AtRest(n, genesisHash, blocks)
    ensures var a := After(n, genesisHash, FinalizeBlock(height, change));
            var b := After(a, genesisHash, CommitData);
            AtRest(After(b, genesisHash, CommitHash), genesisHash, blocks + [(height, change)])
  {
    var all := blocks + [(height, change)];
    var before, after := seq(|blocks|, i requires 0 <= i < |blocks| => blocks[i].1), seq(|all|, i requires 0 <= i < |all| => all[i].1);
    assert after == before + [change];
    ChainNext(genesisHash, before, change);
  }

  lemma {:induction false} SmoothRun(genesisHash: AppHash, blocks: seq<(int, Bytes)>)
    ensures AtRest(Run(Started(FRESH, genesisHash), genesisHash, Smooth(blocks)), genesisHash, blocks)
  {
    hide AtRest;
    var start := Started(FRESH, genesisHash);
    if blocks == [] {
      OnlyGenesis(genesisHash);
    } else {
      var front, last := blocks[..|blocks| - 1], blocks[|blocks| - 1];
      var calls := Smooth(front);
      SmoothRun(genesisHash, front);
      hide Run, After;
      NextAtRest(Run(start, genesisHash, calls), genesisHash, front, last.0, last.1);
      RunMore(start, genesisHash, calls, FinalizeBlock(last.0, last.1));
      RunMore(start, genesisHash, calls + [FinalizeBlock(last.0, last.1)], CommitData);
      RunMore(start, genesisHash, calls + [FinalizeBlock(last.0, last.1)] + [CommitData], CommitHash);
      assert front + [(last.0, last.1)] == blocks;
    }
  }

  lemma OnlyGenesis(genesisHash: AppHash)
    ensures AtRest(Run(Started(FRESH, genesisHash), genesisHash, [InitChain]), genesisHash, [])
  {
    assert [InitChain][..0] == [];
    assert Run(Started(FRESH, genesisHash), genesisHash, []) == Started(FRESH, genesisHash);
  }

  /** One block, a crash, and the second block: its hash starts again from genesis. */
  lemma RestartWitness(genesisHash: AppHash, a: Bytes, b: Bytes)
    ensures var calls := [InitChain, FinalizeBlock(1, a), CommitData, CommitHash, Crash];
            var next := After(Run(Started(FRESH, genesisHash), genesisHash, calls), genesisHash, FinalizeBlock(2, b));
            && next.consensusTx.Some? && Changes(Current(next)) == [a, b]
            && next.appHash == Chained(genesisHash, b) != ChainHash(genesisHash, [a, b])
  {
    var c := [InitChain, FinalizeBlock(1, a), CommitData, CommitHash, Crash];
    var s := Started(FRESH, genesisHash);
    assert c[..4][..3] == c[..3] && c[..3][..2] == c[..2] && c[..2][..1] == c[..1] && c[..1][..0] == [];
    assert Run(s, genesisHash, c[..1]) == After(s, genesisHash, InitChain);
    assert Run(s, genesisHash, c[..2]).consensusTx.Some?;
    assert Run(s, genesisHash, c[..3]).disk.blocks == [BlockRow(1, a, Chained(genesisHash, a))];
    assert Resumable(Run(s, genesisHash, c[..4]).disk);
    ChainDepth(genesisHash, [a, b]);
  }

  /** A crash before the first Commit loses nothing: the next block's hash is still right. */
  lemma EarlyCrashHarmless(genesisHash: AppHash, a: Bytes)
    ensures !LostHash(genesisHash, [InitChain, FinalizeBlock(1, a), Crash, InitChain])
  {
    hide LostHash;
    var c := [InitChain, FinalizeBlock(1, a), Crash, InitChain];
    assert c[..3][..2] == c[..2] && c[..2][..1] == c[..1] && c[..1][..0] == [];
    UninitialisedUntilCommit(genesisHash, c[..3]);
    UninitialisedUntilCommit(genesisHash, c[..2]);
    LostHashStep(genesisHash, c);
    LostHashStep(genesisHash, c[..3]);
    LostHashStep(genesisHash, c[..2]);
    LostHashStep(genesisHash, c[..1]);
    NothingLost(genesisHash);
  }
}
