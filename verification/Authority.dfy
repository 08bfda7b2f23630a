/** In whose name things happen: a balance, a nonce or a vote moves only through a transaction of
    its owner that the proposal check has let through (ProcessProposal in internal/abci/abci.go,
    the routes of internal/txapp/routes.go). */
module Authority {
  import opened TableModel
  import opened Accounts
  import opened Voting
  import opened Routes
  import opened Execution
  import opened RouteEffects
  import opened Proposal
  import opened ProcessVotes
  import opened VoteStep
  import opened Runs

  // ---------------------------------------------------------------------
  // One transaction
  // ---------------------------------------------------------------------

  /** No nonce moved, and no balance fell. */
  ghost predicate Spared(l: Ledger, l': Ledger, id: Bytes)
  {
    NonceOf(l', id) == NonceOf(l, id) && BalanceOf(l', id) >= BalanceOf(l, id)
  }

  lemma TxSpares(t: Tables, ctx: Context, tx: Tx, id: Bytes)
    requires NonNegative(t.accounts) && id != tx.sender
    ensures Spared(t.accounts, Executed(t, ctx, tx).accounts, id)
  {
    if !tx.payload.Unrouted? {
      hide Charged, Executed, Succeeds, Transferred;
      ExecutedShape(t, ctx, tx);
      ChargeExactly(t.accounts, ctx.gas, tx);
      if Succeeds(t, ctx, tx) && tx.payload.Transfer? && tx.payload.amount.Some? {
        TransferSpares(Charged(t.accounts, ctx.gas, tx).accounts, tx.sender, tx.payload.to, tx.payload.amount.value, id);
      }
    }
  }

  lemma TransferSpares(l: Ledger, from: Bytes, to: Bytes, amt: int, id: Bytes)
    requires Transferred(l, from, to, amt).Ok? && id != from
    ensures Spared(l, Transferred(l, from, to, amt).value, id)
  {
  }

  /** The transaction is a vote for this resolution. */
  ghost predicate Casts(t: Tables, tx: Tx, id: UUID)
  {
    match tx.payload
    case Approve(candidate) => OnlyRequest(t, candidate, id)
    case Remove(target) => id == EventID(RemoveEvent(target))
    case VoteIDs(ids) => id in ids
    case VoteBodies(events) => id in Mentioned(events)
    case _ => false
  }

  /** The transaction opens this resolution. */
  ghost predicate Opens(ctx: Context, tx: Tx, id: UUID)
  {
    match tx.payload
    case Join(power) => id == EventID(JoinEvent(tx.sender, power))
    case Remove(target) => id == EventID(RemoveEvent(target))
    case VoteBodies(events) => id in Mentioned(events) && tx.sender == ctx.proposer
    case _ => false
  }

  lemma TransferVotes(t: Tables, ctx: Context, tx: Tx)
    requires NonNegative(t.accounts) && tx.payload.Transfer?
    ensures var u := Executed(t, ctx, tx); u == t.(accounts := u.accounts)
  {
    hide Charged, Transferred;
  }

  /** A new vote is the sender's own, for what its transaction votes for; a new resolution is one
      its transaction opens. */
  lemma TxVotes(t: Tables, ctx: Context, tx: Tx)
    requires NonNegative(t.accounts)
    ensures forall v :: v in Executed(t, ctx, tx).votes && v !in t.votes ==>
              v.1 == tx.sender && Succeeds(t, ctx, tx) && Casts(t, tx, v.0)
    ensures forall id :: id in Executed(t, ctx, tx).resolutions && id !in t.resolutions ==>
              Succeeds(t, ctx, tx) && Opens(ctx, tx, id)
  {
    if Succeeds(t, ctx, tx) {
      hide Executed, Succeeds, Charged, EventID, JoinEvent, RemoveEvent, Mentioned, OnlyRequest, PaysInFull, NewRow, IsRequest;
      match tx.payload
      case Transfer(to, amt) => TransferVotes(t, ctx, tx);
      case Join(power) => JoinExactly(t, ctx, tx, power);
      case Approve(candidate) => ApproveExactly(t, ctx, tx, candidate);
      case Remove(target) => RemoveExactly(t, ctx, tx, target);
      case Leave => LeaveExactly(t, ctx, tx);
      case VoteIDs(ids) => VoteIDsExactly(t, ctx, tx, ids);
      case VoteBodies(events) => VoteBodiesExactly(t, ctx, tx, events);
      case _ => OthersExactly(t, ctx, tx);
    }
  }

  // ---------------------------------------------------------------------
  // The vote step
  // ---------------------------------------------------------------------

  lemma {:induction false} ResolvedSpares(t: Tables, conf: seq<UUID>, ext: Extensions, id: Bytes)
    requires NonNegative(t.accounts) && forall x :: x in conf ==> x in t.resolutions
    ensures Spared(t.accounts, ResolvedAll(t, conf, ext).accounts, id)
  {
    if conf != [] {
      ResolvedSpares(t, conf[..|conf| - 1], ext, id);
    }
  }

  lemma StepSpares(t: Tables, reg: Registry, gas: bool, y: Tally, id: Bytes)
    requires TallyReady(t, reg, y)
    ensures Spared(t.accounts, Processed(t, reg, gas, y).accounts, id)
  {
    hide ResolvedAll, AllCredits, IsConfirmed, AllMarked;
    ResolvedSpares(t, y.conf, y.ext, id);
    CreditsNonNegative(t, reg, y);
    CreditsSpare(Resolved(t, y).accounts, AllCredits(t, reg, y), id);
  }

  lemma CreditsSpare(l: Ledger, credits: Credits, id: Bytes)
    requires AllNonNegative(credits)
    ensures Spared(l, CreditedAll(l, credits), id)
  {
  }

  // ---------------------------------------------------------------------
  // A block
  // ---------------------------------------------------------------------

  /** The transaction is signed, and for this chain or for none in particular. */
  predicate Authorised(tx: Tx, chainID: string)
  {
    tx.signed && (tx.chainID == "" || tx.chainID == chainID)
  }

  lemma {:induction false} DeliveredSpares(t: Tables, chain: Chain, b: Block, n: nat, id: Bytes)
    requires NonNegative(t.accounts) && Punished(t, b.punish).Some? && n <= |b.txs|
    requires forall i :: 0 <= i < n ==> b.txs[i].sender != id
    ensures Spared(t.accounts, Delivered(t, chain, b, n).accounts, id)
  {
    hide Executed, Punished;
    if n == 0 {
      assert b.txs[..0] == [];
      PunishedAccounts(t, b.punish);
    } else {
      DeliveredSpares(t, chain, b, n - 1, id);
      DeliveredStep(t, chain, b, n);
      TxSpares(Delivered(t, chain, b, n - 1), ContextOf(chain, b), b.txs[n - 1], id);
    }
  }

  /** In a block that the proposal check accepted, a nonce moves or a balance falls only through a
      transaction that its owner signed for this chain or for none in particular. */
  lemma AcceptedBlockSpares(t: Tables, chain: Chain, b: Block, chainID: string, id: Bytes)
    requires Executable(t, chain, b) && BlockAccepted(t.accounts, b.txs, chainID, b.proposer)
    ensures var u := AfterBlock(t, chain, b);
            NonceOf(u.accounts, id) != NonceOf(t.accounts, id) || BalanceOf(u.accounts, id) < BalanceOf(t.accounts, id) ==>
              exists i :: 0 <= i < |b.txs| && b.txs[i].sender == id && Authorised(b.txs[i], chainID)
  {
    hide Delivered, Processed, Punished, TallyReady, Markable, NoncesFollow;
    if forall i :: 0 <= i < |b.txs| ==> b.txs[i].sender != id {
      DeliveredSpares(t, chain, b, |b.txs|, id);
      StepSpares(Delivered(t, chain, b, |b.txs|), chain.reg, chain.gas, TallyOf(b), id);
    } else {
      var i :| 0 <= i < |b.txs| && b.txs[i].sender == id;
      AcceptedFields(t.accounts, b.txs, chainID, b.proposer);
      assert Authorised(b.txs[i], chainID);
    }
  }

  /** Transaction `i` of the block casts this vote. */
  ghost predicate CastAt(t: Tables, chain: Chain, b: Block, i: nat, v: (UUID, Bytes))
    requires NonNegative(t.accounts) && Punished(t, b.punish).Some? && i < |b.txs|
  {
    var d := Delivered(t, chain, b, i);
    b.txs[i].sender == v.1 && Succeeds(d, ContextOf(chain, b), b.txs[i]) && Casts(d, b.txs[i], v.0)
  }

  ghost predicate OpenedAt(t: Tables, chain: Chain, b: Block, i: nat, id: UUID)
    requires NonNegative(t.accounts) && Punished(t, b.punish).Some? && i < |b.txs|
  {
    Succeeds(Delivered(t, chain, b, i), ContextOf(chain, b), b.txs[i]) && Opens(ContextOf(chain, b), b.txs[i], id)
  }

  lemma {:induction false} PunishedVotes(t: Tables, punish: seq<(Bytes, int)>)
    requires Punished(t, punish).Some?
    ensures Punished(t, punish).value.votes <= t.votes
  {
    if punish != [] {
      PunishedVotes(t, punish[..|punish| - 1]);
    }
  }

  lemma {:induction false} DeliveredVote(t: Tables, chain: Chain, b: Block, n: nat, v: (UUID, Bytes))
    requires NonNegative(t.accounts) && Punished(t, b.punish).Some? && n <= |b.txs|
    requires v in Delivered(t, chain, b, n).votes && v !in t.votes
    ensures exists i :: 0 <= i < n && CastAt(t, chain, b, i, v)
  {
    hide Executed, Punished, Succeeds, Casts, Opens;
    if n == 0 {
      assert b.txs[..0] == [];
      PunishedVotes(t, b.punish);
    } else {
      DeliveredStep(t, chain, b, n);
      var i: nat := n - 1;
      if v in Delivered(t, chain, b, i).votes {
        DeliveredVote(t, chain, b, i, v);
      } else {
        TxVotes(Delivered(t, chain, b, i), ContextOf(chain, b), b.txs[i]);
        assert CastAt(t, chain, b, i, v);
      }
    }
  }

  lemma {:induction false} DeliveredResolution(t: Tables, chain: Chain, b: Block, n: nat, id: UUID)
    requires NonNegative(t.accounts) && Punished(t, b.punish).Some? && n <= |b.txs|
    requires id in Delivered(t, chain, b, n).resolutions && id !in t.resolutions
    ensures exists i :: 0 <= i < n && OpenedAt(t, chain, b, i, id)
  {
    hide Executed, Punished, Succeeds, Casts, Opens;
    if n == 0 {
      assert b.txs[..0] == [];
      PunishedFrame(t, b.punish);
    } else {
      DeliveredStep(t, chain, b, n);
      var i: nat := n - 1;
      if id in Delivered(t, chain, b, i).resolutions {
        DeliveredResolution(t, chain, b, i, id);
      } else {
        TxVotes(Delivered(t, chain, b, i), ContextOf(chain, b), b.txs[i]);
        assert OpenedAt(t, chain, b, i, id);
      }
    }
  }

  /** A vote or a resolution that an accepted block adds was cast or opened by a transaction that
      its sender signed; vote bodies open resolutions only for the block's proposer. */
  lemma AcceptedBlockVotes(t: Tables, chain: Chain, b: Block, chainID: string)
    requires Executable(t, chain, b) && BlockAccepted(t.accounts, b.txs, chainID, b.proposer)
    ensures forall v :: v in AfterBlock(t, chain, b).votes && v !in t.votes ==>
              exists i :: 0 <= i < |b.txs| && CastAt(t, chain, b, i, v) && Authorised(b.txs[i], chainID)
    ensures forall id :: id in AfterBlock(t, chain, b).resolutions && id !in t.resolutions ==>
              exists i :: 0 <= i < |b.txs| && OpenedAt(t, chain, b, i, id) && Authorised(b.txs[i], chainID)
  {
    hide Delivered, Processed, Punished, TallyReady, Markable, CastAt, OpenedAt, BlockAccepted;
    var d := Delivered(t, chain, b, |b.txs|);
    assert TallyReady(d, chain.reg, TallyOf(b));
    StepRemovesExactly(d, chain.reg, chain.gas, TallyOf(b));
    AcceptedFields(t.accounts, b.txs, chainID, b.proposer);
    forall v | v in AfterBlock(t, chain, b).votes && v !in t.votes
      ensures exists i :: 0 <= i < |b.txs| && CastAt(t, chain, b, i, v) && Authorised(b.txs[i], chainID)
    {
      DeliveredVote(t, chain, b, |b.txs|, v);
      var i :| 0 <= i < |b.txs| && CastAt(t, chain, b, i, v);
      assert Authorised(b.txs[i], chainID);
    }
    forall id | id in AfterBlock(t, chain, b).resolutions && id !in t.resolutions
      ensures exists i :: 0 <= i < |b.txs| && OpenedAt(t, chain, b, i, id) && Authorised(b.txs[i], chainID)
    {
      DeliveredResolution(t, chain, b, |b.txs|, id);
      var i :| 0 <= i < |b.txs| && OpenedAt(t, chain, b, i, id);
      assert Authorised(b.txs[i], chainID);
    }
  }

  // ---------------------------------------------------------------------
  // Whole runs
  // ---------------------------------------------------------------------

  /** Every block that executes was accepted. */
  ghost predicate AllAccepted(t: Tables, chain: Chain, steps: seq<Step>, chainID: string)
  {
    forall n :: 0 <= n < |steps| && steps[n].ExecuteBlock? ==>
      BlockAccepted(Run(t, chain, steps[..n]).accounts, steps[n].block.txs, chainID, steps[n].block.proposer)
  }

  /** Block `n` of the run contains a signed transaction that casts this vote. */
  ghost predicate CastIn(t: Tables, chain: Chain, steps: seq<Step>, n: nat, v: (UUID, Bytes), chainID: string)
    requires n < |steps|
  {
    steps[n].ExecuteBlock? && CastInBlock(Run(t, chain, steps[..n]), chain, steps[n].block, v, chainID)
  }

  ghost predicate CastInBlock(u: Tables, chain: Chain, b: Block, v: (UUID, Bytes), chainID: string)
  {
    && Executable(u, chain, b)
    && exists i :: 0 <= i < |b.txs| && CastAt(u, chain, b, i, v) && Authorised(b.txs[i], chainID)
  }

  lemma CastNow(u: Tables, chain: Chain, s: Step, v: (UUID, Bytes), chainID: string)
    requires s.ExecuteBlock? ==> BlockAccepted(u.accounts, s.block.txs, chainID, s.block.proposer)
    requires v in After(u, chain, s).votes && v !in u.votes
    ensures s.ExecuteBlock? && CastInBlock(u, chain, s.block, v, chainID)
  {
    hide BlockAccepted, Executable, AfterBlock, CastAt, OpenedAt, Authorised;
    AcceptedBlockVotes(u, chain, s.block, chainID);
  }

  /** Over every run of accepted blocks: a vote on record was there at genesis, or its voter signed
      a transaction that cast it and succeeded. */
  lemma {:induction false} NoForgedVote(t: Tables, chain: Chain, steps: seq<Step>, v: (UUID, Bytes), chainID: string)
    requires AllAccepted(t, chain, steps, chainID) && v in Run(t, chain, steps).votes
    ensures v in t.votes || exists n :: 0 <= n < |steps| && CastIn(t, chain, steps, n, v, chainID)
  {
    hide After, BlockAccepted, CastInBlock;
    if steps != [] {
      var n := |steps| - 1;
      var before := steps[..n];
      forall k | 0 <= k < n ensures before[..k] == steps[..k] {
      }
      if v in Run(t, chain, before).votes {
        NoForgedVote(t, chain, before, v, chainID);
        if v !in t.votes {
          var k :| 0 <= k < n && CastIn(t, chain, before, k, v, chainID);
          assert CastIn(t, chain, steps, k, v, chainID);
        }
      } else {
        CastNow(Run(t, chain, before), chain, steps[n], v, chainID);
        assert CastIn(t, chain, steps, n, v, chainID);
      }
    }
  }
}
