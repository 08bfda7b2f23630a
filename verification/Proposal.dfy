/** Block proposals (internal/abci/abci.go, internal/abci/utils.go): the nonce check of
    ProcessProposal and what it guarantees to block execution. */
module Proposal {
  import opened Wrappers
  import opened TableModel
  import opened Accounts
  import opened Routes
  import opened Execution

  /** The transactions of one sender, in block order. */
  function OfSender(txs: seq<Tx>, sender: Bytes): (r: seq<Tx>)
    ensures r == [] <==> forall i :: 0 <= i < |txs| ==> txs[i].sender != sender
  {
    if txs == [] then []
    else OfSender(txs[..|txs| - 1], sender) +
         (if txs[|txs| - 1].sender == sender then [txs[|txs| - 1]] else [])
  }

  method GroupTxsBySender(txs: seq<Tx>) returns (grouped: map<Bytes, seq<Tx>>)
    ensures forall s :: s in grouped <==> OfSender(txs, s) != []
    ensures forall s :: s in grouped ==> grouped[s] == OfSender(txs, s)
  {
    grouped := map[];
    for i := 0 to |txs|
      invariant forall s :: s in grouped <==> OfSender(txs[..i], s) != []
      invariant forall s :: s in grouped ==> grouped[s] == OfSender(txs[..i], s)
    {
      assert txs[..i + 1][..i] == txs[..i];
      var key := txs[i].sender;
      grouped := grouped[key := (if key in grouped then grouped[key] else []) + [txs[i]]];
    }
    assert txs[..|txs|] == txs;
  }

  /** Checks on a single transaction: chain, vote-body rule, signature. */
  predicate TxAcceptable(tx: Tx, chainID: string, proposer: Bytes)
  {
    && (tx.chainID == "" || tx.chainID == chainID)
    && ((tx.payload.VoteBodies? || tx.payload == Malformed(KVoteBodies)) ==> tx.sender == proposer)
    && tx.signed
  }

  /** Each sender's nonces continue its committed nonce without gap, repeat or disorder. */
  ghost predicate NoncesFollow(l: Ledger, txs: seq<Tx>)
  {
    forall s, k :: 0 <= k < |OfSender(txs, s)| ==> OfSender(txs, s)[k].nonce == NonceOf(l, s) + 1 + k
  }

  lemma {:induction false} MemberOfGroup(txs: seq<Tx>, i: nat)
    requires i < |txs|
    ensures |OfSender(txs[..i], txs[i].sender)| < |OfSender(txs, txs[i].sender)|
    ensures OfSender(txs, txs[i].sender)[|OfSender(txs[..i], txs[i].sender)|] == txs[i]
    decreases |txs|
  {
    if i < |txs| - 1 {
      MemberOfGroup(txs[..|txs| - 1], i);
      assert txs[..|txs| - 1][..i] == txs[..i];
    }
  }

  lemma {:induction false} GroupMembers(txs: seq<Tx>, s: Bytes, k: nat)
    requires k < |OfSender(txs, s)|
    ensures OfSender(txs, s)[k] in txs
    decreases |txs|
  {
    if k < |OfSender(txs[..|txs| - 1], s)| {
      GroupMembers(txs[..|txs| - 1], s, k);
    }
  }

  ghost predicate GroupAccepted(l: Ledger, s: Bytes, group: seq<Tx>, chainID: string, proposer: Bytes)
  {
    forall k :: 0 <= k < |group| ==>
      group[k].nonce == NonceOf(l, s) + 1 + k && TxAcceptable(group[k], chainID, proposer)
  }

  method CheckGroup(l: Ledger, sender: Bytes, group: seq<Tx>, chainID: string, proposer: Bytes) returns (ok: bool)
    ensures ok <==> GroupAccepted(l, sender, group, chainID, proposer)
  {
    var expectedNonce := NonceOf(l, sender) + 1;
    for k := 0 to |group|
      invariant expectedNonce == NonceOf(l, sender) + 1 + k
      invariant forall j :: 0 <= j < k ==>
                  group[j].nonce == NonceOf(l, sender) + 1 + j && TxAcceptable(group[j], chainID, proposer)
    {
      if group[k].nonce != expectedNonce { return false; }
      expectedNonce := expectedNonce + 1;
      if !TxAcceptable(group[k], chainID, proposer) { return false; }
    }
    return true;
  }

  /** What ProcessProposal demands of a non-empty block. */
  ghost predicate BlockAccepted(l: Ledger, txs: seq<Tx>, chainID: string, proposer: Bytes)
  {
    NoncesFollow(l, txs) && forall i :: 0 <= i < |txs| ==> TxAcceptable(txs[i], chainID, proposer)
  }

  lemma AcceptedInGroup(l: Ledger, txs: seq<Tx>, chainID: string, proposer: Bytes, s: Bytes)
    requires BlockAccepted(l, txs, chainID, proposer)
    ensures GroupAccepted(l, s, OfSender(txs, s), chainID, proposer)
  {
    forall k | 0 <= k < |OfSender(txs, s)| ensures TxAcceptable(OfSender(txs, s)[k], chainID, proposer) {
      GroupMembers(txs, s, k);
    }
  }

  lemma AcceptedByGroups(l: Ledger, txs: seq<Tx>, chainID: string, proposer: Bytes)
    requires forall s :: GroupAccepted(l, s, OfSender(txs, s), chainID, proposer)
    ensures BlockAccepted(l, txs, chainID, proposer)
  {
    forall i | 0 <= i < |txs| ensures TxAcceptable(txs[i], chainID, proposer) {
      MemberOfGroup(txs, i);
      assert GroupAccepted(l, txs[i].sender, OfSender(txs, txs[i].sender), chainID, proposer);
    }
    forall s, k | 0 <= k < |OfSender(txs, s)|
      ensures OfSender(txs, s)[k].nonce == NonceOf(l, s) + 1 + k
    {
      assert GroupAccepted(l, s, OfSender(txs, s), chainID, proposer);
    }
  }

  lemma AcceptedFields(l: Ledger, txs: seq<Tx>, chainID: string, proposer: Bytes)
    ensures BlockAccepted(l, txs, chainID, proposer) ==>
              forall i :: 0 <= i < |txs| ==> txs[i].signed && (txs[i].chainID == "" || txs[i].chainID == chainID)
  {
  }

  /** Where a sender's transactions stand. */
  function Positions(txs: seq<Tx>, s: Bytes): set<int>
  {
    set j | 0 <= j < |txs| && txs[j].sender == s
  }

  /** The transactions of the same sender before transaction `i`. */
  function Earlier(txs: seq<Tx>, i: nat): set<int>
    requires i < |txs|
  {
    Positions(txs[..i], txs[i].sender)
  }

  lemma PositionsStep(txs: seq<Tx>, s: Bytes)
    requires txs != []
    ensures var n := |txs| - 1;
            && n !in Positions(txs[..n], s)
            && Positions(txs, s) == if txs[n].sender == s then Positions(txs[..n], s) + {n} else Positions(txs[..n], s)
  {
  }

  lemma {:induction false} EarlierCount(txs: seq<Tx>, s: Bytes)
    ensures |OfSender(txs, s)| == |Positions(txs, s)|
  {
    if txs == [] {
      assert Positions(txs, s) == {};
    } else {
      hide Positions;
      EarlierCount(txs[..|txs| - 1], s);
      PositionsStep(txs, s);
    }
  }

  /** What ProcessProposal accepts, field by field: every transaction is signed, is for this chain
      or names none, carries vote bodies only if the proposer sent it, and has the nonce that its
      sender's committed nonce and earlier transactions in the block leave for it. */
  lemma AcceptedExactly(l: Ledger, txs: seq<Tx>, chainID: string, proposer: Bytes)
    ensures BlockAccepted(l, txs, chainID, proposer) <==>
            forall i :: 0 <= i < |txs| ==>
              && txs[i].signed && (txs[i].chainID == "" || txs[i].chainID == chainID)
              && (txs[i].payload.VoteBodies? || txs[i].payload == Malformed(KVoteBodies) ==> txs[i].sender == proposer)
              && txs[i].nonce == NonceOf(l, txs[i].sender) + 1 + |Earlier(txs, i)|
  {
    NoncesByPosition(l, txs);
  }

  lemma NoncesByPosition(l: Ledger, txs: seq<Tx>)
    ensures NoncesFollow(l, txs) <==>
            forall i :: 0 <= i < |txs| ==> txs[i].nonce == NonceOf(l, txs[i].sender) + 1 + |Earlier(txs, i)|
  {
    hide OfSender;
    forall i | 0 <= i < |txs| ensures |OfSender(txs[..i], txs[i].sender)| == |Earlier(txs, i)| {
      EarlierCount(txs[..i], txs[i].sender);
    }
    if NoncesFollow(l, txs) {
      forall i | 0 <= i < |txs| ensures txs[i].nonce == NonceOf(l, txs[i].sender) + 1 + |Earlier(txs, i)| {
        MemberOfGroup(txs, i);
      }
    }
    if forall i :: 0 <= i < |txs| ==> txs[i].nonce == NonceOf(l, txs[i].sender) + 1 + |Earlier(txs, i)| {
      forall s, k | 0 <= k < |OfSender(txs, s)| ensures OfSender(txs, s)[k].nonce == NonceOf(l, s) + 1 + k {
        var i := PlaceInBlock(txs, s, k);
      }
    }
  }

  /** Where the `k`-th transaction of a sender stands in the block. */
  lemma {:induction false} PlaceInBlock(txs: seq<Tx>, s: Bytes, k: nat) returns (i: nat)
    requires k < |OfSender(txs, s)|
    ensures i < |txs| && txs[i].sender == s && txs[i] == OfSender(txs, s)[k] && |OfSender(txs[..i], s)| == k
    decreases |txs|
  {
    var n := |txs| - 1;
    if k < |OfSender(txs[..n], s)| {
      i := PlaceInBlock(txs[..n], s, k);
      assert txs[..n][..i] == txs[..i];
    } else {
      i := n;
    }
  }

  /** The groups are visited in no particular order, as Go ranges over the map. */
  method ValidateProposalTransactions(l: Ledger, txs: seq<Tx>, chainID: string, proposer: Bytes) returns (ok: bool)
    ensures ok <==> BlockAccepted(l, txs, chainID, proposer)
    ensures ok ==> forall i :: 0 <= i < |txs| ==> txs[i].signed && (txs[i].chainID == "" || txs[i].chainID == chainID)
  {
    AcceptedFields(l, txs, chainID, proposer);
    hide BlockAccepted, TxAcceptable, GroupAccepted;
    var grouped := GroupTxsBySender(txs);
    var senders := grouped.Keys;
    while senders != {}
      invariant senders <= grouped.Keys
      invariant forall s :: s in grouped && s !in senders ==> GroupAccepted(l, s, grouped[s], chainID, proposer)
      decreases senders
    {
      var sender :| sender in senders;
      ok := CheckGroup(l, sender, grouped[sender], chainID, proposer);
      if !ok {
        if BlockAccepted(l, txs, chainID, proposer) {
          AcceptedInGroup(l, txs, chainID, proposer, sender);
        }
        return;
      }
      senders := senders - {sender};
    }
    forall s ensures GroupAccepted(l, s, OfSender(txs, s), chainID, proposer) {
      if s !in grouped {
        EmptyGroup(l, s, chainID, proposer);
      }
    }
    AcceptedByGroups(l, txs, chainID, proposer);
    return true;
  }

  lemma EmptyGroup(l: Ledger, s: Bytes, chainID: string, proposer: Bytes)
    ensures GroupAccepted(l, s, [], chainID, proposer)
  {
  }

  // ---------------------------------------------------------------------
  // Nonce lockstep
  // ---------------------------------------------------------------------

  ghost function ExecutedAll(t: Tables, ctx: Context, txs: seq<Tx>): (t': Tables)
    requires NonNegative(t.accounts)
    ensures NonNegative(t'.accounts)
    decreases |txs|
  {
    if txs == [] then t
    else
      var mid := ExecutedAll(t, ctx, txs[..|txs| - 1]);
      assert NonNegative(Executed(mid, ctx, txs[|txs| - 1]).accounts) by {
        if !txs[|txs| - 1].payload.Unrouted? { ExecuteAllOrSpend(mid, ctx, txs[|txs| - 1]); }
      }
      Executed(mid, ctx, txs[|txs| - 1])
  }

  /** The state in which transaction `i` of the block runs. */
  ghost function Before(t: Tables, ctx: Context, txs: seq<Tx>, i: nat): (t': Tables)
    requires NonNegative(t.accounts) && i <= |txs|
    ensures NonNegative(t'.accounts)
  {
    ExecutedAll(t, ctx, txs[..i])
  }

  /** Every payload has a route and a price. */
  ghost predicate AllPriced(ctx: Context, txs: seq<Tx>)
  {
    forall i :: 0 <= i < |txs| ==> !txs[i].payload.Unrouted? && Due(ctx.gas, txs[i].payload).Some?
  }

  /** A sender's first transaction in the block is taken although it may have no account. */
  ghost predicate FirstChargeable(t: Tables, ctx: Context, txs: seq<Tx>, i: nat)
    requires NonNegative(t.accounts) && i < |txs| && AllPriced(ctx, txs)
  {
    OfSender(txs[..i], txs[i].sender) == [] ==>
      || txs[i].sender in Before(t, ctx, txs, i).accounts
      || Min(txs[i].fee, Due(ctx.gas, txs[i].payload).value) == 0
  }

  /** If the first `n` transactions met their nonces, every nonce has advanced by the number
      of its sender's transactions. */
  lemma {:induction false} NoncesAdvance(t: Tables, ctx: Context, txs: seq<Tx>, n: nat, s: Bytes)
    requires NonNegative(t.accounts) && n <= |txs|
    requires forall j :: 0 <= j < n ==> Meets(Before(t, ctx, txs, j), ctx, txs[j])
    ensures var l := Before(t, ctx, txs, n).accounts;
            && NonceOf(l, s) == NonceOf(t.accounts, s) + |OfSender(txs[..n], s)|
            && (s in t.accounts || OfSender(txs[..n], s) != [] ==> s in l)
  {
    if n != 0 {
      assert txs[..n][..n - 1] == txs[..n - 1];
      NoncesAdvance(t, ctx, txs, n - 1, s);
      NonceStep(Before(t, ctx, txs, n - 1), ctx, txs[n - 1], s);
    }
  }

  lemma MeetsNext(t: Tables, ctx: Context, txs: seq<Tx>, n: nat)
    requires NonNegative(t.accounts) && n < |txs|
    requires NoncesFollow(t.accounts, txs) && AllPriced(ctx, txs) && FirstChargeable(t, ctx, txs, n)
    requires forall i :: 0 <= i < n ==> Meets(Before(t, ctx, txs, i), ctx, txs[i])
    ensures Meets(Before(t, ctx, txs, n), ctx, txs[n])
  {
    hide Before, OfSender, Min, Due;
    NoncesAdvance(t, ctx, txs, n, txs[n].sender);
    MemberOfGroup(txs, n);
  }

  lemma {:induction false} LockstepUpTo(t: Tables, ctx: Context, txs: seq<Tx>, n: nat)
    requires NonNegative(t.accounts) && n <= |txs|
    requires NoncesFollow(t.accounts, txs) && AllPriced(ctx, txs)
    requires forall i :: 0 <= i < n ==> FirstChargeable(t, ctx, txs, i)
    ensures forall i :: 0 <= i < n ==> Meets(Before(t, ctx, txs, i), ctx, txs[i])
  {
    hide Before, FirstChargeable, Meets, NoncesFollow;
    if n != 0 {
      LockstepUpTo(t, ctx, txs, n - 1);
      MeetsNext(t, ctx, txs, n - 1);
    }
  }

  /** Lockstep, exactly: in a block whose nonces passed the proposal check, every transaction
      consumes the nonce Spend expects if and only if each sender's first transaction finds
      an account or is free of charge. */
  lemma NonceLockstep(t: Tables, ctx: Context, txs: seq<Tx>)
    requires NonNegative(t.accounts) && NoncesFollow(t.accounts, txs) && AllPriced(ctx, txs)
    ensures (forall i :: 0 <= i < |txs| ==> Meets(Before(t, ctx, txs, i), ctx, txs[i]))
       <==> (forall i :: 0 <= i < |txs| ==> FirstChargeable(t, ctx, txs, i))
  {
    if forall i :: 0 <= i < |txs| ==> FirstChargeable(t, ctx, txs, i) {
      LockstepUpTo(t, ctx, txs, |txs|);
    } else {
      var i :| 0 <= i < |txs| && !FirstChargeable(t, ctx, txs, i);
      assert !Meets(Before(t, ctx, txs, i), ctx, txs[i]);
    }
  }

  /** The condition a proposer can check beforehand: gas is off, or every sender has an
      account when the block starts. Then every nonce ends at its start plus the sender's
      transaction count, whatever fails on fees or in a route. */
  lemma AcceptedBlockAdvancesNonces(t: Tables, ctx: Context, txs: seq<Tx>, s: Bytes)
    requires NonNegative(t.accounts) && NoncesFollow(t.accounts, txs) && AllPriced(ctx, txs)
    requires !ctx.gas || forall i :: 0 <= i < |txs| ==> txs[i].sender in t.accounts
    ensures forall i :: 0 <= i < |txs| ==> Meets(Before(t, ctx, txs, i), ctx, txs[i])
    ensures NonceOf(ExecutedAll(t, ctx, txs).accounts, s) == NonceOf(t.accounts, s) + |OfSender(txs, s)|
  {
    forall i | 0 <= i < |txs| ensures FirstChargeable(t, ctx, txs, i) {
      AccountsPersist(t, ctx, txs, i, txs[i].sender);
    }
    NonceLockstep(t, ctx, txs);
    NoncesAdvance(t, ctx, txs, |txs|, s);
    assert txs[..|txs|] == txs;
  }

  lemma {:induction false} AccountsPersist(t: Tables, ctx: Context, txs: seq<Tx>, n: nat, s: Bytes)
    requires NonNegative(t.accounts) && n <= |txs|
    ensures s in t.accounts ==> s in Before(t, ctx, txs, n).accounts
  {
    if n != 0 {
      assert txs[..n][..n - 1] == txs[..n - 1];
      AccountsPersist(t, ctx, txs, n - 1, s);
      NonceStep(Before(t, ctx, txs, n - 1), ctx, txs[n - 1], s);
    }
  }
}
