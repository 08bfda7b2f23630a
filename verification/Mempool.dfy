/** The mempool's pending view of accounts (internal/txapp/mempool.go). */
module Mempool {
  import opened Wrappers
  import opened TableModel
  import opened Accounts
  import opened Routes
  import opened Execution
  import opened RouteEffects
  import opened Proposal

  /** accounts.GetAccount: a zero account when there is no row. */
  function Committed(l: Ledger, who: Bytes): Account
  {
    if who in l then l[who] else Account(0, 0)
  }

  /** What a transaction may take: its fee, and the amount of a transfer. */
  function Outlay(tx: Tx): nat
  {
    tx.fee + match tx.payload
             case Transfer(_, Some(amount)) => if 0 <= amount then amount else 0
             case _ => 0
  }

  predicate IsVoteIDs(p: Payload)
  {
    p.VoteIDs? || p == Malformed(KVoteIDs)
  }

  /** Whether a transaction is taken, given its sender's pending account. */
  predicate Admissible(acct: Account, voter: bool, gas: bool, tx: Tx)
  {
    && (IsVoteIDs(tx.payload) ==> voter)
    && !tx.payload.VoteBodies? && tx.payload != Malformed(KVoteBodies)
    && !(gas && acct.nonce == 0 && acct.balance == 0)
    && tx.nonce == acct.nonce + 1
    && tx.payload != Malformed(KTransfer)
    && (tx.payload.Transfer? ==> tx.payload.amount.Some? && 0 <= tx.payload.amount.value <= acct.balance)
  }

  /** The pending account after a sender's transactions: balances fall no lower than zero. */
  function Pending(acct: Account, txs: seq<Tx>): Account
  {
    if txs == [] then acct
    else
      var a := Pending(acct, txs[..|txs| - 1]);
      Account(Max(0, a.balance - Outlay(txs[|txs| - 1])), txs[|txs| - 1].nonce)
  }

  class Pool {
    var accounts: map<Bytes, Account>
    const gasEnabled: bool
    const nodeAddr: Bytes
    ghost var accepted: seq<Tx>   // since the last reset, in order

    /** The pending account of a sender while `l` is the committed ledger. */
    function View(l: Ledger, who: Bytes): Account
      reads this
    {
      if who in accounts then accounts[who] else Committed(l, who)
    }

    /** Between resets: accepted nonces continue the committed ones without a gap, and every
        pending account is the saturating fold of its sender's accepted transactions. */
    ghost predicate Valid(l: Ledger)
      reads this
    {
      && NoncesFollow(l, accepted)
      && forall who :: View(l, who) == Pending(Committed(l, who), OfSender(accepted, who))
    }

    constructor (gas: bool, addr: Bytes, ghost l: Ledger)
      ensures Valid(l) && accounts == map[] && accepted == [] && gasEnabled == gas && nodeAddr == addr
    {
      accounts, gasEnabled, nodeAddr, accepted := map[], gas, addr, [];
    }

    method AccountInfo(l: Ledger, who: Bytes) returns (acct: Account)
      modifies this`accounts
      ensures acct == old(View(l, who)) && forall w :: View(l, w) == old(View(l, w))
      ensures who in accounts && accounts[who] == acct
    {
      if who in accounts {
        return accounts[who];
      }
      acct := Committed(l, who);
      accounts := accounts[who := acct];
    }

    /** Takes or rejects one transaction; a rejection changes no pending account. The node's own
        votes with a nonce out of order are to be broadcast again. */
    method ApplyTransaction(tx: Tx, l: Ledger, voters: map<Bytes, int>) returns (ok: bool, rebroadcast: seq<UUID>)
      requires Valid(l) && NonNegative(l)
      modifies this
      ensures ok <==> Admissible(old(View(l, tx.sender)), tx.sender in voters, gasEnabled, tx)
      ensures Valid(l) && accepted == if ok then old(accepted) + [tx] else old(accepted)
      ensures !ok ==> forall who :: View(l, who) == old(View(l, who))
      ensures rebroadcast ==
              if tx.payload.VoteIDs? && tx.sender in voters && tx.sender == nodeAddr &&
                 tx.nonce != old(View(l, tx.sender)).nonce + 1 && (gasEnabled ==> old(View(l, tx.sender)) != Account(0, 0))
              then tx.payload.ids else []
    {
      hide NoncesFollow, OfSender, Pending;
      rebroadcast := [];
      if IsVoteIDs(tx.payload) && tx.sender !in voters { return false, []; }
      if tx.payload.VoteBodies? || tx.payload == Malformed(KVoteBodies) { return false, []; }
      var acct := AccountInfo(l, tx.sender);
      label Loaded:
      ViewIsPending(l, tx.sender);
      if gasEnabled && acct.nonce == 0 && acct.balance == 0 {
        NothingAccepted(l, tx.sender, accepted);
        accounts := accounts - {tx.sender};
        return false, [];
      }
      if tx.nonce != acct.nonce + 1 {
        if tx.payload.VoteIDs? && tx.sender == nodeAddr { rebroadcast := tx.payload.ids; }
        return false, rebroadcast;
      }
      var spend := tx.fee;
      if tx.payload == Malformed(KTransfer) { return false, []; }
      if tx.payload.Transfer? {
        if tx.payload.amount.None? || tx.payload.amount.value < 0 { return false, []; }
        if tx.payload.amount.value > acct.balance { return false, []; }
        spend := spend + tx.payload.amount.value;
      }
      assert spend == Outlay(tx);
      var balance := if spend > acct.balance then 0 else acct.balance - spend;
      accounts := accounts[tx.sender := Account(balance, tx.nonce)];
      Accepting(l, accepted, tx);
      forall who ensures View(l, who) == Pending(Committed(l, who), OfSender(accepted + [tx], who)) {
        OneMore(accepted, tx, who);
        PendingOneMore(Committed(l, who), OfSender(accepted, who), tx);
        assert old@Loaded(View(l, who)) == Pending(Committed(l, who), OfSender(accepted, who));
        assert OfSender(accepted, who) + [] == OfSender(accepted, who);
      }
      accepted := accepted + [tx];
      return true, [];
    }

    lemma ViewIsPending(l: Ledger, who: Bytes)
      requires Valid(l)
      ensures View(l, who) == Pending(Committed(l, who), OfSender(accepted, who))
    {
    }

    /** Reset after a commit: whatever the new ledger is, nothing is pending. */
    method Reset(ghost l: Ledger)
      modifies this
      ensures Valid(l) && accepted == [] && forall who :: View(l, who) == Committed(l, who)
    {
      accounts, accepted := map[], [];
    }
  }

  lemma {:induction false} PendingFacts(acct: Account, txs: seq<Tx>)
    requires 0 <= acct.balance
    ensures 0 <= Pending(acct, txs).balance
    ensures Pending(acct, txs).nonce == if txs == [] then acct.nonce else txs[|txs| - 1].nonce
  {
    if txs != [] {
      PendingFacts(acct, txs[..|txs| - 1]);
    }
  }

  /** A pending nonce of 0 means the sender has nothing accepted. */
  lemma NothingAccepted(l: Ledger, who: Bytes, accepted: seq<Tx>)
    requires NonNegative(l) && NoncesFollow(l, accepted)
    requires Pending(Committed(l, who), OfSender(accepted, who)) == Account(0, 0)
    ensures Committed(l, who) == Account(0, 0)
  {
    hide OfSender;
    var mine := OfSender(accepted, who);
    PendingFacts(Committed(l, who), mine);
    assert mine != [] ==> mine[|mine| - 1].nonce == NonceOf(l, who) + |mine|;
  }

  lemma OneMore(txs: seq<Tx>, tx: Tx, who: Bytes)
    ensures OfSender(txs + [tx], who) == OfSender(txs, who) + (if who == tx.sender then [tx] else [])
  {
    assert (txs + [tx])[..|txs|] == txs;
  }

  lemma PendingOneMore(acct: Account, txs: seq<Tx>, tx: Tx)
    ensures Pending(acct, txs + [tx]) == Account(Max(0, Pending(acct, txs).balance - Outlay(tx)), tx.nonce)
  {
    assert (txs + [tx])[..|txs|] == txs;
  }

  /** An admitted transaction is the next in its sender's sequence. */
  lemma Accepting(l: Ledger, accepted: seq<Tx>, tx: Tx)
    requires NonNegative(l) && NoncesFollow(l, accepted)
    requires tx.nonce == Pending(Committed(l, tx.sender), OfSender(accepted, tx.sender)).nonce + 1
    ensures NoncesFollow(l, accepted + [tx])
    ensures 0 <= Pending(Committed(l, tx.sender), OfSender(accepted, tx.sender)).balance
  {
    hide OfSender, Pending;
    var mine := OfSender(accepted, tx.sender);
    PendingFacts(Committed(l, tx.sender), mine);
    assert mine != [] ==> mine[|mine| - 1].nonce == NonceOf(l, tx.sender) + |mine|;
    forall who, k | 0 <= k < |OfSender(accepted + [tx], who)|
      ensures OfSender(accepted + [tx], who)[k].nonce == NonceOf(l, who) + 1 + k
    {
      OneMore(accepted, tx, who);
      assert k < |OfSender(accepted, who)| ==> OfSender(accepted, who)[k].nonce == NonceOf(l, who) + 1 + k;
    }
  }

  // ---------------------------------------------------------------------
  // What the pending view is good for
  // ---------------------------------------------------------------------

  /** Any block that takes a prefix of each sender's accepted transactions passes the nonce
      check of ProcessProposal. */
  lemma PrefixBlocksPass(l: Ledger, accepted: seq<Tx>, txs: seq<Tx>)
    requires NoncesFollow(l, accepted)
    requires forall who :: OfSender(txs, who) <= OfSender(accepted, who)
    ensures NoncesFollow(l, txs)
  {
    hide OfSender;
    forall who, k | 0 <= k < |OfSender(txs, who)|
      ensures OfSender(txs, who)[k].nonce == NonceOf(l, who) + 1 + k
    {
      assert OfSender(txs, who)[k] == OfSender(accepted, who)[k];
    }
  }

  /** With the other checks met, ProcessProposal accepts such a block. */
  lemma PrefixBlocksAccepted(l: Ledger, accepted: seq<Tx>, txs: seq<Tx>, chainID: string, proposer: Bytes)
    requires NoncesFollow(l, accepted)
    requires forall who :: OfSender(txs, who) <= OfSender(accepted, who)
    requires forall i :: 0 <= i < |accepted| ==> TxAcceptable(accepted[i], chainID, proposer)
    ensures BlockAccepted(l, txs, chainID, proposer)
  {
    hide OfSender, TxAcceptable, NoncesFollow;
    PrefixBlocksPass(l, accepted, txs);
    forall i | 0 <= i < |txs| ensures TxAcceptable(txs[i], chainID, proposer) {
      var who, k := txs[i].sender, |OfSender(txs[..i], txs[i].sender)|;
      MemberOfGroup(txs, i);
      assert OfSender(txs, who) <= OfSender(accepted, who);
      GroupMembers(accepted, who, k);
    }
  }

  function TotalOutlay(txs: seq<Tx>): nat
  {
    if txs == [] then 0 else TotalOutlay(txs[..|txs| - 1]) + Outlay(txs[|txs| - 1])
  }

  /** The pending balance is what remains after everything accepted, exactly as long as that
      much was there; it is never an underestimate. */
  lemma {:induction false} PendingBalanceExactly(acct: Account, txs: seq<Tx>)
    requires 0 <= acct.balance
    ensures Pending(acct, txs).balance == acct.balance - TotalOutlay(txs) <==> TotalOutlay(txs) <= acct.balance
    ensures Pending(acct, txs).balance >= acct.balance - TotalOutlay(txs)
  {
    PendingFacts(acct, txs);
    if txs != [] {
      PendingBalanceExactly(acct, txs[..|txs| - 1]);
    }
  }

  function Fees(txs: seq<Tx>): nat
  {
    if txs == [] then 0 else Fees(txs[..|txs| - 1]) + txs[|txs| - 1].fee
  }

  /** What the transfers among them send. */
  function Sent(txs: seq<Tx>): int
  {
    if txs == [] then 0
    else
      var p := txs[|txs| - 1].payload;
      Sent(txs[..|txs| - 1]) + (if p.Transfer? && p.amount.Some? then p.amount.value else 0)
  }

  /** So the pending balance is the committed one less all fees and all amounts sent. */
  lemma {:induction false} PendingBalanceIs(acct: Account, txs: seq<Tx>)
    requires 0 <= acct.balance
    requires forall i :: 0 <= i < |txs| && txs[i].payload.Transfer? && txs[i].payload.amount.Some? ==>
               0 <= txs[i].payload.amount.value
    ensures TotalOutlay(txs) == Fees(txs) + Sent(txs)
    ensures Pending(acct, txs).balance == acct.balance - Fees(txs) - Sent(txs) <==> Fees(txs) + Sent(txs) <= acct.balance
  {
    PendingBalanceExactly(acct, txs);
    if txs != [] {
      PendingBalanceIs(acct, txs[..|txs| - 1]);
    }
  }

  /** What is taken: the next nonce of an account that is not empty while gas is on; votes for ids
      only from validators and vote bodies from no one; transfers that decode, of amounts between 0
      and the pending balance. Fees are not looked at. */
  lemma AdmissibleExactly(acct: Account, voter: bool, gas: bool, tx: Tx)
    ensures Admissible(acct, voter, gas, tx) <==>
            && tx.nonce == acct.nonce + 1 && (gas ==> acct.nonce != 0 || acct.balance != 0)
            && match tx.payload
               case Transfer(_, amount) => amount.Some? && 0 <= amount.value <= acct.balance
               case VoteIDs(_) => voter
               case VoteBodies(_) => false
               case Malformed(kind) => kind != KTransfer && kind != KVoteBodies && (kind == KVoteIDs ==> voter)
               case _ => true
  {
  }

  /** What that is worth: a transaction taken on the committed account meets its nonce when it is
      executed next, provided it has a price; and a transfer that can pay its price besides the
      amount then goes through. */
  lemma AdmittedExecutes(t: Tables, ctx: Context, tx: Tx, voter: bool)
    requires NonNegative(t.accounts) && Admissible(Committed(t.accounts, tx.sender), voter, ctx.gas, tx)
    requires !tx.payload.Unrouted? && (ctx.gas ==> Price(tx.payload).Some?)
    ensures Meets(t, ctx, tx)
    ensures tx.payload.Transfer? && tx.payload.to != tx.sender ==>
              var price := if ctx.gas then 210_000 else 0;
              (Succeeds(t, ctx, tx) <==>
                 (ctx.gas ==> price <= tx.fee) && price + tx.payload.amount.value <= BalanceOf(t.accounts, tx.sender))
  {
    if tx.payload.Transfer? && tx.payload.to != tx.sender {
      hide Succeeds, Executed;
      TransferTxExactly(t, ctx, tx, tx.payload.to, tx.payload.amount.value);
    }
  }
}
