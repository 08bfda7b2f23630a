/** What executing one transaction may do to balances and nonces. */
module Execution {
  import opened Wrappers
  import opened TableModel
  import opened Accounts
  import opened Voting
  import opened Routes

  /** The nonce `accounts.GetAccount` reports: 0 for an account without a row. */
  function NonceOf(l: Ledger, id: Bytes): int
  {
    if id in l then l[id].nonce else 0
  }

  /** Every row of a VoteIDs or VoteBodies fold keeps the tables outside the vote store. */
  lemma {:induction false} VotedFrame(t: Tables, local: bool, from: Bytes, ids: seq<UUID>)
    requires Voted(t, local, from, ids).Some?
    ensures var t' := Voted(t, local, from, ids).value;
            t' == t.(votes := t'.votes, events := t'.events)
  {
    if ids != [] {
      VotedFrame(t, local, from, ids[..|ids| - 1]);
    }
  }

  lemma {:induction false} ProposedFrame(t: Tables, ctx: Context, from: Bytes, events: seq<Event>)
    requires Proposed(t, ctx, from, events).Some?
    ensures var t' := Proposed(t, ctx, from, events).value;
            t' == t.(resolutions := t'.resolutions, votes := t'.votes, events := t'.events)
  {
    if events != [] {
      ProposedFrame(t, ctx, from, events[..|events| - 1]);
    }
  }

  /** Only transfers write accounts from inside a route. */
  lemma RouteAccounts(t: Tables, ctx: Context, tx: Tx)
    requires InTx(t, ctx, tx).Ok?
    ensures var t' := InTx(t, ctx, tx).value;
            && (!tx.payload.Transfer? ==> t'.accounts == t.accounts)
            && (tx.payload.Transfer? ==>
                  && tx.payload.amount.Some?
                  && Transferred(t.accounts, tx.sender, tx.payload.to, tx.payload.amount.value) == Ok(t'.accounts)
                  && t' == t.(accounts := t'.accounts))
            && t'.processed == t.processed
  {
    match tx.payload
    case VoteIDs(ids) => VotedFrame(t, tx.sender == ctx.self, tx.sender, NotProcessed(t.processed, ids));
    case VoteBodies(events) => ProposedFrame(t, ctx, tx.sender, events);
    case _ =>
  }

  /** The charge: at most the consented fee, at most the price, at most the balance, taken
      from the sender alone and together with exactly one nonce. */
  lemma ChargeIsBounded(l: Ledger, gas: bool, tx: Tx)
    requires NonNegative(l)
    ensures var c := Charged(l, gas, tx);
            && c.spend <= tx.fee
            && (Due(gas, tx.payload).Some? ==> c.spend <= Due(gas, tx.payload).value)
            && NonNegative(c.accounts) && NoncesGrow(l, c.accounts)
            && Supply(c.accounts) == Supply(l) - c.spend
            && (c.code == CodeOk ==> Due(gas, tx.payload) == Some(c.spend) && tx.sender in c.accounts)
            && ((c.accounts == l && c.spend == 0)
                || c.accounts == l[tx.sender := Account(
                     (if tx.sender in l then l[tx.sender].balance else 0) - c.spend, NonceOf(l, tx.sender) + 1)])
  {
    if Due(gas, tx.payload).Some? {
      var want := Min(tx.fee, Due(gas, tx.payload).value);
      match Spent(l, tx.sender, want, tx.nonce)
      case Ok(l') =>
        SupplyUpdate(l, tx.sender, l'[tx.sender]);
        assert l' == l[tx.sender := l'[tx.sender]];
      case Err(InsufficientFunds) => SupplyUpdate(l, tx.sender, Account(0, tx.nonce));
      case _ =>
    }
  }

  /** What a route may do to accounts once the charge is taken. */
  ghost predicate AccountsMove(l: Ledger, tx: Tx, l': Ledger)
  {
    && (!tx.payload.Transfer? ==> l' == l)
    && (tx.payload.Transfer? ==>
          && tx.payload.amount.Some?
          && Transferred(l, tx.sender, tx.payload.to, tx.payload.amount.value) == Ok(l'))
  }

  lemma ExecutedShape(t: Tables, ctx: Context, tx: Tx)
    requires NonNegative(t.accounts) && !tx.payload.Unrouted?
    ensures var c, t' := Charged(t.accounts, ctx.gas, tx), Executed(t, ctx, tx);
            && (!Succeeds(t, ctx, tx) ==> t' == t.(accounts := c.accounts))
            && (Succeeds(t, ctx, tx) ==>
                  c.code == CodeOk && InTx(t.(accounts := c.accounts), ctx, tx) == Ok(t') && AccountsMove(c.accounts, tx, t'.accounts))
  {
    if Succeeds(t, ctx, tx) {
      RouteAccounts(AfterSpend(t, ctx, tx), ctx, tx);
    }
  }

  /** Amount destroyed by a transfer to oneself. */
  function SelfTransfer(tx: Tx): int
  {
    if tx.payload.Transfer? && tx.payload.amount.Some? && tx.payload.to == tx.sender
    then tx.payload.amount.value else 0
  }

  lemma MoveSupply(l: Ledger, tx: Tx, l': Ledger)
    requires NonNegative(l) && AccountsMove(l, tx, l')
    ensures NonNegative(l') && NoncesGrow(l, l') && Supply(l') == Supply(l) - SelfTransfer(tx)
    ensures forall id :: NonceOf(l', id) == NonceOf(l, id)
  {
    if tx.payload.Transfer? {
      TransferConserves(l, tx.sender, tx.payload.to, tx.payload.amount.value);
    }
  }

  /** Execution is all-or-spend: without success nothing but the sender's own row moves, and
      that row pays exactly the charge; with success the supply moves by the charge alone,
      except for the amount a transfer to oneself destroys. The reported spend is the charge
      as long as it fits the response's int64. */
  lemma ExecuteAllOrSpend(t: Tables, ctx: Context, tx: Tx)
    requires NonNegative(t.accounts) && !tx.payload.Unrouted?
    ensures var c, t' := Charged(t.accounts, ctx.gas, tx), Executed(t, ctx, tx);
            && NonNegative(t'.accounts) && NoncesGrow(t.accounts, t'.accounts)
            && (!Succeeds(t, ctx, tx) ==>
                  && t' == t.(accounts := t'.accounts)
                  && t'.accounts - {tx.sender} == t.accounts - {tx.sender}
                  && Supply(t'.accounts) == Supply(t.accounts) - c.spend)
            && (Succeeds(t, ctx, tx) ==> Supply(t'.accounts) == Supply(t.accounts) - c.spend - SelfTransfer(tx))
            && (c.spend <= INT64_MAX <==> ToInt64(c.spend) == c.spend)
  {
    hide Executed, Succeeds, Charged, AccountsMove, Supply;
    ExecutedShape(t, ctx, tx);
    ChargeIsBounded(t.accounts, ctx.gas, tx);
    if Succeeds(t, ctx, tx) {
      MoveSupply(Charged(t.accounts, ctx.gas, tx).accounts, tx, Executed(t, ctx, tx).accounts);
    }
  }

  /** Exactly when a transaction consumes its sender's next nonce. */
  ghost predicate Meets(t: Tables, ctx: Context, tx: Tx)
  {
    !tx.payload.Unrouted? && MeetsLedger(t.accounts, ctx.gas, tx)
  }

  ghost predicate MeetsLedger(l: Ledger, gas: bool, tx: Tx)
  {
    && Due(gas, tx.payload).Some?
    && tx.nonce == NonceOf(l, tx.sender) + 1
    && (tx.sender in l || Min(tx.fee, Due(gas, tx.payload).value) == 0)
  }

  lemma ChargeNonce(l: Ledger, gas: bool, tx: Tx, id: Bytes)
    requires NonNegative(l) && !tx.payload.Unrouted?
    ensures var l' := Charged(l, gas, tx).accounts;
            && NonceOf(l', id) == NonceOf(l, id) + (if id == tx.sender && MeetsLedger(l, gas, tx) then 1 else 0)
            && (id in l || (id == tx.sender && MeetsLedger(l, gas, tx)) ==> id in l')
  {
  }

  /** Whatever fails on fees or in the route, the sender's nonce moves by one exactly when
      the transaction meets it, and no other nonce moves. */
  lemma NonceStep(t: Tables, ctx: Context, tx: Tx, id: Bytes)
    requires NonNegative(t.accounts)
    ensures var l' := Executed(t, ctx, tx).accounts;
            && NonceOf(l', id) == NonceOf(t.accounts, id) + (if id == tx.sender && Meets(t, ctx, tx) then 1 else 0)
            && (id in t.accounts || (id == tx.sender && Meets(t, ctx, tx)) ==> id in l')
  {
    if !tx.payload.Unrouted? {
      hide Executed, Succeeds, Charged, AccountsMove, Supply, MeetsLedger;
      ExecutedShape(t, ctx, tx);
      ChargeIsBounded(t.accounts, ctx.gas, tx);
      ChargeNonce(t.accounts, ctx.gas, tx, id);
      if Succeeds(t, ctx, tx) {
        MoveSupply(Charged(t.accounts, ctx.gas, tx).accounts, tx, Executed(t, ctx, tx).accounts);
      }
    }
  }
}
