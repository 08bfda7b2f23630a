/** The token supply over whole runs with gas enabled: every token paid out as a vote refund
    was burned as a fee before. */
module TokenSupply {
  import opened Wrappers
  import opened TableModel
  import opened Sums
  import opened Enumerations
  import opened Accounts
  import opened Voting
  import opened Routes
  import opened Execution
  import opened ProcessVotes
  import opened VoteStep
  import opened Refunds
  import opened Payouts
  import opened Runs

  /** Running totals kept beside the tables: fees attributed to live resolutions, fees burned,
      refunds paid, tokens credited by extensions, and tokens lost in self-transfers. */
  datatype Audit = Audit(paid: Paid, burned: int, refunded: int, minted: int, lost: int)

  /** Every live resolution is covered, the coverage and all refunds so far come out of burned
      fees, and the supply is accounted for to the last token. */
  ghost predicate Balanced(t: Tables, reg: Registry, a: Audit, genesis: int)
  {
    && Integrity(t, reg)
    && Covers(t, a.paid)
    && Sum(a.paid) + a.refunded <= a.burned
    && Supply(t.accounts) == genesis + a.minted + a.refunded - a.burned - a.lost
    && 0 <= a.lost
  }

  // ---------------------------------------------------------------------
  // One transaction
  // ---------------------------------------------------------------------

  ghost function AuditTx(t: Tables, ctx: Context, tx: Tx, a: Audit): Audit
    requires NonNegative(t.accounts)
  {
    if tx.payload.Unrouted? then a
    else
      var ok := Succeeds(t, ctx, tx);
      a.(burned := a.burned + Charged(t.accounts, ctx.gas, tx).spend,
         lost := a.lost + (if ok then SelfTransfer(tx) else 0),
         paid := if ok then PaidFor(t, tx, a.paid) else a.paid)
  }

  /** Coverage looks at resolutions, voters and votes only. */
  lemma CoversFrame(t: Tables, u: Tables, p: Paid)
    requires Covers(t, p) && u.resolutions == t.resolutions && u.voters == t.voters && u.votes == t.votes
    ensures Covers(u, p)
  {
    hide Covers;
    CoversLess(t, u, p);
  }

  lemma SuccessCovered(t: Tables, ctx: Context, tx: Tx, p: Paid)
    requires Integrity(t, ctx.reg) && Covers(t, p) && ctx.gas
    requires Succeeds(t, ctx, tx) && FeeCovers(t, tx)
    ensures Covers(Executed(t, ctx, tx), PaidFor(t, tx, p))
    ensures Sum(PaidFor(t, tx, p)) <= Sum(p) + Charged(t.accounts, ctx.gas, tx).spend
    ensures 0 <= SelfTransfer(tx)
  {
    hide Covers, Integrity, Sum, Charged;
    IntegrityAccounts(t, ctx.reg);
    ChargeIsBounded(t.accounts, ctx.gas, tx);
    var mid := AfterSpend(t, ctx, tx);
    IntegrityFrame(t, ctx.reg, Charged(t.accounts, ctx.gas, tx).accounts);
    CoversFrame(t, mid, p);
    if tx.payload.Transfer? || tx.payload.Engine? {
      CoversFrame(mid, Executed(t, ctx, tx), p);
    } else {
      SamePaid(t, mid, tx, p);
      RouteBacked(mid, ctx, tx, p);
    }
  }

  lemma SamePaid(t: Tables, u: Tables, tx: Tx, p: Paid)
    requires u == t.(accounts := u.accounts)
    ensures PaidFor(u, tx, p) == PaidFor(t, tx, p) && (FeeCovers(u, tx) <==> FeeCovers(t, tx))
  {
    if tx.payload.Approve? {
      assert Pending(u, JOIN, tx.payload.candidate) == Pending(t, JOIN, tx.payload.candidate);
    }
  }

  lemma TxBalanced(t: Tables, ctx: Context, tx: Tx, a: Audit, genesis: int)
    requires Balanced(t, ctx.reg, a, genesis) && ctx.gas && FeeCovers(t, tx)
    ensures Balanced(Executed(t, ctx, tx), ctx.reg, AuditTx(t, ctx, tx, a), genesis)
  {
    hide Covers, Integrity, Sum, Charged, Supply, PaidFor, FeeCovers, InTx;
    IntegrityAccounts(t, ctx.reg);
    TxIntegrity(t, ctx, tx);
    if !tx.payload.Unrouted? {
      ExecuteAllOrSpend(t, ctx, tx);
      if Succeeds(t, ctx, tx) {
        SuccessCovered(t, ctx, tx, a.paid);
      } else {
        CoversFrame(t, Executed(t, ctx, tx), a.paid);
      }
    }
  }

  // ---------------------------------------------------------------------
  // Vote processing
  // ---------------------------------------------------------------------

  /** Tokens credited by the extension resolve functions that succeed. */
  ghost function Minted(t: Tables, conf: seq<UUID>, ext: Extensions): int
    requires forall id :: id in conf ==> id in t.resolutions
  {
    if conf == [] then 0
    else
      var last := conf[|conf| - 1];
      Minted(t, conf[..|conf| - 1], ext) +
      (if IsValidatorType(TypeName(t, last)) || last !in ext then 0 else Sum(ext[last]))
  }

  lemma ResolvedOneSupply(t: Tables, id: UUID, r: Resolution, ext: Extensions)
    ensures Supply(ResolvedOne(t, id, r, ext).accounts) == Supply(t.accounts) +
            (if r.typ == Some(JOIN) || r.typ == Some(REMOVE) || id !in ext then 0 else Sum(ext[id]))
  {
    hide Supply, CreditedAll, Sum;
    if id in ext {
      CreditedAllSupply(t.accounts, ext[id]);
    }
  }

  lemma {:induction false} ResolvedSupply(t: Tables, conf: seq<UUID>, ext: Extensions)
    requires forall id :: id in conf ==> id in t.resolutions
    ensures Supply(ResolvedAll(t, conf, ext).accounts) == Supply(t.accounts) + Minted(t, conf, ext)
  {
    hide Supply, ResolvedOne, Sum;
    if conf != [] {
      var last := conf[|conf| - 1];
      ResolvedSupply(t, conf[..|conf| - 1], ext);
      ResolvedOneSupply(ResolvedAll(t, conf[..|conf| - 1], ext), last, t.resolutions[last], ext);
    }
  }

  ghost function AuditVotes(t: Tables, reg: Registry, y: Tally, a: Audit): Audit
    requires TallyReady(t, reg, y)
  {
    a.(paid := a.paid - Elements(y.conf + y.exp),
       refunded := a.refunded + Sum(AllCredits(t, reg, y)),
       minted := a.minted + Minted(t, y.conf, y.ext))
  }

  /** No resolution is paid twice in the step. */
  ghost predicate NoDoubleRefund(t: Tables, reg: Registry, y: Tally)
    requires TallyReady(t, reg, y)
  {
    forall id :: id in t.resolutions ==> !PaidTwice(t, reg, y, id)
  }

  /** The payout of one step is at most what was paid for the resolutions it removes. */
  lemma PayoutCovered(t: Tables, reg: Registry, y: Tally, p: Paid)
    requires Integrity(t, reg) && Covers(t, p) && TallyReady(t, reg, y) && NoDoubleRefund(t, reg, y)
    ensures Sum(AllCredits(t, reg, y)) + Sum(p - Elements(y.conf + y.exp)) <= Sum(p)
  {
    hide Sum, AllCredits, IsConfirmed, ResolvedAll, PaidTwice, PaidOut, Owed;
    ConfirmedLive(t, reg);
    var gone := Elements(y.conf + y.exp);
    ElementsConcat(y.conf, y.exp);
    var bound := map id | id in gone :: Get(p, id);
    forall id | id in Payout(t, reg, y) ensures Payout(t, reg, y)[id] <= bound[id] {
      DoubleRefundExactly(t, reg, y, id);
    }
    SumLeq(Payout(t, reg, y), bound);
    PayoutByResolution(t, reg, y);
    SumOver(p, gone);
  }

  lemma StepSupplyExactly(t: Tables, reg: Registry, y: Tally)
    requires TallyReady(t, reg, y)
    ensures Supply(Processed(t, reg, true, y).accounts) ==
            Supply(t.accounts) + Minted(t, y.conf, y.ext) + Sum(AllCredits(t, reg, y))
  {
    hide Supply, CreditedAll, Sum, AllCredits, ResolvedAll, IsConfirmed;
    ResolvedSupply(t, y.conf, y.ext);
    CreditedAllSupply(Resolved(t, y).accounts, AllCredits(t, reg, y));
  }

  lemma CoversProcessed(t: Tables, reg: Registry, y: Tally, p: Paid)
    requires Integrity(t, reg) && Covers(t, p) && TallyReady(t, reg, y)
    ensures Covers(Processed(t, reg, true, y), p - Elements(y.conf + y.exp))
  {
    hide AllCredits, ResolvedAll, IsConfirmed, AllMarked, Owed;
    var gone := Elements(y.conf + y.exp);
    ElementsConcat(y.conf, y.exp);
    ConfirmedLive(t, reg);
    ResolvedFrame(t, y.conf, y.ext);
    var u := Processed(t, reg, true, y);
    CoversLess(t, u, p) by {
      forall id | id in u.resolutions ensures Voters(u, id) <= Voters(t, id) {
      }
    }
    forall id | id in u.resolutions ensures Get(p - gone, id) == Get(p, id) {
    }
  }

  lemma VotesBalanced(t: Tables, reg: Registry, y: Tally, a: Audit, genesis: int)
    requires Balanced(t, reg, a, genesis) && TallyReady(t, reg, y)
    requires NoDoubleRefund(t, reg, y)
    ensures Balanced(Processed(t, reg, true, y), reg, AuditVotes(t, reg, y, a), genesis)
  {
    hide Covers, Integrity, Sum, Supply, AllCredits, Processed, Markable, TallyReady;
    StepIntegrity(t, reg, true, y);
    PayoutCovered(t, reg, y, a.paid);
    StepSupplyExactly(t, reg, y);
    CoversProcessed(t, reg, y, a.paid);
  }

  // ---------------------------------------------------------------------
  // Blocks and runs
  // ---------------------------------------------------------------------

  ghost function AuditDelivered(t: Tables, chain: Chain, b: Block, n: nat, a: Audit): Audit
    requires NonNegative(t.accounts) && Punished(t, b.punish).Some? && n <= |b.txs|
  {
    if n == 0 then a
    else AuditTx(Delivered(t, chain, b, n - 1), ContextOf(chain, b), b.txs[n - 1], AuditDelivered(t, chain, b, n - 1, a))
  }

  /** What a block has to satisfy for its refunds to be covered: each fee covers the refunds it
      creates, and no resolution is paid twice. */
  ghost predicate RefundSafe(t: Tables, chain: Chain, b: Block)
    requires Executable(t, chain, b)
  {
    && (forall n :: 0 <= n < |b.txs| ==> FeeCovers(Delivered(t, chain, b, n), b.txs[n]))
    && NoDoubleRefund(Delivered(t, chain, b, |b.txs|), chain.reg, TallyOf(b))
  }

  lemma {:induction false} PunishedBalanced(t: Tables, reg: Registry, punish: seq<(Bytes, int)>, a: Audit, genesis: int)
    requires Balanced(t, reg, a, genesis) && Punished(t, punish).Some?
    ensures Balanced(Punished(t, punish).value, reg, a, genesis)
  {
    hide Covers, Integrity, Sum, Supply, PowerSet;
    if punish != [] {
      var mid := Punished(t, punish[..|punish| - 1]).value;
      PunishedBalanced(t, reg, punish[..|punish| - 1], a, genesis);
      CoversPower(mid, reg, a.paid, punish[|punish| - 1].0, punish[|punish| - 1].1);
      PunishedAccounts(t, punish[..|punish| - 1]);
      PunishedAccounts(t, punish);
    }
  }

  lemma {:induction false} DeliveredBalanced(t: Tables, chain: Chain, b: Block, n: nat, a: Audit, genesis: int)
    requires Balanced(t, chain.reg, a, genesis) && chain.gas && NonNegative(t.accounts)
    requires Punished(t, b.punish).Some? && n <= |b.txs|
    requires forall i :: 0 <= i < n ==> FeeCovers(Delivered(t, chain, b, i), b.txs[i])
    ensures Balanced(Delivered(t, chain, b, n), chain.reg, AuditDelivered(t, chain, b, n, a), genesis)
  {
    hide Balanced, Executed, FeeCovers, AuditTx;
    if n == 0 {
      PunishedBalanced(t, chain.reg, b.punish, a, genesis);
      assert b.txs[..0] == [];
    } else {
      DeliveredBalanced(t, chain, b, n - 1, a, genesis);
      DeliveredStep(t, chain, b, n);
      TxBalanced(Delivered(t, chain, b, n - 1), ContextOf(chain, b), b.txs[n - 1],
                 AuditDelivered(t, chain, b, n - 1, a), genesis);
    }
  }

  ghost function AuditStep(t: Tables, chain: Chain, s: Step, a: Audit): Audit
  {
    match s
    case StoreEvent(_) => a
    case ExecuteBlock(b) =>
      if Executable(t, chain, b)
      then AuditVotes(Delivered(t, chain, b, |b.txs|), chain.reg, TallyOf(b), AuditDelivered(t, chain, b, |b.txs|, a))
      else a
  }

  ghost predicate SafeStep(t: Tables, chain: Chain, s: Step)
  {
    s.ExecuteBlock? && Executable(t, chain, s.block) ==> RefundSafe(t, chain, s.block)
  }

  lemma StepBalanced(t: Tables, chain: Chain, s: Step, a: Audit, genesis: int)
    requires Balanced(t, chain.reg, a, genesis) && chain.gas && SafeStep(t, chain, s)
    ensures Balanced(After(t, chain, s), chain.reg, AuditStep(t, chain, s, a), genesis)
  {
    match s
    case StoreEvent(e) =>
      hide Covers, Integrity, Sum, Supply, EventID;
      StoredIntegrity(t, chain.reg, e);
      CoversFrame(t, Stored(t, chain.reg, e), a.paid);
    case ExecuteBlock(b) =>
      if Executable(t, chain, b) {
        hide Balanced, Delivered, Processed, AuditVotes, AuditDelivered, TallyReady, Markable, FeeCovers, NoDoubleRefund;
        DeliveredBalanced(t, chain, b, |b.txs|, a, genesis);
        VotesBalanced(Delivered(t, chain, b, |b.txs|), chain.reg, TallyOf(b),
                      AuditDelivered(t, chain, b, |b.txs|, a), genesis);
      }
  }

  ghost function AuditRun(t: Tables, chain: Chain, steps: seq<Step>, a: Audit): Audit
  {
    if steps == [] then a
    else
      var before := steps[..|steps| - 1];
      AuditStep(Run(t, chain, before), chain, steps[|steps| - 1], AuditRun(t, chain, before, a))
  }

  ghost predicate SafeRun(t: Tables, chain: Chain, steps: seq<Step>)
  {
    forall n :: 0 <= n < |steps| ==> SafeStep(Run(t, chain, steps[..n]), chain, steps[n])
  }

  lemma {:induction false} RunBalanced(t: Tables, chain: Chain, steps: seq<Step>, a: Audit, genesis: int)
    requires Balanced(t, chain.reg, a, genesis) && chain.gas && SafeRun(t, chain, steps)
    ensures Balanced(Run(t, chain, steps), chain.reg, AuditRun(t, chain, steps, a), genesis)
  {
    hide Balanced, SafeStep, After, AuditStep;
    if steps != [] {
      var before := steps[..|steps| - 1];
      forall n | 0 <= n < |before| ensures SafeStep(Run(t, chain, before[..n]), chain, before[n]) {
        assert before[..n] == steps[..n];
      }
      RunBalanced(t, chain, before, a, genesis);
      StepBalanced(Run(t, chain, before), chain, steps[|steps| - 1], AuditRun(t, chain, before, a), genesis);
    }
  }

  const OPENING := Audit(map[], 0, 0, 0, 0)

  /** The theorem: from any genesis without open resolutions, after any run with gas enabled,
      what was paid for each live resolution covers its refund, all vote refunds ever paid are
      at most the fees ever burned, and the supply never exceeds the genesis supply plus what
      extensions credited. */
  lemma RefundsAlwaysBacked(t: Tables, chain: Chain, steps: seq<Step>)
    requires Integrity(t, chain.reg) && t.resolutions == map[] && chain.gas && SafeRun(t, chain, steps)
    ensures var u, a := Run(t, chain, steps), AuditRun(t, chain, steps, OPENING);
            && (forall id :: id in u.resolutions ==> Owed(u, id) <= Get(a.paid, id))
            && Sum(a.paid) + a.refunded <= a.burned
            && a.refunded <= a.burned
            && Supply(u.accounts) <= Supply(t.accounts) + a.minted
  {
    assert Balanced(t, chain.reg, OPENING, Supply(t.accounts)) by {
      NoKeys<UUID>();
    }
    RunBalanced(t, chain, steps, OPENING, Supply(t.accounts));
    SumNonNegative(AuditRun(t, chain, steps, OPENING).paid);
  }
}
