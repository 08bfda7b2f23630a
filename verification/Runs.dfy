/** Whole runs of the chain: events arriving, blocks executing, for as long as it takes. */
module Runs {
  import opened Wrappers
  import opened TableModel
  import opened Accounts
  import opened Voting
  import opened Routes
  import opened Execution
  import opened Proposal
  import opened ProcessVotes
  import opened VoteStep

  datatype Chain = Chain(gas: bool, reg: Registry, joinExpiry: int, self: Bytes)

  /** A decided block, with what execution leaves open (see Tally). */
  datatype Block = Block(
    height: int,
    proposer: Bytes,
    punish: seq<(Bytes, int)>,   // misbehaving validators and their new power
    txs: seq<Tx>,
    ext: Extensions,
    conf: seq<UUID>,
    exp: seq<UUID>)

  datatype Step = StoreEvent(event: Event) | ExecuteBlock(block: Block)

  function ContextOf(chain: Chain, b: Block): Context
  {
    Context(chain.gas, chain.reg, b.height, b.proposer, chain.joinExpiry, chain.self)
  }

  function TallyOf(b: Block): Tally
  {
    Tally(b.height, b.ext, b.conf, b.exp)
  }

  ghost function Punished(t: Tables, punish: seq<(Bytes, int)>): Option<Tables>
  {
    if punish == [] then Some(t)
    else
      match Punished(t, punish[..|punish| - 1])
      case None => None
      case Some(u) => PowerSet(u, punish[|punish| - 1].0, punish[|punish| - 1].1)
  }

  lemma {:induction false} PunishedAccounts(t: Tables, punish: seq<(Bytes, int)>)
    requires Punished(t, punish).Some?
    ensures Punished(t, punish).value.accounts == t.accounts
  {
    if punish != [] {
      PunishedAccounts(t, punish[..|punish| - 1]);
    }
  }

  lemma {:induction false} PunishedFrame(t: Tables, punish: seq<(Bytes, int)>)
    requires Punished(t, punish).Some?
    ensures Punished(t, punish).value.resolutions == t.resolutions
    ensures Punished(t, punish).value.processed == t.processed
  {
    if punish != [] {
      PunishedFrame(t, punish[..|punish| - 1]);
    }
  }

  /** The tables after punishments and the first `n` transactions. */
  ghost function Delivered(t: Tables, chain: Chain, b: Block, n: nat): (u: Tables)
    requires NonNegative(t.accounts) && Punished(t, b.punish).Some? && n <= |b.txs|
    ensures NonNegative(u.accounts)
  {
    PunishedAccounts(t, b.punish);
    Before(Punished(t, b.punish).value, ContextOf(chain, b), b.txs, n)
  }

  /** FinalizeBlock gets through: punishments apply and votes process without a key clash. */
  ghost predicate Executable(t: Tables, chain: Chain, b: Block)
  {
    && NonNegative(t.accounts) && Punished(t, b.punish).Some?
    && TallyReady(Delivered(t, chain, b, |b.txs|), chain.reg, TallyOf(b))
    && Markable(Delivered(t, chain, b, |b.txs|), chain.reg, TallyOf(b))
  }

  ghost function AfterBlock(t: Tables, chain: Chain, b: Block): Tables
    requires Executable(t, chain, b)
  {
    Processed(Delivered(t, chain, b, |b.txs|), chain.reg, chain.gas, TallyOf(b))
  }

  /** EventStore.Store: only known types, only unprocessed events, idempotent. */
  function Stored(t: Tables, reg: Registry, e: Event): Tables
  {
    if ToLower(e.typ) !in reg || EventID(e) in t.processed || EventID(e) in t.events then t
    else t.(events := t.events[EventID(e) := e])
  }

  /** A block that cannot be executed changes nothing: its transaction is never committed. */
  ghost function After(t: Tables, chain: Chain, s: Step): Tables
  {
    match s
    case StoreEvent(e) => Stored(t, chain.reg, e)
    case ExecuteBlock(b) => if Executable(t, chain, b) then AfterBlock(t, chain, b) else t
  }

  ghost function Run(t: Tables, chain: Chain, steps: seq<Step>): Tables
  {
    if steps == [] then t else After(Run(t, chain, steps[..|steps| - 1]), chain, steps[|steps| - 1])
  }

  // ---------------------------------------------------------------------
  // Integrity in every reachable state
  // ---------------------------------------------------------------------

  lemma {:induction false} PunishedIntegrity(t: Tables, reg: Registry, punish: seq<(Bytes, int)>)
    requires Integrity(t, reg) && Punished(t, punish).Some?
    ensures Integrity(Punished(t, punish).value, reg)
  {
    if punish != [] {
      PunishedIntegrity(t, reg, punish[..|punish| - 1]);
    }
  }

  lemma {:induction false} VotedIntegrity(t: Tables, reg: Registry, local: bool, from: Bytes, ids: seq<UUID>)
    requires Integrity(t, reg) && Voted(t, local, from, ids).Some?
    ensures Integrity(Voted(t, local, from, ids).value, reg)
  {
    if ids != [] {
      VotedIntegrity(t, reg, local, from, ids[..|ids| - 1]);
    }
  }

  lemma {:induction false} ProposedIntegrity(t: Tables, ctx: Context, from: Bytes, events: seq<Event>)
    requires Integrity(t, ctx.reg) && Proposed(t, ctx, from, events).Some?
    ensures Integrity(Proposed(t, ctx, from, events).value, ctx.reg)
  {
    hide Integrity, Created;
    if events != [] {
      ProposedIntegrity(t, ctx, from, events[..|events| - 1]);
      var mid, e := Proposed(t, ctx, from, events[..|events| - 1]).value, events[|events| - 1];
      var c := Created(mid, ctx.reg, e, ctx.height + ctx.reg[ToLower(e.typ)].period, from);
      CreatedIntegrity(mid, ctx.reg, e, ctx.height + ctx.reg[ToLower(e.typ)].period, from);
      VotedIntegrity(c, ctx.reg, from == ctx.self, from, [EventID(e)]);
      VotedSingle(c, from == ctx.self, from, EventID(e));
    }
  }

  lemma VotedSingle(t: Tables, local: bool, from: Bytes, id: UUID)
    ensures Voted(t, local, from, [id]) == VotedOne(t, local, from, id)
  {
    assert [id][..0] == [];
  }

  lemma JoinIntegrity(t: Tables, ctx: Context, sender: Bytes, power: nat)
    requires Integrity(t, ctx.reg) && Joined(t, ctx, sender, power).Ok?
    ensures Integrity(Joined(t, ctx, sender, power).value, ctx.reg)
  {
    hide Integrity, Created, JoinEvent;
    CreatedIntegrity(t, ctx.reg, JoinEvent(sender, power), ctx.height + ctx.joinExpiry, sender);
  }

  lemma ApprovalIntegrity(t: Tables, reg: Registry, sender: Bytes, candidate: Bytes)
    requires Integrity(t, reg) && JoinApproved(t, sender, candidate).Ok?
    ensures Integrity(JoinApproved(t, sender, candidate).value, reg)
  {
    hide Integrity;
    VoteIntegrity(t, reg, Sole(Pending(t, JOIN, candidate)), sender);
  }

  lemma RemovalIntegrity(t: Tables, ctx: Context, sender: Bytes, target: Bytes)
    requires Integrity(t, ctx.reg) && RemovalVoted(t, ctx, sender, target).Ok?
    ensures Integrity(RemovalVoted(t, ctx, sender, target).value, ctx.reg)
  {
    hide Integrity, RemoveEvent;
    var c := Created(t, ctx.reg, RemoveEvent(target), ctx.height + ctx.joinExpiry, sender);
    CreatedIntegrity(t, ctx.reg, RemoveEvent(target), ctx.height + ctx.joinExpiry, sender);
    VoteIntegrity(c, ctx.reg, EventID(RemoveEvent(target)), sender);
  }

  lemma RouteIntegrity(t: Tables, ctx: Context, tx: Tx)
    requires Integrity(t, ctx.reg) && InTx(t, ctx, tx).Ok?
    ensures Integrity(InTx(t, ctx, tx).value, ctx.reg)
  {
    hide Joined, JoinApproved, RemovalVoted, Voted, Proposed, NotProcessed;
    match tx.payload
    case Transfer(to, amount) =>
    case Join(power) => JoinIntegrity(t, ctx, tx.sender, power);
    case Approve(candidate) => ApprovalIntegrity(t, ctx.reg, tx.sender, candidate);
    case Remove(target) => RemovalIntegrity(t, ctx, tx.sender, target);
    case Leave => PowerIntegrity(t, ctx.reg, tx.sender, 0);
    case VoteIDs(ids) =>
      VotedIntegrity(t, ctx.reg, tx.sender == ctx.self, tx.sender, NotProcessed(t.processed, ids));
    case VoteBodies(events) => ProposedIntegrity(t, ctx, tx.sender, events);
    case _ =>
  }

  lemma IntegrityFrame(t: Tables, reg: Registry, l: Ledger)
    requires Integrity(t, reg) && NonNegative(l)
    ensures Integrity(t.(accounts := l), reg)
  {
  }

  lemma TxIntegrity(t: Tables, ctx: Context, tx: Tx)
    requires Integrity(t, ctx.reg)
    ensures Integrity(Executed(t, ctx, tx), ctx.reg)
  {
    if !tx.payload.Unrouted? {
      hide Integrity, InTx, Charged;
      IntegrityAccounts(t, ctx.reg);
      ChargeIsBounded(t.accounts, ctx.gas, tx);
      IntegrityFrame(t, ctx.reg, Charged(t.accounts, ctx.gas, tx).accounts);
      if Succeeds(t, ctx, tx) {
        RouteIntegrity(AfterSpend(t, ctx, tx), ctx, tx);
      }
    }
  }

  lemma IntegrityAccounts(t: Tables, reg: Registry)
    requires Integrity(t, reg)
    ensures NonNegative(t.accounts) && TypesRegistered(t, reg)
  {
  }

  lemma {:induction false} DeliveredIntegrity(t: Tables, chain: Chain, b: Block, n: nat)
    requires Integrity(t, chain.reg) && Punished(t, b.punish).Some? && n <= |b.txs|
    ensures Integrity(Delivered(t, chain, b, n), chain.reg)
  {
    hide Integrity, Executed;
    IntegrityAccounts(t, chain.reg);
    if n == 0 {
      PunishedIntegrity(t, chain.reg, b.punish);
      assert b.txs[..0] == [];
    } else {
      DeliveredIntegrity(t, chain, b, n - 1);
      DeliveredStep(t, chain, b, n);
      TxIntegrity(Delivered(t, chain, b, n - 1), ContextOf(chain, b), b.txs[n - 1]);
    }
  }

  lemma DeliveredStep(t: Tables, chain: Chain, b: Block, n: nat)
    requires NonNegative(t.accounts) && Punished(t, b.punish).Some? && 0 < n <= |b.txs|
    ensures Delivered(t, chain, b, n) == Executed(Delivered(t, chain, b, n - 1), ContextOf(chain, b), b.txs[n - 1])
  {
    hide Executed;
    assert b.txs[..n][..n - 1] == b.txs[..n - 1];
  }

  lemma StoredIntegrity(t: Tables, reg: Registry, e: Event)
    requires Integrity(t, reg)
    ensures Integrity(Stored(t, reg, e), reg)
  {
    hide EventID;
  }

  /** In every reachable state each vote names a live voter and a live resolution, powers are
      positive, balances are not negative, and no stored event has been processed. */
  lemma {:induction false} RunIntegrity(t: Tables, chain: Chain, steps: seq<Step>)
    requires Integrity(t, chain.reg)
    ensures Integrity(Run(t, chain, steps), chain.reg)
  {
    hide Integrity, Executable, AfterBlock, Stored;
    if steps != [] {
      RunIntegrity(t, chain, steps[..|steps| - 1]);
      var u := Run(t, chain, steps[..|steps| - 1]);
      match steps[|steps| - 1]
      case StoreEvent(e) => StoredIntegrity(u, chain.reg, e);
      case ExecuteBlock(b) => if Executable(u, chain, b) { BlockIntegrity(u, chain, b); }
    }
  }

  lemma BlockIntegrity(t: Tables, chain: Chain, b: Block)
    requires Integrity(t, chain.reg) && Executable(t, chain, b)
    ensures Integrity(AfterBlock(t, chain, b), chain.reg)
  {
    hide Integrity, Processed, Delivered, TallyReady, Markable;
    DeliveredIntegrity(t, chain, b, |b.txs|);
    StepIntegrity(Delivered(t, chain, b, |b.txs|), chain.reg, chain.gas, TallyOf(b));
  }

  /** Approved power never exceeds total power in any reachable state. */
  lemma RunApprovedPower(t: Tables, chain: Chain, steps: seq<Step>, id: UUID)
    requires Integrity(t, chain.reg)
    ensures 0 <= ApprovedPower(Run(t, chain, steps), id) <= TotalPower(Run(t, chain, steps))
  {
    RunIntegrity(t, chain, steps);
    PowerAtMostTotal(Run(t, chain, steps).voters, Voters(Run(t, chain, steps), id));
  }
}
