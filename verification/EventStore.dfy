/** The event store and what a proposer takes from it (internal/voting/events.go, ProposerTxs in
    internal/txapp/txapp.go). */
module EventStore {
  import opened Wrappers
  import opened TableModel
  import opened Enumerations
  import opened Accounts
  import opened Voting
  import opened Routes
  import opened Execution
  import opened Proposal
  import opened ProcessVotes
  import opened VoteStep
  import opened Refunds
  import opened Runs
  import opened Samples

  method Store(db: Database, reg: Registry, data: Bytes, eventType: string) returns (ok: bool)
    modifies db
    ensures ok <==> ToLower(eventType) in reg
    ensures db.t == Stored(old(db.t), reg, Event(eventType, data))
  {
    if ToLower(eventType) !in reg { return false; }
    var e := Event(eventType, data);
    var id := EventID(e);
    if id in db.t.processed { return true; }
    if id !in db.t.events {
      db.t := db.t.(events := db.t.events[id := e]);
    }
    return true;
  }

  /** What the store holds after an event arrives: everything it held, and the event if its type is
      known in lower case and it was not processed. */
  lemma StoredExactly(t: Tables, reg: Registry, e: Event)
    ensures var u := Stored(t, reg, e);
            && u == t.(events := u.events)
            && (forall id :: id in t.events ==> id in u.events && u.events[id] == t.events[id])
            && (forall id :: id in u.events && id !in t.events ==>
                  id == EventID(e) && u.events[id] == e && ToLower(e.typ) in reg && id !in t.processed)
            && (ToLower(e.typ) in reg && EventID(e) !in t.processed ==> EventID(e) in u.events)
  {
    hide EventID;
  }

  // ---------------------------------------------------------------------
  // Which events share an id
  // ---------------------------------------------------------------------

  /** The id is taken of the type followed by the body, so two events share one exactly when the
      longer type goes on as the other's body does; events of one type never do. */
  lemma SharedIDs(a: Event, b: Event)
    requires |a.typ| <= |b.typ|
    ensures EventID(a) == EventID(b) <==> Ascii(a.typ) <= Ascii(b.typ) && a.body == Ascii(b.typ)[|a.typ|..] + b.body
    ensures a.typ == b.typ ==> (EventID(a) == EventID(b) <==> a == b)
  {
    var s, t := Ascii(a.typ), Ascii(b.typ);
    if s + a.body == t + b.body {
      assert s == (s + a.body)[..|s|] == (t + b.body)[..|s|] == t[..|s|];
      assert a.body == (s + a.body)[|s|..] == (t + b.body)[|s|..] == t[|s|..] + b.body;
    }
    if s <= t && a.body == t[|s|..] + b.body {
      assert t == s + t[|s|..];
      assert s + (t[|s|..] + b.body) == t + b.body;
    }
    if a.typ == b.typ {
      assert t[|s|..] == [] && [] + b.body == b.body;
    }
  }

  /** Type "credit" with a one-byte body, and type "credi" with the letter t in front of it. */
  lemma SharedIDWitness()
    ensures EventID(Event("credit", [7])) == EventID(Event("credi", [116, 7]))
  {
    var s, t := Ascii("credi"), Ascii("credit");
    assert 't' as int == 116;
    assert s == t[..5] && t[5..] == [116];
    assert [116] + [7] == [116, 7];
    SharedIDs(Event("credi", [116, 7]), Event("credit", [7]));
  }

  // ---------------------------------------------------------------------
  // Proposing bodies
  // ---------------------------------------------------------------------

  /** getNewEvents: stored events without a live resolution. */
  function NewEvents(t: Tables): set<UUID>
  {
    set id | id in t.events && id !in t.resolutions
  }

  function EventSize(e: Event, rlp: nat): nat
  {
    |e.typ| + |e.body| + rlp
  }

  function TotalSize(events: seq<Event>, rlp: nat): nat
  {
    if events == [] then 0 else TotalSize(events[..|events| - 1], rlp) + EventSize(events[|events| - 1], rlp)
  }

  /** Distinct stored events that have no live resolution. */
  ghost predicate FromStore(t: Tables, events: seq<Event>)
  {
    && (forall i :: 0 <= i < |events| ==>
          var id := EventID(events[i]); id in NewEvents(t) && t.events[id] == events[i])
    && (forall i, j :: 0 <= i < j < |events| ==> EventID(events[i]) != EventID(events[j]))
  }

  const MAX_BODIES := 50

  /** How many of the listed events fit the budget, taken in order. */
  method Fitting(list: seq<Event>, maxSize: int, rlp: nat) returns (k: nat)
    ensures k <= |list| && k <= MAX_BODIES
    ensures k > 0 ==> TotalSize(list[..k], rlp) <= maxSize
    ensures k < |list| && k < MAX_BODIES ==> TotalSize(list[..k], rlp) + EventSize(list[k], rlp) > maxSize
  {
    var budget := maxSize;
    k := 0;
    while k < |list| && k < MAX_BODIES
      invariant k <= |list| && k <= MAX_BODIES
      invariant budget == maxSize - TotalSize(list[..k], rlp)
      invariant k > 0 ==> 0 <= budget
    {
      var size := EventSize(list[k], rlp);
      if size > budget { return; }
      assert list[..k + 1][..k] == list[..k];
      budget, k := budget - size, k + 1;
    }
  }

  /** `overhead` is the size of an empty vote-body transaction plus the safety buffer, `rlp` the
      encoding overhead of one event. An empty result means no transaction is proposed. */
  method ProposerTxs(t: Tables, gas: bool, proposer: Bytes, txNonce: nat, maxTxsSize: int, overhead: nat, rlp: nat,
                     chainID: string)
    returns (events: seq<Event>, tx: Option<Tx>)
    requires NonNegative(t.accounts) && forall id :: id in t.events ==> EventID(t.events[id]) == id
    ensures tx.None? <==> events == []
    ensures tx.Some? ==>
              && tx.value.sender == proposer && tx.value.payload == VoteBodies(events)
              && tx.value.nonce == (if txNonce == 0 then NonceOf(t.accounts, proposer) + 1 else txNonce)
              && Due(gas, tx.value.payload) == Some(tx.value.fee)
              && TxAcceptable(tx.value, chainID, proposer)
    ensures FromStore(t, events) && |events| <= 50
    ensures events != [] ==> TotalSize(events, rlp) <= maxTxsSize - overhead
    ensures gas && (proposer !in t.accounts || t.accounts[proposer] == Account(0, 0)) ==> events == []
    ensures (gas ==> proposer in t.accounts && t.accounts[proposer] != Account(0, 0)) && |events| < 50 && |events| < |NewEvents(t)| ==>
              exists id :: id in NewEvents(t) && t.events[id] !in events &&
                           TotalSize(events, rlp) + EventSize(t.events[id], rlp) > maxTxsSize - overhead
  {
    hide EventID, EventSize, TotalSize;
    tx := None;
    if gas && (proposer !in t.accounts || t.accounts[proposer] == Account(0, 0)) {
      return [], None;
    }
    var nonce := if txNonce == 0 then NonceOf(t.accounts, proposer) + 1 else txNonce;
    var ids := Enumerate(NewEvents(t));
    CardinalityOfList(ids, NewEvents(t));
    assert forall i :: 0 <= i < |ids| ==> ids[i] in NewEvents(t);
    var list := seq(|ids|, i requires 0 <= i < |ids| && ids[i] in t.events => t.events[ids[i]]);
    assert forall i :: 0 <= i < |ids| ==> EventID(list[i]) == ids[i];
    var k := Fitting(list, maxTxsSize - overhead, rlp);
    events := list[..k];
    if k < |list| && k < MAX_BODIES {
      assert ids[k] in NewEvents(t) && t.events[ids[k]] == list[k];
      assert list[k] !in events;
    }
    if events != [] {
      tx := Some(Tx(proposer, nonce, Due(gas, VoteBodies(events)).value, VoteBodies(events), chainID, true));
    }
  }

  lemma {:induction false} CardinalityOfList<T>(q: seq<T>, s: set<T>)
    requires Enumerates(q, s)
    ensures |q| == |s|
    decreases |q|
  {
    if q != [] {
      var last := q[|q| - 1];
      assert q[..|q| - 1] + [last] == q;
      CardinalityOfList(q[..|q| - 1], s - {last});
    } else {
      assert s == {};
    }
  }

  // ---------------------------------------------------------------------
  // Marking never clashes
  // ---------------------------------------------------------------------

  /** No live resolution that will be recorded has been recorded already. */
  ghost predicate FreshLive(t: Tables)
  {
    forall id :: id in t.resolutions && id in t.processed ==> IsValidatorOrNull(t, id)
  }

  ghost predicate IsValidatorOrNull(t: Tables, id: UUID)
    requires id in t.resolutions
  {
    t.resolutions[id].typ == None || IsValidatorType(TypeName(t, id))
  }

  ghost predicate FreshBodies(t: Tables, tx: Tx)
  {
    tx.payload.VoteBodies? ==>
      forall i :: 0 <= i < |tx.payload.events| ==> EventID(tx.payload.events[i]) !in t.processed
  }

  /** A proposer that takes its bodies from its event store proposes only unprocessed events
      without a live resolution, and its fee covers their refunds. */
  lemma ProposedBodiesAreFresh(t: Tables, reg: Registry, tx: Tx)
    requires Integrity(t, reg) && tx.payload.VoteBodies? && FromStore(t, tx.payload.events)
    ensures FreshBodies(t, tx) && FeeCovers(t, tx)
    ensures forall i :: 0 <= i < |tx.payload.events| ==> EventID(tx.payload.events[i]) !in t.resolutions
  {
    hide EventID;
    forall i | 0 <= i < |tx.payload.events|
      ensures EventID(tx.payload.events[i]) !in t.processed && EventID(tx.payload.events[i]) !in t.resolutions
    {
      assert EventID(tx.payload.events[i]) in NewEvents(t);
    }
  }

  lemma CreatedFresh(t: Tables, reg: Registry, e: Event, expiration: int, proposer: Bytes)
    requires FreshLive(t) && (EventID(e) !in t.processed || IsValidatorType(e.typ))
    ensures FreshLive(Created(t, reg, e, expiration, proposer))
    ensures Created(t, reg, e, expiration, proposer).processed == t.processed
  {
    hide EventID;
  }

  lemma {:induction false} ProposedFresh(t: Tables, ctx: Context, from: Bytes, events: seq<Event>)
    requires FreshLive(t) && Proposed(t, ctx, from, events).Some?
    requires forall i :: 0 <= i < |events| ==> EventID(events[i]) !in t.processed
    ensures FreshLive(Proposed(t, ctx, from, events).value)
    ensures Proposed(t, ctx, from, events).value.processed == t.processed
  {
    hide EventID, Created;
    if events != [] {
      ProposedFresh(t, ctx, from, events[..|events| - 1]);
      var mid, e := Proposed(t, ctx, from, events[..|events| - 1]).value, events[|events| - 1];
      CreatedFresh(mid, ctx.reg, e, ctx.height + ctx.reg[ToLower(e.typ)].period, from);
    }
  }

  lemma FreshFrame(t: Tables, u: Tables)
    requires FreshLive(t) && u.processed == t.processed && u.resolutions == t.resolutions
    ensures FreshLive(u)
  {
  }

  lemma RouteFresh(t: Tables, ctx: Context, tx: Tx)
    requires FreshLive(t) && InTx(t, ctx, tx).Ok? && FreshBodies(t, tx)
    ensures FreshLive(InTx(t, ctx, tx).value) && InTx(t, ctx, tx).value.processed == t.processed
  {
    hide FreshLive, Created, EventID, Voted, Proposed, NotProcessed, Transferred, Pending;
    match tx.payload
    case Join(power) =>
      CreatedFresh(t, ctx.reg, JoinEvent(tx.sender, power), ctx.height + ctx.joinExpiry, tx.sender);
    case Remove(target) =>
      CreatedFresh(t, ctx.reg, RemoveEvent(target), ctx.height + ctx.joinExpiry, tx.sender);
      FreshFrame(Created(t, ctx.reg, RemoveEvent(target), ctx.height + ctx.joinExpiry, tx.sender),
                 InTx(t, ctx, tx).value);
    case VoteIDs(ids) =>
      VotedFrame(t, tx.sender == ctx.self, tx.sender, NotProcessed(t.processed, ids));
      FreshFrame(t, InTx(t, ctx, tx).value);
    case VoteBodies(events) => ProposedFresh(t, ctx, tx.sender, events);
    case Engine(_, _, _) => FreshFrame(t, InTx(t, ctx, tx).value);
    case Transfer(_, _) => FreshFrame(t, InTx(t, ctx, tx).value);
    case Approve(_) => FreshFrame(t, InTx(t, ctx, tx).value);
    case Leave => FreshFrame(t, InTx(t, ctx, tx).value);
    case _ =>
  }

  lemma TxFresh(t: Tables, ctx: Context, tx: Tx)
    requires NonNegative(t.accounts) && FreshLive(t) && FreshBodies(t, tx)
    ensures FreshLive(Executed(t, ctx, tx)) && Executed(t, ctx, tx).processed == t.processed
  {
    hide FreshLive, InTx, Charged;
    FreshFrame(t, AfterSpend(t, ctx, tx));
    if Succeeds(t, ctx, tx) {
      RouteFresh(AfterSpend(t, ctx, tx), ctx, tx);
    }
  }

  /** All vote bodies of a block name events that are not processed when the block starts. */
  ghost predicate HonestBlock(t: Tables, b: Block)
  {
    forall n :: 0 <= n < |b.txs| ==> FreshBodies(t, b.txs[n])
  }

  lemma {:induction false} DeliveredFresh(t: Tables, chain: Chain, b: Block, n: nat)
    requires NonNegative(t.accounts) && FreshLive(t) && HonestBlock(t, b)
    requires Punished(t, b.punish).Some? && n <= |b.txs|
    ensures FreshLive(Delivered(t, chain, b, n)) && Delivered(t, chain, b, n).processed == t.processed
  {
    hide FreshLive, Executed, EventID;
    if n == 0 {
      PunishedFrame(t, b.punish);
      assert b.txs[..0] == [];
      FreshFrame(t, Punished(t, b.punish).value);
    } else {
      DeliveredFresh(t, chain, b, n - 1);
      DeliveredStep(t, chain, b, n);
      assert FreshBodies(t, b.txs[n - 1]);
      TxFresh(Delivered(t, chain, b, n - 1), ContextOf(chain, b), b.txs[n - 1]);
    }
  }

  lemma StepFresh(t: Tables, chain: Chain, s: Step)
    requires Integrity(t, chain.reg) && FreshLive(t)
    requires s.ExecuteBlock? ==> HonestBlock(t, s.block)
    ensures FreshLive(After(t, chain, s))
  {
    match s
    case StoreEvent(e) => FreshFrame(t, Stored(t, chain.reg, e));
    case ExecuteBlock(b) =>
      if Executable(t, chain, b) {
        var d := Delivered(t, chain, b, |b.txs|);
        hide Delivered, Processed, IsConfirmed, Markable;
        DeliveredFresh(t, chain, b, |b.txs|);
        StepRemovesExactly(d, chain.reg, chain.gas, TallyOf(b));
      }
  }

  ghost predicate HonestRun(t: Tables, chain: Chain, steps: seq<Step>)
  {
    forall n :: 0 <= n < |steps| && steps[n].ExecuteBlock? ==> HonestBlock(Run(t, chain, steps[..n]), steps[n].block)
  }

  lemma {:induction false} RunFresh(t: Tables, chain: Chain, steps: seq<Step>)
    requires Integrity(t, chain.reg) && FreshLive(t) && HonestRun(t, chain, steps)
    ensures FreshLive(Run(t, chain, steps))
  {
    hide FreshLive, Integrity, HonestBlock, After;
    if steps != [] {
      var before := steps[..|steps| - 1];
      forall n | 0 <= n < |before| && before[n].ExecuteBlock?
        ensures HonestBlock(Run(t, chain, before[..n]), before[n].block)
      {
        assert before[..n] == steps[..n];
      }
      RunFresh(t, chain, before);
      RunIntegrity(t, chain, before);
      StepFresh(Run(t, chain, before), chain, steps[|steps| - 1]);
    }
  }

  lemma MarkableWhenFresh(t: Tables, reg: Registry, y: Tally)
    requires TallyReady(t, reg, y) && FreshLive(t)
    ensures Markable(t, reg, y) <==>
            forall id :: id in Confirmed(t, reg) && id in Expired(t, y.height) ==> IsValidatorType(TypeName(t, id))
  {
    hide IsConfirmed, Markable;
    MarkableExactly(t, reg, y);
    if forall id :: id in Confirmed(t, reg) && id in Expired(t, y.height) ==> IsValidatorType(TypeName(t, id)) {
      forall id ensures !Unmarkable(t, reg, y.height, id) {
        NullNeverConfirmed(t, reg, id);
        if id in t.resolutions && id in t.processed {
          assert IsValidatorOrNull(t, id);
        }
      }
    } else {
      var id :| id in Confirmed(t, reg) && id in Expired(t, y.height) && !IsValidatorType(TypeName(t, id));
      assert Unmarkable(t, reg, y.height, id);
    }
  }

  lemma NullNeverConfirmed(t: Tables, reg: Registry, id: UUID)
    requires ValidRegistry(reg)
    ensures id in Confirmed(t, reg) ==> id in t.resolutions && t.resolutions[id].typ.Some?
  {
  }

  /** After any run whose vote bodies come from event stores, the next such block can be
      recorded if and only if no resolution of non-validator type is confirmed and expires in
      it: MarkProcessed never meets an id of an earlier block. */
  lemma MarkingNeverClashes(t: Tables, chain: Chain, steps: seq<Step>, b: Block)
    requires Integrity(t, chain.reg) && FreshLive(t) && HonestRun(t, chain, steps)
    requires var u := Run(t, chain, steps);
             && NonNegative(u.accounts) && HonestBlock(u, b) && Punished(u, b.punish).Some?
             && TallyReady(Delivered(u, chain, b, |b.txs|), chain.reg, TallyOf(b))
    ensures var d := Delivered(Run(t, chain, steps), chain, b, |b.txs|);
            Markable(d, chain.reg, TallyOf(b)) <==>
              forall id :: id in Confirmed(d, chain.reg) && id in Expired(d, b.height) ==>
                IsValidatorType(TypeName(d, id))
  {
    hide *;
    RunFresh(t, chain, steps);
    DeliveredFresh(Run(t, chain, steps), chain, b, |b.txs|);
    MarkableWhenFresh(Delivered(Run(t, chain, steps), chain, b, |b.txs|), chain.reg, TallyOf(b));
    assert TallyOf(b).height == b.height by { TallyHeight(b); }
  }

  lemma TallyHeight(b: Block)
    ensures TallyOf(b).height == b.height
  {
  }

  // ---------------------------------------------------------------------
  // Events with a mixed-case type
  // ---------------------------------------------------------------------

  /** A proposed event's resolution gets the NULL type exactly when its type name is not all lower
      case: the configuration is looked up in lower case, the type id by the exact name. */
  lemma NullTypeExactly(t: Tables, ctx: Context, from: Bytes, e: Event)
    requires ValidRegistry(ctx.reg) && EventID(e) !in t.resolutions && ProposedOne(t, ctx, from, e).Some?
    ensures EventID(e) in ProposedOne(t, ctx, from, e).value.resolutions
    ensures ProposedOne(t, ctx, from, e).value.resolutions[EventID(e)].typ == None <==> ToLower(e.typ) != e.typ
  {
    hide EventID;
  }

  ghost predicate NullTyped(t: Tables, id: UUID)
  {
    id in t.resolutions && t.resolutions[id].typ == None
  }

  /** Rows of `resolutions` stay as they are, and nothing is recorded as processed. */
  ghost predicate RowsStay(t: Tables, u: Tables)
  {
    && u.processed == t.processed
    && forall id :: id in t.resolutions ==> id in u.resolutions && u.resolutions[id] == t.resolutions[id]
  }

  lemma {:induction false} ProposedRowsStay(t: Tables, ctx: Context, from: Bytes, events: seq<Event>)
    requires Proposed(t, ctx, from, events).Some?
    ensures RowsStay(t, Proposed(t, ctx, from, events).value)
  {
    hide EventID;
    if events != [] {
      ProposedRowsStay(t, ctx, from, events[..|events| - 1]);
    }
  }

  lemma RouteRowsStay(t: Tables, ctx: Context, tx: Tx)
    requires InTx(t, ctx, tx).Ok?
    ensures RowsStay(t, InTx(t, ctx, tx).value)
  {
    hide Voted, Proposed, NotProcessed, Transferred, EventID;
    match tx.payload
    case VoteIDs(ids) => VotedFrame(t, tx.sender == ctx.self, tx.sender, NotProcessed(t.processed, ids));
    case VoteBodies(events) => ProposedRowsStay(t, ctx, tx.sender, events);
    case _ =>
  }

  lemma TxRowsStay(t: Tables, ctx: Context, tx: Tx)
    requires NonNegative(t.accounts)
    ensures RowsStay(t, Executed(t, ctx, tx))
  {
    hide Charged, InTx, PreTx;
    if Succeeds(t, ctx, tx) {
      RouteRowsStay(AfterSpend(t, ctx, tx), ctx, tx);
    }
  }

  lemma {:induction false} DeliveredRowsStay(t: Tables, chain: Chain, b: Block, n: nat)
    requires NonNegative(t.accounts) && Punished(t, b.punish).Some? && n <= |b.txs|
    ensures RowsStay(t, Delivered(t, chain, b, n))
  {
    hide Executed, Punished;
    if n == 0 {
      assert b.txs[..0] == [];
      PunishedFrame(t, b.punish);
    } else {
      DeliveredRowsStay(t, chain, b, n - 1);
      DeliveredStep(t, chain, b, n);
      TxRowsStay(Delivered(t, chain, b, n - 1), ContextOf(chain, b), b.txs[n - 1]);
    }
  }

  lemma StepKeepsNull(t: Tables, chain: Chain, s: Step, id: UUID)
    requires NullTyped(t, id)
    ensures NullTyped(After(t, chain, s), id)
  {
    if s.ExecuteBlock? && Executable(t, chain, s.block) {
      hide Delivered, Processed, Punished;
      var b := s.block;
      DeliveredRowsStay(t, chain, b, |b.txs|);
      StepRemovesExactly(Delivered(t, chain, b, |b.txs|), chain.reg, chain.gas, TallyOf(b));
      NullNeverConfirmed(Delivered(t, chain, b, |b.txs|), chain.reg, id);
    }
  }

  /** Such a resolution is never confirmed and never expires: it stays through every run. */
  lemma {:induction false} NullTypeStays(t: Tables, chain: Chain, steps: seq<Step>, id: UUID)
    requires NullTyped(t, id)
    ensures NullTyped(Run(t, chain, steps), id)
  {
    hide After;
    if steps != [] {
      NullTypeStays(t, chain, steps[..|steps| - 1], id);
      StepKeepsNull(Run(t, chain, steps[..|steps| - 1]), chain, steps[|steps| - 1], id);
    }
  }

  /** The event store takes an event of type "Credit", and proposing it creates a NULL type. */
  lemma MixedCaseWitness(ctx: Context)
    requires ctx.reg == SAMPLE_REGISTRY
    ensures var t, e := Tables(map[], map[[1] := 1], map[], {}, {}, map[], 0), Event("Credit", [7]);
            && EventID(e) in Stored(t, ctx.reg, e).events
            && ProposedOne(Stored(t, ctx.reg, e), ctx, [1], e).Some?
            && NullTyped(ProposedOne(Stored(t, ctx.reg, e), ctx, [1], e).value, EventID(e))
  {
    hide EventID;
    SampleRegistryValid();
    var t, e := Tables(map[], map[[1] := 1], map[], {}, {}, map[], 0), Event("Credit", [7]);
    assert ToLower("Credit") == "credit";
    assert "Credit"[0] != "credit"[0];
    NullTypeExactly(Stored(t, ctx.reg, e), ctx, [1], e);
  }

  // ---------------------------------------------------------------------
  // Events proposed again after they were processed
  // ---------------------------------------------------------------------

  /** A live resolution of an extension's type whose id is already recorded as processed. */
  ghost predicate Clashing(t: Tables, id: UUID)
  {
    && id in t.resolutions && id in t.processed
    && t.resolutions[id].typ.Some? && !IsValidatorType(t.resolutions[id].typ.value)
  }

  /** Proposing an event without a live resolution makes one exactly if the event was processed
      and its type is spelled in lower case and no validator type. */
  lemma ProposedClashes(t: Tables, ctx: Context, from: Bytes, e: Event)
    requires ValidRegistry(ctx.reg) && EventID(e) !in t.resolutions && ProposedOne(t, ctx, from, e).Some?
    ensures Clashing(ProposedOne(t, ctx, from, e).value, EventID(e)) <==>
            EventID(e) in t.processed && ToLower(e.typ) == e.typ && !IsValidatorType(e.typ)
  {
    hide EventID;
    NullTypeExactly(t, ctx, from, e);
  }

  lemma ClashBlocks(t: Tables, chain: Chain, b: Block, id: UUID)
    requires Clashing(t, id) && Executable(t, chain, b)
    ensures b.height < t.resolutions[id].expiration
    ensures Clashing(AfterBlock(t, chain, b), id)
    ensures AfterBlock(t, chain, b).resolutions[id] == t.resolutions[id]
  {
    hide Delivered, Processed, Punished, IsConfirmed, Markable;
    var d := Delivered(t, chain, b, |b.txs|);
    DeliveredRowsStay(t, chain, b, |b.txs|);
    MarkableExactly(d, chain.reg, TallyOf(b));
    assert !Unmarkable(d, chain.reg, b.height, id);
    StepRemovesExactly(d, chain.reg, chain.gas, TallyOf(b));
  }

  lemma {:induction false} ClashStays(t: Tables, chain: Chain, steps: seq<Step>, id: UUID)
    requires Clashing(t, id)
    ensures Clashing(Run(t, chain, steps), id) && Run(t, chain, steps).resolutions[id] == t.resolutions[id]
  {
    hide Executable, AfterBlock;
    if steps != [] {
      var before, last := steps[..|steps| - 1], steps[|steps| - 1];
      ClashStays(t, chain, before, id);
      if last.ExecuteBlock? && Executable(Run(t, chain, before), chain, last.block) {
        ClashBlocks(Run(t, chain, before), chain, last.block, id);
      }
    }
  }

  /** Such a resolution is not cleaned out when it expires: whatever happens in between, no block
      at or after its expiration can be executed. */
  lemma ClashHalts(t: Tables, chain: Chain, steps: seq<Step>, b: Block, id: UUID)
    requires Clashing(t, id) && t.resolutions[id].expiration <= b.height
    ensures !Executable(Run(t, chain, steps), chain, b)
  {
    hide Executable, AfterBlock, Run;
    ClashStays(t, chain, steps, id);
    if Executable(Run(t, chain, steps), chain, b) {
      ClashBlocks(Run(t, chain, steps), chain, b, id);
    }
  }

  /** Two validators vote an event through at height 2; its proposer proposes it again at 3. */
  lemma ProposedAgainWitness()
    ensures var id := EventID(CREDIT);
            var t, y := CreditTables({(id, [1]), (id, [2])}, {}), Tally(2, map[], [id], []);
            && TallyReady(t, SAMPLE_REGISTRY, y) && Markable(t, SAMPLE_REGISTRY, y)
            && var again := ProposedOne(Processed(t, SAMPLE_REGISTRY, true, y), At(3), [1], CREDIT);
               again.Some? && Clashing(again.value, id) && again.value.resolutions[id].expiration == 14403
  {
    hide EventID, Confirmed, Markable, CreditedAll, AllCredits;
    CreditConfirmed();
    var id := EventID(CREDIT);
    var t, y := CreditTables({(id, [1]), (id, [2])}, {}), Tally(2, map[], [id], []);
    assert Expired(t, 2) == {};
    assert TallyReady(t, SAMPLE_REGISTRY, y);
    MarkableExactly(t, SAMPLE_REGISTRY, y);
    StepRemovesExactly(t, SAMPLE_REGISTRY, true, y);
    assert [id][..0] == [] && ResolvedAll(t, [], map[]) == t;
    assert ToLower("credit") == "credit";
    ProposedClashes(Processed(t, SAMPLE_REGISTRY, true, y), At(3), [1], CREDIT);
  }
}
