/** When each transaction succeeds and exactly what it then does (the routes of
    internal/txapp/routes.go behind checkAndSpend in internal/txapp/txapp.go). Conditions and
    effects are written out in fields of the transaction and rows of the tables. */
module RouteEffects {
  import opened Wrappers
  import opened TableModel
  import opened Enumerations
  import opened Accounts
  import opened PowerRequest
  import opened Voting
  import opened Routes
  import opened Execution

  function BalanceOf(l: Ledger, id: Bytes): int
  {
    if id in l then l[id].balance else 0
  }

  // ---------------------------------------------------------------------
  // Prices and charges
  // ---------------------------------------------------------------------

  function AllBytes(events: seq<Event>): seq<byte>
  {
    if events == [] then [] else AllBytes(events[..|events| - 1]) + events[|events| - 1].body
  }

  lemma {:induction false} BodyBytesCounts(events: seq<Event>)
    ensures BodyBytes(events) == |AllBytes(events)|
  {
    if events != [] {
      BodyBytesCounts(events[..|events| - 1]);
    }
  }

  /** The price list, in the units of its comments: a dataset costs 500 actions, an action 200
      drops; joining, approving and leaving cost as much as a drop; votes are priced by the byte,
      an id being 16. */
  lemma PriceList(p: Payload)
    ensures p.Engine? ==> Price(p) == Some(match p.kind
                                           case Deploy => 1_000_000_000_000_000_000
                                           case Action => 1_000_000_000_000_000_000 / 500
                                           case Drop => 1_000_000_000_000_000_000 / 500 / 200)
    ensures p.Transfer? || p == Malformed(KTransfer) ==> Price(p) == Some(210_000)
    ensures p.Join? || p.Approve? || p.Leave? || p == Malformed(KJoin) || p == Malformed(KApprove) ==>
              Price(p) == Some(10_000_000_000_000)
    ensures p.Remove? || p == Malformed(KRemove) ==> Price(p) == Some(100_000)
    ensures p.VoteIDs? ==> Price(p) == Some(1000 * (16 * |p.ids|))
    ensures p.VoteBodies? ==> Price(p) == Some(1000 * |AllBytes(p.events)|)
    ensures Price(p) == None <==> p.Unrouted? || p == Malformed(KVoteIDs) || p == Malformed(KVoteBodies)
  {
    if p.VoteBodies? {
      BodyBytesCounts(p.events);
    }
  }

  /** The transaction carries its sender's next nonce, offers at least the price, and the sender
      has that much (without a row: nothing, and nothing is due). */
  ghost predicate PaysInFull(l: Ledger, gas: bool, tx: Tx)
  {
    && !tx.payload.Unrouted?
    && (gas ==> Price(tx.payload).Some?)
    && tx.nonce == NonceOf(l, tx.sender) + 1
    && (gas ==> Price(tx.payload).value <= tx.fee && Price(tx.payload).value <= BalanceOf(l, tx.sender))
  }

  /** With its nonce met and a price to pay, a sender with a row is charged exactly the smallest of
      fee, price and balance; otherwise nobody is charged anything. */
  lemma ChargeExactly(l: Ledger, gas: bool, tx: Tx)
    requires NonNegative(l)
    ensures var c, price := Charged(l, gas, tx), if gas then Price(tx.payload) else Some(0);
            if price.Some? && tx.nonce == NonceOf(l, tx.sender) + 1 && (tx.sender in l || Min(tx.fee, price.value) == 0)
            then && c.spend == Min(Min(tx.fee, price.value), BalanceOf(l, tx.sender))
                 && c.accounts == l[tx.sender := Account(BalanceOf(l, tx.sender) - c.spend, tx.nonce)]
                 && (c.code == CodeOk <==> price.value <= tx.fee && price.value <= BalanceOf(l, tx.sender))
            else c.spend == 0 && c.accounts == l && c.code != CodeOk
  {
  }

  lemma ChargedInFull(l: Ledger, gas: bool, tx: Tx)
    requires NonNegative(l) && !tx.payload.Unrouted?
    ensures Charged(l, gas, tx).code == CodeOk <==> PaysInFull(l, gas, tx)
    ensures PaysInFull(l, gas, tx) ==> Charged(l, gas, tx).spend == if gas then Price(tx.payload).value else 0
  {
    ChargeExactly(l, gas, tx);
  }

  // ---------------------------------------------------------------------
  // Transfers
  // ---------------------------------------------------------------------

  /** A transfer to another account succeeds exactly when the fee is paid and the amount is then
      still there; the receiver gains the amount, the sender loses it and the price, and no other
      row and no other table changes. */
  lemma TransferTxExactly(t: Tables, ctx: Context, tx: Tx, to: Bytes, amt: int)
    requires NonNegative(t.accounts) && tx.payload == Transfer(to, Some(amt)) && to != tx.sender
    ensures var price := if ctx.gas then 210_000 else 0;
            && (Succeeds(t, ctx, tx) <==>
                  PaysInFull(t.accounts, ctx.gas, tx) && 0 <= amt && price + amt <= BalanceOf(t.accounts, tx.sender))
            && (Succeeds(t, ctx, tx) ==>
                  var u := Executed(t, ctx, tx);
                  && u == t.(accounts := u.accounts)
                  && BalanceOf(u.accounts, to) == BalanceOf(t.accounts, to) + amt
                  && BalanceOf(u.accounts, tx.sender) == BalanceOf(t.accounts, tx.sender) - amt - price
                  && NonceOf(u.accounts, to) == NonceOf(t.accounts, to)
                  && NonceOf(u.accounts, tx.sender) == tx.nonce
                  && forall k :: k in t.accounts && k != to && k != tx.sender ==>
                                   k in u.accounts && u.accounts[k] == t.accounts[k])
  {
    hide Charged, Transferred;
    ChargedInFull(t.accounts, ctx.gas, tx);
    ChargeExactly(t.accounts, ctx.gas, tx);
    TransferExactly(Charged(t.accounts, ctx.gas, tx).accounts, tx.sender, to, amt);
  }

  // ---------------------------------------------------------------------
  // Validators coming and going
  // ---------------------------------------------------------------------

  /** A transaction that succeeds leaves the rest of the tables after the charge. */
  ghost function AfterFee(t: Tables, ctx: Context, tx: Tx): Tables
    requires NonNegative(t.accounts)
  {
    t.(accounts := Executed(t, ctx, tx).accounts)
  }

  /** Leaving removes the sender, all its votes, and nothing else. */
  lemma LeaveExactly(t: Tables, ctx: Context, tx: Tx)
    requires NonNegative(t.accounts) && tx.payload == Leave
    ensures Succeeds(t, ctx, tx) <==> PaysInFull(t.accounts, ctx.gas, tx) && tx.sender in t.voters
    ensures Succeeds(t, ctx, tx) ==>
              var u := Executed(t, ctx, tx);
              && u == AfterFee(t, ctx, tx).(voters := u.voters, votes := u.votes)
              && (forall v :: v in u.voters <==> v in t.voters && v != tx.sender)
              && (forall v :: v in u.voters ==> u.voters[v] == t.voters[v])
              && (forall v :: v in u.votes <==> v in t.votes && v.1 != tx.sender)
  {
    hide Charged;
    ChargedInFull(t.accounts, ctx.gas, tx);
  }

  /** The only live join request of a candidate. */
  ghost predicate OnlyRequest(t: Tables, candidate: Bytes, id: UUID)
  {
    && IsRequest(t, candidate, id)
    && forall x :: IsRequest(t, candidate, x) ==> x == id
  }

  ghost predicate IsRequest(t: Tables, candidate: Bytes, id: UUID)
  {
    id in t.resolutions && t.resolutions[id].typ == Some(JOIN) && t.resolutions[id].proposer == candidate
  }

  lemma OneRequest(t: Tables, candidate: Bytes)
    ensures |Pending(t, JOIN, candidate)| == 1 <==> exists id :: OnlyRequest(t, candidate, id)
    ensures forall id :: OnlyRequest(t, candidate, id) ==> Pending(t, JOIN, candidate) == {id}
  {
    var pending := Pending(t, JOIN, candidate);
    forall id ensures id in pending <==> IsRequest(t, candidate, id) {
    }
    if |pending| == 1 {
      var id :| id in pending;
      assert |pending - {id}| == 0;
      forall x | IsRequest(t, candidate, x) ensures x == id {
        assert x in pending && x !in pending - {id};
      }
      assert OnlyRequest(t, candidate, id);
    }
    forall id | OnlyRequest(t, candidate, id) ensures pending == {id} {
    }
  }

  /** An approval is a validator's vote for another's single request. */
  lemma ApproveExactly(t: Tables, ctx: Context, tx: Tx, candidate: Bytes)
    requires NonNegative(t.accounts) && tx.payload == Approve(candidate)
    ensures Succeeds(t, ctx, tx) <==>
            && PaysInFull(t.accounts, ctx.gas, tx) && candidate != tx.sender && tx.sender in t.voters
            && exists id :: OnlyRequest(t, candidate, id)
    ensures Succeeds(t, ctx, tx) ==>
              var u := Executed(t, ctx, tx);
              && u == AfterFee(t, ctx, tx).(votes := u.votes)
              && forall id :: OnlyRequest(t, candidate, id) ==> u.votes == t.votes + {(id, tx.sender)}
  {
    hide Charged, OnlyRequest;
    ChargedInFull(t.accounts, ctx.gas, tx);
    OneRequest(t, candidate);
    SamePending(t, AfterSpend(t, ctx, tx), candidate);
  }

  lemma SamePending(t: Tables, u: Tables, candidate: Bytes)
    requires u.resolutions == t.resolutions
    ensures Pending(u, JOIN, candidate) == Pending(t, JOIN, candidate)
    ensures |Pending(t, JOIN, candidate)| == 0 <==> Pending(t, JOIN, candidate) == {}
  {
  }

  lemma EventsDecode(who: Bytes, power: nat)
    ensures UnmarshalBinary(JoinEvent(who, power).body) == Some(UpdatePowerRequest(who, ToInt64(power)))
    ensures UnmarshalBinary(RemoveEvent(who).body) == Some(UpdatePowerRequest(who, 0))
  {
    hide UnmarshalBinary, MarshalBinary;
    MarshalRoundTrip(UpdatePowerRequest(who, ToInt64(power)));
    MarshalRoundTrip(UpdatePowerRequest(who, 0));
  }

  lemma NoRequest(t: Tables, who: Bytes)
    ensures Pending(t, JOIN, who) == {} <==> forall id :: !IsRequest(t, who, id)
  {
    if Pending(t, JOIN, who) == {} {
      forall id ensures !IsRequest(t, who, id) {
        assert id !in Pending(t, JOIN, who);
      }
    } else {
      var id :| id in Pending(t, JOIN, who);
      assert IsRequest(t, who, id);
    }
  }

  /** A join request is taken from those who are no validators and have none pending. */
  lemma JoinExactly(t: Tables, ctx: Context, tx: Tx, power: nat)
    requires NonNegative(t.accounts) && tx.payload == Join(power)
    ensures Succeeds(t, ctx, tx) <==>
            PaysInFull(t.accounts, ctx.gas, tx) && tx.sender !in t.voters && forall id :: !IsRequest(t, tx.sender, id)
    ensures Succeeds(t, ctx, tx) ==>
              var u, id := Executed(t, ctx, tx), EventID(JoinEvent(tx.sender, power));
              && u == AfterFee(t, ctx, tx).(resolutions := u.resolutions)
              && u.resolutions.Keys == t.resolutions.Keys + {id}
              && (forall x :: x in t.resolutions ==> u.resolutions[x] == t.resolutions[x])
              && (id !in t.resolutions ==>
                    && UnmarshalBinary(u.resolutions[id].body) == Some(UpdatePowerRequest(tx.sender, ToInt64(power)))
                    && u.resolutions[id].typ == (if JOIN in ctx.reg then Some(JOIN) else None)
                    && u.resolutions[id].proposer == tx.sender
                    && u.resolutions[id].expiration == ctx.height + ctx.joinExpiry)
  {
    EventsDecode(tx.sender, power);
    hide Charged, EventID, MarshalBinary, UnmarshalBinary, Pending, IsRequest;
    ChargedInFull(t.accounts, ctx.gas, tx);
    NoRequest(t, tx.sender);
    SamePending(t, AfterSpend(t, ctx, tx), tx.sender);
  }

  /** A removal vote opens the resolution if there is none, and is a vote for it either way. */
  lemma RemoveExactly(t: Tables, ctx: Context, tx: Tx, target: Bytes)
    requires NonNegative(t.accounts) && tx.payload == Remove(target)
    ensures Succeeds(t, ctx, tx) <==> PaysInFull(t.accounts, ctx.gas, tx) && tx.sender in t.voters
    ensures Succeeds(t, ctx, tx) ==>
              var u, id := Executed(t, ctx, tx), EventID(RemoveEvent(target));
              && u == AfterFee(t, ctx, tx).(resolutions := u.resolutions, votes := u.votes)
              && u.resolutions.Keys == t.resolutions.Keys + {id} && u.votes == t.votes + {(id, tx.sender)}
              && (forall x :: x in t.resolutions ==> u.resolutions[x] == t.resolutions[x])
              && (id !in t.resolutions ==>
                    && UnmarshalBinary(u.resolutions[id].body) == Some(UpdatePowerRequest(target, 0))
                    && u.resolutions[id].typ == (if REMOVE in ctx.reg then Some(REMOVE) else None)
                    && u.resolutions[id].proposer == tx.sender
                    && u.resolutions[id].expiration == ctx.height + ctx.joinExpiry)
  {
    EventsDecode(target, 0);
    hide Charged, EventID, MarshalBinary, UnmarshalBinary;
    ChargedInFull(t.accounts, ctx.gas, tx);
  }

  // ---------------------------------------------------------------------
  // Votes
  // ---------------------------------------------------------------------

  /** Filtering goes id by id: order and repetitions stay. */
  lemma {:induction false} NotProcessedConcat(done: set<UUID>, a: seq<UUID>, b: seq<UUID>)
    ensures NotProcessed(done, a + b) == NotProcessed(done, a) + NotProcessed(done, b)
  {
    hide NotProcessed;
    if b == [] {
      assert NotProcessed(done, b) == [] by { NothingToFilter(done); }
      assert a + b == a;
    } else {
      var front, last := b[..|b| - 1], b[|b| - 1];
      NotProcessedConcat(done, a, front);
      NotProcessedStep(done, a + b);
      NotProcessedStep(done, b);
      assert (a + b)[..|a + b| - 1] == a + front && (a + b)[|a + b| - 1] == last;
      var more := if last in done then [] else [last];
      assert NotProcessed(done, a) + NotProcessed(done, front) + more == NotProcessed(done, a) + (NotProcessed(done, front) + more);
    }
  }

  lemma NothingToFilter(done: set<UUID>)
    ensures NotProcessed(done, []) == []
  {
  }

  lemma NotProcessedStep(done: set<UUID>, ids: seq<UUID>)
    requires ids != []
    ensures var last := ids[|ids| - 1];
            NotProcessed(done, ids) == NotProcessed(done, ids[..|ids| - 1]) + (if last in done then [] else [last])
  {
  }

  lemma {:induction false} VotedExactly(t: Tables, local: bool, from: Bytes, ids: seq<UUID>)
    requires from in t.voters
    ensures Voted(t, local, from, ids).Some? <==> Elements(ids) <= t.resolutions.Keys
    ensures Voted(t, local, from, ids).Some? ==>
              var u := Voted(t, local, from, ids).value;
              && u == t.(votes := u.votes, events := u.events)
              && (forall v :: v in u.votes <==> v in t.votes || (v.1 == from && v.0 in Elements(ids)))
              && u.events == if local then t.events - Elements(ids) else t.events
  {
    if ids != [] {
      VotedExactly(t, local, from, ids[..|ids| - 1]);
      assert ids == ids[..|ids| - 1] + [ids[|ids| - 1]];
      ElementsAppend(ids[..|ids| - 1], ids[|ids| - 1]);
    }
  }

  /** A validator's vote for ids: every one of them that is not processed has to be live, and gets
      the sender's vote; the node's own events among them are forgotten. */
  lemma VoteIDsExactly(t: Tables, ctx: Context, tx: Tx, ids: seq<UUID>)
    requires NonNegative(t.accounts) && tx.payload == VoteIDs(ids)
    ensures Succeeds(t, ctx, tx) <==>
            && PaysInFull(t.accounts, ctx.gas, tx) && tx.sender in t.voters
            && forall id :: id in ids && id !in t.processed ==> id in t.resolutions
    ensures Succeeds(t, ctx, tx) ==>
              var u := Executed(t, ctx, tx);
              && u == AfterFee(t, ctx, tx).(votes := u.votes, events := u.events)
              && (forall v :: v in u.votes <==>
                    v in t.votes || (v.1 == tx.sender && v.0 in ids && v.0 !in t.processed))
              && (forall id :: id in u.events <==>
                    id in t.events && !(tx.sender == ctx.self && id in ids && id !in t.processed))
  {
    hide Charged, Voted, NotProcessed;
    ChargedInFull(t.accounts, ctx.gas, tx);
    var p := AfterSpend(t, ctx, tx);
    if tx.sender in t.voters {
      VotedExactly(p, tx.sender == ctx.self, tx.sender, NotProcessed(t.processed, ids));
    }
  }

  lemma ProposedOneExactly(t: Tables, ctx: Context, from: Bytes, e: Event)
    requires from in t.voters
    ensures ProposedOne(t, ctx, from, e).Some? <==> ToLower(e.typ) in ctx.reg
    ensures ProposedOne(t, ctx, from, e).Some? ==>
              var u, id := ProposedOne(t, ctx, from, e).value, EventID(e);
              && u == t.(resolutions := u.resolutions, votes := t.votes + {(id, from)}, events := u.events)
              && u.resolutions.Keys == t.resolutions.Keys + {id}
              && (forall x :: x in t.resolutions ==> u.resolutions[x] == t.resolutions[x])
              && u.events == if from == ctx.self then t.events - {id} else t.events
  {
    hide EventID;
  }

  /** The resolutions that a list of bodies is about. */
  function Mentioned(events: seq<Event>): set<UUID>
  {
    set e | e in events :: EventID(e)
  }

  lemma MentionedStep(events: seq<Event>)
    requires events != []
    ensures Mentioned(events) == Mentioned(events[..|events| - 1]) + {EventID(events[|events| - 1])}
    ensures forall e :: e in events <==> e in events[..|events| - 1] || e == events[|events| - 1]
  {
    assert events == events[..|events| - 1] + [events[|events| - 1]];
  }

  ghost predicate AllTyped(ctx: Context, events: seq<Event>)
  {
    forall e :: e in events ==> ToLower(e.typ) in ctx.reg
  }

  lemma {:induction false} ProposedExactly(t: Tables, ctx: Context, from: Bytes, events: seq<Event>)
    requires from in t.voters
    ensures Proposed(t, ctx, from, events).Some? <==> AllTyped(ctx, events)
    ensures Proposed(t, ctx, from, events).Some? ==>
              var u := Proposed(t, ctx, from, events).value;
              && u == t.(resolutions := u.resolutions, votes := u.votes, events := u.events)
              && u.resolutions.Keys == t.resolutions.Keys + Mentioned(events)
              && (forall id :: id in t.resolutions ==> u.resolutions[id] == t.resolutions[id])
              && (forall v :: v in u.votes <==> v in t.votes || (v.1 == from && v.0 in Mentioned(events)))
              && u.events == if from == ctx.self then t.events - Mentioned(events) else t.events
  {
    hide EventID, ProposedOne, Mentioned;
    if events == [] {
      assert Mentioned(events) == {} by { NoneMentioned(); }
    } else {
      var front, last := events[..|events| - 1], events[|events| - 1];
      ProposedExactly(t, ctx, from, front);
      MentionedStep(events);
      if Proposed(t, ctx, from, front).Some? {
        ProposedOneExactly(Proposed(t, ctx, from, front).value, ctx, from, last);
      }
    }
  }

  lemma NoneMentioned()
    ensures Mentioned([]) == {}
  {
  }

  /** What a proposed event's resolution holds when it is new: of several events with one id, the
      first. */
  lemma {:induction false} ProposedRow(t: Tables, ctx: Context, from: Bytes, events: seq<Event>, id: UUID)
    requires Proposed(t, ctx, from, events).Some? && id in Proposed(t, ctx, from, events).value.resolutions
    ensures id !in t.resolutions ==>
              var r := Proposed(t, ctx, from, events).value.resolutions[id];
              exists e :: e in events && EventID(e) == id && NewRow(ctx, from, e, r)
  {
    hide EventID;
    if events != [] && id !in t.resolutions {
      var front, last := events[..|events| - 1], events[|events| - 1];
      var mid := Proposed(t, ctx, from, front).value;
      if id in mid.resolutions {
        ProposedRow(t, ctx, from, front, id);
        var e :| e in front && EventID(e) == id && NewRow(ctx, from, e, mid.resolutions[id]);
        assert e in events;
      } else {
        assert last in events;
      }
    }
  }

  ghost predicate NewRow(ctx: Context, from: Bytes, e: Event, r: Resolution)
  {
    && ToLower(e.typ) in ctx.reg
    && r.body == e.body && r.proposer == from && r.expiration == ctx.height + ctx.reg[ToLower(e.typ)].period
    && r.typ == if e.typ in ctx.reg then Some(e.typ) else None
  }

  /** Without a validator behind it, no event is proposed. */
  lemma {:induction false} StrangerProposesNothing(t: Tables, ctx: Context, from: Bytes, events: seq<Event>)
    requires from !in t.voters
    ensures Proposed(t, ctx, from, events).Some? <==> events == []
  {
    if events != [] {
      StrangerProposesNothing(t, ctx, from, events[..|events| - 1]);
    }
  }

  /** Vote bodies come from the block's proposer, a validator; each opens a resolution if there is
      none and is a vote for it. */
  lemma VoteBodiesExactly(t: Tables, ctx: Context, tx: Tx, events: seq<Event>)
    requires NonNegative(t.accounts) && tx.payload == VoteBodies(events)
    ensures Succeeds(t, ctx, tx) <==>
            && PaysInFull(t.accounts, ctx.gas, tx) && tx.sender == ctx.proposer
            && (events == [] || tx.sender in t.voters) && AllTyped(ctx, events)
    ensures Succeeds(t, ctx, tx) ==>
              var u := Executed(t, ctx, tx);
              && u == AfterFee(t, ctx, tx).(resolutions := u.resolutions, votes := u.votes, events := u.events)
              && u.resolutions.Keys == t.resolutions.Keys + Mentioned(events)
              && (forall id :: id in t.resolutions ==> u.resolutions[id] == t.resolutions[id])
              && (forall id :: id in u.resolutions && id !in t.resolutions ==>
                    exists e :: e in events && EventID(e) == id && NewRow(ctx, tx.sender, e, u.resolutions[id]))
              && (forall v :: v in u.votes <==> v in t.votes || (v.1 == tx.sender && v.0 in Mentioned(events)))
              && u.events == if tx.sender == ctx.self then t.events - Mentioned(events) else t.events
  {
    hide Charged, EventID, Proposed, NewRow, Mentioned;
    ChargedInFull(t.accounts, ctx.gas, tx);
    var p := AfterSpend(t, ctx, tx);
    if tx.sender in t.voters {
      ProposedExactly(p, ctx, tx.sender, events);
    } else {
      StrangerProposesNothing(p, ctx, tx.sender, events);
      if events == [] {
        NothingProposed(p, ctx, tx.sender);
        NoneMentioned();
      }
    }
    if Succeeds(t, ctx, tx) {
      forall id | id in Executed(t, ctx, tx).resolutions && id !in t.resolutions
        ensures exists e :: e in events && EventID(e) == id && NewRow(ctx, tx.sender, e, Executed(t, ctx, tx).resolutions[id])
      {
        ProposedRow(p, ctx, tx.sender, events, id);
      }
    }
  }

  lemma NothingProposed(t: Tables, ctx: Context, from: Bytes)
    ensures Proposed(t, ctx, from, []) == Some(t)
  {
  }

  /** An engine call succeeds when it is paid for, decodes and the engine takes it; bytes that do
      not decode and payloads without a route never do. */
  lemma OthersExactly(t: Tables, ctx: Context, tx: Tx)
    requires NonNegative(t.accounts)
    ensures tx.payload.Engine? ==>
              && (Succeeds(t, ctx, tx) <==>
                    PaysInFull(t.accounts, ctx.gas, tx) && tx.payload.decodes && tx.payload.outcome.Some?)
              && (Succeeds(t, ctx, tx) ==> Executed(t, ctx, tx) == AfterFee(t, ctx, tx).(datasets := tx.payload.outcome.value))
    ensures tx.payload.Malformed? || tx.payload.Unrouted? ==> !Succeeds(t, ctx, tx)
  {
    hide Charged;
    if !tx.payload.Unrouted? {
      ChargedInFull(t.accounts, ctx.gas, tx);
    }
  }

  // ---------------------------------------------------------------------
  // The code a failure reports
  // ---------------------------------------------------------------------

  /** Without full payment: a sender that cannot cover the smaller of fee and price, then a fee
      below the price; anything else about the charge is an unknown error. */
  lemma ChargeCodes(t: Tables, ctx: Context, tx: Tx)
    requires NonNegative(t.accounts)
    ensures tx.payload.Unrouted? ==> ResultCode(t, ctx, tx) == InvalidTxType
    ensures !tx.payload.Unrouted? && !PaysInFull(t.accounts, ctx.gas, tx) ==>
              var price := if ctx.gas then Price(tx.payload) else Some(0);
              ResultCode(t, ctx, tx) ==
              if price.None? || (tx.sender in t.accounts && tx.nonce != NonceOf(t.accounts, tx.sender) + 1) then UnknownError
              else if tx.sender !in t.accounts then
                (if tx.nonce == 1 && Min(tx.fee, price.value) == 0 then InsufficientFee else InsufficientBalance)
              else if BalanceOf(t.accounts, tx.sender) < Min(tx.fee, price.value) then InsufficientBalance
              else InsufficientFee
  {
    if !tx.payload.Unrouted? {
      ChargedInFull(t.accounts, ctx.gas, tx);
    }
  }

  /** Once the fee is paid in full, why each route fails. */
  ghost function RouteCode(t: Tables, ctx: Context, tx: Tx): Code
    requires NonNegative(t.accounts) && !tx.payload.Unrouted?
  {
    match tx.payload
    case Engine(_, decodes, _) => if decodes then UnknownError else EncodingError
    case Transfer(_, amount) =>
      if amount.None? || amount.value < 0 then InvalidAmount else InsufficientBalance
    case Join(_) => InvalidSender
    case Remove(_) => InvalidSender
    case Leave => InvalidSender
    case Approve(candidate) =>
      if candidate != tx.sender && exists a, b :: a != b && IsRequest(t, candidate, a) && IsRequest(t, candidate, b)
      then UnknownError else InvalidSender
    case VoteIDs(_) => if tx.sender in t.voters then UnknownError else InvalidSender
    case VoteBodies(_) => if tx.sender == ctx.proposer then UnknownError else InvalidSender
    case Malformed(KVoteIDs) => if tx.sender in t.voters then EncodingError else InvalidSender
    case Malformed(KVoteBodies) => if tx.sender == ctx.proposer then EncodingError else InvalidSender
    case Malformed(_) => EncodingError
  }

  lemma RouteCodes(t: Tables, ctx: Context, tx: Tx)
    requires NonNegative(t.accounts) && PaysInFull(t.accounts, ctx.gas, tx) && !Succeeds(t, ctx, tx)
    ensures ResultCode(t, ctx, tx) == RouteCode(t, ctx, tx)
  {
    hide Charged, Voted, Proposed, NotProcessed, EventID, JoinEvent, RemoveEvent, IsRequest, Transferred, Pending;
    ChargedInFull(t.accounts, ctx.gas, tx);
    ChargeExactly(t.accounts, ctx.gas, tx);
    match tx.payload
    case Transfer(to, amount) =>
      if amount.Some? && 0 <= amount.value {
        TransferErrors(Charged(t.accounts, ctx.gas, tx).accounts, tx.sender, to, amount.value);
      }
    case Approve(candidate) =>
      SamePending(t, AfterSpend(t, ctx, tx), candidate);
      SeveralRequests(t, candidate);
    case _ =>
  }

  lemma TransferErrors(l: Ledger, from: Bytes, to: Bytes, amt: int)
    requires from in l && 0 <= amt
    ensures Transferred(l, from, to, amt).Err? ==> Transferred(l, from, to, amt) == Err(InsufficientFunds)
  {
  }

  lemma SeveralRequests(t: Tables, candidate: Bytes)
    ensures |Pending(t, JOIN, candidate)| > 1 <==>
            exists a, b :: a != b && IsRequest(t, candidate, a) && IsRequest(t, candidate, b)
  {
    var pending := Pending(t, JOIN, candidate);
    forall id ensures id in pending <==> IsRequest(t, candidate, id) {
    }
    if |pending| > 1 {
      var a :| a in pending;
      assert |pending - {a}| > 0;
      var b :| b in pending - {a};
      assert a != b && IsRequest(t, candidate, a) && IsRequest(t, candidate, b);
    }
    if a, b :| a != b && IsRequest(t, candidate, a) && IsRequest(t, candidate, b) {
      SubsetSize({a, b}, pending);
    }
  }
}
