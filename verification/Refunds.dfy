/** Vote refunds are backed by fees: what has been paid for a live resolution always covers
    what its confirmation or refund would pay out. */
module Refunds {
  import opened Wrappers
  import opened TableModel
  import opened Sums
  import opened Voting
  import opened Routes
  import opened RouteEffects
  import opened ProcessVotes
  import opened VoteStep
  import opened Runs
  import opened Samples

  /** Fees attributed to each resolution. */
  type Paid = map<UUID, int>

  function Pay(p: Paid, id: UUID, amt: int): Paid
  {
    p[id := Get(p, id) + amt]
  }

  ghost predicate Covers(t: Tables, p: Paid)
  {
    && (forall id :: id in t.resolutions ==> Owed(t, id) <= Get(p, id))
    && (forall id :: id in p ==> 0 <= p[id])
  }

  lemma PayTotal(p: Paid, id: UUID, amt: int)
    ensures Sum(Pay(p, id, amt)) == Sum(p) + amt
  {
    SumUpdate(p, id, Get(p, id) + amt);
  }

  // ---------------------------------------------------------------------
  // Single table updates
  // ---------------------------------------------------------------------

  lemma FewerOthers(a: set<Bytes>, b: set<Bytes>, x: Bytes)
    requires a <= b
    ensures |a - {x}| <= |b - {x}|
  {
    assert (b - {x}) - (a - {x}) + (a - {x}) == b - {x};
  }

  lemma OneMoreExactly(a: set<Bytes>, v: Bytes, x: Bytes)
    ensures |a + {v} - {x}| == |a - {x}| + (if v == x || v in a then 0 else 1)
  {
    if v == x || v in a {
      assert a + {v} - {x} == a - {x};
    } else {
      assert a + {v} - {x} == (a - {x}) + {v};
    }
  }

  /** What is owed grows with the voters, by at most one vote-id price each. */
  lemma OwedMonotone(t: Tables, u: Tables, id: UUID)
    requires id in t.resolutions && id in u.resolutions && u.resolutions[id] == t.resolutions[id]
    requires Voters(u, id) <= Voters(t, id)
    ensures Owed(u, id) <= Owed(t, id)
  {
    hide Voters;
    FewerOthers(Voters(u, id), Voters(t, id), t.resolutions[id].proposer);
  }

  /** The extra a vote may cost: one vote-id price, unless the voter proposed the body or has
      voted already. */
  ghost function VoteCost(t: Tables, id: UUID, from: Bytes): int
    requires id in t.resolutions
  {
    if from == t.resolutions[id].proposer || from in Voters(t, id) then 0 else VOTE_ID_PRICE
  }

  lemma OwedAfterVote(t: Tables, u: Tables, id: UUID, from: Bytes)
    requires id in t.resolutions && id in u.resolutions && u.resolutions[id] == t.resolutions[id]
    requires Voters(u, id) <= Voters(t, id) + {from}
    ensures Owed(u, id) <= Owed(t, id) + VoteCost(t, id, from)
  {
    hide Voters;
    FewerOthers(Voters(u, id), Voters(t, id) + {from}, t.resolutions[id].proposer);
    OneMoreExactly(Voters(t, id), from, t.resolutions[id].proposer);
  }

  /** Losing resolutions, votes or voters never breaks coverage. */
  lemma CoversLess(t: Tables, u: Tables, p: Paid)
    requires Covers(t, p)
    requires forall id :: id in u.resolutions ==>
               id in t.resolutions && u.resolutions[id] == t.resolutions[id] && Voters(u, id) <= Voters(t, id)
    ensures Covers(u, p)
  {
    hide Owed, Voters;
    forall id | id in u.resolutions ensures Owed(u, id) <= Get(p, id) {
      OwedMonotone(t, u, id);
    }
  }

  lemma CoversVote(t: Tables, p: Paid, id: UUID, from: Bytes, amt: nat)
    requires Covers(t, p) && id in t.resolutions && VoteCost(t, id, from) <= amt
    ensures Covers(t.(votes := t.votes + {(id, from)}), Pay(p, id, amt))
  {
    hide Owed, VoteCost;
    var u := t.(votes := t.votes + {(id, from)});
    forall x | x in u.resolutions ensures Owed(u, x) <= Get(Pay(p, id, amt), x) {
      if x == id {
        OwedAfterVote(t, u, id, from);
      } else {
        OwedMonotone(t, u, x);
      }
    }
  }

  lemma CoversCreate(t: Tables, reg: Registry, p: Paid, e: Event, expiration: int, proposer: Bytes, amt: nat)
    requires Integrity(t, reg) && Covers(t, p)
    requires EventID(e) !in t.resolutions ==> BYTE_PRICE * |e.body| <= amt
    ensures Covers(Created(t, reg, e, expiration, proposer), Pay(p, EventID(e), amt))
    ensures Integrity(Created(t, reg, e, expiration, proposer), reg)
  {
    hide Owed;
    var u, id := Created(t, reg, e, expiration, proposer), EventID(e);
    forall x | x in u.resolutions ensures Owed(u, x) <= Get(Pay(p, id, amt), x) {
      if x == id && id !in t.resolutions {
        OwedNew(u, id);
      } else {
        OwedMonotone(t, u, x);
      }
    }
  }

  lemma OwedNew(t: Tables, id: UUID)
    requires id in t.resolutions && forall v :: (id, v) !in t.votes
    ensures Owed(t, id) == BYTE_PRICE * |t.resolutions[id].body|
  {
    assert Voters(t, id) == {};
  }

  lemma CoversPower(t: Tables, reg: Registry, p: Paid, who: Bytes, power: int)
    requires Integrity(t, reg) && Covers(t, p) && PowerSet(t, who, power).Some?
    ensures Covers(PowerSet(t, who, power).value, p) && Integrity(PowerSet(t, who, power).value, reg)
  {
    hide Covers;
    CoversLess(t, PowerSet(t, who, power).value, p);
  }

  lemma VotedOneBacked(t: Tables, reg: Registry, p: Paid, local: bool, from: Bytes, id: UUID, amt: nat)
    requires Integrity(t, reg) && Covers(t, p) && VotedOne(t, local, from, id).Some?
    requires VoteCost(t, id, from) <= amt
    ensures Integrity(VotedOne(t, local, from, id).value, reg)
    ensures Covers(VotedOne(t, local, from, id).value, Pay(p, id, amt))
  {
    hide Covers, VoteCost;
    CoversVote(t, p, id, from, amt);
    CoversLess(t.(votes := t.votes + {(id, from)}), VotedOne(t, local, from, id).value, Pay(p, id, amt));
  }

  // ---------------------------------------------------------------------
  // Vote transactions
  // ---------------------------------------------------------------------

  function PayEach(p: Paid, ids: seq<UUID>): Paid
  {
    if ids == [] then p else Pay(PayEach(p, ids[..|ids| - 1]), ids[|ids| - 1], VOTE_ID_PRICE)
  }

  lemma {:induction false} VotedBacked(t: Tables, reg: Registry, p: Paid, local: bool, from: Bytes, ids: seq<UUID>)
    requires Integrity(t, reg) && Covers(t, p) && Voted(t, local, from, ids).Some?
    ensures Integrity(Voted(t, local, from, ids).value, reg)
    ensures Covers(Voted(t, local, from, ids).value, PayEach(p, ids))
    ensures Sum(PayEach(p, ids)) == Sum(p) + VOTE_ID_PRICE * |ids|
  {
    hide Covers, Integrity, Sum, VotedOne, Pay, VoteCost;
    if ids != [] {
      var before := ids[..|ids| - 1];
      VotedBacked(t, reg, p, local, from, before);
      var mid := Voted(t, local, from, before).value;
      VotedOneLive(mid, local, from, ids[|ids| - 1]);
      VotedOneBacked(mid, reg, PayEach(p, before), local, from, ids[|ids| - 1], VOTE_ID_PRICE);
      PayTotal(PayEach(p, before), ids[|ids| - 1], VOTE_ID_PRICE);
    }
  }

  lemma VotedOneLive(t: Tables, local: bool, from: Bytes, id: UUID)
    requires VotedOne(t, local, from, id).Some?
    ensures id in t.resolutions && VoteCost(t, id, from) <= VOTE_ID_PRICE
    ensures VotedOne(t, local, from, id).value.resolutions == t.resolutions
  {
  }

  function PayBodies(p: Paid, events: seq<Event>): Paid
  {
    if events == [] then p
    else
      var last := events[|events| - 1];
      Pay(PayBodies(p, events[..|events| - 1]), EventID(last), BYTE_PRICE * |last.body|)
  }

  /** Bytes sent again for a live resolution pay for the vote that comes with them: there is none
      to add, or they are at least as many as an id has. */
  ghost predicate RepeatPays(t: Tables, from: Bytes, id: UUID, bytes: nat)
    requires id in t.resolutions
  {
    from == t.resolutions[id].proposer || from in Voters(t, id) || 16 <= bytes
  }

  ghost predicate RepeatCovered(t: Tables, from: Bytes, e: Event)
  {
    EventID(e) in t.resolutions ==> RepeatPays(t, from, EventID(e), |e.body|)
  }

  /** The bytes a list of bodies spends on one resolution. */
  function BytesFor(events: seq<Event>, id: UUID): nat
  {
    if events == [] then 0
    else
      var last := events[|events| - 1];
      BytesFor(events[..|events| - 1], id) + (if EventID(last) == id then |last.body| else 0)
  }

  ghost predicate RepeatsCovered(t: Tables, from: Bytes, events: seq<Event>)
  {
    forall id :: id in t.resolutions && id in Mentioned(events) ==> RepeatPays(t, from, id, BytesFor(events, id))
  }

  /** The price of a repeated body covers the refund it adds exactly then. */
  lemma RepeatFeeExactly(t: Tables, ctx: Context, from: Bytes, e: Event)
    requires EventID(e) in t.resolutions && from in t.voters && ToLower(e.typ) in ctx.reg
    ensures ProposedOne(t, ctx, from, e).Some?
    ensures EventID(e) in ProposedOne(t, ctx, from, e).value.resolutions
    ensures Owed(ProposedOne(t, ctx, from, e).value, EventID(e)) - Owed(t, EventID(e)) <= BYTE_PRICE * |e.body| <==>
            RepeatCovered(t, from, e)
  {
    hide EventID, Voters;
    var id := EventID(e);
    RepeatVoters(t, ctx, from, e);
    OneMoreExactly(Voters(t, id), from, t.resolutions[id].proposer);
  }

  lemma RepeatVoters(t: Tables, ctx: Context, from: Bytes, e: Event)
    requires EventID(e) in t.resolutions && from in t.voters && ToLower(e.typ) in ctx.reg
    ensures ProposedOne(t, ctx, from, e).Some?
    ensures ProposedOne(t, ctx, from, e).value.resolutions == t.resolutions
    ensures Voters(ProposedOne(t, ctx, from, e).value, EventID(e)) == Voters(t, EventID(e)) + {from}
  {
    hide EventID;
  }

  /** A validator repeats another's one-byte body: 1000 is paid, 16000 more is owed. */
  lemma ShortRepeatNotCovered()
    ensures var t, id := CreditTables({(EventID(CREDIT), [1])}, {}), EventID(CREDIT);
            var u := ProposedOne(t, At(2), [2], CREDIT);
            && ProposedOne(Opening(map[[1] := 1, [2] := 1]), At(1), [1], CREDIT) == Some(t)
            && !RepeatCovered(t, [2], CREDIT)
            && u.Some? && id in u.value.resolutions && Owed(u.value, id) > Owed(t, id) + 1000
  {
    hide EventID;
    var t := CreditTables({(EventID(CREDIT), [1])}, {});
    CreditProposed({});
    assert Opening(map[[1] := 1, [2] := 1]).(processed := {}) == Opening(map[[1] := 1, [2] := 1]);
    assert ToLower("credit") == "credit";
    assert [2] !in Voters(t, EventID(CREDIT));
    RepeatFeeExactly(t, At(2), [2], CREDIT);
  }

  lemma PayNothing(p: Paid, id: UUID, amt: int)
    ensures Pay(Pay(p, id, amt), id, 0) == Pay(p, id, amt)
  {
  }

  /** One body keeps all rows, and adds one of the sender's own if there was none. */
  lemma ProposedOneRows(t: Tables, ctx: Context, from: Bytes, e: Event)
    requires ProposedOne(t, ctx, from, e).Some?
    ensures var u, id := ProposedOne(t, ctx, from, e).value, EventID(e);
            && u.resolutions.Keys == t.resolutions.Keys + {id}
            && (forall x :: x in t.resolutions ==> u.resolutions[x] == t.resolutions[x])
            && (id !in t.resolutions ==> u.resolutions[id].proposer == from && u.resolutions[id].body == e.body)
  {
    hide EventID;
  }

  /** It adds the sender's vote. */
  lemma ProposedOneVotes(t: Tables, ctx: Context, from: Bytes, e: Event)
    requires Integrity(t, ctx.reg) && ProposedOne(t, ctx, from, e).Some?
    ensures var u, id := ProposedOne(t, ctx, from, e).value, EventID(e);
            && Voters(u, id) == (if id in t.resolutions then Voters(t, id) else {}) + {from}
            && (forall x :: x != id ==> Voters(u, x) == Voters(t, x))
  {
    hide EventID;
  }

  /** What a list of bodies does to one resolution: at most one more vote on an old one, the
      sender's own vote alone on a new one, whose body is among those sent. */
  ghost predicate BodiesOn(t: Tables, u: Tables, from: Bytes, events: seq<Event>, id: UUID)
    requires id in u.resolutions
  {
    if id in t.resolutions then
      && u.resolutions[id] == t.resolutions[id]
      && Voters(u, id) == Voters(t, id) + (if id in Mentioned(events) then {from} else {})
    else
      && id in Mentioned(events) && u.resolutions[id].proposer == from && Voters(u, id) == {from}
      && |u.resolutions[id].body| <= BytesFor(events, id)
  }

  ghost predicate BodiesOutcome(t: Tables, u: Tables, from: Bytes, events: seq<Event>)
  {
    && u.resolutions.Keys == t.resolutions.Keys + Mentioned(events)
    && forall id :: id in u.resolutions ==> BodiesOn(t, u, from, events, id)
  }

  lemma BodiesOutcomeStep(t: Tables, ctx: Context, from: Bytes, events: seq<Event>, mid: Tables)
    requires events != [] && Integrity(mid, ctx.reg) && ProposedOne(mid, ctx, from, events[|events| - 1]).Some?
    requires BodiesOutcome(t, mid, from, events[..|events| - 1])
    ensures BodiesOutcome(t, ProposedOne(mid, ctx, from, events[|events| - 1]).value, from, events)
  {
    hide EventID, ProposedOne, Voters, Integrity, Mentioned;
    MentionedStep(events);
    ProposedOneRows(mid, ctx, from, events[|events| - 1]);
    ProposedOneVotes(mid, ctx, from, events[|events| - 1]);
  }

  lemma {:induction false} ProposedOutcome(t: Tables, ctx: Context, from: Bytes, events: seq<Event>)
    requires Integrity(t, ctx.reg) && Proposed(t, ctx, from, events).Some?
    ensures BodiesOutcome(t, Proposed(t, ctx, from, events).value, from, events)
  {
    if events != [] {
      hide EventID, ProposedOne, Voters, Integrity, BodiesOutcome;
      var front := events[..|events| - 1];
      ProposedOutcome(t, ctx, from, front);
      ProposedIntegrity(t, ctx, from, front);
      BodiesOutcomeStep(t, ctx, from, events, Proposed(t, ctx, from, front).value);
    }
  }

  /** One more voter costs one vote-id price, unless it costs nothing. */
  lemma OwedOneMore(t: Tables, u: Tables, id: UUID, from: Bytes)
    requires id in t.resolutions && id in u.resolutions && u.resolutions[id] == t.resolutions[id]
    requires Voters(u, id) == Voters(t, id) + {from}
    ensures Owed(u, id) == Owed(t, id) + VoteCost(t, id, from)
  {
    hide Voters;
    OneMoreExactly(Voters(t, id), from, t.resolutions[id].proposer);
  }

  /** What is owed more for one resolution after a list of bodies, against what was paid for it. */
  lemma BodiesPayExactly(t: Tables, u: Tables, from: Bytes, events: seq<Event>, id: UUID)
    requires id in u.resolutions && BodiesOn(t, u, from, events, id)
    ensures Owed(u, id) - (if id in t.resolutions then Owed(t, id) else 0) <= BYTE_PRICE * BytesFor(events, id) <==>
            (id in t.resolutions && id in Mentioned(events) ==> RepeatPays(t, from, id, BytesFor(events, id)))
  {
    hide EventID, Voters, Mentioned, BytesFor;
    if id !in t.resolutions {
      assert {from} - {from} == {};
    } else if id in Mentioned(events) {
      hide Owed;
      OwedOneMore(t, u, id, from);
    } else {
      assert Voters(u, id) == Voters(t, id);
    }
  }

  /** For every vote-body transaction: what each resolution is owed more is within what the
      transaction spends on it, if and only if every repeat pays in this sense. */
  lemma BodiesFeeExactly(t: Tables, ctx: Context, from: Bytes, events: seq<Event>)
    requires Integrity(t, ctx.reg) && Proposed(t, ctx, from, events).Some?
    ensures var u := Proposed(t, ctx, from, events).value;
            (forall id :: id in u.resolutions ==>
               Owed(u, id) - (if id in t.resolutions then Owed(t, id) else 0) <= BYTE_PRICE * BytesFor(events, id))
            <==> RepeatsCovered(t, from, events)
  {
    hide EventID, Voters, Mentioned, BytesFor, Owed, RepeatPays, Proposed, Integrity;
    var u := Proposed(t, ctx, from, events).value;
    ProposedOutcome(t, ctx, from, events);
    forall id | id in u.resolutions
      ensures Owed(u, id) - (if id in t.resolutions then Owed(t, id) else 0) <= BYTE_PRICE * BytesFor(events, id) <==>
              (id in t.resolutions && id in Mentioned(events) ==> RepeatPays(t, from, id, BytesFor(events, id)))
    {
      BodiesPayExactly(t, u, from, events, id);
    }
    assert forall id :: id in t.resolutions ==> id in u.resolutions;
  }

  /** Two copies of an eight-byte body pay for one vote together. */
  lemma TwoShortRepeats(t: Tables, from: Bytes, e: Event)
    requires |e.body| == 8
    ensures RepeatsCovered(t, from, [e, e])
  {
    hide EventID;
    assert [e, e][..1] == [e] && [e][..0] == [];
    assert BytesFor([e], EventID(e)) == 8;
    assert BytesFor([e, e], EventID(e)) == 16;
    assert forall x :: x in [e, e] ==> x == e;
  }

  lemma {:induction false} PayBodiesGet(p: Paid, events: seq<Event>, id: UUID)
    ensures Get(PayBodies(p, events), id) == Get(p, id) + BYTE_PRICE * BytesFor(events, id)
    ensures id in p ==> id in PayBodies(p, events)
  {
    hide EventID;
    if events != [] {
      PayBodiesGet(p, events[..|events| - 1], id);
    }
  }

  lemma {:induction false} PayBodiesTotal(p: Paid, events: seq<Event>)
    ensures Sum(PayBodies(p, events)) == Sum(p) + BodyBytes(events) * BYTE_PRICE
  {
    hide Sum, Pay, EventID;
    if events != [] {
      var front, last := events[..|events| - 1], events[|events| - 1];
      PayBodiesTotal(p, front);
      PayTotal(PayBodies(p, front), EventID(last), BYTE_PRICE * |last.body|);
    }
  }


  lemma ProposedBacked(t: Tables, ctx: Context, p: Paid, from: Bytes, events: seq<Event>)
    requires Integrity(t, ctx.reg) && Covers(t, p) && Proposed(t, ctx, from, events).Some?
    requires RepeatsCovered(t, from, events)
    ensures var u := Proposed(t, ctx, from, events).value; Integrity(u, ctx.reg) && Covers(u, PayBodies(p, events))
    ensures Sum(PayBodies(p, events)) == Sum(p) + BodyBytes(events) * BYTE_PRICE
  {
    hide Integrity, Sum, EventID, Voters, Mentioned, BytesFor, Owed, RepeatsCovered, Proposed, PayBodies;
    PayBodiesTotal(p, events);
    ProposedIntegrity(t, ctx, from, events);
    BodiesFeeExactly(t, ctx, from, events);
    var u, q := Proposed(t, ctx, from, events).value, PayBodies(p, events);
    forall id | id in u.resolutions ensures Owed(u, id) <= Get(q, id) {
      PayBodiesGet(p, events, id);
    }
    forall id | id in q ensures 0 <= q[id] {
      PayBodiesGet(p, events, id);
    }
  }

  // ---------------------------------------------------------------------
  // Any successful route
  // ---------------------------------------------------------------------

  /** Where a successful transaction's fee goes. */
  ghost function PaidFor(t: Tables, tx: Tx, p: Paid): Paid
  {
    match tx.payload
    case Join(power) => Pay(p, EventID(JoinEvent(tx.sender, power)), JOIN_PRICE)
    case Approve(candidate) =>
      if Pending(t, JOIN, candidate) == {} then p else Pay(p, Sole(Pending(t, JOIN, candidate)), JOIN_PRICE)
    case Remove(target) => Pay(p, EventID(RemoveEvent(target)), REMOVE_PRICE)
    case VoteIDs(ids) => PayEach(p, NotProcessed(t.processed, ids))
    case VoteBodies(events) => PayBodies(p, events)
    case _ => p
  }

  /** The fee of this transaction covers the refunds it creates. */
  ghost predicate FeeCovers(t: Tables, tx: Tx)
  {
    match tx.payload
    case Join(power) => EventID(JoinEvent(tx.sender, power)) in t.resolutions || BYTE_PRICE * (|tx.sender| + 8) <= JOIN_PRICE
    case Remove(target) => EventID(RemoveEvent(target)) in t.resolutions || |target| <= 92
    case VoteBodies(events) => RepeatsCovered(t, tx.sender, events)
    case _ => true
  }

  lemma {:induction false} NotProcessedShorter(done: set<UUID>, ids: seq<UUID>)
    ensures |NotProcessed(done, ids)| <= |ids|
  {
    if ids != [] {
      NotProcessedShorter(done, ids[..|ids| - 1]);
    }
  }

  lemma RemoveEventSize(target: Bytes)
    ensures |RemoveEvent(target).body| == |target| + 8
  {
  }

  lemma RemovalBacked(t: Tables, ctx: Context, p: Paid, sender: Bytes, target: Bytes)
    requires Integrity(t, ctx.reg) && Covers(t, p) && RemovalVoted(t, ctx, sender, target).Ok?
    requires EventID(RemoveEvent(target)) in t.resolutions || |target| <= 92
    ensures var u := RemovalVoted(t, ctx, sender, target).value;
            Integrity(u, ctx.reg) && Covers(u, Pay(p, EventID(RemoveEvent(target)), REMOVE_PRICE))
  {
    hide Covers, EventID, RemoveEvent, Pay;
    var e := RemoveEvent(target);
    var id := EventID(e);
    RemoveEventSize(target);
    var c := Created(t, ctx.reg, e, ctx.height + ctx.joinExpiry, sender);
    if id in t.resolutions {
      CoversVote(t, p, id, sender, REMOVE_PRICE);
    } else {
      CoversCreate(t, ctx.reg, p, e, ctx.height + ctx.joinExpiry, sender, REMOVE_PRICE);
      CoversVote(c, Pay(p, id, REMOVE_PRICE), id, sender, 0);
      PayNothing(p, id, REMOVE_PRICE);
    }
  }

  lemma JoinBacked(t: Tables, ctx: Context, p: Paid, sender: Bytes, power: nat)
    requires Integrity(t, ctx.reg) && Covers(t, p) && Joined(t, ctx, sender, power).Ok?
    requires EventID(JoinEvent(sender, power)) in t.resolutions || BYTE_PRICE * (|sender| + 8) <= JOIN_PRICE
    ensures var u := Joined(t, ctx, sender, power).value;
            Integrity(u, ctx.reg) && Covers(u, Pay(p, EventID(JoinEvent(sender, power)), JOIN_PRICE))
  {
    hide Covers, Integrity, Created, Pay, JoinEvent, EventID;
    JoinShape(t, ctx, sender, power);
    CoversCreate(t, ctx.reg, p, JoinEvent(sender, power), ctx.height + ctx.joinExpiry, sender, JOIN_PRICE);
  }

  lemma ApprovalBacked(t: Tables, reg: Registry, p: Paid, sender: Bytes, candidate: Bytes)
    requires Integrity(t, reg) && Covers(t, p) && JoinApproved(t, sender, candidate).Ok?
    ensures var u := JoinApproved(t, sender, candidate).value;
            && Integrity(u, reg) && Pending(t, JOIN, candidate) != {}
            && Covers(u, Pay(p, Sole(Pending(t, JOIN, candidate)), JOIN_PRICE))
  {
    hide Covers, Integrity, Pay;
    var id := Sole(Pending(t, JOIN, candidate));
    CoversVote(t, p, id, sender, JOIN_PRICE);
    VoteIntegrity(t, reg, id, sender);
  }

  lemma LeaveBacked(t: Tables, reg: Registry, p: Paid, sender: Bytes)
    requires Integrity(t, reg) && Covers(t, p) && Left(t, sender).Ok?
    ensures Integrity(Left(t, sender).value, reg) && Covers(Left(t, sender).value, p)
  {
    hide Covers, Integrity;
    CoversPower(t, reg, p, sender, 0);
  }

  /** Every successful route keeps integrity and coverage, attributing at most its price. */
  lemma RouteBacked(t: Tables, ctx: Context, tx: Tx, p: Paid)
    requires Integrity(t, ctx.reg) && Covers(t, p) && InTx(t, ctx, tx).Ok? && Price(tx.payload).Some?
    requires FeeCovers(t, tx) && !tx.payload.Transfer? && !tx.payload.Engine?
    ensures Integrity(InTx(t, ctx, tx).value, ctx.reg)
    ensures Covers(InTx(t, ctx, tx).value, PaidFor(t, tx, p))
    ensures Sum(PaidFor(t, tx, p)) <= Sum(p) + Price(tx.payload).value
  {
    hide Covers, Integrity, Sum, Pay, PayEach, PayBodies, Joined, JoinApproved, RemovalVoted, Left, Voted, Proposed;
    hide JoinEvent, RemoveEvent, EventID, NotProcessed, Sole, Pending;
    match tx.payload
    case Join(power) =>
      JoinBacked(t, ctx, p, tx.sender, power);
      PayTotal(p, EventID(JoinEvent(tx.sender, power)), JOIN_PRICE);
    case Approve(candidate) =>
      ApprovalBacked(t, ctx.reg, p, tx.sender, candidate);
      PayTotal(p, Sole(Pending(t, JOIN, candidate)), JOIN_PRICE);
    case Remove(target) =>
      RemovalBacked(t, ctx, p, tx.sender, target);
      PayTotal(p, EventID(RemoveEvent(target)), REMOVE_PRICE);
    case Leave => LeaveBacked(t, ctx.reg, p, tx.sender);
    case VoteIDs(ids) =>
      VotedBacked(t, ctx.reg, p, tx.sender == ctx.self, tx.sender, NotProcessed(t.processed, ids));
      NotProcessedShorter(t.processed, ids);
    case VoteBodies(events) => ProposedBacked(t, ctx, p, tx.sender, events);
    case _ =>
  }

  lemma JoinShape(t: Tables, ctx: Context, sender: Bytes, power: nat)
    requires Joined(t, ctx, sender, power).Ok?
    ensures Joined(t, ctx, sender, power).value ==
            Created(t, ctx.reg, JoinEvent(sender, power), ctx.height + ctx.joinExpiry, sender)
    ensures |JoinEvent(sender, power).body| == |sender| + 8
  {
  }

  /** The removal fee covers the body it creates exactly when the target is at most 92 bytes
      or the removal was already under way. */
  lemma RemovalFeeExactly(t: Tables, ctx: Context, sender: Bytes, target: Bytes)
    requires Integrity(t, ctx.reg) && sender in t.voters
    ensures var id, u := EventID(RemoveEvent(target)), RemovalVoted(t, ctx, sender, target).value;
            (Owed(u, id) - (if id in t.resolutions then Owed(t, id) else 0) <= REMOVE_PRICE
             <==> id in t.resolutions || |target| <= 92)
  {
    hide Integrity, RemoveEvent, EventID;
    var id := EventID(RemoveEvent(target));
    if id in t.resolutions {
      RemovalJoined(t, ctx, sender, target);
    } else {
      RemovalOpened(t, ctx, sender, target);
      RemoveEventSize(target);
    }
  }

  /** A vote for a removal that is under way adds at most the refund of one vote. */
  lemma RemovalJoined(t: Tables, ctx: Context, sender: Bytes, target: Bytes)
    requires EventID(RemoveEvent(target)) in t.resolutions && sender in t.voters
    ensures var id := EventID(RemoveEvent(target));
            Owed(RemovalVoted(t, ctx, sender, target).value, id) <= Owed(t, id) + VOTE_ID_PRICE
  {
    hide RemoveEvent, EventID;
    var id, u := EventID(RemoveEvent(target)), RemovalVoted(t, ctx, sender, target).value;
    assert Voters(u, id) == Voters(t, id) + {sender};
    OneMoreExactly(Voters(t, id), sender, t.resolutions[id].proposer);
  }

  /** Opening a removal owes its proposer the body. */
  lemma RemovalOpened(t: Tables, ctx: Context, sender: Bytes, target: Bytes)
    requires Integrity(t, ctx.reg) && EventID(RemoveEvent(target)) !in t.resolutions && sender in t.voters
    ensures Owed(RemovalVoted(t, ctx, sender, target).value, EventID(RemoveEvent(target))) ==
            |RemoveEvent(target).body| * BYTE_PRICE
  {
    hide RemoveEvent, EventID;
    var id, u := EventID(RemoveEvent(target)), RemovalVoted(t, ctx, sender, target).value;
    assert Voters(u, id) - {sender} == {};
  }

  /** A 93-byte target: the proposer is owed 101000 for a fee of 100000. */
  lemma LongRemovalNotCovered(ctx: Context)
    requires ctx.reg == SAMPLE_REGISTRY
    ensures var t := Tables(map[], map[[1] := 1], map[], {}, {}, map[], 0);
            var target := seq(93, _ => 0 as byte);
            && RemovalVoted(t, ctx, [1], target).Ok?
            && EventID(RemoveEvent(target)) in RemovalVoted(t, ctx, [1], target).value.resolutions
            && Owed(RemovalVoted(t, ctx, [1], target).value, EventID(RemoveEvent(target))) == 101000 > REMOVE_PRICE
  {
    hide EventID, RemoveEvent;
    var t := Tables(map[], map[[1] := 1], map[], {}, {}, map[], 0);
    var target := seq(93, _ => 0 as byte);
    RemovalOpened(t, ctx, [1], target);
    RemoveEventSize(target);
  }

  /** The join fee covers the body it creates exactly when the sender's key is short enough or the
      request was already there. */
  lemma JoinFeeExactly(t: Tables, ctx: Context, sender: Bytes, power: nat)
    requires Integrity(t, ctx.reg) && Joined(t, ctx, sender, power).Ok?
    ensures var id, u := EventID(JoinEvent(sender, power)), Joined(t, ctx, sender, power).value;
            && id in u.resolutions
            && (Owed(u, id) - (if id in t.resolutions then Owed(t, id) else 0) <= JOIN_PRICE
                <==> id in t.resolutions || BYTE_PRICE * (|sender| + 8) <= JOIN_PRICE)
  {
    hide EventID, JoinEvent;
    JoinShape(t, ctx, sender, power);
    var id, u := EventID(JoinEvent(sender, power)), Joined(t, ctx, sender, power).value;
    if id !in t.resolutions {
      OwedNew(u, id);
    }
  }
}
