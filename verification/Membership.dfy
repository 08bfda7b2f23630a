/** Who gets into the validator set (the join routes of internal/txapp/routes.go and the resolve
    functions of internal/voting/validators.go), over whole runs. */
module Membership {
  import opened Wrappers
  import opened TableModel
  import opened Enumerations
  import opened Accounts
  import opened PowerRequest
  import opened Voting
  import opened Routes
  import opened Execution
  import opened ProcessVotes
  import opened VoteStep
  import opened Refunds
  import opened Runs

  // ---------------------------------------------------------------------
  // No validator without a quorum
  // ---------------------------------------------------------------------

  /** A confirmed join request for exactly this key and power. */
  ghost predicate Admits(d: Tables, id: UUID, who: Bytes, power: int)
  {
    && id in d.resolutions && d.resolutions[id].typ == Some(JOIN)
    && UnmarshalBinary(d.resolutions[id].body) == Some(UpdatePowerRequest(who, power))
  }

  /** The resolve functions only add or raise voters that a resolved join request names. */
  lemma {:induction false} ResolvedVoters(t: Tables, conf: seq<UUID>, ext: Extensions, who: Bytes)
    requires forall id :: id in conf ==> id in t.resolutions
    requires who in ResolvedAll(t, conf, ext).voters
    ensures var power := ResolvedAll(t, conf, ext).voters[who];
            (who in t.voters && t.voters[who] == power) || exists id :: id in conf && Admits(t, id, who, power)
  {
    if conf != [] {
      var n := |conf| - 1;
      var u, id := ResolvedAll(t, conf[..n], ext), conf[n];
      var power := ResolvedAll(t, conf, ext).voters[who];
      if who in u.voters && u.voters[who] == power {
        ResolvedVoters(t, conf[..n], ext, who);
        if !(who in t.voters && t.voters[who] == power) {
          var x :| x in conf[..n] && Admits(t, x, who, power);
          assert x in conf;
        }
      } else {
        assert id in conf && Admits(t, id, who, power);
      }
    }
  }

  lemma RouteVoters(t: Tables, ctx: Context, tx: Tx, who: Bytes)
    requires InTx(t, ctx, tx).Ok? && who in InTx(t, ctx, tx).value.voters
    ensures who in t.voters && t.voters[who] == InTx(t, ctx, tx).value.voters[who]
  {
    hide Voted, Proposed, NotProcessed, Transferred;
    match tx.payload
    case VoteIDs(ids) => VotedFrame(t, tx.sender == ctx.self, tx.sender, NotProcessed(t.processed, ids));
    case VoteBodies(events) => ProposedFrame(t, ctx, tx.sender, events);
    case _ =>
  }

  /** No transaction adds a voter or changes a power; leaving removes one. */
  lemma TxVoters(t: Tables, ctx: Context, tx: Tx, who: Bytes)
    requires NonNegative(t.accounts) && who in Executed(t, ctx, tx).voters
    ensures who in t.voters && t.voters[who] == Executed(t, ctx, tx).voters[who]
  {
    hide Charged, InTx, PreTx;
    if Succeeds(t, ctx, tx) {
      RouteVoters(AfterSpend(t, ctx, tx), ctx, tx, who);
    }
  }

  lemma {:induction false} DeliveredVoters(t: Tables, chain: Chain, b: Block, n: nat, who: Bytes)
    requires NonNegative(t.accounts) && Punished(t, b.punish).Some? && n <= |b.txs|
    requires who in Delivered(t, chain, b, n).voters
    ensures var p := Punished(t, b.punish).value;
            who in p.voters && p.voters[who] == Delivered(t, chain, b, n).voters[who]
  {
    hide Executed, Punished;
    if n == 0 {
      assert b.txs[..0] == [];
    } else {
      DeliveredStep(t, chain, b, n);
      TxVoters(Delivered(t, chain, b, n - 1), ContextOf(chain, b), b.txs[n - 1], who);
      DeliveredVoters(t, chain, b, n - 1, who);
    }
  }

  /** Punishments name validators of the address book, which is the image of the voters. */
  ghost predicate PunishesVoters(t: Tables, punish: seq<(Bytes, int)>)
  {
    forall i :: 0 <= i < |punish| ==> punish[i].0 in t.voters
  }

  lemma {:induction false} PunishedVoters(t: Tables, punish: seq<(Bytes, int)>, who: Bytes)
    requires PunishesVoters(t, punish) && Punished(t, punish).Some? && who in Punished(t, punish).value.voters
    ensures who in t.voters
  {
    if punish != [] && who != punish[|punish| - 1].0 {
      PunishedVoters(t, punish[..|punish| - 1], who);
    }
  }

  /** A key that is a voter after a block and was not before it was admitted by a join request
      confirmed in that block, with exactly the power requested. */
  lemma NewVoterWasConfirmed(t: Tables, chain: Chain, b: Block, who: Bytes)
    requires Executable(t, chain, b) && PunishesVoters(t, b.punish)
    requires who in AfterBlock(t, chain, b).voters && who !in t.voters
    ensures var d := Delivered(t, chain, b, |b.txs|);
            exists id :: id in Confirmed(d, chain.reg) && Admits(d, id, who, AfterBlock(t, chain, b).voters[who])
  {
    hide Delivered, IsConfirmed, Punished, Admits, AllCredits;
    var d := Delivered(t, chain, b, |b.txs|);
    assert who in ResolvedAll(d, b.conf, b.ext).voters;
    ResolvedVoters(d, b.conf, b.ext, who);
    if who in d.voters {
      DeliveredVoters(t, chain, b, |b.txs|, who);
      PunishedVoters(t, b.punish, who);
    }
  }

  /** A confirmed two-thirds request had two thirds of the power behind it. */
  lemma ConfirmedByQuorum(d: Tables, reg: Registry, id: UUID)
    requires ValidRegistry(reg) && id in Confirmed(d, reg)
    requires forall v :: v in d.voters ==> 0 < d.voters[v]
    requires TotalPower(d) <= INT64_MAX && reg[d.resolutions[id].typ.value].confirm == Rat(2, 3)
    ensures 3 * ApprovedPower(d, id) >= 2 * TotalPower(d)
  {
    PowerAtMostTotal(d.voters, {});
    RequiredPowerIsCeiling(Rat(2, 3), TotalPower(d));
  }

  /** Block `b` admits a key with a quorum of the voters of that moment. */
  ghost predicate Admitted(u: Tables, chain: Chain, b: Block, who: Bytes)
  {
    Executable(u, chain, b) &&
    var d := Delivered(u, chain, b, |b.txs|);
    exists id, power :: id in Confirmed(d, chain.reg) && Admits(d, id, who, power) && Quorate(d, id)
  }

  /** Two thirds of the power approve, as far as powers fit an int64. */
  ghost predicate Quorate(d: Tables, id: UUID)
  {
    TotalPower(d) <= INT64_MAX ==> 3 * ApprovedPower(d, id) >= 2 * TotalPower(d)
  }

  lemma BlockAdmits(u: Tables, chain: Chain, b: Block, who: Bytes)
    requires Integrity(u, chain.reg) && Executable(u, chain, b) && PunishesVoters(u, b.punish)
    requires chain.reg[JOIN].confirm == Rat(2, 3)
    requires who in AfterBlock(u, chain, b).voters && who !in u.voters
    ensures Admitted(u, chain, b, who)
  {
    hide Delivered, Admits, Confirmed, Integrity, AfterBlock, Quorate, PunishesVoters;
    NewVoterWasConfirmed(u, chain, b, who);
    var d := Delivered(u, chain, b, |b.txs|);
    var power := AfterBlock(u, chain, b).voters[who];
    var id :| id in Confirmed(d, chain.reg) && Admits(d, id, who, power);
    QuorumBehind(u, chain, b, id, who, power);
  }

  lemma QuorumBehind(u: Tables, chain: Chain, b: Block, id: UUID, who: Bytes, power: int)
    requires Integrity(u, chain.reg) && Executable(u, chain, b) && chain.reg[JOIN].confirm == Rat(2, 3)
    requires var d := Delivered(u, chain, b, |b.txs|); id in Confirmed(d, chain.reg) && Admits(d, id, who, power)
    ensures Quorate(Delivered(u, chain, b, |b.txs|), id)
  {
    hide Delivered, Confirmed;
    ConfirmedQuorate(u, chain, b, id);
  }

  /** Whatever the type, if it is confirmed at two thirds. */
  lemma ConfirmedQuorate(u: Tables, chain: Chain, b: Block, id: UUID)
    requires Integrity(u, chain.reg) && Executable(u, chain, b)
    requires var d := Delivered(u, chain, b, |b.txs|);
             && id in Confirmed(d, chain.reg) && id in d.resolutions && d.resolutions[id].typ.Some?
             && d.resolutions[id].typ.value in chain.reg
             && chain.reg[d.resolutions[id].typ.value].confirm == Rat(2, 3)
    ensures Quorate(Delivered(u, chain, b, |b.txs|), id)
  {
    hide Delivered, Confirmed;
    DeliveredIntegrity(u, chain, b, |b.txs|);
    var d := Delivered(u, chain, b, |b.txs|);
    if TotalPower(d) <= INT64_MAX {
      ConfirmedByQuorum(d, chain.reg, id);
    }
  }

  /** Block `n` of the run admits a key. */
  ghost predicate AdmittedAt(t: Tables, chain: Chain, steps: seq<Step>, n: nat, who: Bytes)
    requires n < |steps|
  {
    steps[n].ExecuteBlock? && Admitted(Run(t, chain, steps[..n]), chain, steps[n].block, who)
  }

  ghost predicate PunishmentsFit(t: Tables, chain: Chain, steps: seq<Step>)
  {
    forall n :: 0 <= n < |steps| && steps[n].ExecuteBlock? ==>
      PunishesVoters(Run(t, chain, steps[..n]), steps[n].block.punish)
  }

  lemma AdmittedLater(t: Tables, chain: Chain, steps: seq<Step>, n: nat, who: Bytes)
    requires steps != [] && n < |steps| - 1 && AdmittedAt(t, chain, steps[..|steps| - 1], n, who)
    ensures AdmittedAt(t, chain, steps, n, who)
  {
    hide Admitted;
    assert steps[..|steps| - 1][..n] == steps[..n];
  }

  lemma AdmittedNow(t: Tables, chain: Chain, steps: seq<Step>, who: Bytes)
    requires steps != [] && ValidRegistry(chain.reg) && chain.reg[JOIN].confirm == Rat(2, 3)
    requires Integrity(t, chain.reg) && PunishmentsFit(t, chain, steps)
    requires who in Run(t, chain, steps).voters && who !in Run(t, chain, steps[..|steps| - 1]).voters
    ensures AdmittedAt(t, chain, steps, |steps| - 1, who)
  {
    hide Admitted, Executable, Integrity, AfterBlock, PunishesVoters;
    var n := |steps| - 1;
    var u := Run(t, chain, steps[..n]);
    RunIntegrity(t, chain, steps[..n]);
    assert steps[n].ExecuteBlock? && Executable(u, chain, steps[n].block);
    BlockAdmits(u, chain, steps[n].block, who);
  }

  /** Over every run: a validator was there at genesis or some block admitted it with two thirds
      of the voting power of that moment behind its request. */
  lemma {:induction false} NoValidatorWithoutQuorum(t: Tables, chain: Chain, steps: seq<Step>, who: Bytes)
    requires ValidRegistry(chain.reg) && chain.reg[JOIN].confirm == Rat(2, 3)
    requires Integrity(t, chain.reg) && PunishmentsFit(t, chain, steps)
    requires who in Run(t, chain, steps).voters
    ensures who in t.voters || exists n :: 0 <= n < |steps| && AdmittedAt(t, chain, steps, n, who)
  {
    hide After, AdmittedAt, Integrity, PunishesVoters;
    if steps != [] {
      var before := steps[..|steps| - 1];
      if who in Run(t, chain, before).voters {
        forall n | 0 <= n < |before| && before[n].ExecuteBlock?
          ensures PunishesVoters(Run(t, chain, before[..n]), before[n].block.punish)
        {
          assert before[..n] == steps[..n];
        }
        NoValidatorWithoutQuorum(t, chain, before, who);
        if who !in t.voters {
          var n :| 0 <= n < |before| && AdmittedAt(t, chain, before, n, who);
          AdmittedLater(t, chain, steps, n, who);
        }
      } else {
        AdmittedNow(t, chain, steps, who);
      }
    }
  }

  // ---------------------------------------------------------------------
  // Where every power comes from
  // ---------------------------------------------------------------------

  lemma {:induction false} PunishedPower(t: Tables, punish: seq<(Bytes, int)>, who: Bytes)
    requires Punished(t, punish).Some? && who in Punished(t, punish).value.voters
    ensures var power := Punished(t, punish).value.voters[who];
            (who in t.voters && t.voters[who] == power) || (who, power) in punish
  {
    if punish != [] {
      var front, last := punish[..|punish| - 1], punish[|punish| - 1];
      assert last in punish && forall x :: x in front ==> x in punish;
      PowerSetAt(Punished(t, front).value, last.0, last.1, who);
      if last.0 != who {
        hide PowerSet;
        PunishedPower(t, front, who);
      }
    }
  }

  lemma PowerSetAt(t: Tables, target: Bytes, power: int, who: Bytes)
    requires PowerSet(t, target, power).Some? && who in PowerSet(t, target, power).value.voters
    ensures var u := PowerSet(t, target, power).value;
            if who == target then u.voters[who] == power else who in t.voters && t.voters[who] == u.voters[who]
  {
  }

  /** The block sets this power: a punishment says so, or a join request confirmed with a quorum. */
  ghost predicate SetsPower(u: Tables, chain: Chain, b: Block, who: Bytes, power: int)
  {
    Executable(u, chain, b) &&
    var d := Delivered(u, chain, b, |b.txs|);
    (who, power) in b.punish ||
    exists id :: id in Confirmed(d, chain.reg) && Admits(d, id, who, power) && Quorate(d, id)
  }

  lemma BlockSetsPower(u: Tables, chain: Chain, b: Block, who: Bytes)
    requires Integrity(u, chain.reg) && Executable(u, chain, b) && chain.reg[JOIN].confirm == Rat(2, 3)
    requires who in AfterBlock(u, chain, b).voters
    ensures var power := AfterBlock(u, chain, b).voters[who];
            (who in u.voters && u.voters[who] == power) || SetsPower(u, chain, b, who, power)
  {
    hide Delivered, IsConfirmed, Punished, Admits, AllCredits, Integrity, Quorate;
    var d, power := Delivered(u, chain, b, |b.txs|), AfterBlock(u, chain, b).voters[who];
    assert ResolvedAll(d, b.conf, b.ext).voters[who] == power;
    ResolvedVoters(d, b.conf, b.ext, who);
    if who in d.voters && d.voters[who] == power {
      DeliveredVoters(u, chain, b, |b.txs|, who);
      PunishedPower(u, b.punish, who);
    } else {
      var id :| id in b.conf && Admits(d, id, who, power);
      QuorumBehind(u, chain, b, id, who, power);
    }
  }

  ghost predicate SetAt(t: Tables, chain: Chain, steps: seq<Step>, n: nat, who: Bytes, power: int)
    requires n < |steps|
  {
    steps[n].ExecuteBlock? && SetsPower(Run(t, chain, steps[..n]), chain, steps[n].block, who, power)
  }

  /** Over every run: a validator's power is its genesis power, or exactly what some block's
      punishment set, or exactly what a join request asked for that some block confirmed with two
      thirds of the power of that moment. */
  lemma {:induction false} EveryPowerHasASource(t: Tables, chain: Chain, steps: seq<Step>, who: Bytes)
    requires ValidRegistry(chain.reg) && chain.reg[JOIN].confirm == Rat(2, 3)
    requires Integrity(t, chain.reg) && who in Run(t, chain, steps).voters
    ensures var power := Run(t, chain, steps).voters[who];
            (who in t.voters && t.voters[who] == power) ||
            exists n :: 0 <= n < |steps| && SetAt(t, chain, steps, n, who, power)
  {
    hide Executable, SetsPower, Integrity, AfterBlock;
    if steps != [] {
      var n := |steps| - 1;
      var before, u, power := steps[..n], Run(t, chain, steps[..n]), Run(t, chain, steps).voters[who];
      RunIntegrity(t, chain, before);
      if who in u.voters && u.voters[who] == power {
        EveryPowerHasASource(t, chain, before, who);
        if !(who in t.voters && t.voters[who] == power) {
          var k :| 0 <= k < |before| && SetAt(t, chain, before, k, who, power);
          assert before[..k] == steps[..k];
          assert SetAt(t, chain, steps, k, who, power);
        }
      } else {
        assert steps[n].ExecuteBlock? && Executable(u, chain, steps[n].block);
        BlockSetsPower(u, chain, steps[n].block, who);
        assert SetAt(t, chain, steps, n, who, power);
      }
    }
  }

  // ---------------------------------------------------------------------
  // One join request at a time
  // ---------------------------------------------------------------------

  /** No candidate has two join requests pending. */
  ghost predicate SingleRequests(t: Tables)
  {
    forall a, b :: IsJoin(t, a) && IsJoin(t, b) && t.resolutions[a].proposer == t.resolutions[b].proposer ==> a == b
  }

  ghost predicate IsJoin(t: Tables, id: UUID)
  {
    id in t.resolutions && t.resolutions[id].typ == Some(JOIN)
  }

  /** A join event among vote bodies opens no second request for its sender. */
  ghost predicate JoinBodyFits(t: Tables, from: Bytes, e: Event)
  {
    e.typ == JOIN ==> EventID(e) in t.resolutions || Pending(t, JOIN, from) == {}
  }

  /** That, for every body of a transaction when its turn comes. */
  ghost predicate JoinBodiesFit(t: Tables, ctx: Context, tx: Tx)
  {
    tx.payload.VoteBodies? ==> BodiesFit(t, ctx, tx.sender, tx.payload.events)
  }

  ghost predicate BodiesFit(t: Tables, ctx: Context, from: Bytes, events: seq<Event>)
  {
    forall i :: 0 <= i < |events| && Proposed(t, ctx, from, events[..i]).Some? ==>
      JoinBodyFits(Proposed(t, ctx, from, events[..i]).value, from, events[i])
  }

  lemma CreatedSingle(t: Tables, reg: Registry, e: Event, expiration: int, proposer: Bytes)
    requires SingleRequests(t) && JoinBodyFits(t, proposer, e)
    ensures SingleRequests(Created(t, reg, e, expiration, proposer))
  {
    forall a | IsJoin(t, a) && e.typ == JOIN && EventID(e) !in t.resolutions
      ensures t.resolutions[a].proposer != proposer
    {
      assert a !in Pending(t, JOIN, proposer);
    }
  }

  lemma CreatedSecond(t: Tables, reg: Registry, e: Event, expiration: int, proposer: Bytes)
    requires JOIN in reg && !JoinBodyFits(t, proposer, e)
    ensures !SingleRequests(Created(t, reg, e, expiration, proposer))
  {
    hide EventID;
    var u := Created(t, reg, e, expiration, proposer);
    var id :| id in Pending(t, JOIN, proposer);
    assert IsJoin(u, id) && IsJoin(u, EventID(e)) && id != EventID(e);
  }

  lemma SameResolutions(t: Tables, u: Tables)
    requires SingleRequests(t) && u.resolutions == t.resolutions
    ensures SingleRequests(u)
  {
    assert forall id :: IsJoin(u, id) <==> IsJoin(t, id);
  }

  /** One body keeps requests single exactly when it fits. */
  lemma JoinBodyExactly(t: Tables, ctx: Context, from: Bytes, e: Event)
    requires SingleRequests(t) && JOIN in ctx.reg && ProposedOne(t, ctx, from, e).Some?
    ensures SingleRequests(ProposedOne(t, ctx, from, e).value) <==> JoinBodyFits(t, from, e)
  {
    hide SingleRequests, JoinBodyFits, Created;
    var expiration := ctx.height + ctx.reg[ToLower(e.typ)].period;
    var c, u := Created(t, ctx.reg, e, expiration, from), ProposedOne(t, ctx, from, e).value;
    if JoinBodyFits(t, from, e) {
      CreatedSingle(t, ctx.reg, e, expiration, from);
      SameResolutions(c, u);
    } else {
      CreatedSecond(t, ctx.reg, e, expiration, from);
      if SingleRequests(u) { SameResolutions(u, c); }
    }
  }

  lemma MoreRequests(t: Tables, u: Tables)
    requires SingleRequests(u)
    requires forall id :: id in t.resolutions ==> id in u.resolutions && u.resolutions[id] == t.resolutions[id]
    ensures SingleRequests(t)
  {
    assert forall id :: IsJoin(t, id) ==> IsJoin(u, id);
  }

  /** A whole list of bodies keeps requests single exactly when each of them fits. */
  lemma {:induction false} JoinBodiesExactly(t: Tables, ctx: Context, from: Bytes, events: seq<Event>)
    requires SingleRequests(t) && JOIN in ctx.reg && Proposed(t, ctx, from, events).Some?
    ensures SingleRequests(Proposed(t, ctx, from, events).value) <==> BodiesFit(t, ctx, from, events)
  {
    hide SingleRequests, JoinBodyFits, ProposedOne;
    if events != [] {
      var n := |events| - 1;
      JoinBodiesExactly(t, ctx, from, events[..n]);
      assert forall i :: 0 <= i < n ==> events[..n][..i] == events[..i];
      var mid, u := Proposed(t, ctx, from, events[..n]).value, Proposed(t, ctx, from, events).value;
      assert BodiesFit(t, ctx, from, events) <==> BodiesFit(t, ctx, from, events[..n]) && JoinBodyFits(mid, from, events[n]);
      ProposedOneRows(mid, ctx, from, events[n]);
      if SingleRequests(u) { MoreRequests(mid, u); }
      if SingleRequests(mid) { JoinBodyExactly(mid, ctx, from, events[n]); }
    }
  }

  lemma RouteSingle(t: Tables, ctx: Context, tx: Tx)
    requires InTx(t, ctx, tx).Ok? && SingleRequests(t) && JoinBodiesFit(t, ctx, tx) && JOIN in ctx.reg
    ensures SingleRequests(InTx(t, ctx, tx).value)
  {
    hide SingleRequests, Voted, Proposed, NotProcessed, Transferred, BodiesFit;
    var u := InTx(t, ctx, tx).value;
    match tx.payload {
      case Join(power) =>
        CreatedSingle(t, ctx.reg, JoinEvent(tx.sender, power), ctx.height + ctx.joinExpiry, tx.sender);
      case Remove(target) =>
        var c := Created(t, ctx.reg, RemoveEvent(target), ctx.height + ctx.joinExpiry, tx.sender);
        CreatedSingle(t, ctx.reg, RemoveEvent(target), ctx.height + ctx.joinExpiry, tx.sender);
        SameResolutions(c, u);
      case VoteIDs(ids) => VotedFrame(t, tx.sender == ctx.self, tx.sender, NotProcessed(t.processed, ids));
      case VoteBodies(events) => JoinBodiesExactly(t, ctx, tx.sender, events);
      case _ =>
    }
    if u.resolutions == t.resolutions {
      SameResolutions(t, u);
    }
  }

  lemma TxSingle(t: Tables, ctx: Context, tx: Tx)
    requires NonNegative(t.accounts) && SingleRequests(t) && JOIN in ctx.reg
    requires Succeeds(t, ctx, tx) ==> JoinBodiesFit(AfterSpend(t, ctx, tx), ctx, tx)
    ensures SingleRequests(Executed(t, ctx, tx))
  {
    hide SingleRequests, Charged, InTx, PreTx, JoinBodiesFit;
    SameResolutions(t, AfterSpend(t, ctx, tx));
    if Succeeds(t, ctx, tx) {
      RouteSingle(AfterSpend(t, ctx, tx), ctx, tx);
    }
  }

  /** Every vote-body transaction that succeeds fits when its turn comes. */
  ghost predicate JoinsFit(t: Tables, chain: Chain, b: Block)
    requires NonNegative(t.accounts) && Punished(t, b.punish).Some?
  {
    forall i :: 0 <= i < |b.txs| && Succeeds(Delivered(t, chain, b, i), ContextOf(chain, b), b.txs[i]) ==>
      JoinBodiesFit(AfterSpend(Delivered(t, chain, b, i), ContextOf(chain, b), b.txs[i]), ContextOf(chain, b), b.txs[i])
  }

  lemma {:induction false} DeliveredSingle(t: Tables, chain: Chain, b: Block, n: nat)
    requires NonNegative(t.accounts) && Punished(t, b.punish).Some? && n <= |b.txs|
    requires SingleRequests(t) && JoinsFit(t, chain, b) && JOIN in chain.reg
    ensures SingleRequests(Delivered(t, chain, b, n))
  {
    hide Executed, Punished, SingleRequests, JoinBodiesFit, AfterSpend, Succeeds;
    if n == 0 {
      assert b.txs[..0] == [];
      PunishedFrame(t, b.punish);
      SameResolutions(t, Delivered(t, chain, b, 0));
    } else {
      DeliveredSingle(t, chain, b, n - 1);
      DeliveredStep(t, chain, b, n);
      TxSingle(Delivered(t, chain, b, n - 1), ContextOf(chain, b), b.txs[n - 1]);
    }
  }

  ghost predicate StepFits(t: Tables, chain: Chain, s: Step)
  {
    s.ExecuteBlock? && Executable(t, chain, s.block) ==> JoinsFit(t, chain, s.block)
  }

  lemma StepSingle(t: Tables, chain: Chain, s: Step)
    requires SingleRequests(t) && StepFits(t, chain, s)
    ensures SingleRequests(After(t, chain, s))
  {
    match s
    case StoreEvent(_) => SameResolutions(t, After(t, chain, s));
    case ExecuteBlock(b) =>
      if Executable(t, chain, b) {
        hide Delivered, Processed, JoinsFit, Punished;
        var d := Delivered(t, chain, b, |b.txs|);
        DeliveredSingle(t, chain, b, |b.txs|);
        StepRemovesExactly(d, chain.reg, chain.gas, TallyOf(b));
        assert forall id :: IsJoin(AfterBlock(t, chain, b), id) ==> IsJoin(d, id);
      }
  }

  ghost predicate RunFits(t: Tables, chain: Chain, steps: seq<Step>)
  {
    forall n :: 0 <= n < |steps| ==> StepFits(Run(t, chain, steps[..n]), chain, steps[n])
  }

  lemma {:induction false} RunSingleRequests(t: Tables, chain: Chain, steps: seq<Step>)
    requires SingleRequests(t) && RunFits(t, chain, steps)
    ensures SingleRequests(Run(t, chain, steps))
  {
    hide SingleRequests, After, StepFits;
    if steps != [] {
      var before := steps[..|steps| - 1];
      forall n | 0 <= n < |before| ensures StepFits(Run(t, chain, before[..n]), chain, before[n]) {
        assert before[..n] == steps[..n];
      }
      RunSingleRequests(t, chain, before);
      StepSingle(Run(t, chain, before), chain, steps[|steps| - 1]);
    }
  }

  /** So in such runs an approval is refused exactly when there is no request or the sender is no
      validator; the case of several requests does not arise. */
  lemma ApprovalRefusedExactly(t: Tables, chain: Chain, steps: seq<Step>, sender: Bytes, candidate: Bytes)
    requires SingleRequests(t) && RunFits(t, chain, steps)
    ensures var u := Run(t, chain, steps);
            JoinApproved(u, sender, candidate).Ok? <==> Pending(u, JOIN, candidate) != {} && sender in u.voters
  {
    hide Run, RunFits;
    RunSingleRequests(t, chain, steps);
    var u := Run(t, chain, steps);
    var pending := Pending(u, JOIN, candidate);
    if pending != {} {
      var id :| id in pending;
      forall x | x in pending ensures x == id {
        assert IsJoin(u, x) && IsJoin(u, id);
      }
      assert pending == {id};
    }
  }

  /** A proposer sends two join events among its vote bodies: both requests are pending under its
      name, and approving fails with the error for several requests. */
  lemma TwoJoinBodies(ctx: Context)
    requires ctx.reg == SAMPLE_REGISTRY
    ensures var t := Tables(map[], map[[1] := 1], map[], {}, {}, map[], 0);
            var a, b := Event(JOIN, [1]), Event(JOIN, [2]);
            && SingleRequests(t) && Proposed(t, ctx, [1], [a, b]).Some?
            && !SingleRequests(Proposed(t, ctx, [1], [a, b]).value)
            && JoinApproved(Proposed(t, ctx, [1], [a, b]).value, [1], [1]) == Err(UnknownError)
  {
    hide Ascii;
    var t := Tables(map[], map[[1] := 1], map[], {}, {}, map[], 0);
    var a, b := Event(JOIN, [1]), Event(JOIN, [2]);
    assert ToLower(JOIN) == JOIN by { SampleRegistryValid(); }
    assert EventID(a) != EventID(b) by {
      assert EventID(a).name[|Ascii(JOIN)|] != EventID(b).name[|Ascii(JOIN)|];
    }
    assert [a, b][..1] == [a] && [a][..0] == [];
    assert Proposed(t, ctx, [1], [a]) == ProposedOne(t, ctx, [1], a);
    var mid := ProposedOne(t, ctx, [1], a).value;
    assert Proposed(t, ctx, [1], [a, b]) == ProposedOne(mid, ctx, [1], b);
    var u := ProposedOne(mid, ctx, [1], b).value;
    hide Proposed, EventID;
    assert IsJoin(u, EventID(a)) && IsJoin(u, EventID(b));
    assert {EventID(a), EventID(b)} <= Pending(u, JOIN, [1]);
    SubsetSize({EventID(a), EventID(b)}, Pending(u, JOIN, [1]));
  }
}
