/** Who leaves the validator set, and what power everyone has after a block (the resolve functions
    of internal/voting/validators.go, leaving and punishment), over blocks and whole runs. */
module Departures {
  import opened Wrappers
  import opened TableModel
  import opened Enumerations
  import opened Accounts
  import opened PowerRequest
  import opened Voting
  import opened Routes
  import opened RouteEffects
  import opened ProcessVotes
  import opened VoteStep
  import opened Runs
  import opened Membership

  /** A voter with this power; power 0 is no voter. */
  ghost predicate HasPower(t: Tables, who: Bytes, power: int)
  {
    if power == 0 then who !in t.voters else who in t.voters && t.voters[who] == power
  }

  ghost predicate SameVoter(t: Tables, u: Tables, who: Bytes)
  {
    (who in u.voters <==> who in t.voters) && (who in t.voters ==> u.voters[who] == t.voters[who])
  }

  // ---------------------------------------------------------------------
  // The resolve functions
  // ---------------------------------------------------------------------

  /** The resolution orders this power for this key: a join request any that is not negative, a
      removal only 0. */
  ghost predicate Orders(r: Resolution, who: Bytes, power: int)
  {
    && 0 <= power && UnmarshalBinary(r.body) == Some(UpdatePowerRequest(who, power))
    && (r.typ == Some(JOIN) || (r.typ == Some(REMOVE) && power == 0))
  }

  ghost predicate Silent(r: Resolution, who: Bytes)
  {
    forall power :: !Orders(r, who, power)
  }

  /** One resolution does what it orders, and nothing to anyone else. */
  lemma ResolvedOneExactly(t: Tables, id: UUID, r: Resolution, ext: Extensions, who: Bytes)
    ensures forall power :: Orders(r, who, power) ==> HasPower(ResolvedOne(t, id, r, ext), who, power)
    ensures Silent(r, who) ==> SameVoter(t, ResolvedOne(t, id, r, ext), who)
  {
    hide UnmarshalBinary, CreditedAll;
    if Silent(r, who) && UnmarshalBinary(r.body).Some? {
      var req := UnmarshalBinary(r.body).value;
      assert !Orders(r, who, req.power);
    }
  }

  /** The last of the confirmed resolutions that orders anything for a key. */
  ghost predicate LastOrder(t: Tables, conf: seq<UUID>, i: nat, who: Bytes, power: int)
    requires forall id :: id in conf ==> id in t.resolutions
  {
    && i < |conf| && Orders(t.resolutions[conf[i]], who, power)
    && forall j :: i < j < |conf| ==> Silent(t.resolutions[conf[j]], who)
  }

  ghost predicate AllSilent(t: Tables, conf: seq<UUID>, who: Bytes)
    requires forall id :: id in conf ==> id in t.resolutions
  {
    forall j :: 0 <= j < |conf| ==> Silent(t.resolutions[conf[j]], who)
  }

  lemma {:induction false} ResolvedSilent(t: Tables, conf: seq<UUID>, ext: Extensions, who: Bytes)
    requires forall id :: id in conf ==> id in t.resolutions
    requires AllSilent(t, conf, who)
    ensures SameVoter(t, ResolvedAll(t, conf, ext), who)
  {
    hide ResolvedOne, Silent;
    if conf != [] {
      var n := |conf| - 1;
      ResolvedSilent(t, conf[..n], ext, who);
      ResolvedOneExactly(ResolvedAll(t, conf[..n], ext), conf[n], t.resolutions[conf[n]], ext, who);
    }
  }

  lemma {:induction false} ResolvedLast(t: Tables, conf: seq<UUID>, ext: Extensions, who: Bytes, i: nat, power: int)
    requires forall id :: id in conf ==> id in t.resolutions
    requires LastOrder(t, conf, i, who, power)
    ensures HasPower(ResolvedAll(t, conf, ext), who, power)
    decreases |conf|
  {
    hide ResolvedOne, Silent, Orders;
    var n := |conf| - 1;
    ResolvedOneExactly(ResolvedAll(t, conf[..n], ext), conf[n], t.resolutions[conf[n]], ext, who);
    if i < n {
      ResolvedLast(t, conf[..n], ext, who, i, power);
    }
  }

  /** A key that is ordered anything has a last order. */
  lemma {:induction false} LastOrderExists(t: Tables, conf: seq<UUID>, who: Bytes, i: nat) returns (j: nat, power: int)
    requires forall id :: id in conf ==> id in t.resolutions
    requires i < |conf| && !Silent(t.resolutions[conf[i]], who)
    ensures i <= j && LastOrder(t, conf, j, who, power)
    decreases |conf| - i
  {
    hide Orders;
    if k :| i < k < |conf| && !Silent(t.resolutions[conf[k]], who) {
      j, power := LastOrderExists(t, conf, who, k);
    } else {
      j := i;
      power :| Orders(t.resolutions[conf[i]], who, power);
    }
  }

  /** The votes that outlive the resolve functions: all but those of keys ordered to power 0. */
  lemma {:induction false} ResolvedVotes(t: Tables, conf: seq<UUID>, ext: Extensions, v: (UUID, Bytes))
    requires forall id :: id in conf ==> id in t.resolutions
    ensures v in ResolvedAll(t, conf, ext).votes <==>
            v in t.votes && forall i :: 0 <= i < |conf| ==> !Orders(t.resolutions[conf[i]], v.1, 0)
  {
    if conf != [] {
      var n := |conf| - 1;
      ResolvedVotes(t, conf[..n], ext, v);
      hide ResolvedOne, Orders;
      ResolvedOneVotes(ResolvedAll(t, conf[..n], ext), conf[n], t.resolutions[conf[n]], ext, v);
      assert forall i :: 0 <= i < n ==> conf[..n][i] == conf[i];
    }
  }

  lemma ResolvedOneVotes(t: Tables, id: UUID, r: Resolution, ext: Extensions, v: (UUID, Bytes))
    ensures v in ResolvedOne(t, id, r, ext).votes <==> v in t.votes && !Orders(r, v.1, 0)
  {
    hide UnmarshalBinary, CreditedAll;
  }

  /** The votes after a vote step, exactly: those on resolutions that stay, of voters that no
      confirmed resolution orders to power 0. */
  lemma VotesAfterStep(t: Tables, reg: Registry, gas: bool, y: Tally, v: (UUID, Bytes))
    requires TallyReady(t, reg, y)
    ensures forall id :: id in y.conf ==> id in t.resolutions
    ensures v in Processed(t, reg, gas, y).votes <==>
            && v in t.votes && v.0 !in Confirmed(t, reg) && v.0 !in Expired(t, y.height)
            && forall i :: 0 <= i < |y.conf| ==> !Orders(t.resolutions[y.conf[i]], v.1, 0)
  {
    hide ResolvedAll, AllCredits, AllMarked, CreditedAll, IsConfirmed, Orders;
    ResolvedVotes(t, y.conf, y.ext, v);
    assert Elements(y.conf) == Confirmed(t, reg) && Elements(y.exp) == Expired(t, y.height);
  }

  // ---------------------------------------------------------------------
  // Punishments and transactions
  // ---------------------------------------------------------------------

  ghost predicate LastPunished(punish: seq<(Bytes, int)>, i: int, who: Bytes)
  {
    0 <= i < |punish| && punish[i].0 == who && forall j :: i < j < |punish| ==> punish[j].0 != who
  }

  lemma PowerSetExactly(t: Tables, target: Bytes, power: int, who: Bytes)
    ensures PowerSet(t, target, power).Some? <==> 0 <= power
    ensures 0 <= power ==>
              var u := PowerSet(t, target, power).value;
              && HasPower(u, target, power) && (who != target ==> SameVoter(t, u, who))
              && (forall v :: v in u.votes <==> v in t.votes && (power == 0 ==> v.1 != target))
  {
  }

  /** The last punishment of a key decides its power; a key without one keeps it. */
  lemma {:induction false} PunishedExactly(t: Tables, punish: seq<(Bytes, int)>, who: Bytes)
    requires Punished(t, punish).Some?
    ensures forall i :: LastPunished(punish, i, who) ==> HasPower(Punished(t, punish).value, who, punish[i].1)
    ensures (forall i :: 0 <= i < |punish| ==> punish[i].0 != who) ==> SameVoter(t, Punished(t, punish).value, who)
  {
    if punish != [] {
      hide PowerSet;
      var n := |punish| - 1;
      var front := punish[..n];
      PunishedExactly(t, front, who);
      PowerSetExactly(Punished(t, front).value, punish[n].0, punish[n].1, who);
      forall i | LastPunished(punish, i, who) ensures HasPower(Punished(t, punish).value, who, punish[i].1) {
        if i < n {
          assert punish[n].0 != who;
          assert LastPunished(front, i, who);
        }
      }
    }
  }

  lemma {:induction false} LastPunishedExists(punish: seq<(Bytes, int)>, who: Bytes, i: nat) returns (j: nat)
    requires i < |punish| && punish[i].0 == who
    ensures LastPunished(punish, j, who)
    decreases |punish| - i
  {
    if k :| i < k < |punish| && punish[k].0 == who {
      j := LastPunishedExists(punish, who, k);
    } else {
      j := i;
    }
  }

  /** Of all transactions only a successful Leave changes the voters. */
  lemma TxVotersExactly(t: Tables, ctx: Context, tx: Tx)
    requires NonNegative(t.accounts)
    ensures Executed(t, ctx, tx).voters ==
            if tx.payload == Leave && Succeeds(t, ctx, tx) then t.voters - {tx.sender} else t.voters
  {
    if Succeeds(t, ctx, tx) {
      hide Executed, Succeeds, Charged, EventID, JoinEvent, RemoveEvent, Mentioned, OnlyRequest, PaysInFull, NewRow, IsRequest;
      match tx.payload
      case Transfer(to, amt) => TransferVoters(t, ctx, tx);
      case Join(power) => JoinExactly(t, ctx, tx, power);
      case Approve(candidate) => ApproveExactly(t, ctx, tx, candidate);
      case Remove(target) => RemoveExactly(t, ctx, tx, target);
      case Leave =>
        LeaveExactly(t, ctx, tx);
        assert Executed(t, ctx, tx).voters == t.voters - {tx.sender};
      case VoteIDs(ids) => VoteIDsExactly(t, ctx, tx, ids);
      case VoteBodies(events) => VoteBodiesExactly(t, ctx, tx, events);
      case _ => OthersExactly(t, ctx, tx);
    }
  }

  lemma TransferVoters(t: Tables, ctx: Context, tx: Tx)
    requires NonNegative(t.accounts) && tx.payload.Transfer?
    ensures Executed(t, ctx, tx).voters == t.voters
  {
    hide Charged, Transferred;
  }

  /** Transaction `i` of the block is the key's own successful Leave. */
  ghost predicate LeftAt(t: Tables, chain: Chain, b: Block, i: nat, who: Bytes)
    requires NonNegative(t.accounts) && Punished(t, b.punish).Some? && i < |b.txs|
  {
    && b.txs[i].sender == who && b.txs[i].payload == Leave
    && Succeeds(Delivered(t, chain, b, i), ContextOf(chain, b), b.txs[i])
  }

  lemma {:induction false} DeliveredExactly(t: Tables, chain: Chain, b: Block, n: nat, who: Bytes)
    requires NonNegative(t.accounts) && Punished(t, b.punish).Some? && n <= |b.txs|
    ensures (exists i :: 0 <= i < n && LeftAt(t, chain, b, i, who)) ==> who !in Delivered(t, chain, b, n).voters
    ensures (forall i :: 0 <= i < n ==> !LeftAt(t, chain, b, i, who)) ==>
              SameVoter(Punished(t, b.punish).value, Delivered(t, chain, b, n), who)
  {
    hide Executed, Punished, Succeeds;
    if n == 0 {
      assert b.txs[..0] == [];
    } else {
      DeliveredExactly(t, chain, b, n - 1, who);
      DeliveredStep(t, chain, b, n);
      TxVotersExactly(Delivered(t, chain, b, n - 1), ContextOf(chain, b), b.txs[n - 1]);
      hide Delivered;
      var i: nat := n - 1;
      assert LeftAt(t, chain, b, i, who) ==> who !in Delivered(t, chain, b, n).voters;
    }
  }

  // ---------------------------------------------------------------------
  // A block
  // ---------------------------------------------------------------------

  lemma ConfirmedRows(t: Tables, chain: Chain, b: Block)
    requires Executable(t, chain, b)
    ensures forall id :: id in b.conf <==> id in Confirmed(Delivered(t, chain, b, |b.txs|), chain.reg)
    ensures forall id :: id in b.conf ==> id in Delivered(t, chain, b, |b.txs|).resolutions
    ensures AfterBlock(t, chain, b).voters == ResolvedAll(Delivered(t, chain, b, |b.txs|), b.conf, b.ext).voters
  {
    hide Delivered, ResolvedAll, Punished, IsConfirmed, AllCredits, AllMarked, CreditedAll;
  }

  /** The voters after a block, exactly. The last confirmed resolution that orders a power for a
      key decides; else a successful Leave; else its last punishment; else nothing changed. */
  lemma VotersAfterBlock(t: Tables, chain: Chain, b: Block, who: Bytes)
    requires Executable(t, chain, b)
    ensures forall id :: id in b.conf ==> id in Delivered(t, chain, b, |b.txs|).resolutions
    ensures var d, u := Delivered(t, chain, b, |b.txs|), AfterBlock(t, chain, b);
            && (forall i, power :: LastOrder(d, b.conf, i, who, power) ==> HasPower(u, who, power))
            && (AllSilent(d, b.conf, who) ==>
                  && ((exists i :: 0 <= i < |b.txs| && LeftAt(t, chain, b, i, who)) ==> who !in u.voters)
                  && ((forall i :: 0 <= i < |b.txs| ==> !LeftAt(t, chain, b, i, who)) ==>
                        && (forall i :: LastPunished(b.punish, i, who) ==> HasPower(u, who, b.punish[i].1))
                        && ((forall i :: 0 <= i < |b.punish| ==> b.punish[i].0 != who) ==> SameVoter(t, u, who))))
  {
    ConfirmedRows(t, chain, b);
    hide Delivered, AfterBlock, ResolvedAll, Punished, LastOrder, AllSilent, LeftAt, LastPunished, Confirmed;
    var d := Delivered(t, chain, b, |b.txs|);
    DeliveredExactly(t, chain, b, |b.txs|, who);
    PunishedExactly(t, b.punish, who);
    forall i, power | LastOrder(d, b.conf, i, who, power) ensures HasPower(AfterBlock(t, chain, b), who, power) {
      ResolvedLast(d, b.conf, b.ext, who, i, power);
    }
    if AllSilent(d, b.conf, who) {
      ResolvedSilent(d, b.conf, b.ext, who);
    }
  }

  /** A confirmed removal of a key, with no request to admit it again resolved after it. */
  ghost predicate Removes(t: Tables, chain: Chain, b: Block, i: nat, who: Bytes)
    requires Executable(t, chain, b)
  {
    ConfirmedRows(t, chain, b);
    var d := Delivered(t, chain, b, |b.txs|);
    && i < |b.conf|
    && d.resolutions[b.conf[i]].typ == Some(REMOVE)
    && UnmarshalBinary(d.resolutions[b.conf[i]].body) == Some(UpdatePowerRequest(who, 0))
    && forall j, power :: i < j < |b.conf| && 0 < power ==> !Admits(d, b.conf[j], who, power)
  }

  /** After it the key is no voter and has no votes. */
  lemma RemovalTakesEffect(t: Tables, chain: Chain, b: Block, i: nat, who: Bytes)
    requires Integrity(t, chain.reg) && Executable(t, chain, b) && Removes(t, chain, b, i, who)
    ensures who !in AfterBlock(t, chain, b).voters
    ensures forall v :: v in AfterBlock(t, chain, b).votes ==> v.1 != who
  {
    ConfirmedRows(t, chain, b);
    BlockIntegrity(t, chain, b);
    hide Delivered, AfterBlock, ResolvedAll, Executable, UnmarshalBinary, Confirmed;
    var d := Delivered(t, chain, b, |b.txs|);
    assert Orders(d.resolutions[b.conf[i]], who, 0);
    var j, power := LastOrderExists(d, b.conf, who, i);
    assert power == 0 by {
      if j == i {
        assert Orders(d.resolutions[b.conf[j]], who, power);
      } else if 0 < power {
        assert !Admits(d, b.conf[j], who, power);
      }
    }
    ResolvedLast(d, b.conf, b.ext, who, j, power);
  }

  /** Byte order of names. */
  ghost predicate NameBefore(a: string, b: string)
  {
    exists i :: 0 <= i <= |a| && i < |b| && a[..i] == b[..i] && (i < |a| ==> a[i] < b[i])
  }

  lemma RemovalsSortLast()
    ensures !NameBefore(REMOVE, JOIN)
  {
    var a, b := REMOVE, JOIN;
    assert |a| == 16 && |b| == 14 && a[10] == 'r' && b[10] == 'j';
    forall i | 0 <= i <= |a| && i < |b| && a[..i] == b[..i] ensures i < |a| && a[i] >= b[i] {
      assert forall k :: 0 <= k < i ==> a[..i][k] == a[k] && b[..i][k] == b[k];
      if i < 10 {
        SameStart(i);
      }
    }
  }

  lemma SameStart(i: nat)
    requires i < 10
    ensures REMOVE[i] == JOIN[i]
  {
    assert REMOVE[..10] == "validator_" == JOIN[..10];
    assert REMOVE[..10][i] == REMOVE[i] && JOIN[..10][i] == JOIN[i];
  }

  /** The types are visited in sorted order, so removals are resolved after all join requests and
      every confirmed removal takes effect. */
  lemma EveryRemovalTakesEffect(t: Tables, chain: Chain, b: Block, id: UUID, who: Bytes, types: seq<string>, rank: Ranking)
    requires Integrity(t, chain.reg) && Executable(t, chain, b) && Enumerates(types, chain.reg.Keys)
    requires forall i, j :: 0 <= i < j < |types| ==> NameBefore(types[i], types[j])
    requires var d := Delivered(t, chain, b, |b.txs|);
             && Queried(d, types, rank, TallyOf(b)) && id in Confirmed(d, chain.reg) && id in d.resolutions
             && d.resolutions[id].typ == Some(REMOVE)
             && UnmarshalBinary(d.resolutions[id].body) == Some(UpdatePowerRequest(who, 0))
    ensures who !in AfterBlock(t, chain, b).voters
    ensures forall v :: v in AfterBlock(t, chain, b).votes ==> v.1 != who
  {
    ConfirmedRows(t, chain, b);
    assert JOIN in types && REMOVE in types;
    var k :| 0 <= k < |types| && types[k] == JOIN;
    var l :| 0 <= l < |types| && types[l] == REMOVE;
    RemovalsSortLast();
    hide Delivered, AfterBlock, Executable, UnmarshalBinary, Confirmed, NameBefore;
    assert k != l && k < l;
    var d := Delivered(t, chain, b, |b.txs|);
    var i :| 0 <= i < |b.conf| && b.conf[i] == id;
    forall j, power | i < j < |b.conf| && 0 < power ensures !Admits(d, b.conf[j], who, power) {
      assert HasType(d, types, b.conf[i], l) && !HasType(d, types, b.conf[j], k);
    }
    RemovalTakesEffect(t, chain, b, i, who);
  }

  /** Why a key may be gone after a block: its own Leave, a punishment to 0, or an order for power
      0 that two thirds of the power of that moment confirmed. */
  ghost predicate Departed(t: Tables, chain: Chain, b: Block, who: Bytes)
  {
    Executable(t, chain, b) &&
    var d := Delivered(t, chain, b, |b.txs|);
    || (exists i :: 0 <= i < |b.txs| && LeftAt(t, chain, b, i, who))
    || (who, 0) in b.punish
    || exists id :: id in Confirmed(d, chain.reg) && id in d.resolutions && Orders(d.resolutions[id], who, 0) && Quorate(d, id)
  }

  lemma OrderQuorate(t: Tables, chain: Chain, b: Block, id: UUID, who: Bytes, power: int)
    requires Integrity(t, chain.reg) && Executable(t, chain, b) && ValidRegistry(chain.reg)
    requires chain.reg[JOIN].confirm == Rat(2, 3) && chain.reg[REMOVE].confirm == Rat(2, 3)
    requires var d := Delivered(t, chain, b, |b.txs|);
             id in Confirmed(d, chain.reg) && id in d.resolutions && Orders(d.resolutions[id], who, power)
    ensures Quorate(Delivered(t, chain, b, |b.txs|), id)
  {
    hide Delivered, Confirmed, Integrity, Executable;
    ConfirmedQuorate(t, chain, b, id);
  }

  /** Gone before the vote step. */
  lemma GoneBefore(t: Tables, chain: Chain, b: Block, who: Bytes)
    requires NonNegative(t.accounts) && Punished(t, b.punish).Some?
    requires who in t.voters && who !in Delivered(t, chain, b, |b.txs|).voters
    ensures (exists i :: 0 <= i < |b.txs| && LeftAt(t, chain, b, i, who)) || (who, 0) in b.punish
  {
    hide Delivered, Punished, LeftAt;
    DeliveredExactly(t, chain, b, |b.txs|, who);
    PunishedExactly(t, b.punish, who);
    if forall i :: 0 <= i < |b.txs| ==> !LeftAt(t, chain, b, i, who) {
      var i :| 0 <= i < |b.punish| && b.punish[i].0 == who;
      var j := LastPunishedExists(b.punish, who, i);
      ZeroOrder(Punished(t, b.punish).value, who, b.punish[j].1);
      assert b.punish[j] == (who, 0);
    }
  }

  /** Gone in the vote step. */
  lemma GoneInStep(d: Tables, conf: seq<UUID>, ext: Extensions, who: Bytes) returns (i: nat)
    requires forall id :: id in conf ==> id in d.resolutions
    requires who in d.voters && who !in ResolvedAll(d, conf, ext).voters
    ensures i < |conf| && Orders(d.resolutions[conf[i]], who, 0)
  {
    hide ResolvedAll, Silent, Orders;
    if AllSilent(d, conf, who) {
      ResolvedSilent(d, conf, ext, who);
    }
    var j :| 0 <= j < |conf| && !Silent(d.resolutions[conf[j]], who);
    var power;
    i, power := LastOrderExists(d, conf, who, j);
    ResolvedLast(d, conf, ext, who, i, power);
    ZeroOrder(ResolvedAll(d, conf, ext), who, power);
  }

  lemma DepartureHasACause(t: Tables, chain: Chain, b: Block, who: Bytes)
    requires Integrity(t, chain.reg) && Executable(t, chain, b) && ValidRegistry(chain.reg)
    requires chain.reg[JOIN].confirm == Rat(2, 3) && chain.reg[REMOVE].confirm == Rat(2, 3)
    requires who in t.voters && who !in AfterBlock(t, chain, b).voters
    ensures Departed(t, chain, b, who)
  {
    ConfirmedRows(t, chain, b);
    hide Delivered, AfterBlock, Confirmed, LeftAt, Integrity, Orders, Quorate, Punished, TallyReady, Markable, ResolvedAll;
    var d := Delivered(t, chain, b, |b.txs|);
    if who in d.voters {
      var i := GoneInStep(d, b.conf, b.ext, who);
      OrderQuorate(t, chain, b, b.conf[i], who, 0);
    } else {
      GoneBefore(t, chain, b, who);
    }
  }

  lemma ZeroOrder(u: Tables, who: Bytes, power: int)
    requires HasPower(u, who, power) && who !in u.voters
    ensures power == 0
  {
  }

  // ---------------------------------------------------------------------
  // Whole runs
  // ---------------------------------------------------------------------

  ghost predicate DepartedAt(t: Tables, chain: Chain, steps: seq<Step>, n: nat, who: Bytes)
    requires n < |steps|
  {
    steps[n].ExecuteBlock? && Departed(Run(t, chain, steps[..n]), chain, steps[n].block, who)
  }

  lemma StepDeparture(u: Tables, chain: Chain, s: Step, who: Bytes)
    requires Integrity(u, chain.reg) && ValidRegistry(chain.reg)
    requires chain.reg[JOIN].confirm == Rat(2, 3) && chain.reg[REMOVE].confirm == Rat(2, 3)
    requires who in u.voters && who !in After(u, chain, s).voters
    ensures s.ExecuteBlock? && Departed(u, chain, s.block, who)
  {
    hide Executable, AfterBlock, Integrity, Departed;
    DepartureHasACause(u, chain, s.block, who);
  }

  /** Over every run: a validator at some point that is none at the end left, was punished to 0, or
      was removed by two thirds of the power of that moment, in some block in between. */
  lemma {:induction false} EveryDepartureHasACause(t: Tables, chain: Chain, steps: seq<Step>, m: nat, who: Bytes)
    requires Integrity(t, chain.reg) && ValidRegistry(chain.reg)
    requires chain.reg[JOIN].confirm == Rat(2, 3) && chain.reg[REMOVE].confirm == Rat(2, 3)
    requires m <= |steps| && who in Run(t, chain, steps[..m]).voters && who !in Run(t, chain, steps).voters
    ensures exists n :: m <= n < |steps| && DepartedAt(t, chain, steps, n, who)
  {
    hide After, Departed, Integrity;
    assert steps[..|steps|] == steps;
    if m < |steps| {
      var n := |steps| - 1;
      var before := steps[..n];
      assert before[..m] == steps[..m];
      if who in Run(t, chain, before).voters {
        RunIntegrity(t, chain, before);
        StepDeparture(Run(t, chain, before), chain, steps[n], who);
        assert DepartedAt(t, chain, steps, n, who);
      } else {
        EveryDepartureHasACause(t, chain, before, m, who);
        var k :| m <= k < n && DepartedAt(t, chain, before, k, who);
        assert before[..k] == steps[..k];
        assert DepartedAt(t, chain, steps, k, who);
      }
    }
  }

  /** Block `n` removes the key. */
  ghost predicate RemovedAt(t: Tables, chain: Chain, steps: seq<Step>, n: nat, who: Bytes)
    requires n < |steps|
  {
    steps[n].ExecuteBlock? && RemovedIn(Run(t, chain, steps[..n]), chain, steps[n].block, who)
  }

  ghost predicate RemovedIn(u: Tables, chain: Chain, b: Block, who: Bytes)
  {
    Executable(u, chain, b) && exists i :: Removes(u, chain, b, i, who)
  }

  /** Over every run: a removed validator is one again only after a later block admitted it with
      two thirds of the power of that moment. */
  lemma {:induction false} RemovedStaysOut(t: Tables, chain: Chain, steps: seq<Step>, n: nat, who: Bytes)
    requires ValidRegistry(chain.reg) && chain.reg[JOIN].confirm == Rat(2, 3)
    requires Integrity(t, chain.reg) && PunishmentsFit(t, chain, steps)
    requires n < |steps| && RemovedAt(t, chain, steps, n, who) && who in Run(t, chain, steps).voters
    ensures exists j :: n < j < |steps| && AdmittedAt(t, chain, steps, j, who)
    decreases |steps|
  {
    hide AdmittedAt, Integrity, PunishesVoters, RemovedIn;
    var m := |steps| - 1;
    var before := steps[..m];
    if n == m {
      RunIntegrity(t, chain, before);
      RemovedNow(Run(t, chain, before), chain, steps[m].block, who);
      assert false;
    } else if who in Run(t, chain, before).voters {
      hide After;
      assert forall k :: 0 <= k < m ==> before[..k] == steps[..k];
      RemovedStaysOut(t, chain, before, n, who);
      var j :| n < j < m && AdmittedAt(t, chain, before, j, who);
      AdmittedLater(t, chain, steps, j, who);
    } else {
      AdmittedNow(t, chain, steps, who);
    }
  }

  lemma RemovedNow(u: Tables, chain: Chain, b: Block, who: Bytes)
    requires Integrity(u, chain.reg) && RemovedIn(u, chain, b, who)
    ensures who !in After(u, chain, ExecuteBlock(b)).voters
  {
    hide Executable, AfterBlock, Integrity, Removes;
    var i :| Removes(u, chain, b, i, who);
    RemovalTakesEffect(u, chain, b, i, who);
  }
}
