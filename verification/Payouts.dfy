/** What a vote step pays for each resolution, against what it is meant to pay (processVotes and
    applyResolution in internal/txapp/txapp.go, RefundThreshold in
    extensions/resolutions/resolutions.go). */
module Payouts {
  import opened Wrappers
  import opened TableModel
  import opened Sums
  import opened Enumerations
  import opened Voting
  import opened ProcessVotes
  import opened VoteStep
  import opened Refunds
  import opened Routes
  import opened RouteEffects
  import opened Samples

  // ---------------------------------------------------------------------
  // The configured refund threshold
  // ---------------------------------------------------------------------

  /** The documented rule: an expired resolution is refunded if its approved power reaches the
      refund threshold of its type. */
  ghost predicate MeetsRefund(t: Tables, reg: Registry, total: int, id: UUID)
    requires ValidRegistry(reg) && id in t.resolutions && TypeName(t, id) in reg
  {
    ApprovedPower(t, id) >= RequiredPower(reg[TypeName(t, id)].refund, total)
  }

  ghost predicate FirstOfType(t: Tables, exp: seq<UUID>, i: nat)
    requires i < |exp| && forall id :: id in exp ==> id in t.resolutions
  {
    TypeName(t, exp[i]) !in TypesBefore(t, exp, i)
  }

  /** The code refunds an expired resolution if and only if the rule says so or it is the first
      of its type in the list; so it departs from the rule exactly for a first one below the
      threshold. */
  lemma RefundRuleExactly(t: Tables, reg: Registry, total: int, exp: seq<UUID>, i: nat)
    requires ValidRegistry(reg) && i < |exp| && forall v :: v in t.voters ==> 0 < t.voters[v]
    requires forall id :: id in exp ==> id in t.resolutions && TypeName(t, id) in reg
    ensures IsRefunded(t, reg, total, exp, i) <==> MeetsRefund(t, reg, total, exp[i]) || FirstOfType(t, exp, i)
    ensures IsRefunded(t, reg, total, exp, i) != MeetsRefund(t, reg, total, exp[i]) <==>
            FirstOfType(t, exp, i) && !MeetsRefund(t, reg, total, exp[i])
  {
    hide ApprovedPower;
    ApprovedNonNegative(t, exp[i]);
  }

  lemma ApprovedNonNegative(t: Tables, id: UUID)
    requires forall v :: v in t.voters ==> 0 < t.voters[v]
    ensures 0 <= ApprovedPower(t, id)
  {
    PowerAtMostTotal(t.voters, Voters(t, id));
  }

  /** What the rule would pay for the expired resolutions. */
  ghost function SumConfigured(t: Tables, reg: Registry, total: int, exp: seq<UUID>): int
    requires ValidRegistry(reg)
    requires forall id :: id in exp ==> id in t.resolutions && TypeName(t, id) in reg
    decreases |exp|
  {
    if exp == [] then 0
    else SumConfigured(t, reg, total, exp[..|exp| - 1]) +
         (if MeetsRefund(t, reg, total, exp[|exp| - 1]) then Owed(t, exp[|exp| - 1]) else 0)
  }

  /** What is owed for the first of each type that stays below its threshold. */
  ghost function SumWindfall(t: Tables, reg: Registry, total: int, exp: seq<UUID>): int
    requires ValidRegistry(reg)
    requires forall id :: id in exp ==> id in t.resolutions && TypeName(t, id) in reg
    decreases |exp|
  {
    if exp == [] then 0
    else SumWindfall(t, reg, total, exp[..|exp| - 1]) +
         (if FirstOfType(t, exp, |exp| - 1) && !MeetsRefund(t, reg, total, exp[|exp| - 1])
          then Owed(t, exp[|exp| - 1]) else 0)
  }

  lemma {:induction false} RefundExcess(t: Tables, reg: Registry, total: int, exp: seq<UUID>)
    requires ValidRegistry(reg) && forall v :: v in t.voters ==> 0 < t.voters[v]
    requires forall id :: id in exp ==> id in t.resolutions && TypeName(t, id) in reg
    ensures SumRefunded(t, reg, total, exp) == SumConfigured(t, reg, total, exp) + SumWindfall(t, reg, total, exp)
    decreases |exp|
  {
    hide IsRefunded, MeetsRefund, FirstOfType, Owed;
    if exp != [] {
      RefundExcess(t, reg, total, exp[..|exp| - 1]);
      RefundRuleExactly(t, reg, total, exp, |exp| - 1);
    }
  }

  /** In money: a step pays what the rule says and, on top, exactly what is owed for the first
      expired resolution of each type that is below its threshold. */
  lemma StepExcessExactly(t: Tables, reg: Registry, y: Tally)
    requires Integrity(t, reg) && TallyReady(t, reg, y)
    ensures Resolved(t, y).resolutions == t.resolutions
    ensures var u := Resolved(t, y);
            Sum(AllCredits(t, reg, y)) == SumOwed(t, y.conf) +
              SumConfigured(u, reg, TotalPower(t), y.exp) + SumWindfall(u, reg, TotalPower(t), y.exp)
  {
    hide ResolvedAll, AllCredits, IsConfirmed, Sum, TotalPower;
    ConfirmedLive(t, reg);
    PayoutExactly(t, reg, y);
    ResolvedIntegrity(t, reg, y.conf, y.ext);
    RefundExcess(Resolved(t, y), reg, TotalPower(t), y.exp);
  }

  /** A join request that nobody approved is refunded when it expires, although it has none of
      the power the threshold asks for. */
  lemma UnapprovedIsRefunded()
    ensures Requested([1], [2]) == Ok(RequestTables([1], [2], {})) && ValidRegistry(SAMPLE_REGISTRY)
    ensures var t, id := RequestTables([1], [2], {}), RequestID([2]);
            && Expired(t, 5) == {id}
            && IsRefunded(t, SAMPLE_REGISTRY, 1, [id], 0) && !MeetsRefund(t, SAMPLE_REGISTRY, 1, id)
            && SumRefunded(t, SAMPLE_REGISTRY, 1, [id]) == 9000 && SumConfigured(t, SAMPLE_REGISTRY, 1, [id]) == 0
  {
    hide RequestID, ApprovedPower, Requested, JoinEvent;
    SampleRegistryValid();
    RequestedIs([1], [2]);
    RequestDecodes([2]);
    UnapprovedPower([1], [2]);
    var t, id := RequestTables([1], [2], {}), RequestID([2]);
    assert [id][..0] == [] && TypesBefore(t, [id], 0) == {};
    RequiredPowerIsCeiling(Rat(1, 1), 1);
    assert Owed(t, id) == 9000;
  }

  // ---------------------------------------------------------------------
  // What is paid for each resolution
  // ---------------------------------------------------------------------

  /** Listed as expired and refunded there. */
  ghost predicate RefundedIn(t: Tables, reg: Registry, total: int, exp: seq<UUID>, id: UUID)
    requires ValidRegistry(reg)
    requires forall x :: x in exp ==> x in t.resolutions && TypeName(t, x) in reg
  {
    exists i :: 0 <= i < |exp| && exp[i] == id && IsRefunded(t, reg, total, exp, i)
  }

  /** The tables once the resolve functions have run, ready for the refunds. */
  lemma ExpiredReady(t: Tables, reg: Registry, y: Tally)
    requires TallyReady(t, reg, y)
    ensures Resolved(t, y).resolutions == t.resolutions
    ensures forall x :: x in y.exp ==> x in Resolved(t, y).resolutions && TypeName(Resolved(t, y), x) in reg
  {
    hide ResolvedAll, IsConfirmed;
    ConfirmedLive(t, reg);
    ResolvedFrame(t, y.conf, y.ext);
  }

  lemma VotersShrink(t: Tables, reg: Registry, y: Tally, id: UUID)
    requires Integrity(t, reg) && TallyReady(t, reg, y)
    ensures Voters(Resolved(t, y), id) <= Voters(t, id)
  {
    hide ResolvedAll, IsConfirmed;
    ConfirmedLive(t, reg);
    ResolvedFrame(t, y.conf, y.ext);
  }

  /** What the step pays for one resolution: once if it is confirmed, and once more if it is
      expired and refunded. */
  ghost function PaidOut(t: Tables, reg: Registry, y: Tally, id: UUID): int
    requires TallyReady(t, reg, y) && id in t.resolutions
  {
    ExpiredReady(t, reg, y);
    (if id in y.conf then Owed(t, id) else 0) +
    (if RefundedIn(Resolved(t, y), reg, TotalPower(t), y.exp, id) then Owed(Resolved(t, y), id) else 0)
  }

  ghost function OwedMap(t: Tables, conf: seq<UUID>): (m: map<UUID, int>)
    requires forall id :: id in conf ==> id in t.resolutions
    ensures m.Keys == Elements(conf)
  {
    map id | id in Elements(conf) :: Owed(t, id)
  }

  ghost function RefundMap(t: Tables, reg: Registry, total: int, exp: seq<UUID>): (m: map<UUID, int>)
    requires ValidRegistry(reg)
    requires forall x :: x in exp ==> x in t.resolutions && TypeName(t, x) in reg
    ensures m.Keys == Elements(exp)
  {
    map id | id in Elements(exp) :: if RefundedIn(t, reg, total, exp, id) then Owed(t, id) else 0
  }

  lemma OwedMapStep(t: Tables, conf: seq<UUID>)
    requires conf != [] && Distinct(conf) && forall id :: id in conf ==> id in t.resolutions
    ensures var front, last := conf[..|conf| - 1], conf[|conf| - 1];
            last !in Elements(front) && OwedMap(t, conf) == OwedMap(t, front)[last := Owed(t, last)]
  {
    hide Owed;
    var front, last := conf[..|conf| - 1], conf[|conf| - 1];
    assert conf == front + [last];
    ElementsAppend(front, last);
  }

  lemma {:induction false} OwedMapSum(t: Tables, conf: seq<UUID>)
    requires Distinct(conf) && forall id :: id in conf ==> id in t.resolutions
    ensures Sum(OwedMap(t, conf)) == SumOwed(t, conf)
  {
    hide Owed, Sum, OwedMap;
    if conf == [] {
      assert OwedMap(t, conf).Keys == {};
      NoKeys<UUID>();
    } else {
      var front, last := conf[..|conf| - 1], conf[|conf| - 1];
      OwedMapSum(t, front);
      OwedMapStep(t, conf);
      SumUpdate(OwedMap(t, front), last, Owed(t, last));
    }
  }

  lemma RefundedInPrefix(t: Tables, reg: Registry, total: int, exp: seq<UUID>, id: UUID)
    requires ValidRegistry(reg) && exp != [] && Distinct(exp)
    requires forall x :: x in exp ==> x in t.resolutions && TypeName(t, x) in reg
    ensures var front := exp[..|exp| - 1];
            id in front ==> (RefundedIn(t, reg, total, front, id) <==> RefundedIn(t, reg, total, exp, id))
    ensures RefundedIn(t, reg, total, exp, exp[|exp| - 1]) <==> IsRefunded(t, reg, total, exp, |exp| - 1)
  {
    hide ApprovedPower, RequiredPower;
    var front := exp[..|exp| - 1];
    forall i | 0 <= i < |front| ensures IsRefunded(t, reg, total, front, i) <==> IsRefunded(t, reg, total, exp, i) {
      assert TypesBefore(t, front, i) == TypesBefore(t, exp, i);
    }
    assert forall i :: 0 <= i < |front| ==> exp[i] == front[i];
  }

  ghost function RefundAt(t: Tables, reg: Registry, total: int, exp: seq<UUID>, i: nat): int
    requires ValidRegistry(reg) && i < |exp|
    requires forall x :: x in exp ==> x in t.resolutions && TypeName(t, x) in reg
  {
    if IsRefunded(t, reg, total, exp, i) then Owed(t, exp[i]) else 0
  }

  lemma RefundMapStep(t: Tables, reg: Registry, total: int, exp: seq<UUID>)
    requires ValidRegistry(reg) && exp != [] && Distinct(exp)
    requires forall x :: x in exp ==> x in t.resolutions && TypeName(t, x) in reg
    ensures RefundMap(t, reg, total, exp) ==
            RefundMap(t, reg, total, exp[..|exp| - 1])[exp[|exp| - 1] := RefundAt(t, reg, total, exp, |exp| - 1)]
  {
    hide Owed, IsRefunded, RefundedIn;
    var front, last := exp[..|exp| - 1], exp[|exp| - 1];
    assert exp == front + [last];
    ElementsAppend(front, last);
    var m, f := RefundMap(t, reg, total, exp), RefundMap(t, reg, total, front);
    forall id | id in m ensures m[id] == f[last := RefundAt(t, reg, total, exp, |exp| - 1)][id] {
      RefundedInPrefix(t, reg, total, exp, id);
      assert id != last ==> id in front;
    }
  }

  lemma {:induction false} RefundMapSum(t: Tables, reg: Registry, total: int, exp: seq<UUID>)
    requires ValidRegistry(reg) && Distinct(exp)
    requires forall x :: x in exp ==> x in t.resolutions && TypeName(t, x) in reg
    ensures Sum(RefundMap(t, reg, total, exp)) == SumRefunded(t, reg, total, exp)
    decreases |exp|
  {
    hide Owed, Sum, IsRefunded, RefundMap;
    if exp == [] {
      assert RefundMap(t, reg, total, exp).Keys == {};
      NoKeys<UUID>();
    } else {
      var front, last := exp[..|exp| - 1], exp[|exp| - 1];
      RefundMapSum(t, reg, total, front);
      RefundMapStep(t, reg, total, exp);
      assert last !in Elements(front);
      SumUpdate(RefundMap(t, reg, total, front), last, RefundAt(t, reg, total, exp, |exp| - 1));
    }
  }

  /** What the step pays, resolution by resolution. */
  ghost function Payout(t: Tables, reg: Registry, y: Tally): (m: map<UUID, int>)
    requires TallyReady(t, reg, y)
    ensures m.Keys == Elements(y.conf) + Elements(y.exp)
  {
    ConfirmedLive(t, reg);
    map id | id in Elements(y.conf) + Elements(y.exp) :: PaidOut(t, reg, y, id)
  }

  /** These amounts are all of the credits. */
  lemma PayoutByResolution(t: Tables, reg: Registry, y: Tally)
    requires TallyReady(t, reg, y)
    ensures Sum(Payout(t, reg, y)) == Sum(AllCredits(t, reg, y))
  {
    hide AllCredits, ResolvedAll, IsConfirmed, Sum, Owed, TotalPower, RefundedIn;
    ConfirmedLive(t, reg);
    ExpiredReady(t, reg, y);
    var u, total := Resolved(t, y), TotalPower(t);
    var a, b := OwedMap(t, y.conf), RefundMap(u, reg, total, y.exp);
    forall id | id in y.conf || id in y.exp ensures PaidOut(t, reg, y, id) == Get(a, id) + Get(b, id) {
      if id !in y.exp { NotListed(u, reg, total, y.exp, id); }
    }
    assert Payout(t, reg, y) == Plus(a, b);
    SumPlus(a, b);
    OwedMapSum(t, y.conf);
    RefundMapSum(u, reg, total, y.exp);
    PayoutExactly(t, reg, y);
  }

  /** What one account gets for one resolution: the proposer its body back, every other voter one
      vote. */
  ghost function Share(t: Tables, id: UUID, who: Bytes): int
    requires id in t.resolutions
  {
    if who == t.resolutions[id].proposer then 1000 * |t.resolutions[id].body|
    else if who in t.voters && (id, who) in t.votes then 16_000
    else 0
  }

  ghost function Shares(t: Tables, ids: seq<UUID>, who: Bytes): int
    requires forall id :: id in ids ==> id in t.resolutions
  {
    if ids == [] then 0 else Shares(t, ids[..|ids| - 1], who) + Share(t, ids[|ids| - 1], who)
  }

  ghost function RefundShares(t: Tables, reg: Registry, total: int, exp: seq<UUID>, who: Bytes): int
    requires ValidRegistry(reg)
    requires forall id :: id in exp ==> id in t.resolutions && TypeName(t, id) in reg
    decreases |exp|
  {
    if exp == [] then 0
    else
      var last := exp[|exp| - 1];
      RefundShares(t, reg, total, exp[..|exp| - 1], who) +
      (if FirstOfType(t, exp, |exp| - 1) || MeetsRefund(t, reg, total, last) then Share(t, last, who) else 0)
  }

  lemma RewardsShare(t: Tables, id: UUID, who: Bytes)
    requires id in t.resolutions
    ensures Get(Rewards(t.resolutions[id], Voters(t, id)), who) == Share(t, id, who)
  {
  }

  lemma {:induction false} ConfirmedShares(t: Tables, conf: seq<UUID>, who: Bytes)
    requires forall id :: id in conf ==> id in t.resolutions
    ensures Get(ConfirmedCredits(t, conf), who) == Shares(t, conf, who)
  {
    hide Rewards, Share;
    if conf != [] {
      ConfirmedShares(t, conf[..|conf| - 1], who);
      RewardsShare(t, conf[|conf| - 1], who);
    }
  }

  lemma {:induction false} ExpiredShares(t: Tables, reg: Registry, total: int, exp: seq<UUID>, base: Credits, who: Bytes)
    requires ValidRegistry(reg) && forall v :: v in t.voters ==> 0 < t.voters[v]
    requires forall id :: id in exp ==> id in t.resolutions && TypeName(t, id) in reg
    ensures Get(ExpiredCredits(t, reg, total, exp, base), who) == Get(base, who) + RefundShares(t, reg, total, exp, who)
    decreases |exp|
  {
    hide Rewards, Share, IsRefunded, FirstOfType, MeetsRefund;
    if exp != [] {
      ExpiredShares(t, reg, total, exp[..|exp| - 1], base, who);
      RefundRuleExactly(t, reg, total, exp, |exp| - 1);
      RewardsShare(t, exp[|exp| - 1], who);
    }
  }

  /** What every account gains in a step with gas on: its shares in the confirmed resolutions, and
      its shares in the expired ones that are refunded, beside what the resolve functions did. */
  lemma PaidToExactly(t: Tables, reg: Registry, y: Tally, who: Bytes)
    requires Integrity(t, reg) && TallyReady(t, reg, y)
    ensures Resolved(t, y).resolutions == t.resolutions
    ensures var u, l := Resolved(t, y), Processed(t, reg, true, y).accounts;
            && BalanceOf(l, who) == BalanceOf(u.accounts, who) + Shares(t, y.conf, who) +
                                    RefundShares(u, reg, TotalPower(t), y.exp, who)
            && (who in u.accounts ==> who in l && l[who].nonce == u.accounts[who].nonce)
    ensures Processed(t, reg, false, y).accounts == Resolved(t, y).accounts
  {
    hide ResolvedAll, IsConfirmed, TotalPower, ConfirmedCredits, ExpiredCredits, Marked, Shares, RefundShares;
    ConfirmedLive(t, reg);
    ExpiredReady(t, reg, y);
    ResolvedIntegrity(t, reg, y.conf, y.ext);
    ConfirmedShares(t, y.conf, who);
    ExpiredShares(Resolved(t, y), reg, TotalPower(t), y.exp, ConfirmedCredits(t, y.conf), who);
    BalanceCredited(Resolved(t, y).accounts, AllCredits(t, reg, y), who);
  }

  lemma BalanceCredited(l: Ledger, credits: Credits, who: Bytes)
    ensures BalanceOf(CreditedAll(l, credits), who) == BalanceOf(l, who) + Get(credits, who)
    ensures who in l ==> who in CreditedAll(l, credits) && CreditedAll(l, credits)[who].nonce == l[who].nonce
  {
  }

  lemma NotListed(t: Tables, reg: Registry, total: int, exp: seq<UUID>, id: UUID)
    requires ValidRegistry(reg) && id !in exp
    requires forall x :: x in exp ==> x in t.resolutions && TypeName(t, x) in reg
    ensures !RefundedIn(t, reg, total, exp, id)
  {
  }

  // ---------------------------------------------------------------------
  // Paid twice
  // ---------------------------------------------------------------------

  /** Someone is owed something. */
  ghost predicate HasClaim(t: Tables, id: UUID)
    requires id in t.resolutions
  {
    t.resolutions[id].body != [] || Voters(t, id) - {t.resolutions[id].proposer} != {}
  }

  lemma ClaimExactly(t: Tables, id: UUID)
    requires id in t.resolutions
    ensures 0 <= Owed(t, id) && (0 < Owed(t, id) <==> HasClaim(t, id))
  {
    var others := Voters(t, id) - {t.resolutions[id].proposer};
    assert others != {} ==> |others| > 0;
  }

  /** Confirmed and expired at once, with a claim left, and refunded in the second pass: because
      it is the first expired of its type, or because it reaches the refund threshold. */
  ghost predicate PaidTwice(t: Tables, reg: Registry, y: Tally, id: UUID)
    requires TallyReady(t, reg, y)
  {
    ExpiredReady(t, reg, y);
    var u := Resolved(t, y);
    && id in Confirmed(t, reg) && id in t.resolutions && HasClaim(u, id)
    && exists i :: 0 <= i < |y.exp| && y.exp[i] == id &&
                   (FirstOfType(u, y.exp, i) || MeetsRefund(u, reg, TotalPower(t), id))
  }

  lemma SecondPass(t: Tables, reg: Registry, y: Tally, id: UUID)
    requires Integrity(t, reg) && TallyReady(t, reg, y)
    ensures Resolved(t, y).resolutions == t.resolutions
    ensures forall x :: x in y.exp ==> x in Resolved(t, y).resolutions && TypeName(Resolved(t, y), x) in reg
    ensures RefundedIn(Resolved(t, y), reg, TotalPower(t), y.exp, id) <==>
            exists i :: 0 <= i < |y.exp| && y.exp[i] == id &&
                        (FirstOfType(Resolved(t, y), y.exp, i) || MeetsRefund(Resolved(t, y), reg, TotalPower(t), id))
  {
    hide ResolvedAll, IsConfirmed, IsRefunded, FirstOfType, MeetsRefund, TotalPower;
    ConfirmedLive(t, reg);
    ExpiredReady(t, reg, y);
    ResolvedIntegrity(t, reg, y.conf, y.ext);
    forall i | 0 <= i < |y.exp|
      ensures IsRefunded(Resolved(t, y), reg, TotalPower(t), y.exp, i) <==>
              FirstOfType(Resolved(t, y), y.exp, i) || MeetsRefund(Resolved(t, y), reg, TotalPower(t), y.exp[i])
    {
      RefundRuleExactly(Resolved(t, y), reg, TotalPower(t), y.exp, i);
    }
  }

  /** For every step and every resolution: more is paid than is owed if and only if the
      resolution is paid twice in the above sense. */
  lemma DoubleRefundExactly(t: Tables, reg: Registry, y: Tally, id: UUID)
    requires Integrity(t, reg) && TallyReady(t, reg, y) && id in t.resolutions
    ensures PaidOut(t, reg, y, id) > Owed(t, id) <==> PaidTwice(t, reg, y, id)
  {
    hide ResolvedAll, IsConfirmed, Owed, RefundedIn, HasClaim, FirstOfType, MeetsRefund, TotalPower;
    ExpiredReady(t, reg, y);
    SecondPass(t, reg, y, id);
    ClaimExactly(t, id);
    ClaimExactly(Resolved(t, y), id);
    VotersShrink(t, reg, y, id);
    OwedMonotone(t, Resolved(t, y), id);
  }

  /** The validator's vote confirms the join request at height 5, where it expires: the step goes
      through and pays 50000 where 25000 is owed. */
  lemma LastMinutePaidTwice()
    ensures var id := RequestID([2]);
            var t, y := RequestTables([1], [2], {(id, [1])}), Tally(5, map[], [id], [id]);
            && JoinApproved(RequestTables([1], [2], {}), [1], [2]) == Ok(t)
            && Integrity(t, SAMPLE_REGISTRY) && TallyReady(t, SAMPLE_REGISTRY, y) && Markable(t, SAMPLE_REGISTRY, y)
            && PaidTwice(t, SAMPLE_REGISTRY, y, id) && Owed(t, id) == 25000
            && PaidOut(t, SAMPLE_REGISTRY, y, id) == 50000
  {
    hide Confirmed, ApprovedPower, TotalPower, RequestID, JoinApproved, JoinEvent, ResolvedAll;
    var id := RequestID([2]);
    var t, y := RequestTables([1], [2], {(id, [1])}), Tally(5, map[], [id], [id]);
    ApprovedIs([1], [2]);
    RequestIntegrity([1], [2], true);
    ApprovedConfirmed([1], [2]);
    assert Expired(t, 5) == {id};
    assert TallyReady(t, SAMPLE_REGISTRY, y);
    ApprovedResolved([1], [2]);
    var u := Resolved(t, y);
    OwedSame(t, u, id);
    assert [id][..0] == [];
    assert Marked(t, [id]) == [];
    assert y.exp[0] == id && FirstOfType(u, y.exp, 0);
    assert HasClaim(u, id) by { ClaimExactly(u, id); }
    SecondPass(t, SAMPLE_REGISTRY, y, id);
  }

  lemma OwedSame(t: Tables, u: Tables, id: UUID)
    requires id in t.resolutions && u.resolutions == t.resolutions && u.votes == t.votes
    requires t.voters.Keys <= u.voters.Keys && forall v :: v in t.votes ==> v.1 in t.voters
    ensures Owed(u, id) == Owed(t, id)
  {
    assert Voters(u, id) == Voters(t, id);
  }

  /** The same with an event of an extension: the last vote comes at height 14401, where the
      resolution expires, and no step at that height can record it. */
  lemma LastMinuteFails()
    ensures var id := EventID(CREDIT);
            var t := CreditTables({(id, [1]), (id, [2])}, {});
            && VotedOne(CreditTables({(id, [1])}, {}), false, [2], id) == Some(t)
            && Integrity(t, SAMPLE_REGISTRY)
            && TallyReady(t, SAMPLE_REGISTRY, Tally(14401, map[], [id], [id]))
            && forall y :: TallyReady(t, SAMPLE_REGISTRY, y) && y.height == 14401 ==> !Markable(t, SAMPLE_REGISTRY, y)
  {
    hide EventID, Confirmed, VotedOne, Markable;
    CreditVoted({});
    CreditConfirmed();
    var id := EventID(CREDIT);
    var t := CreditTables({(id, [1]), (id, [2])}, {});
    assert Expired(t, 14401) == {id};
    forall y | TallyReady(t, SAMPLE_REGISTRY, y) && y.height == 14401 ensures !Markable(t, SAMPLE_REGISTRY, y) {
      MarkableExactly(t, SAMPLE_REGISTRY, y);
      assert Unmarkable(t, SAMPLE_REGISTRY, y.height, id);
    }
  }
}
