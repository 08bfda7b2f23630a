/** End-of-block vote processing (processVotes in internal/txapp/txapp.go). */
module ProcessVotes {
  import opened Wrappers
  import opened TableModel
  import opened Sums
  import opened Enumerations
  import opened Bags
  import opened Accounts
  import opened Voting
  import opened PowerRequest
  import opened Routes

  // ---------------------------------------------------------------------
  // Refunds
  // ---------------------------------------------------------------------

  type Credits = map<Bytes, int>

  /** What one resolution pays: its proposer gets the body back, every other voter one id. */
  ghost function Rewards(r: Resolution, voters: set<Bytes>): Credits
  {
    (map v | v in voters - {r.proposer} :: VOTE_ID_PRICE)[r.proposer := BYTE_PRICE * |r.body|]
  }

  /** The total of Rewards. */
  ghost function Owed(t: Tables, id: UUID): int
    requires id in t.resolutions
  {
    var r := t.resolutions[id];
    BYTE_PRICE * |r.body| + VOTE_ID_PRICE * |Voters(t, id) - {r.proposer}|
  }

  lemma RewardsTotal(t: Tables, id: UUID)
    requires id in t.resolutions
    ensures Sum(Rewards(t.resolutions[id], Voters(t, id))) == Owed(t, id)
  {
    var r := t.resolutions[id];
    var others := map v | v in Voters(t, id) - {r.proposer} :: VOTE_ID_PRICE;
    SumConstant(Voters(t, id) - {r.proposer}, VOTE_ID_PRICE);
    SumUpdate(others, r.proposer, BYTE_PRICE * |r.body|);
  }

  /** The vote-id rewards of the first voters of a list. */
  ghost function VoteRewards(list: seq<Bytes>, proposer: Bytes): Credits
  {
    map v | v in Elements(list) - {proposer} :: VOTE_ID_PRICE
  }

  lemma VoteRewardsStep(list: seq<Bytes>, proposer: Bytes, v: Bytes)
    ensures VoteRewards(list + [v], proposer) ==
            if v == proposer then VoteRewards(list, proposer) else VoteRewards(list, proposer)[v := VOTE_ID_PRICE]
  {
    ElementsAppend(list, v);
  }

  lemma VoteRewardsKeys(list: seq<Bytes>, proposer: Bytes)
    ensures VoteRewards(list, proposer).Keys == Elements(list) - {proposer}
  {
  }

  lemma NoRewardsYet(credits: Credits, proposer: Bytes)
    ensures Plus(credits, VoteRewards([], proposer)) == credits
  {
    assert VoteRewards([], proposer) == map[];
  }

  lemma RewardsFromList(list: seq<Bytes>, voters: set<Bytes>, r: Resolution)
    requires Enumerates(list, voters)
    ensures Rewards(r, voters) == VoteRewards(list, r.proposer)[r.proposer := BYTE_PRICE * |r.body|]
  {
    assert Elements(list) == voters;
  }

  /** creditMap.applyResolution. */
  method ApplyResolution(credits: Credits, r: Resolution, voters: set<Bytes>) returns (after: Credits)
    ensures after == Plus(credits, Rewards(r, voters))
  {
    hide Plus, VoteRewards;
    after := credits;
    NoRewardsYet(credits, r.proposer);
    var list := Enumerate(voters);
    for i := 0 to |list|
      invariant after == Plus(credits, VoteRewards(list[..i], r.proposer))
    {
      assert list[..i + 1] == list[..i] + [list[i]];
      VoteRewardsStep(list[..i], r.proposer, list[i]);
      if list[i] != r.proposer {
        VoteRewardsKeys(list[..i], r.proposer);
        PlusUpdate(credits, VoteRewards(list[..i], r.proposer), list[i], VOTE_ID_PRICE);
        after := after[list[i] := Get(after, list[i]) + VOTE_ID_PRICE];
      }
    }
    assert list[..|list|] == list;
    VoteRewardsKeys(list, r.proposer);
    PlusUpdate(credits, VoteRewards(list, r.proposer), r.proposer, BYTE_PRICE * |r.body|);
    RewardsFromList(list, voters, r);
    after := after[r.proposer := Get(after, r.proposer) + BYTE_PRICE * |r.body|];
  }

  /** Crediting a whole map, in any order. */
  ghost function CreditedAll(l: Ledger, credits: Credits): Ledger
  {
    map k | k in l.Keys + credits.Keys ::
      Account((if k in l then l[k].balance else 0) + Get(credits, k), if k in l then l[k].nonce else 0)
  }

  lemma CreditedAllSupply(l: Ledger, credits: Credits)
    ensures Supply(CreditedAll(l, credits)) == Supply(l) + Sum(credits)
  {
    assert Balances(CreditedAll(l, credits)) == Plus(Balances(l), credits);
    SumPlus(Balances(l), credits);
  }

  /** One more key of the map is one more Credit statement. */
  lemma CreditedAllStep(l: Ledger, credits: Credits, k: Bytes, v: int)
    requires NonNegative(l) && k !in credits && 0 <= v
    ensures Credited(CreditedAll(l, credits), k, v) == Ok(CreditedAll(l, credits[k := v]))
  {
    var p, q := CreditedAll(l, credits[k := v]), Credited(CreditedAll(l, credits), k, v);
    assert 0 <= (if k in l then l[k].balance else 0) + v;
    assert q.Ok? && p.Keys == q.value.Keys;
    forall j | j in p ensures p[j] == q.value[j] {
    }
    assert p == q.value;
  }

  method CreditAll(db: Database, credits: Credits)
    requires NonNegative(db.t.accounts)
    requires forall k :: k in credits ==> 0 <= credits[k]
    modifies db
    ensures db.t == old(db.t).(accounts := CreditedAll(old(db.t).accounts, credits))
  {
    hide CreditedAll;
    var keys := Enumerate(credits.Keys);
    ghost var done: Credits := map[];
    NothingCredited(db.t.accounts);
    for i := 0 to |keys|
      invariant db.t == old(db.t).(accounts := CreditedAll(old(db.t).accounts, done))
      invariant forall k :: k in done <==> k in keys[..i]
      invariant forall k :: k in done ==> k in credits && done[k] == credits[k]
    {
      CreditedAllStep(old(db.t).accounts, done, keys[i], credits[keys[i]]);
      var err := Accounts.Credit(db, keys[i], credits[keys[i]]);
      done := done[keys[i] := credits[keys[i]]];
    }
    assert done == credits by {
      assert forall k :: k in credits ==> k in keys[..|keys|];
    }
  }

  lemma NothingCredited(l: Ledger)
    ensures CreditedAll(l, map[]) == l
  {
  }

  // ---------------------------------------------------------------------
  // Resolve functions
  // ---------------------------------------------------------------------

  /** Extension resolve functions: an id that is mapped succeeds and credits these amounts,
      any other fails. The engine's own tables are opaque. */
  type Extensions = map<UUID, map<Bytes, nat>>

  /** One resolve function inside its own transaction: a failure leaves the tables alone. */
  ghost function ResolvedOne(t: Tables, id: UUID, r: Resolution, ext: Extensions): Tables
  {
    if r.typ == Some(JOIN) || r.typ == Some(REMOVE) then
      match UnmarshalBinary(r.body)
      case None => t
      case Some(req) =>
        if r.typ == Some(REMOVE) && req.power != 0 then t
        else if PowerSet(t, req.pubKey, req.power).Some? then PowerSet(t, req.pubKey, req.power).value
        else t
    else if id in ext then t.(accounts := CreditedAll(t.accounts, ext[id]))
    else t
  }

  /** The confirmed resolutions, resolved in list order. */
  ghost function ResolvedAll(t: Tables, conf: seq<UUID>, ext: Extensions): Tables
    requires forall id :: id in conf ==> id in t.resolutions
  {
    if conf == [] then t
    else
      var last := conf[|conf| - 1];
      ResolvedOne(ResolvedAll(t, conf[..|conf| - 1], ext), last, t.resolutions[last], ext)
  }

  method Resolve(db: Database, id: UUID, r: Resolution, ext: Extensions)
    requires NonNegative(db.t.accounts)
    modifies db
    ensures db.t == ResolvedOne(old(db.t), id, r, ext)
  {
    if r.typ == Some(JOIN) || r.typ == Some(REMOVE) {
      var req := UnmarshalBinary(r.body);
      if req.None? { return; }
      if r.typ == Some(REMOVE) && req.value.power != 0 { return; }
      var ok := SetValidatorPower(db, req.value.pubKey, req.value.power);
    } else if id in ext {
      CreditAll(db, ext[id]);
    }
  }

  /** Resolve functions reach accounts and voters; of the votes they can only delete some. */
  lemma {:induction false} ResolvedFrame(t: Tables, conf: seq<UUID>, ext: Extensions)
    requires forall id :: id in conf ==> id in t.resolutions
    requires NonNegative(t.accounts)
    ensures var t' := ResolvedAll(t, conf, ext);
            && t' == t.(accounts := t'.accounts, voters := t'.voters, votes := t'.votes)
            && t'.votes <= t.votes
            && NonNegative(t'.accounts) && NoncesGrow(t.accounts, t'.accounts)
            && (forall k :: k in t'.accounts && k !in t.accounts ==> t'.accounts[k].nonce == 0)
            && (forall k :: k in t.accounts ==> t'.accounts[k].nonce == t.accounts[k].nonce)
  {
    if conf != [] {
      ResolvedFrame(t, conf[..|conf| - 1], ext);
    }
  }

  // ---------------------------------------------------------------------
  // The step
  // ---------------------------------------------------------------------

  /** Everything `processVotes` is given or left free to choose: the block height, the
      outcome of extension resolve functions, and the rows of the two queries as returned. */
  datatype Tally = Tally(height: int, ext: Extensions, conf: seq<UUID>, exp: seq<UUID>)

  /** The two lists are what the two queries return. */
  ghost predicate ValidTally(t: Tables, reg: Registry, y: Tally)
    requires ValidRegistry(reg)
  {
    Enumerates(y.conf, Confirmed(t, reg)) && Enumerates(y.exp, Expired(t, y.height))
  }

  ghost function Resolved(t: Tables, y: Tally): Tables
    requires forall id :: id in y.conf ==> id in t.resolutions
  {
    ResolvedAll(t, y.conf, y.ext)
  }

  /** Ids whose type is recorded in `processed`; validator types may recur. */
  function Marked(t: Tables, ids: seq<UUID>): (r: seq<UUID>)
    requires forall id :: id in ids ==> id in t.resolutions
    ensures forall id :: id in r <==> id in ids && !IsValidatorType(TypeName(t, id))
  {
    if ids == [] then []
    else
      var last := ids[|ids| - 1];
      Marked(t, ids[..|ids| - 1]) + (if IsValidatorType(TypeName(t, last)) then [] else [last])
  }

  function TypeName(t: Tables, id: UUID): string
    requires id in t.resolutions
  {
    if t.resolutions[id].typ.Some? then t.resolutions[id].typ.value else ""
  }

  ghost function ConfirmedCredits(t: Tables, conf: seq<UUID>): Credits
    requires forall id :: id in conf ==> id in t.resolutions
  {
    if conf == [] then map[]
    else
      var last := conf[|conf| - 1];
      Plus(ConfirmedCredits(t, conf[..|conf| - 1]), Rewards(t.resolutions[last], Voters(t, last)))
  }

  function TypesBefore(t: Tables, exp: seq<UUID>, i: nat): set<string>
    requires i <= |exp| && forall id :: id in exp ==> id in t.resolutions
  {
    set j | 0 <= j < i :: TypeName(t, exp[j])
  }

  /** The refund threshold is only looked up after the first expired resolution of a type,
      so that first one is compared with 0. */
  ghost predicate IsRefunded(t: Tables, reg: Registry, total: int, exp: seq<UUID>, i: nat)
    requires ValidRegistry(reg) && i < |exp|
    requires forall id :: id in exp ==> id in t.resolutions && TypeName(t, id) in reg
  {
    var n := TypeName(t, exp[i]);
    if n in TypesBefore(t, exp, i)
    then ApprovedPower(t, exp[i]) >= RequiredPower(reg[n].refund, total)
    else ApprovedPower(t, exp[i]) >= 0
  }

  ghost function ExpiredCredits(t: Tables, reg: Registry, total: int, exp: seq<UUID>, base: Credits): Credits
    requires ValidRegistry(reg)
    requires forall id :: id in exp ==> id in t.resolutions && TypeName(t, id) in reg
    decreases |exp|
  {
    if exp == [] then base
    else
      var last := exp[|exp| - 1];
      var before := ExpiredCredits(t, reg, total, exp[..|exp| - 1], base);
      if IsRefunded(t, reg, total, exp, |exp| - 1)
      then Plus(before, Rewards(t.resolutions[last], Voters(t, last)))
      else before
  }

  /** Types stored in `resolutions` are registered names. */
  ghost predicate TypesRegistered(t: Tables, reg: Registry)
  {
    forall id :: id in t.resolutions && t.resolutions[id].typ.Some? ==> t.resolutions[id].typ.value in reg
  }

  ghost predicate TallyReady(t: Tables, reg: Registry, y: Tally)
  {
    ValidRegistry(reg) && TypesRegistered(t, reg) && NonNegative(t.accounts) && ValidTally(t, reg, y)
  }

  ghost function AllCredits(t: Tables, reg: Registry, y: Tally): Credits
    requires TallyReady(t, reg, y)
  {
    ResolvedFrame(t, y.conf, y.ext);
    ExpiredCredits(Resolved(t, y), reg, TotalPower(t), y.exp, ConfirmedCredits(t, y.conf))
  }

  ghost function AllMarked(t: Tables, reg: Registry, y: Tally): seq<UUID>
    requires TallyReady(t, reg, y)
  {
    Marked(t, y.conf) + Marked(t, y.exp)
  }

  /** markProcessed inserts into a primary-keyed table. */
  ghost predicate Markable(t: Tables, reg: Registry, y: Tally)
    requires TallyReady(t, reg, y)
  {
    Distinct(AllMarked(t, reg, y)) && Elements(AllMarked(t, reg, y)) !! t.processed
  }

  ghost function Processed(t: Tables, reg: Registry, gas: bool, y: Tally): Tables
    requires TallyReady(t, reg, y)
  {
    var t1 := Deleted(Resolved(t, y), Elements(y.conf) + Elements(y.exp));
    var marked := Elements(AllMarked(t, reg, y));
    t1.(processed := t1.processed + marked,
        events := t1.events - marked,
        accounts := if gas then CreditedAll(t1.accounts, AllCredits(t, reg, y)) else t1.accounts)
  }

  // ---------------------------------------------------------------------
  // The code
  // ---------------------------------------------------------------------

  method SumOf(m: map<Bytes, int>) returns (s: int)
    ensures s == Sum(m)
  {
    hide Sum;
    s := 0;
    var rest := m;
    NoKeys<Bytes>();
    while rest != map[]
      invariant s == Sum(m) - Sum(rest)
      decreases |rest|
    {
      var k :| k in rest;
      SumRemove(rest, k);
      s, rest := s + rest[k], rest - {k};
    }
  }

  method ApprovedPowerOf(t: Tables, id: UUID) returns (p: int)
    ensures p == ApprovedPower(t, id)
  {
    p := SumOf(map v | v in t.voters && v in Voters(t, id) :: t.voters[v]);
  }

  /** One row of the threshold query. */
  ghost predicate MeetsThreshold(t: Tables, required: int, typ: string, id: UUID)
  {
    && id in t.resolutions && t.resolutions[id].typ == Some(typ)
    && Voters(t, id) != {} && ApprovedPower(t, id) >= required
  }

  /** Postgres compares ids byte by byte. Ids are digests, so their order is some injective
      ranking of the names they digest. */
  type Ranking = UUID -> int

  ghost predicate Ranks(rank: Ranking)
  {
    forall a, b :: rank(a) == rank(b) ==> a == b
  }

  ghost predicate AscendingBy(ids: seq<UUID>, rank: Ranking)
  {
    forall i, j :: 0 <= i < j < |ids| ==> rank(ids[i]) < rank(ids[j])
  }

  /** ORDER BY r.id. */
  method OrderByID(ids: seq<UUID>, rank: Ranking, ghost rows: set<UUID>) returns (r: seq<UUID>)
    requires Ranks(rank) && Enumerates(ids, rows)
    ensures Enumerates(r, rows) && AscendingBy(r, rank)
  {
    var leq := (a: UUID, b: UUID) => rank(a) <= rank(b);
    SortCorrect(ids, leq);
    r := InsertionSort(ids, leq);
    hide InsertionSort;
    PermutedEnumeration(ids, r, rows);
    forall i, j | 0 <= i < j < |r| ensures rank(r[i]) < rank(r[j]) {
      assert leq(r[i], r[j]) && r[i] != r[j];
    }
  }

  lemma PermutedEnumeration(ids: seq<UUID>, r: seq<UUID>, rows: set<UUID>)
    requires Enumerates(ids, rows) && multiset(r) == multiset(ids)
    ensures Enumerates(r, rows)
  {
    DistinctBag(ids);
    forall i, j | 0 <= i < j < |r| ensures r[i] != r[j] {
      if r[i] == r[j] { RepeatedInBag(r, i, j); }
    }
    assert forall x :: x in r <==> x in multiset(r);
    assert forall x :: x in ids <==> x in multiset(ids);
  }

  method ResolutionsByThresholdAndType(db: Database, required: int, typ: string, rank: Ranking) returns (ids: seq<UUID>)
    requires Ranks(rank)
    ensures Enumerates(ids, set id | id in db.t.resolutions && MeetsThreshold(db.t, required, typ, id))
    ensures AscendingBy(ids, rank)
  {
    ids := [];
    var rows := Enumerate(db.t.resolutions.Keys);
    for i := 0 to |rows|
      invariant Distinct(ids)
      invariant forall id :: id in ids <==> id in rows[..i] && MeetsThreshold(db.t, required, typ, id)
    {
      var power := ApprovedPowerOf(db.t, rows[i]);
      if db.t.resolutions[rows[i]].typ == Some(typ) && Voters(db.t, rows[i]) != {} && power >= required {
        assert rows[i] !in rows[..i];
        DistinctAppend(ids, rows[i]);
        ids := ids + [rows[i]];
      }
    }
    assert rows[..|rows|] == rows;
    ids := OrderByID(ids, rank, set id | id in db.t.resolutions && MeetsThreshold(db.t, required, typ, id));
  }

  method GetExpired(db: Database, height: int, rank: Ranking) returns (exp: seq<UUID>)
    requires Ranks(rank)
    ensures Enumerates(exp, Expired(db.t, height)) && AscendingBy(exp, rank)
  {
    exp := Enumerate(Expired(db.t, height));
    exp := OrderByID(exp, rank, Expired(db.t, height));
  }

  /** Where a resolution's type stands among the registered types. */
  ghost predicate HasType(t: Tables, types: seq<string>, id: UUID, k: int)
  {
    id in t.resolutions && 0 <= k < |types| && t.resolutions[id].typ == Some(types[k])
  }

  /** Confirmed resolutions come type by type, and by id within a type. */
  ghost predicate InTypeOrder(t: Tables, types: seq<string>, rank: Ranking, conf: seq<UUID>)
  {
    forall i, j, k, l :: 0 <= i < j < |conf| && HasType(t, types, conf[i], k) && HasType(t, types, conf[j], l) ==>
      k < l || (k == l && rank(conf[i]) < rank(conf[j]))
  }

  /** The two lists in the order of the queries. */
  ghost predicate Queried(t: Tables, types: seq<string>, rank: Ranking, y: Tally)
  {
    InTypeOrder(t, types, rank, y.conf) && AscendingBy(y.exp, rank)
  }

  lemma NextType(t: Tables, reg: Registry, types: seq<string>, n: nat, rank: Ranking, conf: seq<UUID>, finalized: seq<UUID>)
    requires ValidRegistry(reg) && n < |types| && Distinct(types) && InTypeOrder(t, types, rank, conf)
    requires forall id :: id in conf ==> ConfirmedAmong(t, reg, types[..n], id)
    requires forall id :: id in finalized ==> id in t.resolutions && t.resolutions[id].typ == Some(types[n])
    requires AscendingBy(finalized, rank)
    ensures InTypeOrder(t, types, rank, conf + finalized)
  {
    var all := conf + finalized;
    forall i, j, k, l | 0 <= i < j < |all| && HasType(t, types, all[i], k) && HasType(t, types, all[j], l)
      ensures k < l || (k == l && rank(all[i]) < rank(all[j]))
    {
      if j < |conf| {
        assert all[i] == conf[i] && all[j] == conf[j];
      } else {
        assert all[j] in finalized && l == n;
        if i < |conf| {
          assert all[i] in conf && types[k] in types[..n];
        } else {
          assert all[i] in finalized && k == n;
        }
      }
    }
  }

  /** The confirmed resolutions of the types looked at so far. */
  ghost predicate ConfirmedAmong(t: Tables, reg: Registry, types: seq<string>, id: UUID)
    requires ValidRegistry(reg)
  {
    id in Confirmed(t, reg) && t.resolutions[id].typ.value in types
  }

  /** Credit and list the confirmed resolutions of one type. */
  method AddFinalized(db: Database, finalized: seq<UUID>, conf0: seq<UUID>, credits0: Credits, marked0: seq<UUID>)
    returns (conf: seq<UUID>, credits: Credits, marked: seq<UUID>)
    requires forall id :: id in conf0 + finalized ==> id in db.t.resolutions
    requires credits0 == ConfirmedCredits(db.t, conf0) && marked0 == Marked(db.t, conf0)
    ensures conf == conf0 + finalized
    ensures credits == ConfirmedCredits(db.t, conf) && marked == Marked(db.t, conf)
  {
    hide ConfirmedCredits, Plus, Rewards, Marked;
    conf, credits, marked := conf0, credits0, marked0;
    for j := 0 to |finalized|
      invariant conf == conf0 + finalized[..j]
      invariant forall id :: id in conf ==> id in db.t.resolutions
      invariant credits == ConfirmedCredits(db.t, conf) && marked == Marked(db.t, conf)
    {
      var id := finalized[j];
      assert id in conf0 + finalized;
      CollectStep(db.t, conf, id);
      credits := ApplyResolution(credits, db.t.resolutions[id], Voters(db.t, id));
      conf := conf + [id];
      if !IsValidatorType(TypeName(db.t, id)) {
        marked := marked + [id];
      }
    }
  }

  /** The confirmed resolutions of one more type. */
  lemma OneMoreType(t: Tables, reg: Registry, types: seq<string>, n: nat, conf: seq<UUID>, finalized: seq<UUID>)
    requires ValidRegistry(reg) && n < |types| && Distinct(types)
    requires forall id :: id in conf <==> ConfirmedAmong(t, reg, types[..n], id)
    requires forall id :: id in finalized <==> id in Confirmed(t, reg) && t.resolutions[id].typ.value == types[n]
    requires Distinct(conf) && Distinct(finalized)
    ensures Distinct(conf + finalized)
    ensures forall id :: id in conf + finalized <==> ConfirmedAmong(t, reg, types[..n + 1], id)
    ensures forall id :: id in conf + finalized ==> id in t.resolutions
    ensures forall id :: id in finalized ==> t.resolutions[id].typ == Some(types[n])
  {
    hide ApprovedPower, Voters;
    assert types[..n + 1] == types[..n] + [types[n]];
    assert types[n] !in types[..n];
    DistinctConcat(conf, finalized);
  }

  /** First phase: find every confirmed resolution before any resolve function runs. */
  method CollectConfirmed(db: Database, reg: Registry, resTypes: seq<string>, totalPower: int, rank: Ranking)
    returns (conf: seq<UUID>, credits: Credits, marked: seq<UUID>)
    requires ValidRegistry(reg) && Enumerates(resTypes, reg.Keys) && totalPower == TotalPower(db.t) && Ranks(rank)
    ensures Enumerates(conf, Confirmed(db.t, reg)) && InTypeOrder(db.t, resTypes, rank, conf)
    ensures credits == ConfirmedCredits(db.t, conf) && marked == Marked(db.t, conf)
  {
    conf, credits, marked := [], map[], [];
    for i := 0 to |resTypes|
      invariant Distinct(conf)
      invariant forall id :: id in conf <==> ConfirmedAmong(db.t, reg, resTypes[..i], id)
      invariant InTypeOrder(db.t, resTypes, rank, conf)
      invariant credits == ConfirmedCredits(db.t, conf) && marked == Marked(db.t, conf)
    {
      hide ConfirmedCredits, Marked, ApprovedPower, Voters, InTypeOrder, AscendingBy, IsConfirmed, ConfirmedAmong;
      var typ := resTypes[i];
      var finalized := ResolutionsByThresholdAndType(db, RequiredPower(reg[typ].confirm, totalPower), typ, rank);
      ThresholdQuery(db.t, reg, typ, finalized);
      OneMoreType(db.t, reg, resTypes, i, conf, finalized);
      NextType(db.t, reg, resTypes, i, rank, conf, finalized);
      conf, credits, marked := AddFinalized(db, finalized, conf, credits, marked);
    }
    assert resTypes[..|resTypes|] == resTypes;
  }

  /** The rows of one threshold query are the confirmed resolutions of that type. */
  lemma ThresholdQuery(t: Tables, reg: Registry, typ: string, ids: seq<UUID>)
    requires ValidRegistry(reg) && typ in reg
    requires Enumerates(ids, set id | id in t.resolutions &&
               MeetsThreshold(t, RequiredPower(reg[typ].confirm, TotalPower(t)), typ, id))
    ensures forall id :: id in ids <==> id in Confirmed(t, reg) && t.resolutions[id].typ.value == typ
  {
  }

  lemma CollectStep(t: Tables, conf: seq<UUID>, id: UUID)
    requires id in t.resolutions && forall x :: x in conf ==> x in t.resolutions
    ensures ConfirmedCredits(t, conf + [id]) ==
            Plus(ConfirmedCredits(t, conf), Rewards(t.resolutions[id], Voters(t, id)))
    ensures Marked(t, conf + [id]) == Marked(t, conf) + (if IsValidatorType(TypeName(t, id)) then [] else [id])
  {
    assert (conf + [id])[..|conf|] == conf;
  }

  lemma ExpireStep(t: Tables, reg: Registry, total: int, exp: seq<UUID>, base: Credits, i: nat)
    requires ValidRegistry(reg) && i < |exp|
    requires forall id :: id in exp ==> id in t.resolutions && TypeName(t, id) in reg
    ensures ExpiredCredits(t, reg, total, exp[..i + 1], base) ==
            var before := ExpiredCredits(t, reg, total, exp[..i], base);
            if IsRefunded(t, reg, total, exp, i)
            then Plus(before, Rewards(t.resolutions[exp[i]], Voters(t, exp[i])))
            else before
    ensures Marked(t, exp[..i + 1]) == Marked(t, exp[..i]) + (if IsValidatorType(TypeName(t, exp[i])) then [] else [exp[i]])
  {
    hide Plus, Rewards, ApprovedPower;
    var prefix := exp[..i + 1];
    assert prefix[..i] == exp[..i];
    assert TypesBefore(t, prefix, i) == TypesBefore(t, exp, i);
  }

  /** Third phase: expire, refunding those with enough power. */
  method CollectExpired(t: Tables, reg: Registry, totalPower: int, exp: seq<UUID>, base: Credits)
    returns (credits: Credits, marked: seq<UUID>)
    requires ValidRegistry(reg)
    requires forall id :: id in exp ==> id in t.resolutions && TypeName(t, id) in reg
    ensures credits == ExpiredCredits(t, reg, totalPower, exp, base) && marked == Marked(t, exp)
  {
    hide Plus, Rewards, ExpiredCredits, Marked, ApprovedPower, RequiredPower, Voters, TypeName;
    credits, marked := base, [];
    ExpireNone(t, reg, totalPower, exp, base);
    var requiredPowerMap: map<string, int> := map[];
    for i := 0 to |exp|
      invariant credits == ExpiredCredits(t, reg, totalPower, exp[..i], base)
      invariant marked == Marked(t, exp[..i])
      invariant requiredPowerMap.Keys == TypesBefore(t, exp, i)
      invariant forall n :: n in requiredPowerMap ==>
                  n in reg && requiredPowerMap[n] == RequiredPower(reg[n].refund, totalPower)
    {
      var id := exp[i];
      assert id in exp;
      var typ := TypeName(t, id);
      ExpireStep(t, reg, totalPower, exp, base, i);
      assert TypesBefore(t, exp, i + 1) == TypesBefore(t, exp, i) + {typ};
      if !IsValidatorType(typ) {
        marked := marked + [id];
      }
      var threshold := 0;
      if typ in requiredPowerMap {
        threshold := requiredPowerMap[typ];
      } else {
        requiredPowerMap := requiredPowerMap[typ := RequiredPower(reg[typ].refund, totalPower)];
      }
      var approved := ApprovedPowerOf(t, id);
      if approved >= threshold {
        credits := ApplyResolution(credits, t.resolutions[id], Voters(t, id));
      }
    }
    assert exp[..|exp|] == exp;
  }

  lemma ExpireNone(t: Tables, reg: Registry, total: int, exp: seq<UUID>, base: Credits)
    requires ValidRegistry(reg)
    ensures ExpiredCredits(t, reg, total, exp[..0], base) == base && Marked(t, exp[..0]) == []
  {
  }

  /** The whole of processVotes. `ok` is false when markProcessed hits its primary key, and
      the block is then abandoned. */
  method ProcessVotes(db: Database, reg: Registry, gas: bool, resTypes: seq<string>, height: int, ext: Extensions, rank: Ranking)
    returns (ok: bool, ghost y: Tally)
    requires ValidRegistry(reg) && Enumerates(resTypes, reg.Keys) && Ranks(rank)
    requires TypesRegistered(db.t, reg) && NonNegative(db.t.accounts)
    modifies db
    ensures y.height == height && y.ext == ext && TallyReady(old(db.t), reg, y)
    ensures Queried(old(db.t), resTypes, rank, y)
    ensures ok <==> Markable(old(db.t), reg, y)
    ensures ok ==> db.t == Processed(old(db.t), reg, gas, y)
  {
    hide ConfirmedCredits, ExpiredCredits, Marked, Confirmed, Sum, Plus, Rewards, CreditedAll, ResolvedAll, InTypeOrder, AscendingBy;
    var t0 := db.t; // the rows the queries returned stay as they were read
    var totalPower := SumOf(db.t.voters);
    var conf, credits, marked := CollectConfirmed(db, reg, resTypes, totalPower, rank);

    ConfirmedLive(t0, reg);
    ResolveNone(t0, ext);
    for i := 0 to |conf|
      invariant db.t == ResolvedAll(t0, conf[..i], ext)
      invariant NonNegative(db.t.accounts)
    {
      ResolveStep(t0, conf, ext, i);
      Resolve(db, conf[i], t0.resolutions[conf[i]], ext);
    }
    assert conf[..|conf|] == conf;
    ResolvedFrame(t0, conf, ext);

    var exp := GetExpired(db, height, rank);
    assert Expired(db.t, height) == Expired(t0, height);
    y := Tally(height, ext, conf, exp);
    var marked2;
    credits, marked2 := CollectExpired(db.t, reg, totalPower, exp, credits);
    MarkedSame(db.t, t0, exp);
    marked := marked + marked2;

    db.t := Deleted(db.t, Elements(conf + exp));
    ElementsConcat(conf, exp);

    ok := MarkProcessed(db, marked);
    if !ok { return; }
    db.t := db.t.(events := db.t.events - Elements(marked));
    if gas {
      CreditsNonNegative(t0, reg, y);
      CreditAll(db, credits);
    }
  }

  method MarkProcessed(db: Database, ids: seq<UUID>) returns (ok: bool)
    modifies db
    ensures ok <==> Distinct(ids) && Elements(ids) !! old(db.t).processed
    ensures db.t == if ok then old(db.t).(processed := old(db.t).processed + Elements(ids)) else old(db.t)
  {
    ghost var t0 := db.t;
    var table := db.t.processed;
    for i := 0 to |ids|
      invariant db.t == t0
      invariant Distinct(ids[..i]) && Elements(ids[..i]) !! t0.processed
      invariant table == t0.processed + Elements(ids[..i])
    {
      assert ids[..i + 1] == ids[..i] + [ids[i]];
      ElementsAppend(ids[..i], ids[i]);
      if ids[i] in table {
        if ids[i] in t0.processed {
          assert ids[i] in Elements(ids);
        }
        return false;
      }
      DistinctAppend(ids[..i], ids[i]);
      table := table + {ids[i]};
    }
    assert ids[..|ids|] == ids;
    db.t := db.t.(processed := table);
    return true;
  }

  lemma ConfirmedLive(t: Tables, reg: Registry)
    requires ValidRegistry(reg)
    ensures forall id :: id in Confirmed(t, reg) ==> id in t.resolutions
  {
  }

  lemma ResolveNone(t: Tables, ext: Extensions)
    ensures ResolvedAll(t, [], ext) == t
  {
  }

  lemma ResolveStep(t: Tables, conf: seq<UUID>, ext: Extensions, i: nat)
    requires i < |conf| && NonNegative(t.accounts) && forall id :: id in conf ==> id in t.resolutions
    ensures conf[i] in t.resolutions
    ensures ResolvedAll(t, conf[..i + 1], ext) ==
            ResolvedOne(ResolvedAll(t, conf[..i], ext), conf[i], t.resolutions[conf[i]], ext)
    ensures NonNegative(ResolvedAll(t, conf[..i + 1], ext).accounts)
  {
    assert conf[..i + 1][..i] == conf[..i] && conf[..i + 1][i] == conf[i] && conf[i] in conf;
    ResolvedFrame(t, conf[..i + 1], ext);
  }

  lemma {:induction false} MarkedSame(t: Tables, u: Tables, ids: seq<UUID>)
    requires t.resolutions == u.resolutions && forall id :: id in ids ==> id in t.resolutions
    ensures Marked(t, ids) == Marked(u, ids)
  {
    if ids != [] {
      MarkedSame(t, u, ids[..|ids| - 1]);
    }
  }

  ghost predicate AllNonNegative(c: Credits)
  {
    forall k :: k in c ==> 0 <= c[k]
  }

  lemma PlusNonNegative(a: Credits, b: Credits)
    requires AllNonNegative(a) && AllNonNegative(b)
    ensures AllNonNegative(Plus(a, b))
  {
  }

  lemma RewardsNonNegative(r: Resolution, voters: set<Bytes>)
    ensures AllNonNegative(Rewards(r, voters))
  {
  }

  lemma {:induction false} ConfirmedCreditsNonNegative(t: Tables, conf: seq<UUID>)
    requires forall id :: id in conf ==> id in t.resolutions
    ensures AllNonNegative(ConfirmedCredits(t, conf))
  {
    if conf != [] {
      hide Plus, Rewards;
      var last := conf[|conf| - 1];
      ConfirmedCreditsNonNegative(t, conf[..|conf| - 1]);
      RewardsNonNegative(t.resolutions[last], Voters(t, last));
      PlusNonNegative(ConfirmedCredits(t, conf[..|conf| - 1]), Rewards(t.resolutions[last], Voters(t, last)));
    }
  }

  lemma {:induction false} ExpiredCreditsNonNegative(t: Tables, reg: Registry, total: int, exp: seq<UUID>, base: Credits)
    requires ValidRegistry(reg) && AllNonNegative(base)
    requires forall id :: id in exp ==> id in t.resolutions && TypeName(t, id) in reg
    ensures AllNonNegative(ExpiredCredits(t, reg, total, exp, base))
    decreases |exp|
  {
    if exp != [] {
      hide Plus, Rewards, IsRefunded;
      var last := exp[|exp| - 1];
      var before := ExpiredCredits(t, reg, total, exp[..|exp| - 1], base);
      ExpiredCreditsNonNegative(t, reg, total, exp[..|exp| - 1], base);
      RewardsNonNegative(t.resolutions[last], Voters(t, last));
      PlusNonNegative(before, Rewards(t.resolutions[last], Voters(t, last)));
    }
  }

  lemma CreditsNonNegative(t: Tables, reg: Registry, y: Tally)
    requires TallyReady(t, reg, y)
    ensures AllNonNegative(AllCredits(t, reg, y))
  {
    ResolvedFrame(t, y.conf, y.ext);
    ConfirmedCreditsNonNegative(t, y.conf);
    ExpiredCreditsNonNegative(Resolved(t, y), reg, TotalPower(t), y.exp, ConfirmedCredits(t, y.conf));
  }
}
