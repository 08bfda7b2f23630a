/** What one processVotes step guarantees. */
module VoteStep {
  import opened Wrappers
  import opened TableModel
  import opened Sums
  import opened Enumerations
  import opened Bags
  import opened Accounts
  import opened Voting
  import opened ProcessVotes

  /** Foreign keys, check constraints and the disjointness of events and `processed`. */
  ghost predicate Integrity(t: Tables, reg: Registry)
  {
    && (forall v :: v in t.votes ==> v.0 in t.resolutions && v.1 in t.voters)
    && (forall v :: v in t.voters ==> 0 < t.voters[v])
    && NonNegative(t.accounts)
    && TypesRegistered(t, reg)
    && t.events.Keys !! t.processed
    && (forall id :: id in t.events ==> EventID(t.events[id]) == id)
  }

  lemma VoteIntegrity(t: Tables, reg: Registry, id: UUID, from: Bytes)
    requires Integrity(t, reg) && id in t.resolutions && from in t.voters
    ensures Integrity(t.(votes := t.votes + {(id, from)}), reg)
  {
  }

  lemma CreatedIntegrity(t: Tables, reg: Registry, e: Event, expiration: int, proposer: Bytes)
    requires Integrity(t, reg)
    ensures Integrity(Created(t, reg, e, expiration, proposer), reg)
  {
  }

  lemma PowerIntegrity(t: Tables, reg: Registry, who: Bytes, power: int)
    requires Integrity(t, reg) && PowerSet(t, who, power).Some?
    ensures Integrity(PowerSet(t, who, power).value, reg)
  {
  }

  lemma {:induction false} ResolvedIntegrity(t: Tables, reg: Registry, conf: seq<UUID>, ext: Extensions)
    requires Integrity(t, reg) && forall id :: id in conf ==> id in t.resolutions
    ensures Integrity(ResolvedAll(t, conf, ext), reg)
  {
    if conf != [] {
      ResolvedIntegrity(t, reg, conf[..|conf| - 1], ext);
    }
    ResolvedFrame(t, conf, ext);
  }

  /** One step removes exactly the confirmed and the expired resolutions, with their votes,
      records exactly those of non-validator type, and forgets their events. */
  lemma StepRemovesExactly(t: Tables, reg: Registry, gas: bool, y: Tally)
    requires TallyReady(t, reg, y)
    ensures var t', gone := Processed(t, reg, gas, y), Confirmed(t, reg) + Expired(t, y.height);
            var marked := set id | id in gone && !IsValidatorType(TypeName(t, id));
            && t'.resolutions == t.resolutions - gone
            && t'.processed == t.processed + marked
            && t'.events == t.events - marked
            && t'.votes <= t.votes && (forall v :: v in t'.votes ==> v.0 !in gone)
            && t'.datasets == t.datasets
  {
    ResolvedFrame(t, y.conf, y.ext);
    assert Elements(y.conf) == Confirmed(t, reg) && Elements(y.exp) == Expired(t, y.height);
    var gone := Confirmed(t, reg) + Expired(t, y.height);
    var marked := set id | id in gone && !IsValidatorType(TypeName(t, id));
    assert Elements(AllMarked(t, reg, y)) == marked;
  }

  lemma StepIntegrity(t: Tables, reg: Registry, gas: bool, y: Tally)
    requires TallyReady(t, reg, y) && Integrity(t, reg)
    ensures Integrity(Processed(t, reg, gas, y), reg)
  {
    hide AllCredits, IsConfirmed, AllMarked;
    ResolvedIntegrity(t, reg, y.conf, y.ext);
    ResolvedFrame(t, y.conf, y.ext);
    CreditsNonNegative(t, reg, y);
  }

  /** Nothing at or past its expiry survives, except rows whose type was stored as NULL:
      both queries join on the type and never see those. */
  lemma NothingExpiredSurvives(t: Tables, reg: Registry, gas: bool, y: Tally, id: UUID)
    requires TallyReady(t, reg, y) && id in t.resolutions && t.resolutions[id].expiration <= y.height
    ensures id in Processed(t, reg, gas, y).resolutions <==> t.resolutions[id].typ == None
  {
    StepRemovesExactly(t, reg, gas, y);
  }

  /** What is neither confirmed nor due stays as it is: its row, and the votes of those who are
      still voters. */
  lemma UnexpiredSurvives(t: Tables, reg: Registry, gas: bool, y: Tally, id: UUID)
    requires TallyReady(t, reg, y) && id in t.resolutions
    requires y.height < t.resolutions[id].expiration && !IsConfirmed(t, reg, TotalPower(t), id)
    ensures id in Processed(t, reg, gas, y).resolutions
    ensures Processed(t, reg, gas, y).resolutions[id] == t.resolutions[id]
  {
    StepRemovesExactly(t, reg, gas, y);
  }

  /** Confirmation, in fractions: a resolution of a registered type with at least one vote is
      confirmed exactly when its approved power reaches the type's share of all power. */
  lemma ConfirmedExactly(t: Tables, reg: Registry, id: UUID, typ: string)
    requires ValidRegistry(reg) && id in t.resolutions && t.resolutions[id].typ == Some(typ) && typ in reg
    requires 0 <= reg[typ].confirm.num <= reg[typ].confirm.den && 0 <= TotalPower(t) <= INT64_MAX
    ensures id in Confirmed(t, reg) <==>
            && (exists v :: v in t.voters && (id, v) in t.votes)
            && ApprovedPower(t, id) * reg[typ].confirm.den >= reg[typ].confirm.num * TotalPower(t)
  {
    hide ApprovedPower, TotalPower;
    var c, r, a := reg[typ].confirm, RequiredPower(reg[typ].confirm, TotalPower(t)), ApprovedPower(t, id);
    RequiredPowerIsCeiling(c, TotalPower(t));
    assert Voters(t, id) != {} <==> exists v :: v in t.voters && (id, v) in t.votes by {
      if v :| v in t.voters && (id, v) in t.votes { assert v in Voters(t, id); }
    }
    if a >= r {
      MulMonotone(r, a, c.den);
    } else {
      MulMonotone(a, r - 1, c.den);
    }
  }

  /** Which resolutions are confirmed, removed and recorded is fixed by the tables before any
      resolve function runs: no resolve outcome and no row order changes it. */
  lemma ResolveOutcomesDoNotMatter(t: Tables, reg: Registry, gas: bool, y1: Tally, y2: Tally)
    requires TallyReady(t, reg, y1) && TallyReady(t, reg, y2) && y1.height == y2.height
    ensures var a, b := Processed(t, reg, gas, y1), Processed(t, reg, gas, y2);
            a.resolutions == b.resolutions && a.processed == b.processed && a.events == b.events
    ensures Elements(y1.conf) == Elements(y2.conf)
    ensures Markable(t, reg, y1) <==> Markable(t, reg, y2)
  {
    StepRemovesExactly(t, reg, gas, y1);
    StepRemovesExactly(t, reg, gas, y2);
    MarkableExactly(t, reg, y1);
    MarkableExactly(t, reg, y2);
  }

  /** The order in which confirmed resolutions are resolved and credited. */
  function ByType(t: Tables, types: seq<string>, rank: Ranking): (UUID, UUID) -> bool
  {
    (a, b) => Place(t, types, a) < Place(t, types, b) || (Place(t, types, a) == Place(t, types, b) && rank(a) <= rank(b))
  }

  function Place(t: Tables, types: seq<string>, id: UUID): int
  {
    if id in t.resolutions && t.resolutions[id].typ.Some? then LastIndex(types, t.resolutions[id].typ.value) else -1
  }

  function LastIndex(types: seq<string>, n: string): (i: int)
    ensures n in types ==> 0 <= i < |types| && types[i] == n
  {
    if types == [] then -1 else if types[|types| - 1] == n then |types| - 1 else LastIndex(types[..|types| - 1], n)
  }

  lemma ConfirmedOrderUnique(t: Tables, reg: Registry, types: seq<string>, rank: Ranking, a: seq<UUID>, b: seq<UUID>)
    requires ValidRegistry(reg) && Enumerates(types, reg.Keys) && Ranks(rank)
    requires Enumerates(a, Confirmed(t, reg)) && InTypeOrder(t, types, rank, a)
    requires Enumerates(b, Confirmed(t, reg)) && InTypeOrder(t, types, rank, b)
    ensures a == b
  {
    hide Confirmed;
    ConfirmedTyped(t, reg);
    SortedByType(t, types, rank, a);
    SortedByType(t, types, rank, b);
    assert Elements(a) == Elements(b);
    DistinctBag(a);
    DistinctBag(b);
    SortedUnique(a, b, ByType(t, types, rank));
  }

  lemma SortedByType(t: Tables, types: seq<string>, rank: Ranking, conf: seq<UUID>)
    requires InTypeOrder(t, types, rank, conf)
    requires forall id :: id in conf ==> id in t.resolutions && t.resolutions[id].typ.Some? && t.resolutions[id].typ.value in types
    ensures SortedBy(conf, ByType(t, types, rank))
  {
    forall i, j | 0 <= i < j < |conf| ensures ByType(t, types, rank)(conf[i], conf[j]) {
      assert HasType(t, types, conf[i], Place(t, types, conf[i])) && HasType(t, types, conf[j], Place(t, types, conf[j]));
    }
  }

  lemma ConfirmedTyped(t: Tables, reg: Registry)
    requires ValidRegistry(reg)
    ensures forall id :: id in Confirmed(t, reg) ==>
              id in t.resolutions && t.resolutions[id].typ.Some? && t.resolutions[id].typ.value in reg
  {
  }

  lemma ExpiredOrderUnique(rows: set<UUID>, rank: Ranking, a: seq<UUID>, b: seq<UUID>)
    requires Ranks(rank) && Enumerates(a, rows) && Enumerates(b, rows) && AscendingBy(a, rank) && AscendingBy(b, rank)
    ensures a == b
  {
    assert Elements(a) == Elements(b);
    DistinctBag(a);
    DistinctBag(b);
    SortedUnique(a, b, (x: UUID, y: UUID) => rank(x) <= rank(y));
  }

  /** With the row order the queries fix, nothing is left to choose: the lists, and with them
      the ledger and all other tables after the step, are a function of the tables, the height
      and what the extensions' resolve functions do. */
  lemma StepIsDetermined(t: Tables, reg: Registry, types: seq<string>, rank: Ranking, gas: bool, y1: Tally, y2: Tally)
    requires TallyReady(t, reg, y1) && TallyReady(t, reg, y2) && y1.height == y2.height && y1.ext == y2.ext
    requires Enumerates(types, reg.Keys) && Ranks(rank)
    requires Queried(t, types, rank, y1) && Queried(t, types, rank, y2)
    ensures y1 == y2 && Processed(t, reg, gas, y1) == Processed(t, reg, gas, y2)
  {
    hide Processed, Confirmed, InTypeOrder, AscendingBy;
    ConfirmedOrderUnique(t, reg, types, rank, y1.conf, y2.conf);
    ExpiredOrderUnique(Expired(t, y1.height), rank, y1.exp, y2.exp);
  }

  lemma {:induction false} MarkedDistinct(t: Tables, ids: seq<UUID>)
    requires Distinct(ids) && forall id :: id in ids ==> id in t.resolutions
    ensures Distinct(Marked(t, ids))
  {
    if ids != [] {
      MarkedDistinct(t, ids[..|ids| - 1]);
      assert ids[|ids| - 1] !in ids[..|ids| - 1];
    }
  }

  /** A resolution that would be recorded twice in this block, or was recorded before. */
  ghost predicate Unmarkable(t: Tables, reg: Registry, height: int, id: UUID)
    requires ValidRegistry(reg)
  {
    && id in t.resolutions && !IsValidatorType(TypeName(t, id))
    && (id in Confirmed(t, reg) || id in Expired(t, height))
    && (id in t.processed || (id in Confirmed(t, reg) && id in Expired(t, height)))
  }

  /** The step fails on the primary key of `processed` if and only if some resolution of
      non-validator type is confirmed and expires in the same block, or was processed before. */
  lemma MarkableExactly(t: Tables, reg: Registry, y: Tally)
    requires TallyReady(t, reg, y)
    ensures Markable(t, reg, y) <==> forall id :: !Unmarkable(t, reg, y.height, id)
  {
    MarkedDistinct(t, y.conf);
    MarkedDistinct(t, y.exp);
    DistinctConcat(Marked(t, y.conf), Marked(t, y.exp));
    var all := AllMarked(t, reg, y);
    assert forall id :: id in all <==> id in Marked(t, y.conf) || id in Marked(t, y.exp);
    if Markable(t, reg, y) {
      forall id ensures !Unmarkable(t, reg, y.height, id) {
        assert id in all ==> id in Elements(all);
      }
    } else if Distinct(all) {
      var id :| id in Elements(all) && id in t.processed;
      assert Unmarkable(t, reg, y.height, id);
    } else {
      var id :| id in Marked(t, y.conf) && id in Marked(t, y.exp);
      assert Unmarkable(t, reg, y.height, id);
    }
  }

  // ---------------------------------------------------------------------
  // How much is paid out
  // ---------------------------------------------------------------------

  ghost function SumOwed(t: Tables, ids: seq<UUID>): int
    requires forall id :: id in ids ==> id in t.resolutions
  {
    if ids == [] then 0 else SumOwed(t, ids[..|ids| - 1]) + Owed(t, ids[|ids| - 1])
  }

  ghost function SumRefunded(t: Tables, reg: Registry, total: int, exp: seq<UUID>): int
    requires ValidRegistry(reg)
    requires forall id :: id in exp ==> id in t.resolutions && TypeName(t, id) in reg
    decreases |exp|
  {
    if exp == [] then 0
    else SumRefunded(t, reg, total, exp[..|exp| - 1]) +
         (if IsRefunded(t, reg, total, exp, |exp| - 1) then Owed(t, exp[|exp| - 1]) else 0)
  }

  lemma {:induction false} ConfirmedCreditsTotal(t: Tables, conf: seq<UUID>)
    requires forall id :: id in conf ==> id in t.resolutions
    ensures Sum(ConfirmedCredits(t, conf)) == SumOwed(t, conf)
  {
    if conf != [] {
      hide Plus, Rewards, Owed, Sum;
      var last := conf[|conf| - 1];
      ConfirmedCreditsTotal(t, conf[..|conf| - 1]);
      RewardsTotal(t, last);
      SumPlus(ConfirmedCredits(t, conf[..|conf| - 1]), Rewards(t.resolutions[last], Voters(t, last)));
    }
  }

  lemma {:induction false} ExpiredCreditsTotal(t: Tables, reg: Registry, total: int, exp: seq<UUID>, base: Credits)
    requires ValidRegistry(reg)
    requires forall id :: id in exp ==> id in t.resolutions && TypeName(t, id) in reg
    ensures Sum(ExpiredCredits(t, reg, total, exp, base)) == Sum(base) + SumRefunded(t, reg, total, exp)
    decreases |exp|
  {
    if exp != [] {
      hide Plus, Rewards, Owed, Sum, IsRefunded;
      var last := exp[|exp| - 1];
      var before := ExpiredCredits(t, reg, total, exp[..|exp| - 1], base);
      ExpiredCreditsTotal(t, reg, total, exp[..|exp| - 1], base);
      RewardsTotal(t, last);
      SumPlus(before, Rewards(t.resolutions[last], Voters(t, last)));
    }
  }

  /** The payout, exactly: every confirmed resolution at its votes before the resolve
      functions ran, and every refunded expired one at its votes after. */
  lemma PayoutExactly(t: Tables, reg: Registry, y: Tally)
    requires TallyReady(t, reg, y)
    ensures Resolved(t, y).resolutions == t.resolutions
    ensures Sum(AllCredits(t, reg, y)) ==
            SumOwed(t, y.conf) + SumRefunded(Resolved(t, y), reg, TotalPower(t), y.exp)
  {
    ResolvedFrame(t, y.conf, y.ext);
    ConfirmedCreditsTotal(t, y.conf);
    ExpiredCreditsTotal(Resolved(t, y), reg, TotalPower(t), y.exp, ConfirmedCredits(t, y.conf));
  }
}
