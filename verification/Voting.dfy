/** Vote store (internal/voting/voting.go, internal/voting/sql.go): voters, resolutions,
    votes and the queries over them. */
module Voting {
  import opened Wrappers
  import opened TableModel
  import opened Sums

  const JOIN := "validator_join"
  const REMOVE := "validator_remove"

  /** A normalised fraction, as big.Rat keeps it. */
  datatype Rat = Rat(num: int, den: int)

  /** Registered configuration of one resolution type. */
  datatype ResolutionConfig = ResolutionConfig(confirm: Rat, refund: Rat, period: int)
  type Registry = map<string, ResolutionConfig>

  ghost predicate ValidRat(r: Rat)
  {
    0 < r.den
  }

  /** Registration lower-cases names, and always includes the two validator types. */
  ghost predicate ValidRegistry(reg: Registry)
  {
    && JOIN in reg && REMOVE in reg
    && forall n :: n in reg ==> ValidRat(reg[n].confirm) && ValidRat(reg[n].refund) && ToLower(n) == n
  }

  /** Both thresholds at their defaults: confirmation at 2/3, a refund only with all the power. */
  const DEFAULTS := ResolutionConfig(Rat(2, 3), Rat(1, 1), 14400)

  /** The validator types and one type of an extension. */
  const SAMPLE_REGISTRY: Registry := map[JOIN := DEFAULTS, REMOVE := DEFAULTS, "credit" := DEFAULTS]

  lemma SampleRegistryValid()
    ensures ValidRegistry(SAMPLE_REGISTRY)
  {
    assert forall i :: 0 <= i < |JOIN| ==> ToLower(JOIN)[i] == JOIN[i];
    assert forall i :: 0 <= i < |REMOVE| ==> ToLower(REMOVE)[i] == REMOVE[i];
    assert ToLower("credit") == "credit";
  }

  function IsValidatorType(n: string): bool
  {
    n == JOIN || n == REMOVE
  }

  // ---------------------------------------------------------------------
  // Table updates
  // ---------------------------------------------------------------------

  /** insertResolution: `ON CONFLICT(id) DO NOTHING`, and a NULL type when the exact
      name is not in `resolution_types`. */
  function Created(t: Tables, reg: Registry, e: Event, expiration: int, proposer: Bytes): Tables
  {
    var id := EventID(e);
    if id in t.resolutions then t
    else t.(resolutions :=
            t.resolutions[id := Resolution(e.body, if e.typ in reg then Some(e.typ) else None, proposer, expiration)])
  }

  /** addVote: both foreign keys must resolve; a repeated vote does nothing. */
  function Approved(t: Tables, id: UUID, from: Bytes): Option<Tables>
  {
    if id in t.resolutions && from in t.voters then Some(t.(votes := t.votes + {(id, from)})) else None
  }

  /** upsertVoter, or removeVoter with its cascade into `votes`. */
  function PowerSet(t: Tables, who: Bytes, power: int): Option<Tables>
  {
    if power < 0 then None
    else if power == 0 then
      Some(t.(voters := t.voters - {who}, votes := set v | v in t.votes && v.1 != who))
    else Some(t.(voters := t.voters[who := power]))
  }

  /** deleteResolutions with its cascade into `votes`. */
  function Deleted(t: Tables, ids: set<UUID>): Tables
  {
    t.(resolutions := t.resolutions - ids, votes := set v | v in t.votes && v.0 !in ids)
  }

  method CreateResolution(db: Database, reg: Registry, e: Event, expiration: int, proposer: Bytes)
    modifies db
    ensures db.t == Created(old(db.t), reg, e, expiration, proposer)
  {
    var id := EventID(e);
    if id !in db.t.resolutions {
      var typ := if e.typ in reg then Some(e.typ) else None;
      db.t := db.t.(resolutions := db.t.resolutions[id := Resolution(e.body, typ, proposer, expiration)]);
    }
  }

  method ApproveResolution(db: Database, id: UUID, from: Bytes) returns (ok: bool)
    modifies db
    ensures ok <==> Approved(old(db.t), id, from).Some?
    ensures db.t == if ok then Approved(old(db.t), id, from).value else old(db.t)
  {
    if id !in db.t.resolutions || from !in db.t.voters {
      return false;
    }
    db.t := db.t.(votes := db.t.votes + {(id, from)});
    return true;
  }

  method SetValidatorPower(db: Database, recipient: Bytes, power: int) returns (ok: bool)
    modifies db
    ensures ok <==> PowerSet(old(db.t), recipient, power).Some?
    ensures db.t == if ok then PowerSet(old(db.t), recipient, power).value else old(db.t)
  {
    if power < 0 { return false; }
    if power == 0 {
      db.t := db.t.(voters := db.t.voters - {recipient},
                    votes := set v | v in db.t.votes && v.1 != recipient);
      return true;
    }
    db.t := db.t.(voters := db.t.voters[recipient := power]);
    return true;
  }

  /** The ids of `ids` that are not in `done`, in order and with repetitions kept. */
  function NotProcessed(done: set<UUID>, ids: seq<UUID>): (r: seq<UUID>)
    ensures forall id :: id in r <==> id in ids && id !in done
  {
    if ids == [] then []
    else NotProcessed(done, ids[..|ids| - 1]) + (if ids[|ids| - 1] in done then [] else [ids[|ids| - 1]])
  }

  method FilterNotProcessed(db: Database, ids: seq<UUID>) returns (notProcessed: seq<UUID>)
    ensures notProcessed == NotProcessed(db.t.processed, ids)
  {
    var processed := set id | id in ids && id in db.t.processed;
    notProcessed := [];
    for i := 0 to |ids|
      invariant notProcessed == NotProcessed(db.t.processed, ids[..i])
    {
      assert ids[..i + 1][..i] == ids[..i];
      if ids[i] !in processed {
        notProcessed := notProcessed + [ids[i]];
      }
    }
    assert ids[..|ids|] == ids;
  }

  // ---------------------------------------------------------------------
  // Queries
  // ---------------------------------------------------------------------

  function Voters(t: Tables, id: UUID): set<Bytes>
  {
    set v | v in t.voters && (id, v) in t.votes
  }

  ghost function PowerOf(voters: map<Bytes, int>, who: set<Bytes>): int
  {
    Sum(map v | v in voters && v in who :: voters[v])
  }

  ghost function TotalPower(t: Tables): int
  {
    Sum(t.voters)
  }

  ghost function ApprovedPower(t: Tables, id: UUID): int
  {
    PowerOf(t.voters, Voters(t, id))
  }

  /** intDivUpFraction: big.Int division is Euclidean, as Dafny's is. */
  function RequiredPower(threshold: Rat, totalPower: int): int
    requires threshold.den != 0
  {
    ToInt64((threshold.num * totalPower + (threshold.den - 1)) / threshold.den)
  }

  /** getResolutionsFullInfoByPower over all registered types: the inner join drops rows
      with a NULL type, and a resolution nobody voted for has a NULL sum, which no
      comparison accepts. */
  ghost predicate IsConfirmed(t: Tables, reg: Registry, total: int, id: UUID)
    requires ValidRegistry(reg)
  {
    && id in t.resolutions
    && t.resolutions[id].typ.Some?
    && t.resolutions[id].typ.value in reg
    && Voters(t, id) != {}
    && ApprovedPower(t, id) >= RequiredPower(reg[t.resolutions[id].typ.value].confirm, total)
  }

  ghost function Confirmed(t: Tables, reg: Registry): set<UUID>
    requires ValidRegistry(reg)
  {
    set id | id in t.resolutions && IsConfirmed(t, reg, TotalPower(t), id)
  }

  /** getResolutionsFullInfoByExpiration. */
  function Expired(t: Tables, height: int): set<UUID>
  {
    set id | id in t.resolutions && t.resolutions[id].expiration <= height && t.resolutions[id].typ.Some?
  }

  /** getResolutionByTypeAndProposer. */
  function Pending(t: Tables, typ: string, proposer: Bytes): set<UUID>
  {
    set id | id in t.resolutions && t.resolutions[id].typ == Some(typ) && t.resolutions[id].proposer == proposer
  }

  // ---------------------------------------------------------------------
  // Thresholds and quorums
  // ---------------------------------------------------------------------

  lemma MulMonotone(a: int, b: int, d: int)
    requires a <= b && 0 <= d
    ensures a * d <= b * d
  {
  }

  lemma CeilingDivision(x: int, d: int, bound: int)
    requires 0 < d && 0 <= x <= bound * d
    ensures var r := (x + (d - 1)) / d;
            0 <= r <= bound && x <= r * d && (r - 1) * d < x
  {
    var r := (x + (d - 1)) / d;
    assert r * d <= x + (d - 1) < r * d + d;
    assert (r - 1) * d == r * d - d;
    assert (bound + 1) * d == bound * d + d;
    if r > bound {
      MulMonotone(bound + 1, r, d);
    }
    if r < 0 {
      MulMonotone(r, -1, d);
    }
  }

  /** RequiredPower is the exact ceiling of threshold * total. */
  lemma RequiredPowerIsCeiling(threshold: Rat, total: int)
    requires ValidRat(threshold) && 0 <= threshold.num <= threshold.den && 0 <= total <= INT64_MAX
    ensures var r := RequiredPower(threshold, total);
            && 0 <= r <= total
            && threshold.num * total <= r * threshold.den
            && (r - 1) * threshold.den < threshold.num * total
  {
    MulMonotone(threshold.num, threshold.den, total);
    MulMonotone(0, threshold.num, total);
    CeilingDivision(threshold.num * total, threshold.den, total);
  }

  /** Inclusion-exclusion for voting power. */
  lemma PowerInclusionExclusion(voters: map<Bytes, int>, a: set<Bytes>, b: set<Bytes>)
    ensures PowerOf(voters, a) + PowerOf(voters, b) == PowerOf(voters, a + b) + PowerOf(voters, a * b)
  {
    var ma, mb := map v | v in voters && v in a :: voters[v], map v | v in voters && v in b :: voters[v];
    var mu := map v | v in voters && v in a + b :: voters[v];
    SumSplit(mu, a);
    assert (map k | k in mu && k in a :: mu[k]) == ma;
    SumSplit(mb, a);
    assert (map k | k in mb && k in a :: mb[k]) == map v | v in voters && v in a * b :: voters[v];
    assert mu - a == mb - a;
  }

  lemma PowerAtMostTotal(voters: map<Bytes, int>, who: set<Bytes>)
    requires forall v :: v in voters ==> 0 < voters[v]
    ensures 0 <= PowerOf(voters, who) <= Sum(voters)
  {
    SumLeq(map v | v in voters && v in who :: voters[v], voters);
    SumNonNegative(map v | v in voters && v in who :: voters[v]);
  }

  /** Any two resolutions confirmed by the same voter table share voters. Scaled by the
      denominators, the common power is at least the excess of the two thresholds over 1. */
  lemma ConfirmedOverlap(t: Tables, reg: Registry, a: UUID, b: UUID, num: int, den: int)
    requires ValidRegistry(reg) && a in Confirmed(t, reg) && b in Confirmed(t, reg)
    requires forall v :: v in t.voters ==> 0 < t.voters[v]
    requires TotalPower(t) <= INT64_MAX && 0 <= num <= den && 0 < den
    requires reg[t.resolutions[a].typ.value].confirm == Rat(num, den) == reg[t.resolutions[b].typ.value].confirm
    ensures den * PowerOf(t.voters, Voters(t, a) * Voters(t, b)) >= (2 * num - den) * TotalPower(t)
  {
    var va, vb := Voters(t, a), Voters(t, b);
    PowerInclusionExclusion(t.voters, va, vb);
    PowerAtMostTotal(t.voters, va + vb);
    PowerAtMostTotal(t.voters, va);
    RequiredPowerIsCeiling(Rat(num, den), TotalPower(t));
    OverlapArithmetic(PowerOf(t.voters, va * vb), RequiredPower(Rat(num, den), TotalPower(t)), TotalPower(t), num, den);
  }

  lemma OverlapArithmetic(common: int, required: int, total: int, num: int, den: int)
    requires 0 < den && common >= 2 * required - total && num * total <= required * den
    ensures den * common >= (2 * num - den) * total
  {
    MulMonotone(2 * required - total, common, den);
    assert (2 * required - total) * den == 2 * (required * den) - den * total;
    assert (2 * num - den) * total == 2 * (num * total) - den * total;
  }

  /** At two thirds, any two confirmed resolutions share voters holding a third of the power. */
  lemma TwoThirdsQuorumsIntersect(t: Tables, reg: Registry, a: UUID, b: UUID)
    requires ValidRegistry(reg) && a in Confirmed(t, reg) && b in Confirmed(t, reg)
    requires forall v :: v in t.voters ==> 0 < t.voters[v]
    requires TotalPower(t) <= INT64_MAX
    requires reg[t.resolutions[a].typ.value].confirm == Rat(2, 3) == reg[t.resolutions[b].typ.value].confirm
    ensures 3 * PowerOf(t.voters, Voters(t, a) * Voters(t, b)) >= TotalPower(t)
    ensures Voters(t, a) * Voters(t, b) != {}
  {
    ConfirmedOverlap(t, reg, a, b, 2, 3);
    var common := Voters(t, a) * Voters(t, b);
    var v :| v in Voters(t, a);
    SumRemove(t.voters, v);
    SumNonNegative(t.voters - {v});
    if common == {} {
      NoPower(t.voters);
    }
  }

  lemma NoPower(voters: map<Bytes, int>)
    ensures PowerOf(voters, {}) == 0
  {
    SumSplit(voters, {});
    assert voters - {} == voters;
  }
}
