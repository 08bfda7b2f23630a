/** Concrete states of a small chain, reached through the routes, at which lemmas elsewhere show
    how the code departs from what it says. */
module Samples {
  import opened Wrappers
  import opened TableModel
  import opened Sums
  import opened PowerRequest
  import opened Voting
  import opened Routes
  import opened ProcessVotes
  import opened VoteStep

  /** A chain that has just started. */
  function Opening(voters: map<Bytes, int>): Tables
  {
    Tables(map[], voters, map[], {}, {}, map[], 0)
  }

  /** Gas is on, join requests expire after four blocks, this node is `[1]`. */
  function At(height: int): Context
  {
    Context(true, SAMPLE_REGISTRY, height, [1], 4, [1])
  }

  // ---------------------------------------------------------------------
  // A join request
  // ---------------------------------------------------------------------

  function RequestID(candidate: Bytes): UUID
  {
    EventID(JoinEvent(candidate, 1))
  }

  /** One validator, and a candidate's join request made at height 1. */
  ghost function Requested(voter: Bytes, candidate: Bytes): Result<Tables, Code>
  {
    Joined(Opening(map[voter := 1]), At(1), candidate, 1)
  }

  function RequestTables(voter: Bytes, candidate: Bytes, votes: set<(UUID, Bytes)>): Tables
  {
    Opening(map[voter := 1]).(
      resolutions := map[RequestID(candidate) := Resolution(JoinEvent(candidate, 1).body, Some(JOIN), candidate, 5)],
      votes := votes)
  }

  lemma RequestedIs(voter: Bytes, candidate: Bytes)
    requires voter != candidate
    ensures Requested(voter, candidate) == Ok(RequestTables(voter, candidate, {}))
  {
    hide EventID;
    var t := Opening(map[voter := 1]);
    assert Pending(t, JOIN, candidate) == {};
    assert JoinEvent(candidate, 1).typ == JOIN && JOIN in SAMPLE_REGISTRY;
  }

  /** The validator's approval of it. */
  lemma ApprovedIs(voter: Bytes, candidate: Bytes)
    requires voter != candidate
    ensures JoinApproved(RequestTables(voter, candidate, {}), voter, candidate) ==
            Ok(RequestTables(voter, candidate, {(RequestID(candidate), voter)}))
  {
    hide RequestID;
    var t, id := RequestTables(voter, candidate, {}), RequestID(candidate);
    assert Pending(t, JOIN, candidate) == {id};
    assert |Pending(t, JOIN, candidate)| == 1;
  }

  lemma OneKey(k: Bytes, v: int)
    ensures Sum(map[k := v]) == v
  {
    var none: map<Bytes, int> := map[];
    SumUpdate(none, k, v);
    assert none[k := v] == map[k := v];
    NoKeys<Bytes>();
  }

  lemma RequestDecodes(candidate: Bytes)
    ensures UnmarshalBinary(JoinEvent(candidate, 1).body) == Some(UpdatePowerRequest(candidate, 1))
    ensures |JoinEvent(candidate, 1).body| == |candidate| + 8
  {
    assert ToInt64(1) == 1;
    MarshalRoundTrip(UpdatePowerRequest(candidate, 1));
  }

  lemma RequestIntegrity(voter: Bytes, candidate: Bytes, voted: bool)
    ensures var id := RequestID(candidate);
            Integrity(RequestTables(voter, candidate, if voted then {(id, voter)} else {}), SAMPLE_REGISTRY)
  {
    hide RequestID;
    SampleRegistryValid();
  }

  /** Unapproved, it has no power behind it. */
  lemma UnapprovedPower(voter: Bytes, candidate: Bytes)
    ensures ApprovedPower(RequestTables(voter, candidate, {}), RequestID(candidate)) == 0
    ensures Voters(RequestTables(voter, candidate, {}), RequestID(candidate)) == {}
  {
    hide RequestID;
    var t, id := RequestTables(voter, candidate, {}), RequestID(candidate);
    assert Voters(t, id) == {};
    NoPower(t.voters);
  }

  /** Approved, it is confirmed. */
  lemma ApprovedConfirmed(voter: Bytes, candidate: Bytes)
    requires voter != candidate
    ensures var id := RequestID(candidate);
            var t := RequestTables(voter, candidate, {(id, voter)});
            && ValidRegistry(SAMPLE_REGISTRY) && Confirmed(t, SAMPLE_REGISTRY) == {id}
            && Voters(t, id) == {voter} && Owed(t, id) == 1000 * (|candidate| + 8) + 16000
  {
    hide RequestID;
    SampleRegistryValid();
    RequestDecodes(candidate);
    var id := RequestID(candidate);
    var t := RequestTables(voter, candidate, {(id, voter)});
    assert Voters(t, id) == {voter} && {voter} - {candidate} == {voter};
    var one := map[voter := 1];
    assert (map v | v in t.voters && v in Voters(t, id) :: t.voters[v]) == one && t.voters == one;
    OneKey(voter, 1);
    RequiredPowerIsCeiling(Rat(2, 3), 1);
    assert IsConfirmed(t, SAMPLE_REGISTRY, TotalPower(t), id);
  }

  /** Resolved, the candidate is a voter. */
  lemma ApprovedResolved(voter: Bytes, candidate: Bytes)
    requires voter != candidate
    ensures var id := RequestID(candidate);
            var t := RequestTables(voter, candidate, {(id, voter)});
            ResolvedAll(t, [id], map[]) == t.(voters := map[voter := 1, candidate := 1])
  {
    hide RequestID;
    RequestDecodes(candidate);
    var id := RequestID(candidate);
    var t := RequestTables(voter, candidate, {(id, voter)});
    assert [id][..0] == [] && ResolvedAll(t, [], map[]) == t;
    assert t.voters[candidate := 1] == map[voter := 1, candidate := 1];
  }

  // ---------------------------------------------------------------------
  // An event of an extension
  // ---------------------------------------------------------------------

  const CREDIT := Event("credit", [7])

  function CreditTables(votes: set<(UUID, Bytes)>, processed: set<UUID>): Tables
  {
    Opening(map[[1] := 1, [2] := 1]).(
      resolutions := map[EventID(CREDIT) := Resolution([7], Some("credit"), [1], 14401)],
      votes := votes, processed := processed)
  }

  /** Two validators; the first proposes the event at height 1. */
  lemma CreditProposed(processed: set<UUID>)
    ensures ProposedOne(Opening(map[[1] := 1, [2] := 1]).(processed := processed), At(1), [1], CREDIT) ==
            Some(CreditTables({(EventID(CREDIT), [1])}, processed))
  {
    hide EventID;
    assert ToLower("credit") == "credit";
    var t, id := Opening(map[[1] := 1, [2] := 1]).(processed := processed), EventID(CREDIT);
    var c := Created(t, SAMPLE_REGISTRY, CREDIT, 14401, [1]);
    assert c == CreditTables({}, processed);
    var one: (UUID, Bytes) := (id, [1]);
    assert c.votes + {one} == {one} && c.events - {id} == c.events;
  }

  /** The second votes for it at height 14401, when it expires. */
  lemma CreditVoted(processed: set<UUID>)
    ensures var id := EventID(CREDIT);
            VotedOne(CreditTables({(id, [1])}, processed), false, [2], id) ==
            Some(CreditTables({(id, [1]), (id, [2])}, processed))
  {
    hide EventID;
    var id := EventID(CREDIT);
    var one: (UUID, Bytes) := (id, [1]);
    var two: (UUID, Bytes) := (id, [2]);
    assert {one} + {two} == {one, two};
  }

  /** Both votes confirm it, and all of its type is recorded as processed. */
  lemma CreditConfirmed()
    ensures var id := EventID(CREDIT);
            var t := CreditTables({(id, [1]), (id, [2])}, {});
            && Integrity(t, SAMPLE_REGISTRY) && ValidRegistry(SAMPLE_REGISTRY)
            && Confirmed(t, SAMPLE_REGISTRY) == {id} && TypeName(t, id) == "credit" && !IsValidatorType("credit")
  {
    hide EventID;
    SampleRegistryValid();
    var id := EventID(CREDIT);
    var t := CreditTables({(id, [1]), (id, [2])}, {});
    assert Voters(t, id) == {[1], [2]};
    assert (map v | v in t.voters && v in Voters(t, id) :: t.voters[v]) == t.voters;
    var one: map<Bytes, int> := map[[1] := 1];
    assert t.voters == one[[2] := 1];
    OneKey([1], 1);
    SumUpdate(one, [2], 1);
    RequiredPowerIsCeiling(Rat(2, 3), 2);
    assert IsConfirmed(t, SAMPLE_REGISTRY, TotalPower(t), id);
    assert "credit" != JOIN && "credit" != REMOVE;
  }
}
