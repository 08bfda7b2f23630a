/** What a block reports to consensus about the validator set, and the copies of that set the
    node keeps (validatorUpdates, FinalizeBlock and Info in internal/abci/abci.go, GetValidators and
    Finalize in internal/txapp/txapp.go). */
module ValidatorSet {
  import opened Wrappers
  import opened TableModel
  import opened Enumerations
  import opened Voting
  import opened Routes
  import opened ProcessVotes
  import opened VoteStep
  import opened Runs
  import opened Samples

  datatype Validator = Validator(pubKey: Bytes, power: int)

  type Powers = map<Bytes, int>

  // ---------------------------------------------------------------------
  // The difference between two validator sets
  // ---------------------------------------------------------------------

  /** A list as a map from key to power; a later entry replaces an earlier one. */
  function AsMap(vals: seq<Validator>): Powers
  {
    if vals == [] then map[] else AsMap(vals[..|vals| - 1])[vals[|vals| - 1].pubKey := vals[|vals| - 1].power]
  }

  predicate Changed(initial: Powers, final: Powers, key: Bytes)
  {
    key in final && (key in initial ==> initial[key] != final[key])
  }

  /** The entries to report: new and changed powers, and zero for a validator that is gone. */
  function Delta(initial: Powers, final: Powers): set<Validator>
  {
    (set k | k in final && Changed(initial, final, k) :: Validator(k, final[k])) +
    (set k | k in initial && k !in final :: Validator(k, 0))
  }

  method ToMap(vals: seq<Validator>) returns (m: Powers)
    ensures m == AsMap(vals)
  {
    m := map[];
    for i := 0 to |vals|
      invariant m == AsMap(vals[..i])
    {
      assert vals[..i + 1][..i] == vals[..i];
      m := m[vals[i].pubKey := vals[i].power];
    }
    assert vals[..|vals|] == vals;
  }

  /** Map iteration order is left open, as in Go. */
  method ValidatorUpdates(initial: seq<Validator>, final: seq<Validator>) returns (updates: seq<Validator>)
    ensures Enumerates(updates, Delta(AsMap(initial), AsMap(final)))
  {
    var initialVals := ToMap(initial);
    var finalVals := ToMap(final);
    updates := [];
    var keys := Enumerate(finalVals.Keys);
    for i := 0 to |keys|
      invariant Distinct(updates)
      invariant forall u :: u in updates <==>
                  u.pubKey in keys[..i] && u.pubKey in finalVals && Changed(initialVals, finalVals, u.pubKey) &&
                  u.power == finalVals[u.pubKey]
    {
      var key := keys[i];
      assert keys[..i + 1] == keys[..i] + [key];
      assert key in finalVals && key !in keys[..i];
      var val := Validator(key, finalVals[key]);
      if key in initialVals {
        if initialVals[key] != finalVals[key] {
          updates := updates + [val];
        }
      } else {
        updates := updates + [val];
      }
    }
    assert keys[..|keys|] == keys;
    ghost var kept := updates;
    keys := Enumerate(initialVals.Keys);
    for i := 0 to |keys|
      invariant Distinct(updates)
      invariant forall u :: u in updates <==>
                  u in kept || (u.pubKey in keys[..i] && u.pubKey !in finalVals && u.power == 0)
    {
      var key := keys[i];
      assert keys[..i + 1] == keys[..i] + [key];
      assert key in initialVals && key !in keys[..i];
      if key !in finalVals {
        updates := updates + [Validator(key, 0)];
      }
    }
    assert keys[..|keys|] == keys;
  }

  // ---------------------------------------------------------------------
  // What consensus makes of the report
  // ---------------------------------------------------------------------

  /** ABCI: power 0 removes a validator, any other power sets it. */
  function Apply(vals: Powers, u: Validator): Powers
  {
    if u.power == 0 then vals - {u.pubKey} else vals[u.pubKey := u.power]
  }

  function ApplyAll(vals: Powers, updates: seq<Validator>): Powers
  {
    if updates == [] then vals else Apply(ApplyAll(vals, updates[..|updates| - 1]), updates[|updates| - 1])
  }

  ghost predicate KeysDistinct(updates: seq<Validator>)
  {
    forall i, j :: 0 <= i < j < |updates| ==> updates[i].pubKey != updates[j].pubKey
  }

  /** Keys without an entry stay as they were. */
  lemma {:induction false} ApplyElsewhere(vals: Powers, updates: seq<Validator>, key: Bytes)
    requires forall i :: 0 <= i < |updates| ==> updates[i].pubKey != key
    ensures key in ApplyAll(vals, updates) <==> key in vals
    ensures key in vals ==> ApplyAll(vals, updates)[key] == vals[key]
  {
    if updates != [] {
      ApplyElsewhere(vals, updates[..|updates| - 1], key);
    }
  }

  /** A key with an entry ends up as the entry says. */
  lemma {:induction false} ApplyHere(vals: Powers, updates: seq<Validator>, i: nat)
    requires KeysDistinct(updates) && i < |updates|
    ensures updates[i].pubKey in ApplyAll(vals, updates) <==> updates[i].power != 0
    ensures updates[i].power != 0 ==> ApplyAll(vals, updates)[updates[i].pubKey] == updates[i].power
  {
    if i < |updates| - 1 {
      ApplyHere(vals, updates[..|updates| - 1], i);
    }
  }

  lemma DeltaKeysDistinct(initial: Powers, final: Powers, updates: seq<Validator>)
    requires Enumerates(updates, Delta(initial, final))
    ensures KeysDistinct(updates)
  {
    forall i, j | 0 <= i < j < |updates| ensures updates[i].pubKey != updates[j].pubKey {
      assert updates[i] in Delta(initial, final) && updates[j] in Delta(initial, final);
    }
  }

  ghost predicate Agree(a: Powers, b: Powers, key: Bytes)
  {
    (key in a <==> key in b) && (key in a ==> a[key] == b[key])
  }

  /** What a report of the change from `initial` to `final` does to any set, key by key. */
  lemma ReportedAt(told: Powers, initial: Powers, final: Powers, updates: seq<Validator>, key: Bytes)
    requires Enumerates(updates, Delta(initial, final))
    ensures Agree(initial, final, key) ==> Agree(ApplyAll(told, updates), told, key)
    ensures !Agree(initial, final, key) && (key in final ==> final[key] != 0) ==>
              Agree(ApplyAll(told, updates), final, key)
    ensures !Agree(initial, final, key) && key in final && final[key] == 0 ==> key !in ApplyAll(told, updates)
  {
    hide ApplyAll;
    DeltaKeysDistinct(initial, final, updates);
    if Agree(initial, final, key) {
      assert forall i :: 0 <= i < |updates| ==> updates[i] in Delta(initial, final);
      ApplyElsewhere(told, updates, key);
    } else {
      var u := Validator(key, if key in final then final[key] else 0);
      assert u in Delta(initial, final);
      var i :| 0 <= i < |updates| && updates[i] == u;
      ApplyHere(told, updates, i);
    }
  }

  lemma AllAgree(a: Powers, b: Powers)
    ensures a == b <==> forall k :: Agree(a, b, k)
  {
    if forall k :: Agree(a, b, k) {
      assert forall k :: k in a ==> Agree(a, b, k);
      assert forall k :: k in b ==> Agree(a, b, k);
      assert a == b;
    }
  }

  /** Reporting the updates in any order turns the initial set into the final one, exactly when
      no new or changed validator has power 0 (which the voters table rules out). */
  lemma UpdatesGiveFinal(initial: Powers, final: Powers, updates: seq<Validator>)
    requires Enumerates(updates, Delta(initial, final))
    ensures ApplyAll(initial, updates) == final <==>
            forall k :: k in final && !Agree(initial, final, k) ==> final[k] != 0
  {
    hide ApplyAll, Delta, Agree;
    AllAgree(ApplyAll(initial, updates), final);
    forall k
      ensures Agree(ApplyAll(initial, updates), final, k) <==>
              (k in final && !Agree(initial, final, k) ==> final[k] != 0)
    {
      ReportedAt(initial, initial, final, updates, k);
      AgreeRules(ApplyAll(initial, updates), initial, final, k);
    }
  }

  lemma AgreeRules(a: Powers, b: Powers, c: Powers, key: Bytes)
    ensures Agree(a, b, key) && Agree(b, c, key) ==> Agree(a, c, key)
    ensures Agree(a, b, key) && Agree(a, c, key) ==> Agree(b, c, key)
    ensures Agree(a, c, key) ==> (key in a <==> key in c)
  {
  }

  /** If consensus holds another set than the one the report starts from, the report leads it to
      the final set exactly when it already agrees with that on every key left out of the report. */
  lemma CatchUpExactly(told: Powers, initial: Powers, final: Powers, updates: seq<Validator>)
    requires Enumerates(updates, Delta(initial, final)) && forall k :: k in final ==> final[k] != 0
    ensures ApplyAll(told, updates) == final <==> forall k :: Agree(initial, final, k) ==> Agree(told, final, k)
  {
    hide ApplyAll, Delta, Agree;
    AllAgree(ApplyAll(told, updates), final);
    forall k
      ensures Agree(ApplyAll(told, updates), final, k) <==> (Agree(initial, final, k) ==> Agree(told, final, k))
    {
      ReportedAt(told, initial, final, updates, k);
      AgreeRules(ApplyAll(told, updates), told, final, k);
    }
  }

  /** No entry is redundant: leaving any one out, consensus would not reach the final set. */
  lemma NoUpdateIsRedundant(initial: Powers, final: Powers, updates: seq<Validator>, i: nat)
    requires Enumerates(updates, Delta(initial, final)) && i < |updates|
    ensures ApplyAll(initial, updates[..i] + updates[i + 1..]) != final
  {
    hide ApplyAll;
    DeltaKeysDistinct(initial, final, updates);
    var rest, u := updates[..i] + updates[i + 1..], updates[i];
    assert u in Delta(initial, final);
    forall j | 0 <= j < |rest| ensures rest[j].pubKey != u.pubKey {
      assert rest[j] == updates[if j < i then j else j + 1];
    }
    ApplyElsewhere(initial, rest, u.pubKey);
  }

  // ---------------------------------------------------------------------
  // The copies the node keeps
  // ---------------------------------------------------------------------

  /** The address of an ed25519 key is a truncated digest of it, modelled as injective. */
  datatype Address = Address(key: Bytes)
  type AddressBook = map<Address, Bytes>

  const PUB_KEY_SIZE := 32

  function PubkeyToAddr(key: Bytes): Option<Address>
  {
    if |key| == PUB_KEY_SIZE then Some(Address(key)) else None
  }

  /** The address book a validator set should have. */
  function BookOf(vals: Powers): AddressBook
  {
    map a: Address | a.key in vals.Keys && a in (set k | k in vals :: Address(k)) :: a.key
  }

  function Entered(book: AddressBook, u: Validator): AddressBook
  {
    if u.power == 0 then book - {Address(u.pubKey)} else book[Address(u.pubKey) := u.pubKey]
  }

  function EnteredAll(book: AddressBook, updates: seq<Validator>): AddressBook
  {
    if updates == [] then book else Entered(EnteredAll(book, updates[..|updates| - 1]), updates[|updates| - 1])
  }

  /** The book follows the set through any updates. */
  lemma {:induction false} BookFollows(vals: Powers, updates: seq<Validator>)
    ensures EnteredAll(BookOf(vals), updates) == BookOf(ApplyAll(vals, updates))
  {
    if updates != [] {
      var before, last := ApplyAll(vals, updates[..|updates| - 1]), updates[|updates| - 1];
      BookFollows(vals, updates[..|updates| - 1]);
      assert Entered(BookOf(before), last) == BookOf(Apply(before, last));
    }
  }

  ghost predicate GoodKeys(updates: set<Validator>)
  {
    forall u :: u in updates ==> |u.pubKey| == PUB_KEY_SIZE
  }

  ghost predicate Keys32(vals: Powers)
  {
    forall k :: k in vals ==> |k| == PUB_KEY_SIZE
  }

  function Rows(voters: Powers, keys: seq<Bytes>): (vals: seq<Validator>)
    requires forall i :: 0 <= i < |keys| ==> keys[i] in voters
    ensures |vals| == |keys| && forall i :: 0 <= i < |keys| ==> vals[i] == Validator(keys[i], voters[keys[i]])
  {
    seq(|keys|, i requires 0 <= i < |keys| => Validator(keys[i], voters[keys[i]]))
  }

  lemma {:induction false} RowsMap(voters: Powers, keys: seq<Bytes>)
    requires forall i :: 0 <= i < |keys| ==> keys[i] in voters
    ensures AsMap(Rows(voters, keys)).Keys == Elements(keys)
    ensures forall k :: k in keys ==> AsMap(Rows(voters, keys))[k] == voters[k]
  {
    if keys != [] {
      var front, last := keys[..|keys| - 1], keys[|keys| - 1];
      RowsMap(voters, front);
      assert Rows(voters, keys)[..|keys| - 1] == Rows(voters, front);
      assert keys == front + [last];
      ElementsAppend(front, last);
    }
  }

  lemma RowsAreVoters(voters: Powers, keys: seq<Bytes>)
    requires Enumerates(keys, voters.Keys)
    ensures AsMap(Rows(voters, keys)) == voters && KeysDistinct(Rows(voters, keys))
  {
    RowsMap(voters, keys);
  }

  /** TxApp's cached validators and AbciApp's address book. */
  class ValidatorTracker {
    var validators: Option<seq<Validator>>
    var addresses: AddressBook

    /** Both copies are exactly the voters table. */
    ghost predicate Tracks(voters: Powers)
      reads this
    {
      && (validators.Some? ==> AsMap(validators.value) == voters)
      && addresses == BookOf(voters)
    }

    constructor ()
      ensures validators == None && addresses == map[] && Tracks(map[])
    {
      validators, addresses := None, map[];
    }

    /** All rows of the voters table, in an order the database chooses. */
    method GetAllVoters(db: Database) returns (vals: seq<Validator>)
      ensures AsMap(vals) == db.t.voters && KeysDistinct(vals)
    {
      var keys := Enumerate(db.t.voters.Keys);
      vals := [];
      for i := 0 to |keys|
        invariant vals == Rows(db.t.voters, keys[..i])
      {
        assert keys[..i + 1][..i] == keys[..i];
        vals := vals + [Validator(keys[i], db.t.voters[keys[i]])];
      }
      assert keys[..|keys|] == keys;
      RowsAreVoters(db.t.voters, keys);
    }

    /** The cached set when there is one, else the table. */
    method GetValidators(db: Database) returns (vals: seq<Validator>)
      ensures AsMap(vals) == if validators.Some? then AsMap(validators.value) else db.t.voters
    {
      if validators.Some? {
        return validators.value;
      }
      vals := GetAllVoters(db);
    }

    /** Info, the first call after a start: fills the address book. */
    method Info(db: Database) returns (ok: bool)
      requires validators == None && addresses == map[]
      modifies this`addresses
      ensures ok <==> Keys32(db.t.voters)
      ensures ok ==> Tracks(db.t.voters)
    {
      var vals := GetValidators(db);
      for i := 0 to |vals|
        invariant addresses == BookOf(AsMap(vals[..i])) && Keys32(AsMap(vals[..i]))
      {
        hide BookOf, Keys32, AsMap;
        var addr := PubkeyToAddr(vals[i].pubKey);
        KnownAfter(vals, i);
        if addr.None? {
          return false;
        }
        addresses := addresses[addr.value := vals[i].pubKey];
      }
      assert vals[..|vals|] == vals;
      return true;
    }

    /** The end of Finalize: read the set, run the forks' state modifications, which can do
        anything, and cache the set read before (an empty result leaves a nil cache). */
    method CacheFinal(db: Database, stateMod: Tables -> Option<Tables>) returns (ok: bool, final: seq<Validator>)
      modifies this`validators, db
      ensures ok <==> stateMod(old(db.t)).Some?
      ensures AsMap(final) == old(db.t).voters
      ensures ok ==> db.t == stateMod(old(db.t)).value
      ensures ok ==> validators == if old(db.t).voters == map[] then None else Some(final)
    {
      final := GetAllVoters(db);
      NoRows(final);
      var modified := stateMod(db.t);
      if modified.None? {
        return false, final;
      }
      db.t := modified.value;
      validators := if final == [] then None else Some(final);
      return true, final;
    }

    /** The reporting loop of FinalizeBlock. */
    method Report(updates: seq<Validator>) returns (ok: bool)
      modifies this`addresses
      ensures ok <==> GoodKeys(Elements(updates))
      ensures ok ==> addresses == EnteredAll(old(addresses), updates)
    {
      for i := 0 to |updates|
        invariant addresses == EnteredAll(old(addresses), updates[..i])
        invariant forall j :: 0 <= j < i ==> |updates[j].pubKey| == PUB_KEY_SIZE
      {
        assert updates[..i + 1][..i] == updates[..i];
        var addr := PubkeyToAddr(updates[i].pubKey);
        if addr.None? {
          assert updates[i] in Elements(updates);
          return false;
        }
        if updates[i].power == 0 {
          addresses := addresses - {addr.value};
        } else {
          addresses := addresses[addr.value := updates[i].pubKey];
        }
      }
      assert updates[..|updates|] == updates;
      return true;
    }

    /** Finalize and the end of FinalizeBlock, given the validators read when the block began.
        Consensus and both copies end up with the set read before the state modifications, so
        they agree with the table after the block if and only if those kept the voters. */
    method EndBlock(db: Database, initial: seq<Validator>, stateMod: Tables -> Option<Tables>)
      returns (ok: bool, updates: seq<Validator>)
      requires addresses == BookOf(AsMap(initial)) && forall k :: k in db.t.voters ==> 0 < db.t.voters[k]
      modifies this, db
      ensures ok <==> stateMod(old(db.t)).Some? && GoodKeys(Delta(AsMap(initial), old(db.t).voters))
      ensures ok ==> db.t == stateMod(old(db.t)).value
      ensures ok ==> Enumerates(updates, Delta(AsMap(initial), old(db.t).voters))
      ensures ok ==> ApplyAll(AsMap(initial), updates) == old(db.t).voters && Tracks(old(db.t).voters)
      ensures ok ==> (Tracks(db.t.voters) <==> db.t.voters == old(db.t).voters)
    {
      hide BookOf, AsMap, Delta, ApplyAll, EnteredAll, GoodKeys;
      ghost var read := db.t.voters;
      var modified, final := CacheFinal(db, stateMod);
      if !modified {
        return false, [];
      }
      updates := ValidatorUpdates(initial, final);
      ok := Report(updates);
      assert Elements(updates) == Delta(AsMap(initial), read);
      BookFollows(AsMap(initial), updates);
      UpdatesGiveFinal(AsMap(initial), read, updates);
      if db.t.voters != read {
        BooksDiffer(read, db.t.voters);
      }
    }
  }

  lemma {:induction false} KeysListed(vals: seq<Validator>, i: nat)
    requires i < |vals|
    ensures vals[i].pubKey in AsMap(vals)
  {
    if i < |vals| - 1 {
      KeysListed(vals[..|vals| - 1], i);
    }
  }

  /** One more row in the book. */
  lemma KnownAfter(vals: seq<Validator>, i: nat)
    requires i < |vals|
    ensures BookOf(AsMap(vals[..i + 1])) == BookOf(AsMap(vals[..i]))[Address(vals[i].pubKey) := vals[i].pubKey]
    ensures |vals[i].pubKey| == PUB_KEY_SIZE && Keys32(AsMap(vals[..i])) ==> Keys32(AsMap(vals[..i + 1]))
    ensures |vals[i].pubKey| != PUB_KEY_SIZE ==> !Keys32(AsMap(vals))
  {
    assert vals[..i + 1][..i] == vals[..i];
    KeysListed(vals, i);
  }

  lemma NoRows(vals: seq<Validator>)
    ensures vals == [] <==> AsMap(vals) == map[]
  {
    if vals != [] {
      KeysListed(vals, 0);
    }
  }

  /** An empty set has no cache, but its book tells it from any other. */
  lemma BooksDiffer(a: Powers, b: Powers)
    requires a != b
    ensures a == map[] ==> BookOf(a) != BookOf(b)
  {
    if a == map[] {
      var k :| k in b;
      assert Address(k) in BookOf(b);
    }
  }

  // ---------------------------------------------------------------------
  // Whole runs
  // ---------------------------------------------------------------------

  /** A node between two turns: the tables, the cached set (empty when there is none), the set
      consensus holds, and the address book. */
  datatype Node = Node(t: Tables, cache: Powers, told: Powers, book: AddressBook)

  /** A step, with the tables a fork's state modification leaves at the end of its block and the
      order of its report; or a restart of the node, which loses what is only in memory. */
  datatype Turn = Act(step: Step, mod: Option<Tables>, report: seq<Validator>) | Restart

  function Genesis(t: Tables): Node
  {
    Node(t, map[], t.voters, BookOf(t.voters))
  }

  /** What the next block takes as its initial validators. */
  function Initial(n: Node): Powers
  {
    if n.cache != map[] then n.cache else n.t.voters
  }

  /** The voters at the end of processVotes. */
  ghost function Read(n: Node, chain: Chain, b: Block): Powers
    requires Executable(n.t, chain, b)
  {
    AfterBlock(n.t, chain, b).voters
  }

  /** The block executes and its changes can be reported. */
  ghost predicate Finalizes(n: Node, chain: Chain, b: Block)
  {
    Executable(n.t, chain, b) && GoodKeys(Delta(Initial(n), Read(n, chain, b)))
  }

  ghost predicate Ends(n: Node, chain: Chain, turn: Turn)
  {
    turn.Act? && turn.step.ExecuteBlock? && Finalizes(n, chain, turn.step.block)
  }

  ghost function Turned(n: Node, chain: Chain, turn: Turn): Node
  {
    match turn
    case Restart => n.(cache := map[], book := BookOf(n.t.voters))
    case Act(StoreEvent(e), _, _) => n.(t := Stored(n.t, chain.reg, e))
    case Act(ExecuteBlock(b), mod, report) =>
      if Finalizes(n, chain, b)
      then Node(if mod.Some? then mod.value else AfterBlock(n.t, chain, b), Read(n, chain, b),
                ApplyAll(n.told, report), EnteredAll(n.book, report))
      else n
  }

  /** The report lists the changes, in any order, and the modified tables meet the schema's
      constraints. */
  ghost predicate Proper(n: Node, chain: Chain, turn: Turn)
  {
    Ends(n, chain, turn) ==>
      && Enumerates(turn.report, Delta(Initial(n), Read(n, chain, turn.step.block)))
      && (turn.mod.Some? ==> Integrity(turn.mod.value, chain.reg))
  }

  ghost predicate ModKeeps(n: Node, chain: Chain, turn: Turn)
  {
    Ends(n, chain, turn) && turn.mod.Some? ==> turn.mod.value.voters == Read(n, chain, turn.step.block)
  }

  /** The node restarts only while the table is what consensus holds, and no modification adds
      voters where there were none. */
  ghost predicate Guarded(n: Node, chain: Chain, turn: Turn)
  {
    && (turn.Restart? ==> n.t.voters == n.told)
    && (Ends(n, chain, turn) && Read(n, chain, turn.step.block) == map[] ==> ModKeeps(n, chain, turn))
  }

  ghost function NodeAfter(t: Tables, chain: Chain, turns: seq<Turn>): Node
  {
    if turns == [] then Genesis(t)
    else Turned(NodeAfter(t, chain, turns[..|turns| - 1]), chain, turns[|turns| - 1])
  }

  ghost predicate ProperRun(t: Tables, chain: Chain, turns: seq<Turn>)
  {
    turns == [] ||
    (ProperRun(t, chain, turns[..|turns| - 1]) &&
     Proper(NodeAfter(t, chain, turns[..|turns| - 1]), chain, turns[|turns| - 1]))
  }

  ghost predicate GuardedRun(t: Tables, chain: Chain, turns: seq<Turn>)
  {
    turns == [] ||
    (GuardedRun(t, chain, turns[..|turns| - 1]) &&
     Guarded(NodeAfter(t, chain, turns[..|turns| - 1]), chain, turns[|turns| - 1]))
  }

  ghost predicate KeepingRun(t: Tables, chain: Chain, turns: seq<Turn>)
  {
    turns == [] ||
    (KeepingRun(t, chain, turns[..|turns| - 1]) &&
     ModKeeps(NodeAfter(t, chain, turns[..|turns| - 1]), chain, turns[|turns| - 1]))
  }

  /** The voters read at the end of the last block, or at genesis. */
  ghost function LastRead(t: Tables, chain: Chain, turns: seq<Turn>): Powers
  {
    if turns == [] then t.voters
    else
      var before, last := NodeAfter(t, chain, turns[..|turns| - 1]), turns[|turns| - 1];
      if Ends(before, chain, last) then Read(before, chain, last.step.block)
      else LastRead(t, chain, turns[..|turns| - 1])
  }

  /** The state modification of the last block, if it had one, kept the voters. */
  ghost predicate LastModKept(t: Tables, chain: Chain, turns: seq<Turn>)
  {
    turns == [] ||
    var before, last := NodeAfter(t, chain, turns[..|turns| - 1]), turns[|turns| - 1];
    if Ends(before, chain, last) then ModKeeps(before, chain, last)
    else LastModKept(t, chain, turns[..|turns| - 1])
  }

  ghost predicate Synced(n: Node)
  {
    Initial(n) == n.told && n.book == BookOf(n.told)
  }

  lemma TurnIntegrity(n: Node, chain: Chain, turn: Turn)
    requires Integrity(n.t, chain.reg) && Proper(n, chain, turn)
    ensures Integrity(Turned(n, chain, turn).t, chain.reg)
    ensures Ends(n, chain, turn) ==> Integrity(AfterBlock(n.t, chain, turn.step.block), chain.reg)
    ensures !Ends(n, chain, turn) ==> Turned(n, chain, turn).t.voters == n.t.voters
  {
    hide Executable, AfterBlock, Delta, ApplyAll, EnteredAll, BookOf, Integrity;
    match turn
    case Restart =>
    case Act(StoreEvent(e), _, _) => StoredIntegrity(n.t, chain.reg, e);
    case Act(ExecuteBlock(b), _, _) =>
      if Ends(n, chain, turn) {
        BlockIntegrity(n.t, chain, b);
      }
  }

  lemma {:induction false} TurnsIntegrity(t: Tables, chain: Chain, turns: seq<Turn>)
    requires Integrity(t, chain.reg) && ProperRun(t, chain, turns)
    ensures Integrity(NodeAfter(t, chain, turns).t, chain.reg)
  {
    hide Integrity, Turned, Proper;
    if turns != [] {
      TurnsIntegrity(t, chain, turns[..|turns| - 1]);
      TurnIntegrity(NodeAfter(t, chain, turns[..|turns| - 1]), chain, turns[|turns| - 1]);
    }
  }

  /** In whatever state: a block brings consensus to the voters it read if and only if consensus
      already agrees with them wherever the block sees no change. */
  lemma BlockReportsExactly(n: Node, chain: Chain, turn: Turn)
    requires Integrity(n.t, chain.reg) && Proper(n, chain, turn) && Ends(n, chain, turn)
    ensures Turned(n, chain, turn).told == Read(n, chain, turn.step.block) <==>
            forall k :: Agree(Initial(n), Read(n, chain, turn.step.block), k) ==>
                          Agree(n.told, Read(n, chain, turn.step.block), k)
  {
    hide Executable, AfterBlock, Delta, ApplyAll, EnteredAll, BookOf, Agree;
    TurnIntegrity(n, chain, turn);
    CatchUpExactly(n.told, Initial(n), Read(n, chain, turn.step.block), turn.report);
  }

  /** From a state in step with consensus, a block brings consensus and the book to the voters
      it read. */
  lemma SyncedTurn(n: Node, chain: Chain, turn: Turn)
    requires Integrity(n.t, chain.reg) && Synced(n) && Proper(n, chain, turn) && Guarded(n, chain, turn)
    ensures Synced(Turned(n, chain, turn))
    ensures Turned(n, chain, turn).told == if Ends(n, chain, turn) then Read(n, chain, turn.step.block) else n.told
  {
    hide Executable, AfterBlock, Delta, ApplyAll, EnteredAll, BookOf;
    TurnIntegrity(n, chain, turn);
    if Ends(n, chain, turn) {
      UpdatesGiveFinal(n.told, Read(n, chain, turn.step.block), turn.report);
      BookFollows(n.told, turn.report);
    }
  }

  /** At every point of every such run, consensus holds the voters that the last block read, the
      address book is exactly their image, and the next block starts its report from them, so it
      catches up with what a fork did. The voters table is that set if and only if the last
      block's state modification kept it. */
  lemma {:induction false} ForkReported(t: Tables, chain: Chain, turns: seq<Turn>)
    requires Integrity(t, chain.reg) && ProperRun(t, chain, turns) && GuardedRun(t, chain, turns)
    ensures var n := NodeAfter(t, chain, turns);
            && n.told == LastRead(t, chain, turns) && n.book == BookOf(n.told) && Initial(n) == n.told
            && (n.t.voters == n.told <==> LastModKept(t, chain, turns))
  {
    hide Integrity, Proper, Guarded, Ends, BookOf;
    if turns != [] {
      hide Turned, Initial, ModKeeps;
      var front, last := turns[..|turns| - 1], turns[|turns| - 1];
      var n := NodeAfter(t, chain, front);
      ForkReported(t, chain, front);
      TurnsIntegrity(t, chain, front);
      SyncedTurn(n, chain, last);
      TurnVoters(n, chain, last);
    }
  }

  lemma TurnVoters(n: Node, chain: Chain, turn: Turn)
    ensures Ends(n, chain, turn) ==>
              (Turned(n, chain, turn).t.voters == Read(n, chain, turn.step.block) <==> ModKeeps(n, chain, turn))
    ensures !Ends(n, chain, turn) ==> Turned(n, chain, turn).t.voters == n.t.voters
  {
    hide Executable, AfterBlock, Delta, ApplyAll, EnteredAll, BookOf;
  }

  /** Without a modification of the voters, consensus, the book and the table agree at every
      point of every run, wherever the node restarts. */
  lemma {:induction false} RunReported(t: Tables, chain: Chain, turns: seq<Turn>)
    requires Integrity(t, chain.reg) && ProperRun(t, chain, turns) && KeepingRun(t, chain, turns)
    ensures GuardedRun(t, chain, turns)
    ensures var n := NodeAfter(t, chain, turns); n.told == n.t.voters && n.book == BookOf(n.t.voters)
  {
    hide Integrity, Proper, Ends, BookOf, Turned, Initial, ModKeeps;
    if turns != [] {
      RunReported(t, chain, turns[..|turns| - 1]);
      assert Guarded(NodeAfter(t, chain, turns[..|turns| - 1]), chain, turns[|turns| - 1]);
    }
    ForkReported(t, chain, turns);
    KeptToTheEnd(t, chain, turns);
  }

  lemma {:induction false} KeptToTheEnd(t: Tables, chain: Chain, turns: seq<Turn>)
    requires KeepingRun(t, chain, turns)
    ensures LastModKept(t, chain, turns)
  {
    hide Ends, ModKeeps, NodeAfter;
    if turns != [] {
      KeptToTheEnd(t, chain, turns[..|turns| - 1]);
    }
  }

  // ---------------------------------------------------------------------
  // Keys that cannot be reported
  // ---------------------------------------------------------------------

  lemma GoodKeysExactly(initial: Powers, final: Powers)
    requires Keys32(initial)
    ensures GoodKeys(Delta(initial, final)) <==> Keys32(final)
  {
    if GoodKeys(Delta(initial, final)) {
      forall k | k in final ensures |k| == PUB_KEY_SIZE {
        if k !in initial {
          assert Validator(k, final[k]) in Delta(initial, final);
        }
      }
    }
  }

  lemma {:induction false} ReportedKeys(t: Tables, chain: Chain, turns: seq<Turn>)
    requires Integrity(t, chain.reg) && ProperRun(t, chain, turns) && GuardedRun(t, chain, turns) && Keys32(t.voters)
    ensures Keys32(LastRead(t, chain, turns))
  {
    hide Integrity, Proper, Guarded, BookOf, Keys32, Delta, GoodKeys, Turned, Initial, Read;
    if turns != [] {
      var front, last := turns[..|turns| - 1], turns[|turns| - 1];
      ReportedKeys(t, chain, front);
      ForkReported(t, chain, front);
      if Ends(NodeAfter(t, chain, front), chain, last) {
        GoodKeysExactly(LastRead(t, chain, front), Read(NodeAfter(t, chain, front), chain, last.step.block));
      }
    }
  }

  /** The first block that FinalizeBlock cannot report, after any such run, is exactly the first
      that would admit a validator whose key is not 32 bytes. */
  lemma FinalizesExactly(t: Tables, chain: Chain, turns: seq<Turn>, b: Block)
    requires Integrity(t, chain.reg) && ProperRun(t, chain, turns) && GuardedRun(t, chain, turns) && Keys32(t.voters)
    requires Executable(NodeAfter(t, chain, turns).t, chain, b)
    ensures Finalizes(NodeAfter(t, chain, turns), chain, b) <==> Keys32(Read(NodeAfter(t, chain, turns), chain, b))
  {
    hide Integrity, Keys32, Delta, GoodKeys, NodeAfter, Read, LastRead, Initial, Executable, BookOf;
    ForkReported(t, chain, turns);
    ReportedKeys(t, chain, turns);
    GoodKeysExactly(LastRead(t, chain, turns), Read(NodeAfter(t, chain, turns), chain, b));
  }

  const KEY32: Bytes := seq(32, _ => 1)
  const KEY20: Bytes := seq(20, _ => 2)
  const SAMPLE_CHAIN := Chain(true, SAMPLE_REGISTRY, 4, [1])

  function AdmittingBlock(candidate: Bytes): Block
  {
    Block(2, [1], [], [], map[], [RequestID(candidate)], [])
  }

  /** The block that resolves an approved request admits the candidate. */
  lemma Admits(voter: Bytes, candidate: Bytes)
    requires voter != candidate
    ensures var t, b := RequestTables(voter, candidate, {(RequestID(candidate), voter)}), AdmittingBlock(candidate);
            Executable(t, SAMPLE_CHAIN, b) && AfterBlock(t, SAMPLE_CHAIN, b).voters == map[voter := 1, candidate := 1]
  {
    hide RequestID, Confirmed, JoinEvent, ResolvedAll, CreditedAll, AllCredits;
    var id, b := RequestID(candidate), AdmittingBlock(candidate);
    var t := RequestTables(voter, candidate, {(id, voter)});
    RequestIntegrity(voter, candidate, true);
    ApprovedConfirmed(voter, candidate);
    ApprovedResolved(voter, candidate);
    assert Expired(t, 2) == {};
    assert b.txs[..0] == [] && Delivered(t, SAMPLE_CHAIN, b, 0) == t;
    assert Marked(t, [id]) == [] by { assert [id][..0] == []; }
  }

  /** A request from a 20-byte account address is approved; the block that resolves it executes
      and cannot be reported. */
  lemma ShortKeyWitness()
    ensures var t, b := RequestTables(KEY32, KEY20, {(RequestID(KEY20), KEY32)}), AdmittingBlock(KEY20);
            && Requested(KEY32, KEY20) == Ok(RequestTables(KEY32, KEY20, {}))
            && JoinApproved(RequestTables(KEY32, KEY20, {}), KEY32, KEY20) == Ok(t)
            && Keys32(t.voters) && Executable(t, SAMPLE_CHAIN, b) && !Finalizes(Genesis(t), SAMPLE_CHAIN, b)
  {
    hide RequestID, JoinApproved, Requested, JoinEvent, AfterBlock, Executable, BookOf, Delta;
    var t, b := RequestTables(KEY32, KEY20, {(RequestID(KEY20), KEY32)}), AdmittingBlock(KEY20);
    assert KEY32 != KEY20;
    RequestedIs(KEY32, KEY20);
    ApprovedIs(KEY32, KEY20);
    Admits(KEY32, KEY20);
    assert KEY20 in Read(Genesis(t), SAMPLE_CHAIN, b);
    GoodKeysExactly(t.voters, Read(Genesis(t), SAMPLE_CHAIN, b));
  }

  // ---------------------------------------------------------------------
  // A fork that changes the voters
  // ---------------------------------------------------------------------

  const NEW_KEY: Bytes := seq(32, _ => 3)

  function IdleBlock(height: int): Block
  {
    Block(height, [1], [], [], map[], [], [])
  }

  lemma IdleBlocks(voters: Powers, height: int)
    ensures var t, b := Opening(voters), IdleBlock(height);
            Executable(t, SAMPLE_CHAIN, b) && AfterBlock(t, SAMPLE_CHAIN, b).voters == voters
  {
    hide ResolvedAll, CreditedAll, AllCredits;
    SampleRegistryValid();
    var t, b := Opening(voters), IdleBlock(height);
    assert Confirmed(t, SAMPLE_REGISTRY) == {} && Expired(t, height) == {};
    assert b.txs[..0] == [] && Delivered(t, SAMPLE_CHAIN, b, 0) == t;
    assert ResolvedAll(t, [], map[]) == t by { NothingResolved(t); }
  }

  lemma NothingResolved(t: Tables)
    ensures ResolvedAll(t, [], map[]) == t
  {
  }

  const BEFORE_FORK: Powers := map[KEY32 := 1]
  const AFTER_FORK: Powers := map[KEY32 := 1, NEW_KEY := 1]
  const FORK := Act(ExecuteBlock(IdleBlock(2)), Some(Opening(AFTER_FORK)), [])

  function NextBlock(report: seq<Validator>): Turn
  {
    Act(ExecuteBlock(IdleBlock(3)), None, report)
  }

  lemma ForkTurns()
    ensures ProperRun(Opening(BEFORE_FORK), SAMPLE_CHAIN, [FORK])
    ensures var n := NodeAfter(Opening(BEFORE_FORK), SAMPLE_CHAIN, [FORK]);
            n.t == Opening(AFTER_FORK) && n.cache == BEFORE_FORK && n.told == BEFORE_FORK
    ensures BEFORE_FORK != AFTER_FORK
  {
    hide Executable, AfterBlock, BookOf, EnteredAll;
    IdleBlocks(BEFORE_FORK, 2);
    assert KEY32[0] != NEW_KEY[0] && NEW_KEY !in BEFORE_FORK;
    assert Delta(BEFORE_FORK, BEFORE_FORK) == {};
    var t := Opening(BEFORE_FORK);
    assert [FORK][..0] == [] && NodeAfter(t, SAMPLE_CHAIN, []) == Genesis(t) && ProperRun(t, SAMPLE_CHAIN, []);
    assert Integrity(Opening(AFTER_FORK), SAMPLE_REGISTRY);
  }

  lemma ForkDeltas()
    ensures Delta(AFTER_FORK, AFTER_FORK) == {} && Delta(BEFORE_FORK, AFTER_FORK) == {Validator(NEW_KEY, 1)}
    ensures GoodKeys({}) && GoodKeys({Validator(NEW_KEY, 1)}) && BEFORE_FORK != map[]
    ensures ApplyAll(BEFORE_FORK, []) == BEFORE_FORK && ApplyAll(BEFORE_FORK, [Validator(NEW_KEY, 1)]) == AFTER_FORK
  {
    assert KEY32[0] != NEW_KEY[0] && KEY32 in BEFORE_FORK && NEW_KEY !in BEFORE_FORK;
    assert Changed(BEFORE_FORK, AFTER_FORK, NEW_KEY) && !Changed(BEFORE_FORK, AFTER_FORK, KEY32);
    assert forall u :: u in Delta(BEFORE_FORK, AFTER_FORK) <==> u == Validator(NEW_KEY, 1);
    assert [Validator(NEW_KEY, 1)][..0] == [] && ApplyAll(BEFORE_FORK, []) == BEFORE_FORK;
    assert BEFORE_FORK[NEW_KEY := 1] == AFTER_FORK;
  }

  /** The next block, from the cached voters or from the table. */
  lemma NextTurn(n: Node, report: seq<Validator>)
    requires n.t == Opening(AFTER_FORK) && n.told == BEFORE_FORK
    requires (n.cache == BEFORE_FORK && report == [Validator(NEW_KEY, 1)]) || (n.cache == map[] && report == [])
    ensures Proper(n, SAMPLE_CHAIN, NextBlock(report))
    ensures Turned(n, SAMPLE_CHAIN, NextBlock(report)).told == if report == [] then BEFORE_FORK else AFTER_FORK
  {
    hide Executable, AfterBlock, BookOf, EnteredAll, Delta, GoodKeys, ApplyAll, Integrity;
    IdleBlocks(AFTER_FORK, 3);
    ForkDeltas();
  }

  /** One turn more. */
  lemma OneMoreTurn(t: Tables, turns: seq<Turn>, turn: Turn)
    requires ProperRun(t, SAMPLE_CHAIN, turns) && Proper(NodeAfter(t, SAMPLE_CHAIN, turns), SAMPLE_CHAIN, turn)
    ensures ProperRun(t, SAMPLE_CHAIN, turns + [turn])
    ensures NodeAfter(t, SAMPLE_CHAIN, turns + [turn]) == Turned(NodeAfter(t, SAMPLE_CHAIN, turns), SAMPLE_CHAIN, turn)
  {
    hide Turned, Proper;
    assert (turns + [turn])[..|turns|] == turns;
  }

  /** The fork at height 2 adds a validator, which the block does not report. Of two nodes that
      execute the next block, the one that has restarted does not report it either. */
  lemma ForkWitness()
    ensures var t, next := Opening(BEFORE_FORK), NextBlock([Validator(NEW_KEY, 1)]);
            && Integrity(t, SAMPLE_REGISTRY) && ProperRun(t, SAMPLE_CHAIN, [FORK, next])
            && NodeAfter(t, SAMPLE_CHAIN, [FORK]).told == BEFORE_FORK
            && NodeAfter(t, SAMPLE_CHAIN, [FORK]).t.voters == AFTER_FORK
            && NodeAfter(t, SAMPLE_CHAIN, [FORK, next]).told == AFTER_FORK
    ensures var t, next := Opening(BEFORE_FORK), NextBlock([]);
            && ProperRun(t, SAMPLE_CHAIN, [FORK, Restart, next])
            && NodeAfter(t, SAMPLE_CHAIN, [FORK, Restart, next]).told == BEFORE_FORK
    ensures BEFORE_FORK != AFTER_FORK
  {
    hide Turned, Proper, ProperRun, NodeAfter, NextBlock;
    ForkTurns();
    var t := Opening(BEFORE_FORK);
    var n, joins := NodeAfter(t, SAMPLE_CHAIN, [FORK]), [Validator(NEW_KEY, 1)];
    NextTurn(n, joins);
    OneMoreTurn(t, [FORK], NextBlock(joins));
    assert [FORK] + [NextBlock(joins)] == [FORK, NextBlock(joins)];
    Restarted(n);
    OneMoreTurn(t, [FORK], Restart);
    assert [FORK] + [Restart] == [FORK, Restart];
    NextTurn(NodeAfter(t, SAMPLE_CHAIN, [FORK, Restart]), []);
    OneMoreTurn(t, [FORK, Restart], NextBlock([]));
    assert [FORK, Restart] + [NextBlock([])] == [FORK, Restart, NextBlock([])];
  }

  lemma Restarted(n: Node)
    ensures Proper(n, SAMPLE_CHAIN, Restart)
    ensures Turned(n, SAMPLE_CHAIN, Restart) == n.(cache := map[], book := BookOf(n.t.voters))
  {
  }
}
