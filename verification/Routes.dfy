/** Transaction routes (internal/txapp/routes.go) and the charge taken before any of them
    runs (checkAndSpend in internal/txapp/txapp.go). */
module Routes {
  import opened Wrappers
  import opened TableModel
  import opened Accounts
  import opened Voting
  import opened PowerRequest

  datatype Code =
    | CodeOk | InvalidTxType | EncodingError | UnknownError
    | InsufficientBalance | InsufficientFee | InvalidSender | InvalidAmount

  datatype EngineKind = Deploy | Drop | Action

  datatype Kind = KTransfer | KJoin | KApprove | KRemove | KVoteIDs | KVoteBodies

  /** A decoded payload. Engine payloads carry what the engine makes of them: whether
      they decode, and the datasets after a successful call. */
  datatype Payload =
    | Engine(kind: EngineKind, decodes: bool, outcome: Option<int>)
    | Transfer(to: Bytes, amount: Option<int>)   // None: not a decimal number
    | Join(power: nat)
    | Approve(candidate: Bytes)
    | Remove(target: Bytes)
    | Leave
    | VoteIDs(ids: seq<UUID>)
    | VoteBodies(events: seq<Event>)
    | Malformed(of: Kind)                        // bytes that do not unmarshal
    | Unrouted                                   // a payload type without a route

  datatype Tx = Tx(sender: Bytes, nonce: nat, fee: nat, payload: Payload, chainID: string, signed: bool)

  /** What a transaction may read besides the tables. */
  datatype Context = Context(gas: bool, reg: Registry, height: int, proposer: Bytes, joinExpiry: int, self: Bytes)

  const BYTE_PRICE := 1000
  const VOTE_ID_PRICE := 1000 * 16
  const REMOVE_PRICE := 100_000
  const JOIN_PRICE := 10_000_000_000_000

  function BodyBytes(events: seq<Event>): nat
  {
    if events == [] then 0 else BodyBytes(events[..|events| - 1]) + |events[|events| - 1].body|
  }

  /** Price in tokens; None when pricing itself fails. */
  function Price(p: Payload): Option<nat>
  {
    match p
    case Engine(Deploy, _, _) => Some(1_000_000_000_000_000_000)
    case Engine(Drop, _, _) => Some(10_000_000_000_000)
    case Engine(Action, _, _) => Some(2_000_000_000_000_000)
    case Transfer(_, _) => Some(210_000)
    case Join(_) => Some(JOIN_PRICE)
    case Approve(_) => Some(JOIN_PRICE)
    case Remove(_) => Some(REMOVE_PRICE)
    case Leave => Some(JOIN_PRICE)
    case VoteIDs(ids) => Some(|ids| * VOTE_ID_PRICE)
    case VoteBodies(events) => Some(BodyBytes(events) * BYTE_PRICE)
    case Malformed(KTransfer) => Some(210_000)
    case Malformed(KJoin) => Some(JOIN_PRICE)
    case Malformed(KApprove) => Some(JOIN_PRICE)
    case Malformed(KRemove) => Some(REMOVE_PRICE)
    case Malformed(_) => None
    case Unrouted => None
  }

  /** The price checkAndSpend works with. */
  function Due(gas: bool, p: Payload): Option<nat>
  {
    if gas then Price(p) else Some(0)
  }

  // ---------------------------------------------------------------------
  // Charging
  // ---------------------------------------------------------------------

  datatype Charge = Charge(accounts: Ledger, spend: nat, code: Code)

  /** The sender is charged the smaller of fee and price, or everything it has; an
      unknown sender is charged nothing. */
  ghost function Charged(l: Ledger, gas: bool, tx: Tx): Charge
    requires NonNegative(l)
  {
    match Due(gas, tx.payload)
    case None => Charge(l, 0, UnknownError)
    case Some(price) =>
      var want := Min(tx.fee, price);
      match Spent(l, tx.sender, want, tx.nonce)
      case Ok(l') => Charge(l', want, if tx.fee < price then InsufficientFee else CodeOk)
      case Err(InsufficientFunds) =>
        Charge(l[tx.sender := Account(0, tx.nonce)], l[tx.sender].balance, InsufficientBalance)
      case Err(NotFound) => Charge(l, 0, InsufficientBalance)
      case Err(_) => Charge(l, 0, UnknownError)
  }

  method CheckAndSpend(db: Database, ctx: Context, tx: Tx) returns (spend: nat, code: Code)
    requires NonNegative(db.t.accounts)
    modifies db
    ensures var c := Charged(old(db.t).accounts, ctx.gas, tx);
            spend == c.spend && code == c.code && db.t == old(db.t).(accounts := c.accounts)
  {
    var amt: nat := 0;
    if ctx.gas {
      var price := Price(tx.payload);
      if price.None? { return 0, UnknownError; }
      amt := price.value;
    }
    if tx.fee < amt {
      var err := Accounts.Spend(db, tx.sender, tx.fee, tx.nonce);
      if err == Some(InsufficientFunds) {
        var balance := db.t.accounts[tx.sender].balance;
        var err2 := Accounts.Spend(db, tx.sender, balance, tx.nonce);
        assert err2 == None; // the nonce was right, and the whole balance is covered
        return balance, InsufficientBalance;
      }
      if err != None {
        return 0, if err == Some(NotFound) then InsufficientBalance else UnknownError;
      }
      return tx.fee, InsufficientFee;
    }
    var err := Accounts.Spend(db, tx.sender, amt, tx.nonce);
    if err == Some(InsufficientFunds) {
      var balance := db.t.accounts[tx.sender].balance;
      var err2 := Accounts.Spend(db, tx.sender, balance, tx.nonce);
      assert err2 == None; // the nonce was right, and the whole balance is covered
      return balance, InsufficientBalance;
    }
    if err != None {
      return 0, if err == Some(NotFound) then InsufficientBalance else UnknownError;
    }
    return amt, CodeOk;
  }

  // ---------------------------------------------------------------------
  // Route effects
  // ---------------------------------------------------------------------

  /** The check a route makes before its nested transaction opens. */
  function PreTx(ctx: Context, tx: Tx): Option<Code>
  {
    match tx.payload
    case Engine(_, decodes, _) => if decodes then None else Some(EncodingError)
    case Transfer(_, None) => Some(InvalidAmount)
    case Transfer(_, Some(amt)) => if amt < 0 then Some(InvalidAmount) else None
    case Approve(candidate) => if candidate == tx.sender then Some(InvalidSender) else None
    case VoteBodies(_) => if tx.sender != ctx.proposer then Some(InvalidSender) else None
    case Malformed(KVoteBodies) => if tx.sender != ctx.proposer then Some(InvalidSender) else Some(EncodingError)
    case Malformed(KVoteIDs) => None
    case Malformed(_) => Some(EncodingError)
    case _ => None
  }

  function JoinEvent(sender: Bytes, power: nat): Event
  {
    Event(JOIN, MarshalBinary(UpdatePowerRequest(sender, ToInt64(power))))
  }

  function RemoveEvent(target: Bytes): Event
  {
    Event(REMOVE, MarshalBinary(UpdatePowerRequest(target, 0)))
  }

  function EventDeleted(t: Tables, local: bool, id: UUID): Tables
  {
    if local then t.(events := t.events - {id}) else t
  }

  /** One vote of a VoteIDs transaction. */
  function VotedOne(t: Tables, local: bool, from: Bytes, id: UUID): Option<Tables>
  {
    match Approved(t, id, from)
    case None => None
    case Some(t') => Some(EventDeleted(t', local, id))
  }

  function Voted(t: Tables, local: bool, from: Bytes, ids: seq<UUID>): Option<Tables>
  {
    if ids == [] then Some(t)
    else
      match Voted(t, local, from, ids[..|ids| - 1])
      case None => None
      case Some(t') => VotedOne(t', local, from, ids[|ids| - 1])
  }

  /** One event of a VoteBodies transaction: create, vote, forget the local copy. */
  function ProposedOne(t: Tables, ctx: Context, from: Bytes, e: Event): Option<Tables>
  {
    var cfg := ToLower(e.typ);
    if cfg !in ctx.reg then None
    else VotedOne(Created(t, ctx.reg, e, ctx.height + ctx.reg[cfg].period, from), from == ctx.self, from, EventID(e))
  }

  function Proposed(t: Tables, ctx: Context, from: Bytes, events: seq<Event>): Option<Tables>
  {
    if events == [] then Some(t)
    else
      match Proposed(t, ctx, from, events[..|events| - 1])
      case None => None
      case Some(t') => ProposedOne(t', ctx, from, events[|events| - 1])
  }

  ghost function Sole(ids: set<UUID>): UUID
    requires ids != {}
  {
    var id :| id in ids; id
  }

  ghost function Moved(t: Tables, from: Bytes, to: Bytes, amount: int): Result<Tables, Code>
  {
    match Transferred(t.accounts, from, to, amount)
    case Ok(l) => Ok(t.(accounts := l))
    case Err(InsufficientFunds) => Err(InsufficientBalance)
    case Err(_) => Err(UnknownError)
  }

  /** A candidate asks to join: not yet a validator, and no request pending. */
  ghost function Joined(t: Tables, ctx: Context, sender: Bytes, power: nat): Result<Tables, Code>
  {
    if sender in t.voters || Pending(t, JOIN, sender) != {} then Err(InvalidSender)
    else Ok(Created(t, ctx.reg, JoinEvent(sender, power), ctx.height + ctx.joinExpiry, sender))
  }

  /** A validator votes for the one pending request of a candidate. */
  ghost function JoinApproved(t: Tables, sender: Bytes, candidate: Bytes): Result<Tables, Code>
  {
    var pending := Pending(t, JOIN, candidate);
    if pending == {} then Err(InvalidSender)
    else if |pending| > 1 then Err(UnknownError)
    else if sender !in t.voters then Err(InvalidSender)
    else Ok(t.(votes := t.votes + {(Sole(pending), sender)}))
  }

  /** A validator opens or joins the vote to remove another. */
  ghost function RemovalVoted(t: Tables, ctx: Context, sender: Bytes, target: Bytes): Result<Tables, Code>
  {
    if sender !in t.voters then Err(InvalidSender)
    else
      var t' := Created(t, ctx.reg, RemoveEvent(target), ctx.height + ctx.joinExpiry, sender);
      Ok(t'.(votes := t'.votes + {(EventID(RemoveEvent(target)), sender)}))
  }

  ghost function Left(t: Tables, sender: Bytes): Result<Tables, Code>
  {
    if sender !in t.voters then Err(InvalidSender) else Ok(PowerSet(t, sender, 0).value)
  }

  ghost function IDsVoted(t: Tables, ctx: Context, sender: Bytes, ids: seq<UUID>): Result<Tables, Code>
  {
    if sender !in t.voters then Err(InvalidSender)
    else
      match Voted(t, sender == ctx.self, sender, NotProcessed(t.processed, ids))
      case None => Err(UnknownError)
      case Some(t') => Ok(t')
  }

  ghost function BodiesVoted(t: Tables, ctx: Context, sender: Bytes, events: seq<Event>): Result<Tables, Code>
  {
    match Proposed(t, ctx, sender, events)
    case None => Err(UnknownError)
    case Some(t') => Ok(t')
  }

  /** Everything a route does inside its nested transaction, or the code it fails with. */
  ghost function InTx(t: Tables, ctx: Context, tx: Tx): Result<Tables, Code>
  {
    match tx.payload
    case Engine(_, _, outcome) =>
      if outcome.None? then Err(UnknownError) else Ok(t.(datasets := outcome.value))
    case Transfer(to, amount) => if amount.None? then Err(InvalidAmount) else Moved(t, tx.sender, to, amount.value)
    case Join(power) => Joined(t, ctx, tx.sender, power)
    case Approve(candidate) => JoinApproved(t, tx.sender, candidate)
    case Remove(target) => RemovalVoted(t, ctx, tx.sender, target)
    case Leave => Left(t, tx.sender)
    case VoteIDs(ids) => IDsVoted(t, ctx, tx.sender, ids)
    case VoteBodies(events) => BodiesVoted(t, ctx, tx.sender, events)
    case Malformed(KVoteIDs) => if tx.sender !in t.voters then Err(InvalidSender) else Err(EncodingError)
    case Malformed(_) => Err(EncodingError)
    case Unrouted => Err(InvalidTxType)
  }

  lemma {:induction false} VotedPrefix(t: Tables, local: bool, from: Bytes, ids: seq<UUID>, i: nat)
    requires i <= |ids| && Voted(t, local, from, ids[..i]).None?
    ensures Voted(t, local, from, ids).None?
    decreases |ids|
  {
    if i == |ids| {
      assert ids[..i] == ids;
    } else {
      assert ids[..|ids| - 1][..i] == ids[..i];
      VotedPrefix(t, local, from, ids[..|ids| - 1], i);
    }
  }

  lemma {:induction false} ProposedPrefix(t: Tables, ctx: Context, from: Bytes, events: seq<Event>, i: nat)
    requires i <= |events| && Proposed(t, ctx, from, events[..i]).None?
    ensures Proposed(t, ctx, from, events).None?
    decreases |events|
  {
    if i == |events| {
      assert events[..i] == events;
    } else {
      assert events[..|events| - 1][..i] == events[..i];
      ProposedPrefix(t, ctx, from, events[..|events| - 1], i);
    }
  }

  method DeleteEvent(db: Database, id: UUID)
    modifies db
    ensures db.t == old(db.t).(events := old(db.t).events - {id})
  {
    db.t := db.t.(events := db.t.events - {id});
  }

  /** One vote, and for the local validator the end of its own event. */
  method VoteOne(db: Database, local: bool, from: Bytes, id: UUID) returns (ok: bool)
    modifies db
    ensures ok == VotedOne(old(db.t), local, from, id).Some?
    ensures ok ==> db.t == VotedOne(old(db.t), local, from, id).value
  {
    ok := ApproveResolution(db, id, from);
    if ok && local {
      DeleteEvent(db, id);
    }
  }

  method VoteIDsInTx(db: Database, ctx: Context, sender: Bytes, resolutionIDs: seq<UUID>) returns (ok: bool)
    modifies db
    ensures var r := Voted(old(db.t), sender == ctx.self, sender, NotProcessed(old(db.t).processed, resolutionIDs));
            ok == r.Some? && (ok ==> db.t == r.value)
  {
    hide VotedOne, NotProcessed;
    var ids := FilterNotProcessed(db, resolutionIDs);
    var local := sender == ctx.self;
    ghost var t0 := db.t;
    for i := 0 to |ids|
      invariant Voted(t0, local, sender, ids[..i]) == Some(db.t)
    {
      assert ids[..i + 1][..i] == ids[..i] && ids[..i + 1][i] == ids[i];
      ok := VoteOne(db, local, sender, ids[i]);
      if !ok {
        VotedPrefix(t0, local, sender, ids, i + 1);
        return;
      }
    }
    assert ids[..|ids|] == ids;
    return true;
  }

  method ProposeOne(db: Database, ctx: Context, from: Bytes, event: Event) returns (ok: bool)
    modifies db
    ensures ok == ProposedOne(old(db.t), ctx, from, event).Some?
    ensures ok ==> db.t == ProposedOne(old(db.t), ctx, from, event).value
  {
    hide VotedOne, Created, EventID;
    var cfg := ToLower(event.typ);
    if cfg !in ctx.reg { return false; }
    CreateResolution(db, ctx.reg, event, ctx.height + ctx.reg[cfg].period, from);
    ok := VoteOne(db, from == ctx.self, from, EventID(event));
  }

  method VoteBodiesInTx(db: Database, ctx: Context, sender: Bytes, events: seq<Event>) returns (ok: bool)
    modifies db
    ensures var r := Proposed(old(db.t), ctx, sender, events);
            ok == r.Some? && (ok ==> db.t == r.value)
  {
    hide ProposedOne;
    ghost var t0 := db.t;
    for i := 0 to |events|
      invariant Proposed(t0, ctx, sender, events[..i]) == Some(db.t)
    {
      assert events[..i + 1][..i] == events[..i] && events[..i + 1][i] == events[i];
      ok := ProposeOne(db, ctx, sender, events[i]);
      if !ok {
        ProposedPrefix(t0, ctx, sender, events, i + 1);
        return;
      }
    }
    assert events[..|events|] == events;
    return true;
  }

  /** On success the tables are the route's result; on failure the caller rolls them back. */
  ghost predicate RouteOutcome(r: Result<Tables, Code>, code: Code, after: Tables)
  {
    match r
    case Ok(t) => code == CodeOk && after == t
    case Err(c) => code == c && code != CodeOk
  }

  method JoinInTx(db: Database, ctx: Context, sender: Bytes, power: nat) returns (code: Code)
    modifies db
    ensures RouteOutcome(Joined(old(db.t), ctx, sender, power), code, db.t)
  {
    if sender in db.t.voters { return InvalidSender; }
    var pending := Pending(db.t, JOIN, sender);
    if pending != {} { return InvalidSender; }
    CreateResolution(db, ctx.reg, JoinEvent(sender, power), ctx.height + ctx.joinExpiry, sender);
    return CodeOk;
  }

  method ApproveInTx(db: Database, sender: Bytes, candidate: Bytes) returns (code: Code)
    modifies db
    ensures RouteOutcome(JoinApproved(old(db.t), sender, candidate), code, db.t)
  {
    var pending := Pending(db.t, JOIN, candidate);
    if pending == {} { return InvalidSender; }
    if |pending| > 1 { return UnknownError; }
    if sender !in db.t.voters { return InvalidSender; }
    var id :| id in pending;
    assert pending == {id} by {
      assert |pending - {id}| == 0;
    }
    var ok := ApproveResolution(db, id, sender);
    return CodeOk;
  }

  method RemoveInTx(db: Database, ctx: Context, sender: Bytes, target: Bytes) returns (code: Code)
    modifies db
    ensures RouteOutcome(RemovalVoted(old(db.t), ctx, sender, target), code, db.t)
  {
    var event := RemoveEvent(target);
    if sender !in db.t.voters { return InvalidSender; }
    CreateResolution(db, ctx.reg, event, ctx.height + ctx.joinExpiry, sender);
    var ok := ApproveResolution(db, EventID(event), sender);
    return CodeOk;
  }

  method LeaveInTx(db: Database, sender: Bytes) returns (code: Code)
    modifies db
    ensures RouteOutcome(Left(old(db.t), sender), code, db.t)
  {
    if sender !in db.t.voters { return InvalidSender; }
    var ok := SetValidatorPower(db, sender, 0);
    return CodeOk;
  }

  method TransferInTx(db: Database, from: Bytes, to: Bytes, amount: int) returns (code: Code)
    modifies db
    ensures RouteOutcome(Moved(old(db.t), from, to, amount), code, db.t)
  {
    var err := Accounts.Transfer(db, from, to, amount);
    if err.Some? {
      return if err == Some(InsufficientFunds) then InsufficientBalance else UnknownError;
    }
    return CodeOk;
  }

  method RunInTx(db: Database, ctx: Context, tx: Tx) returns (code: Code)
    modifies db
    ensures RouteOutcome(InTx(old(db.t), ctx, tx), code, db.t)
  {
    hide Moved, Joined, JoinApproved, RemovalVoted, Left, Voted, Proposed;
    match tx.payload {
      case Engine(_, _, outcome) =>
        if outcome.None? { return UnknownError; }
        db.t := db.t.(datasets := outcome.value);
        return CodeOk;
      case Transfer(to, amount) =>
        if amount.None? { return InvalidAmount; }
        code := TransferInTx(db, tx.sender, to, amount.value);
      case Join(power) => code := JoinInTx(db, ctx, tx.sender, power);
      case Approve(candidate) => code := ApproveInTx(db, tx.sender, candidate);
      case Remove(target) => code := RemoveInTx(db, ctx, tx.sender, target);
      case Leave => code := LeaveInTx(db, tx.sender);
      case VoteIDs(ids) =>
        if tx.sender !in db.t.voters { return InvalidSender; }
        var ok := VoteIDsInTx(db, ctx, tx.sender, ids);
        return if ok then CodeOk else UnknownError;
      case VoteBodies(events) =>
        var ok := VoteBodiesInTx(db, ctx, tx.sender, events);
        return if ok then CodeOk else UnknownError;
      case Malformed(KVoteIDs) => return if tx.sender !in db.t.voters then InvalidSender else EncodingError;
      case Malformed(_) => return EncodingError;
      case Unrouted => return InvalidTxType;
    }
  }

  // ---------------------------------------------------------------------
  // Execution of one transaction
  // ---------------------------------------------------------------------

  datatype Response = Response(code: Code, spend: int)

  /** Tables after the spend alone. */
  ghost function AfterSpend(t: Tables, ctx: Context, tx: Tx): Tables
    requires NonNegative(t.accounts)
  {
    if tx.payload.Unrouted? then t else t.(accounts := Charged(t.accounts, ctx.gas, tx).accounts)
  }

  /** The route ran to completion. */
  ghost predicate Succeeds(t: Tables, ctx: Context, tx: Tx)
    requires NonNegative(t.accounts)
  {
    && !tx.payload.Unrouted?
    && Charged(t.accounts, ctx.gas, tx).code == CodeOk
    && PreTx(ctx, tx) == None
    && InTx(AfterSpend(t, ctx, tx), ctx, tx).Ok?
  }

  ghost function Executed(t: Tables, ctx: Context, tx: Tx): Tables
    requires NonNegative(t.accounts)
  {
    if Succeeds(t, ctx, tx) then InTx(AfterSpend(t, ctx, tx), ctx, tx).value else AfterSpend(t, ctx, tx)
  }

  /** The code reported: the first thing that failed. */
  ghost function ResultCode(t: Tables, ctx: Context, tx: Tx): Code
    requires NonNegative(t.accounts)
  {
    if tx.payload.Unrouted? then InvalidTxType
    else if Charged(t.accounts, ctx.gas, tx).code != CodeOk then Charged(t.accounts, ctx.gas, tx).code
    else if PreTx(ctx, tx).Some? then PreTx(ctx, tx).value
    else
      match InTx(AfterSpend(t, ctx, tx), ctx, tx)
      case Ok(_) => CodeOk
      case Err(code) => code
  }

  /** baseRoute.Execute: an outer transaction around the charge, a nested one around the
      route. Each `saved` is a database transaction that may be rolled back. */
  method Execute(db: Database, ctx: Context, tx: Tx) returns (res: Response)
    requires NonNegative(db.t.accounts)
    modifies db
    ensures db.t == Executed(old(db.t), ctx, tx)
    ensures res.code == ResultCode(old(db.t), ctx, tx)
    ensures res.code == CodeOk <==> Succeeds(old(db.t), ctx, tx)
    ensures !tx.payload.Unrouted? ==> res.spend == ToInt64(Charged(old(db.t).accounts, ctx.gas, tx).spend)
    ensures tx.payload.Unrouted? ==> res.spend == 0
  {
    hide InTx;
    if tx.payload.Unrouted? { return Response(InvalidTxType, 0); }

    var outer := db.t;
    var spend, code := CheckAndSpend(db, ctx, tx);
    if code != CodeOk {
      if !(code == InsufficientBalance || code == InsufficientFee) {
        db.t := outer;
      }
      return Response(code, ToInt64(spend));
    }

    var pre := PreTx(ctx, tx);
    if pre.Some? { return Response(pre.value, ToInt64(spend)); }

    var nested := db.t;
    code := RunInTx(db, ctx, tx);
    if code != CodeOk {
      db.t := nested;
    }
    return Response(code, ToInt64(spend));
  }
}
