/** Account store (internal/accounts): balances and nonces. */
module Accounts {
  import opened Wrappers
  import opened TableModel
  import opened Sums

  datatype AccountError = NotFound | InvalidNonce | InsufficientFunds | NegativeBalance | NegativeTransfer
  type LedgerResult = Result<Ledger, AccountError>

  // ---------------------------------------------------------------------
  // What each statement does to the accounts table
  // ---------------------------------------------------------------------

  ghost function Credited(l: Ledger, id: Bytes, amt: int): LedgerResult
  {
    var bal := (if id in l then l[id].balance else 0) + amt;
    if bal < 0 then Err(NegativeBalance)
    else Ok(l[id := Account(bal, if id in l then l[id].nonce else 0)])
  }

  ghost function Spent(l: Ledger, id: Bytes, amount: int, nonce: int): LedgerResult
  {
    if id !in l then
      if amount == 0 && nonce == 1 then Ok(l[id := Account(0, 1)]) else Err(NotFound)
    else if nonce != l[id].nonce + 1 then Err(InvalidNonce)
    else if l[id].balance < amount then Err(InsufficientFunds)
    else Ok(l[id := Account(l[id].balance - amount, nonce)])
  }

  ghost function Transferred(l: Ledger, from: Bytes, to: Bytes, amt: int): LedgerResult
  {
    if amt < 0 then Err(NegativeTransfer)
    else if from !in l then Err(NotFound)
    else if l[from].balance < amt then Err(InsufficientFunds)
    else
      var received := if to in l then Account(l[to].balance + amt, l[to].nonce) else Account(amt, 0);
      Ok(l[to := received][from := Account(l[from].balance - amt, l[from].nonce)])
  }

  // ---------------------------------------------------------------------
  // The operations, as the read-then-write sequences of the source
  // ---------------------------------------------------------------------

  ghost predicate Outcome(before: Tables, after: Tables, err: Option<AccountError>, r: LedgerResult)
  {
    match r
    case Ok(l) => err == None && after == before.(accounts := l)
    case Err(e) => err == Some(e) && after == before
  }

  method Credit(db: Database, account: Bytes, amt: int) returns (err: Option<AccountError>)
    modifies db
    ensures Outcome(old(db.t), db.t, err, Credited(old(db.t).accounts, account, amt))
  {
    var l := db.t.accounts;
    if account !in l {
      if amt < 0 { return Some(NegativeBalance); }
      db.t := db.t.(accounts := l[account := Account(amt, 0)]);
      return None;
    }
    var newBal := l[account].balance + amt;
    if newBal < 0 { return Some(NegativeBalance); }
    db.t := db.t.(accounts := l[account := Account(newBal, l[account].nonce)]);
    return None;
  }

  method Spend(db: Database, account: Bytes, amount: int, nonce: int) returns (err: Option<AccountError>)
    modifies db
    ensures Outcome(old(db.t), db.t, err, Spent(old(db.t).accounts, account, amount, nonce))
  {
    var l := db.t.accounts;
    if account !in l {
      if amount == 0 && nonce == 1 {
        db.t := db.t.(accounts := l[account := Account(amount, nonce)]);
        return None;
      }
      return Some(NotFound);
    }
    if nonce != l[account].nonce + 1 { return Some(InvalidNonce); }
    var newBal := l[account].balance - amount;
    if newBal < 0 { return Some(InsufficientFunds); }
    db.t := db.t.(accounts := l[account := Account(newBal, nonce)]);
    return None;
  }

  /** The receiver's row is written first and the sender's row second, from balances
      that were both read before either write. */
  method Transfer(db: Database, from: Bytes, to: Bytes, amt: int) returns (err: Option<AccountError>)
    modifies db
    ensures Outcome(old(db.t), db.t, err, Transferred(old(db.t).accounts, from, to, amt))
  {
    if amt < 0 { return Some(NegativeTransfer); }
    if from !in db.t.accounts { return Some(NotFound); }
    var account := db.t.accounts[from];
    var newFromBal := account.balance - amt;
    if newFromBal < 0 { return Some(InsufficientFunds); }
    if to !in db.t.accounts {
      db.t := db.t.(accounts := db.t.accounts[to := Account(amt, 0)]);
    } else {
      var receiver := db.t.accounts[to];
      db.t := db.t.(accounts := db.t.accounts[to := Account(receiver.balance + amt, receiver.nonce)]);
    }
    db.t := db.t.(accounts := db.t.accounts[from := Account(newFromBal, account.nonce)]);
    return None;
  }

  // ---------------------------------------------------------------------
  // Conservation
  // ---------------------------------------------------------------------

  ghost function Balances(l: Ledger): map<Bytes, int>
  {
    map k | k in l :: l[k].balance
  }

  ghost function Supply(l: Ledger): int
  {
    Sum(Balances(l))
  }

  ghost predicate NonNegative(l: Ledger)
  {
    forall k :: k in l ==> 0 <= l[k].balance && 0 <= l[k].nonce
  }

  /** Every account of `a` still exists in `b`, with a nonce at least as large. */
  ghost predicate NoncesGrow(a: Ledger, b: Ledger)
  {
    forall k :: k in a ==> k in b && a[k].nonce <= b[k].nonce
  }

  lemma SupplyUpdate(l: Ledger, id: Bytes, a: Account)
    ensures Supply(l[id := a]) == Supply(l) - (if id in l then l[id].balance else 0) + a.balance
  {
    assert Balances(l[id := a]) == Balances(l)[id := a.balance];
    SumUpdate(Balances(l), id, a.balance);
  }

  lemma SupplyNonNegative(l: Ledger)
    requires NonNegative(l)
    ensures 0 <= Supply(l)
  {
    SumNonNegative(Balances(l));
  }

  /** A transfer to another account, row by row: when it succeeds, and what it moves. */
  lemma TransferExactly(l: Ledger, from: Bytes, to: Bytes, amt: int)
    requires from != to
    ensures Transferred(l, from, to, amt).Ok? <==> 0 <= amt && from in l && amt <= l[from].balance
    ensures Transferred(l, from, to, amt).Ok? ==>
              var l' := Transferred(l, from, to, amt).value;
              && l'.Keys == l.Keys + {to}
              && l'[from].balance == l[from].balance - amt && l'[from].nonce == l[from].nonce
              && l'[to].balance == (if to in l then l[to].balance else 0) + amt
              && l'[to].nonce == (if to in l then l[to].nonce else 0)
              && forall k :: k in l && k != from && k != to ==> l'[k] == l[k]
    ensures Transferred(l, from, to, amt) == Err(NegativeTransfer) <==> amt < 0
    ensures Transferred(l, from, to, amt) == Err(NotFound) <==> 0 <= amt && from !in l
    ensures Transferred(l, from, to, amt) == Err(InsufficientFunds) <==> 0 <= amt && from in l && l[from].balance < amt
  {
  }

  /** A credit reaches one row, keeps its nonce, and is refused only below zero. */
  lemma CreditExactly(l: Ledger, id: Bytes, amt: int)
    ensures Credited(l, id, amt).Ok? <==> 0 <= (if id in l then l[id].balance else 0) + amt
    ensures Credited(l, id, amt).Ok? ==>
              var l' := Credited(l, id, amt).value;
              && l'.Keys == l.Keys + {id}
              && l'[id].balance == (if id in l then l[id].balance else 0) + amt
              && l'[id].nonce == (if id in l then l[id].nonce else 0)
              && forall k :: k in l && k != id ==> l'[k] == l[k]
  {
  }

  /** A spend takes the amount and exactly one nonce from one row. */
  lemma SpendExactly(l: Ledger, id: Bytes, amt: int, nonce: int)
    ensures Spent(l, id, amt, nonce).Ok? <==>
            if id in l then nonce == l[id].nonce + 1 && amt <= l[id].balance else nonce == 1 && amt == 0
    ensures Spent(l, id, amt, nonce).Ok? ==>
              var l' := Spent(l, id, amt, nonce).value;
              && l'.Keys == l.Keys + {id} && l'[id].nonce == nonce
              && l'[id].balance == (if id in l then l[id].balance else 0) - amt
              && forall k :: k in l && k != id ==> l'[k] == l[k]
    ensures Spent(l, id, amt, nonce) == Err(InsufficientFunds) <==>
            id in l && nonce == l[id].nonce + 1 && l[id].balance < amt
    ensures Spent(l, id, amt, nonce) == Err(NotFound) <==> id !in l && !(nonce == 1 && amt == 0)
  {
  }

  /** A transfer to another account conserves the supply; a transfer to oneself loses
      exactly the amount, because the second write overwrites the first. */
  lemma TransferConserves(l: Ledger, from: Bytes, to: Bytes, amt: int)
    requires Transferred(l, from, to, amt).Ok?
    ensures var l' := Transferred(l, from, to, amt).value;
            && Supply(l') == Supply(l) - (if from == to then amt else 0)
            && (Supply(l') == Supply(l) <==> from != to || amt == 0)
  {
    var received := if to in l then Account(l[to].balance + amt, l[to].nonce) else Account(amt, 0);
    SupplyUpdate(l, to, received);
    SupplyUpdate(l[to := received], from, Account(l[from].balance - amt, l[from].nonce));
  }

  /** Sending oneself 3 of 10 leaves 7. */
  lemma SelfTransferWitness(id: Bytes)
    ensures Transferred(map[id := Account(10, 0)], id, id, 3) == Ok(map[id := Account(7, 0)])
    ensures Supply(map[id := Account(7, 0)]) == Supply(map[id := Account(10, 0)]) - 3
  {
    var l := map[id := Account(10, 0)];
    assert l[id := Account(13, 0)][id := Account(7, 0)] == map[id := Account(7, 0)] == l[id := Account(7, 0)];
    SupplyUpdate(l, id, Account(7, 0));
  }

  // ---------------------------------------------------------------------
  // Whole runs of the account store
  // ---------------------------------------------------------------------

  datatype Op =
    | OpCredit(id: Bytes, amount: int)
    | OpSpend(id: Bytes, amount: int, nonce: int)
    | OpTransfer(id: Bytes, to: Bytes, amount: int)

  ghost function Attempt(l: Ledger, op: Op): LedgerResult
  {
    match op
    case OpCredit(id, amt) => Credited(l, id, amt)
    case OpSpend(id, amt, nonce) => Spent(l, id, amt, nonce)
    case OpTransfer(from, to, amt) => Transferred(l, from, to, amt)
  }

  /** A failed operation leaves the table as it was. */
  ghost function LedgerStep(l: Ledger, op: Op): Ledger
  {
    if Attempt(l, op).Ok? then Attempt(l, op).value else l
  }

  ghost function LedgerRun(l: Ledger, ops: seq<Op>): Ledger
    decreases |ops|
  {
    if ops == [] then l else LedgerStep(LedgerRun(l, ops[..|ops| - 1]), ops[|ops| - 1])
  }

  /** What a successful operation adds to the supply. */
  ghost function Delta(op: Op): int
  {
    match op
    case OpCredit(_, amt) => amt
    case OpSpend(_, amt, _) => -amt
    case OpTransfer(from, to, amt) => if from == to then -amt else 0
  }

  ghost function Net(l: Ledger, ops: seq<Op>): int
    decreases |ops|
  {
    if ops == [] then 0
    else
      var before := ops[..|ops| - 1];
      Net(l, before) + (if Attempt(LedgerRun(l, before), ops[|ops| - 1]).Ok? then Delta(ops[|ops| - 1]) else 0)
  }

  lemma CreditStep(l: Ledger, id: Bytes, amt: int)
    requires NonNegative(l) && Credited(l, id, amt).Ok?
    ensures var l' := Credited(l, id, amt).value;
            NonNegative(l') && NoncesGrow(l, l') && Supply(l') == Supply(l) + amt
  {
    SupplyUpdate(l, id, Credited(l, id, amt).value[id]);
  }

  lemma SpendStep(l: Ledger, id: Bytes, amt: int, nonce: int)
    requires NonNegative(l) && 0 <= amt && Spent(l, id, amt, nonce).Ok?
    ensures var l' := Spent(l, id, amt, nonce).value;
            NonNegative(l') && NoncesGrow(l, l') && Supply(l') == Supply(l) - amt
  {
    SupplyUpdate(l, id, Spent(l, id, amt, nonce).value[id]);
  }

  lemma StepSupply(l: Ledger, op: Op)
    requires NonNegative(l)
    requires op.OpSpend? ==> 0 <= op.amount
    ensures NonNegative(LedgerStep(l, op)) && NoncesGrow(l, LedgerStep(l, op))
    ensures Supply(LedgerStep(l, op)) == Supply(l) + (if Attempt(l, op).Ok? then Delta(op) else 0)
  {
    hide Supply;
    if Attempt(l, op).Ok? {
      match op
      case OpCredit(id, amt) =>
        CreditStep(l, id, amt);
      case OpSpend(id, amt, nonce) =>
        SpendStep(l, id, amt, nonce);
      case OpTransfer(from, to, amt) =>
        TransferConserves(l, from, to, amt);
    }
  }

  /** Over every run the supply is the initial one plus credits minus spends (minus the
      amounts lost in self-transfers), and no balance ever turns negative. */
  lemma {:induction false} RunSupply(l: Ledger, ops: seq<Op>)
    requires NonNegative(l)
    requires forall i :: 0 <= i < |ops| && ops[i].OpSpend? ==> 0 <= ops[i].amount
    ensures NonNegative(LedgerRun(l, ops))
    ensures 0 <= Supply(LedgerRun(l, ops)) == Supply(l) + Net(l, ops)
    decreases |ops|
  {
    if ops != [] {
      var before := ops[..|ops| - 1];
      RunSupply(l, before);
      StepSupply(LedgerRun(l, before), ops[|ops| - 1]);
    }
    SupplyNonNegative(LedgerRun(l, ops));
  }

  lemma {:induction false} RunNonces(l: Ledger, ops: seq<Op>, i: nat)
    requires i <= |ops| && NonNegative(l)
    requires forall i :: 0 <= i < |ops| && ops[i].OpSpend? ==> 0 <= ops[i].amount
    ensures NoncesGrow(LedgerRun(l, ops[..i]), LedgerRun(l, ops))
    decreases |ops|
  {
    if i == |ops| {
      assert ops[..i] == ops;
    } else {
      var before := ops[..|ops| - 1];
      RunNonces(l, before, i);
      assert before[..i] == ops[..i];
      RunSupply(l, before);
      StepSupply(LedgerRun(l, before), ops[|ops| - 1]);
    }
  }

  /** Replay protection: in every run, two successful spends of one sender carry
      different nonces, the later one the larger. */
  lemma NoNonceSpentTwice(l: Ledger, ops: seq<Op>, i: nat, j: nat)
    requires NonNegative(l) && i < j < |ops|
    requires forall i :: 0 <= i < |ops| && ops[i].OpSpend? ==> 0 <= ops[i].amount
    requires ops[i].OpSpend? && ops[j].OpSpend? && ops[i].id == ops[j].id
    requires Attempt(LedgerRun(l, ops[..i]), ops[i]).Ok? && Attempt(LedgerRun(l, ops[..j]), ops[j]).Ok?
    ensures ops[i].nonce < ops[j].nonce
  {
    assert ops[..i + 1][..i] == ops[..i];
    assert LedgerRun(l, ops[..i + 1])[ops[i].id].nonce == ops[i].nonce;
    RunNonces(l, ops[..j], i + 1);
    assert ops[..j][..i + 1] == ops[..i + 1];
  }
}
