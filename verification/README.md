# A model of Kwil block execution, state sync and deterministic SELECT

Kwil is a replicated database: CometBFT orders blocks of transactions, every node executes them
over Postgres, and all nodes must end in the same state. This project models three parts of it and
proves what they are for.

**Block execution.** Accounts, the resolution tables (resolutions, votes, voters, processed,
events), the transaction routes with their prices, proposal checking, the vote step at the end of a
block, the mempool and the validator set reported to consensus. Tables are values with the
constraints of the SQL schema (`Tables.dfy`); a nested database transaction is a saved value. A run
(`Runs.dfy`) is any sequence of observed events and blocks of any length. The main theorem,
`TokenSupply.RefundsAlwaysBacked`, follows the money through every such run: each live resolution is
covered by fees that were burned for it, so vote refunds never create tokens.
`Membership.NoValidatorWithoutQuorum`, `Membership.EveryPowerHasASource` and
`Departures.EveryDepartureHasACause` follow the validator set the same way, and
`Authority.NoForgedVote` the votes. `RouteEffects.dfy` says of every transaction when it succeeds and
exactly what it then changes.

**State sync.** A dump is made canonical by a seek-based sort, split into chunks, delivered in any
order with duplicates and corruption, checked, and streamed back. `StateSync.EndToEnd` and
`CanonicalDump.SanitizedIsCanonical` are the end-to-end statements.

**Deterministic SELECT.** The analyzer appends ORDER BY terms so that every node returns the same
row sequence. `Joins.dfy`, `SortOrder.dfy` and `PlainSelect.dfy` give SQL a small bag semantics
(inner and outer joins, NULLs, WHERE, ORDER BY with direction and NULL placement, LIMIT and OFFSET)
in which an answer is *any* sequence the ORDER BY accepts; the theorems say that after the rewrite
there is exactly one.

Objects that the program updates in place are classes (`Database`, `StateSyncer`, `Streamer`,
`SubList`, `Pool`, `ValidatorTracker`, `AbciApp`, `Store`, `SqlContext`, `SelectStatement`), each
method proved against a function of the old state; the theorems are about those functions.

## Where the code differs from what it says

The model follows the code in each case, and the named members say exactly when the intended
property holds.

- A transfer to oneself loses the amount, because the second row write overwrites the first
  (`Accounts.TransferConserves`, `Accounts.SelfTransferWitness`).
- The refund threshold is still 0 for the first expired resolution of each type, so that one is
  always refunded; every other follows the configured threshold (`Payouts.RefundRuleExactly`,
  `Payouts.StepExcessExactly`, `Payouts.UnapprovedIsRefunded`).
- A resolution can be confirmed and expired at the same height. A validator resolution is then
  refunded twice if it is the first expired one of its type or meets the refund threshold
  (`Payouts.DoubleRefundExactly`, `Payouts.LastMinutePaidTwice`); any other makes the insert into
  `processed` fail (`VoteStep.MarkableExactly`, `Payouts.LastMinuteFails`).
- `CreateResolution` says that a resolution for a processed event is cleaned out when it expires. Its
  expiry inserts the id into `processed` again, so from then on no block can be executed
  (`EventStore.ProposedClashes`, `EventStore.ClashHalts`, `EventStore.ProposedAgainWitness`).
- The expiry query joins on the type, so a resolution stored with a NULL type never expires
  (`VoteStep.NothingExpiredSurvives`, `EventStore.NullTypeStays`). The event store lowers the type's
  case only to look it up, so exactly the event types that are not all lower case lead there
  (`EventStore.NullTypeExactly`, `EventStore.MixedCaseWitness`).
- The removal price does not cover the refund for a target longer than 92 bytes
  (`Refunds.RemovalFeeExactly`, `Refunds.LongRemovalNotCovered`), and repeated vote bodies of less
  than 16 bytes in all do not cover the vote of a sender who neither proposed the resolution nor
  voted before (`Refunds.RepeatFeeExactly`, `Refunds.BodiesFeeExactly`,
  `Refunds.ShortRepeatNotCovered`).
- Vote bodies may carry join events, which do not check for a pending request, so a proposer can
  have several pending (`Membership.JoinBodyExactly`, `Membership.TwoJoinBodies`).
- `txSubList.Swap` does not update the index field, so the parent list holds the inverse
  permutation; the example in its comment comes out differently
  (`TxSubList.SlotsSortedExactly`, `TxSubList.CommentExample`), and the proposal can fail the nonce
  check (`ProposalOrder.RearrangedFollowsExactly`).
- A validator whose key is not 32 bytes makes FinalizeBlock fail while reporting updates, after the
  block has been executed (`ValidatorSet.FinalizesExactly`, `ValidatorSet.ShortKeyWitness`).
- `NewAbciApp` starts the application hash from the genesis hash and does not read the stored one
  back, so a node that restarts with blocks stored chains the next hash from genesis
  (`ChainState.NextHashExactly`, `ChainState.RestartWitness`).
- The line scanner drops a carriage return that the offset does not count, so recorded offsets drift
  after such a line and rows are lost (`SanitizeDump.OffsetsExactly`,
  `SanitizeDump.CarriageReturnWitness`).
- With an unnamed subquery, an appended term names a column without a table, and a result column of
  the same name takes it over (`UnnamedSelect.UnnamedDeterministicExactly`,
  `ShadowedSelect.RenamingDeterministicExactly`, `ShadowedSelect.RenamingWitness`); so does an
  aggregate named like a grouping column (`UnnamedGroups.GroupsDeterministicExactly`,
  `RenamedGroups.GroupRenamingExactly`, `RenamedGroups.GroupRenamingWitness`).
- `Streamer.Read` may return no bytes and no error once before end of file
  (`ChunkStreamer.Streamer.Read`).
- `finalValidators` is read before a fork's StateMod runs, so a modification of the voters is
  reported one block late, and by a node that restarts in between not at all
  (`ValidatorSet.ValidatorTracker.EndBlock`, `ValidatorSet.ForkReported`,
  `ValidatorSet.BlockReportsExactly`, `ValidatorSet.ForkWitness`).

## Model

| member | source | states |
|---|---|---|
| `Accounts.Credit` | internal/accounts/accounts.go:31-54 | The ledger after a credit: a missing account is created with nonce 0, a result below zero is refused, nothing else changes. |
| `Accounts.Spend` | internal/accounts/accounts.go:73-96 | The ledger after a spend: exactly the next nonce is demanded, a missing account is accepted only for a zero spend with nonce 1, an error leaves everything as it was. |
| `Accounts.Transfer` | internal/accounts/accounts.go:100-148 | The ledger after a transfer as written: both rows are read first, so in a self-transfer the second write overwrites the first; an error rolls back. |
| `Accounts.CreditExactly` | internal/accounts/accounts.go:31-54 | A credit is refused exactly when the balance would fall below zero; it raises that one balance by the amount, keeps the nonce and every other row. |
| `Accounts.SpendExactly` | internal/accounts/accounts.go:73-96 | A spend succeeds exactly for the next nonce and a sufficient balance (without a row: nonce 1 and nothing to pay); it takes the amount from that one row, sets the nonce, and each error has its condition. |
| `Accounts.TransferExactly` | internal/accounts/accounts.go:100-148 | A transfer to another account succeeds exactly for an amount that is not negative and that the sender has; the sender's balance falls and the receiver's rises by exactly it, nonces and all other rows stay, and each error has its condition. |
| `Accounts.TransferConserves` | internal/accounts/accounts.go:117-142 | A successful transfer keeps the sum of balances if and only if sender and receiver differ or the amount is 0; a self-transfer loses exactly the amount. |
| `Accounts.SelfTransferWitness` | internal/accounts/accounts.go:117-142 | Sending oneself 3 of 10 leaves 7. |
| `Accounts.StepSupply` | internal/accounts/accounts.go:31-148 | Every operation with a non-negative spend keeps balances non-negative, never lowers a nonce, and moves the supply by exactly its credit, spend or self-transfer loss. |
| `Accounts.RunSupply` | internal/accounts/accounts.go:31-148 | Over any run of operations the sum of balances is the initial sum plus credits minus spends minus self-transfer losses, and no balance is ever negative. |
| `Accounts.RunNonces` | internal/accounts/accounts.go:73-96 | Nonces never decrease between any two points of a run. |
| `Accounts.NoNonceSpentTwice` | internal/accounts/accounts.go:73-96 | Two successful spends of one account in a run have strictly increasing nonces, so no (sender, nonce) pair is spent twice. |
| `PowerRequest.MarshalRoundTrip` | internal/voting/validators.go:65-79 | Decoding an encoded power request gives it back, for every int64 power and every key. |
| `PowerRequest.UnmarshalRoundTrip` | internal/voting/validators.go:72-79 | Decoding succeeds exactly on at least 8 bytes, and encoding the result reproduces the bytes. |
| `PowerRequest.MarshalFormat` | internal/voting/validators.go:65-79 | The encoding is the key followed by eight bytes, byte i being the digit of weight 256^(7-i) of the power's 64-bit pattern. |
| `Voting.CreateResolution` | internal/voting/voting.go:121-137 | Inserts the resolution unless its id exists; the type is NULL when the name is not registered. |
| `Voting.ApproveResolution` | internal/voting/voting.go:94-115 | Adds the vote, idempotently, exactly when voter and resolution exist. |
| `Voting.SetValidatorPower` | internal/voting/voting.go:483-497 | Refuses a negative power, removes the voter and its votes at power 0, sets the power otherwise. |
| `Voting.FilterNotProcessed` | internal/voting/voting.go:382-409 | Returns exactly the ids not in `processed`, in order, repetitions kept. |
| `Voting.RequiredPowerIsCeiling` | internal/voting/voting.go:500-515 | For thresholds up to 1 the required power is the exact ceiling of threshold times total and never exceeds the total. |
| `Voting.PowerInclusionExclusion` | internal/voting/sql.go:131-142 | The power of two voter sets together plus that of their intersection is the sum of the two. |
| `Voting.PowerAtMostTotal` | internal/voting/sql.go:59-63 | Any set of voters holds between 0 and the total power. |
| `Voting.ConfirmedOverlap` | internal/voting/sql.go:131-142 | Two resolutions confirmed together at threshold num/den share voters holding at least (2 num - den)/den of the power. |
| `Voting.TwoThirdsQuorumsIntersect` | internal/voting/sql.go:131-142 | Two resolutions confirmed together at 2/3 share voters holding at least a third of the power, so at least one voter. |
| `Routes.CheckAndSpend` | internal/txapp/txapp.go:733-799 | What is charged, the ledger after it and the result code, for every fee, balance, nonce and price, with gas on or off. |
| `Routes.VoteIDsInTx` | internal/txapp/routes.go:702-746 | Approves every unprocessed id in order and deletes the node's own event for each; one missing resolution fails the route. |
| `Routes.VoteBodiesInTx` | internal/txapp/routes.go:792-832 | Creates and approves a resolution for every body in order, with the type's expiry; an unknown type or a failed vote fails the route. |
| `Routes.JoinInTx` | internal/txapp/routes.go:472-513 | A join request becomes a resolution unless the sender is a validator or has one pending. |
| `Routes.ApproveInTx` | internal/txapp/routes.go:544-574 | A validator's approval votes for the candidate's single pending join request. |
| `Routes.RemoveInTx` | internal/txapp/routes.go:601-643 | A validator's removal vote creates the resolution if needed and approves it. |
| `Routes.LeaveInTx` | internal/txapp/routes.go:661-677 | A validator's power drops to 0, with its votes; others are refused. |
| `Routes.TransferInTx` | internal/txapp/routes.go:433-445 | The transfer of the account store, with its error mapped to a result code. |
| `Routes.RunInTx` | internal/txapp/routes.go:227-832 | Dispatch: the tables and code of the route that the payload names. |
| `Routes.Execute` | internal/txapp/routes.go:159-219 | The tables after a transaction, success exactly when pricing, spending, PreTx and InTx all succeed, and the reported spend. |
| `RouteEffects.PriceList` | internal/txapp/routes.go:240-790 | The price of every payload, and the payloads whose pricing fails. |
| `RouteEffects.ChargeExactly` | internal/txapp/txapp.go:733-799 | A sender with a row whose nonce is met is charged exactly the smallest of fee, price and balance, with that nonce; the code is success exactly when fee and balance cover the price; otherwise nobody is charged. |
| `RouteEffects.TransferTxExactly` | internal/txapp/routes.go:415-445 | A transfer transaction to another account succeeds exactly when the fee is paid and the amount is then still there; the receiver gains the amount, the sender loses amount and price, nothing else changes. |
| `RouteEffects.LeaveExactly` | internal/txapp/routes.go:661-677 | Leaving succeeds exactly for a paying validator; afterwards the sender is no voter and has no votes, and every other voter and vote is as before. |
| `RouteEffects.JoinExactly` | internal/txapp/routes.go:472-513 | A join request succeeds exactly for a paying sender that is no validator and has none pending; a new request decodes to the sender and its power and expires after the join expiry. |
| `RouteEffects.ApproveExactly` | internal/txapp/routes.go:529-574 | An approval succeeds exactly for a paying validator other than the candidate, if the candidate has one single request; it adds that one vote. |
| `RouteEffects.RemoveExactly` | internal/txapp/routes.go:601-643 | A removal vote succeeds exactly for a paying validator; it adds its vote and, if there is none, the resolution that decodes to the target with power 0. |
| `RouteEffects.VoteIDsExactly` | internal/txapp/routes.go:702-746 | A vote for ids succeeds exactly for a paying validator if every unprocessed id is live; it adds exactly the sender's votes for those and forgets the node's own events among them. |
| `RouteEffects.VoteBodiesExactly` | internal/txapp/routes.go:792-832 | Vote bodies succeed exactly for the paying proposer, a validator unless there are none, if every type is known; they add exactly their resolutions and the sender's votes. |
| `RouteEffects.OthersExactly` | internal/txapp/routes.go:227-420 | An engine call succeeds exactly when paid, decoded and taken by the engine; undecodable payloads and those without a route never do. |
| `RouteEffects.ChargeCodes` | internal/txapp/txapp.go:733-799 | The code of a transaction that does not pay in full, by what is missing. |
| `RouteEffects.RouteCodes` | internal/txapp/routes.go:227-832 | The code of a transaction that pays and fails, by route and reason. |
| `Execution.ChargeIsBounded` | internal/txapp/txapp.go:733-799 | What is charged is at most the fee and at most the price, is exactly the drop of the sender's balance, touches no other account, and comes with exactly one nonce. |
| `Execution.ExecutedShape` | internal/txapp/routes.go:159-219 | A transaction leaves the old state, the old state plus the spend, or that plus the whole route effect; nothing in between. |
| `Execution.ExecuteAllOrSpend` | internal/txapp/routes.go:159-219 | All-or-spend with money: balances stay non-negative, nonces never fall, and the supply falls by exactly the spend plus any self-transfer loss. |
| `Execution.NonceStep` | internal/txapp/txapp.go:733-799 | An account's nonce rises by one if the transaction is its own and meets the expected nonce, and stays otherwise, whatever fails later on fees or in the route. |
| `Proposal.GroupTxsBySender` | internal/abci/utils.go:10-22 | The map holds, for every sender with transactions and no other, exactly its transactions in block order. |
| `Proposal.CheckGroup` | internal/abci/abci.go:1175-1209 | A sender's group passes exactly when its nonces continue the committed one and every transaction passes the chain, vote-body and signature rules. |
| `Proposal.ValidateProposalTransactions` | internal/abci/abci.go:1158-1212 | A proposal is accepted if and only if every sender's nonces follow on without gap and every transaction is acceptable, whatever order the groups are visited in; then every transaction is signed and for this chain or for none. |
| `Proposal.AcceptedExactly` | internal/abci/abci.go:1175-1209 | Acceptance field by field: every transaction is signed, names this chain or none, carries vote bodies only from the proposer, and has the committed nonce of its sender plus one plus the number of its earlier transactions in the block. |
| `Authority.AcceptedBlockSpares` | internal/abci/abci.go:1175-1209 | In an accepted block that executes, a nonce moves or a balance falls only if its owner has a signed transaction for this chain or for none in it. |
| `Authority.AcceptedBlockVotes` | internal/abci/abci.go:1196-1209 | A vote or resolution that an accepted block adds was cast or opened by a successful signed transaction of its voter or proposer; vote bodies open resolutions only for the block's proposer. |
| `Authority.NoForgedVote` | internal/abci/abci.go:1175-1209 | Over every run of accepted blocks: a vote on record was there at genesis, or its voter signed a transaction that cast it and succeeded. |
| `Proposal.NonceLockstep` | internal/abci/abci.go:1175-1188 | When every payload is routed and priced: every transaction of an accepted proposal meets exactly the nonce Spend expects if and only if each sender's first one is chargeable (its account exists by then, or nothing is due). |
| `Proposal.AcceptedBlockAdvancesNonces` | internal/txapp/txapp.go:733-799 | If accounts exist at block start or gas is off, every transaction meets its nonce and each sender's final nonce is its start plus its transaction count. |
| `ProcessVotes.ApplyResolution` | internal/txapp/txapp.go:507-533 | Adds to the credits exactly the proposer's body refund and one vote refund for every other voter. |
| `ProcessVotes.RewardsTotal` | internal/txapp/txapp.go:497-533 | The credits of one resolution sum to body bytes times 1000 plus 16000 for every voter that is not the proposer. |
| `ProcessVotes.ResolutionsByThresholdAndType` | internal/voting/voting.go:276-300 | Lists exactly the resolutions of the type with enough approved power, in id order. |
| `ProcessVotes.GetExpired` | internal/voting/voting.go:258-273 | Lists exactly the typed resolutions up to the height, in id order. |
| `ProcessVotes.CollectConfirmed` | internal/txapp/txapp.go:364-393 | Collects exactly the confirmed resolutions, type by type and by id within a type, with their credits and the ids to mark. |
| `ProcessVotes.CollectExpired` | internal/txapp/txapp.go:435-461 | Collects credits and ids of the expired resolutions; the refund threshold is 0 for the first expired resolution of each type and the configured one afterwards. |
| `ProcessVotes.Resolve` | internal/txapp/txapp.go:395-427 | One resolve function in its own nested transaction: all its effect or none of it. |
| `ProcessVotes.MarkProcessed` | internal/voting/voting.go:362-368 | Inserts the ids, failing exactly on a repeated or already processed id. |
| `ProcessVotes.CreditAll` | internal/txapp/txapp.go:483-492 | Credits every entry, in any order, to the same ledger. |
| `ProcessVotes.ProcessVotes` | internal/txapp/txapp.go:343-495 | The whole step, with rows in the order of the queries: fails exactly when an id cannot be marked, otherwise gives the specified tables. |
| `VoteStep.StepRemovesExactly` | internal/txapp/txapp.go:421-481 | The step removes exactly the confirmed and expired resolutions with their votes, adds exactly their non-validator ids to `processed`, and drops exactly their events. |
| `VoteStep.NothingExpiredSurvives` | internal/txapp/txapp.go:421-440 | A resolution past its height survives the step if and only if its type is NULL (the expiry query joins on the type). |
| `VoteStep.UnexpiredSurvives` | internal/voting/sql.go:160-175 | A resolution that is not confirmed and expires above the height survives the step unchanged. |
| `VoteStep.ConfirmedExactly` | internal/voting/sql.go:131-142 | A resolution of a registered type is confirmed if and only if it has a vote and its approved power is at least the type's fraction of all power. |
| `VoteStep.ResolveOutcomesDoNotMatter` | internal/txapp/txapp.go:343-481 | Whatever order and outcome the resolve functions have, the confirmed set, the resolutions, `processed` and the events after the step are the same, and so is whether the step succeeds. |
| `VoteStep.StepIsDetermined` | internal/voting/sql.go:131-175 | With the row order the queries fix, the lists and all tables after the step, the ledger included, are a function of the tables, the height and what the extensions do. |
| `VoteStep.MarkableExactly` | internal/txapp/txapp.go:463-469 | The step succeeds if and only if no non-validator resolution is both confirmed and expired and none removed is already processed. |
| `VoteStep.StepIntegrity` | internal/voting/sql.go:59-72 | The step keeps foreign keys, positive powers, non-negative balances, registered types, and events disjoint from `processed`. |
| `VoteStep.PayoutExactly` | internal/txapp/txapp.go:375-461 | The credits of a step sum to what is owed for every confirmed resolution plus what is owed for every expired one the code refunds. |
| `Payouts.PaidToExactly` | internal/txapp/txapp.go:375-495 | What every account gains in a step: its share (body bytes times 1000 as proposer, 16000 as another voter) in each confirmed resolution and in each expired one that is refunded, and nothing with gas off. |
| `Payouts.RefundRuleExactly` | internal/txapp/txapp.go:443-454 | The code refunds an expired resolution if and only if it meets the configured threshold or is the first of its type in the list; it departs from the rule exactly for a first one below the threshold. |
| `Payouts.StepExcessExactly` | internal/txapp/txapp.go:436-461 | A step pays what the configured rule says and, on top, exactly what is owed for the first expired resolution of each type that is below its threshold. |
| `Payouts.UnapprovedIsRefunded` | internal/txapp/txapp.go:443-454 | A join request that nobody approved, made through the join route and expiring first of its type, is refunded 9000 although the rule pays nothing. |
| `Payouts.PayoutByResolution` | internal/txapp/txapp.go:375-461 | The amounts paid for each resolution (once if confirmed, once more if expired and refunded) sum to all credits of the step. |
| `Payouts.DoubleRefundExactly` | internal/txapp/txapp.go:375-461 | In every step and for every resolution, more is paid than is owed if and only if it is confirmed and expired at once, has a claim left, and is first of its type in the expired list or meets the refund threshold. |
| `Payouts.LastMinutePaidTwice` | internal/txapp/txapp.go:375-461 | A join request approved at the height at which it expires: the step goes through and pays 50000 where 25000 is owed. |
| `Payouts.LastMinuteFails` | internal/txapp/txapp.go:463-469 | An event of an extension confirmed at the height at which it expires: no vote step at that height can record it. |
| `Runs.BlockIntegrity` | internal/abci/abci.go:377-540 | A whole block (punishments, transactions, votes) keeps integrity. |
| `Runs.RunIntegrity` | internal/voting/sql.go:59-72 | In every state reachable by events and blocks each vote names a live voter and a live resolution, powers are positive, balances are non-negative, and events and `processed` are disjoint. |
| `Runs.RunApprovedPower` | internal/voting/sql.go:131-142 | In every reachable state a resolution's approved power is between 0 and the total power. |
| `Refunds.RouteBacked` | internal/txapp/routes.go:457-832 | Every successful voting route whose fee covers the refunds it creates keeps integrity and keeps every live resolution's refund covered, attributing at most its price. |
| `Refunds.RemovalFeeExactly` | internal/txapp/routes.go:586-588 | The removal price covers the refund it creates if and only if the removal was already under way or the target is at most 92 bytes. |
| `Refunds.LongRemovalNotCovered` | internal/txapp/routes.go:586-588 | A 93-byte target makes 101000 owed for a fee of 100000. |
| `Refunds.JoinFeeExactly` | internal/txapp/routes.go:457-459 | The join price covers the refund it creates if and only if the request was already there or the sender's key is short enough. |
| `Refunds.RepeatFeeExactly` | internal/txapp/routes.go:759-773 | The price of a repeated body covers the refund it adds if and only if the sender proposed the resolution, has voted already, or the body is at least 16 bytes. |
| `Refunds.ShortRepeatNotCovered` | internal/txapp/routes.go:759-773 | A validator repeating, at height 2, the one-byte body another proposed at height 1 pays 1000 and adds 16000 to what is owed. |
| `Refunds.BodiesFeeExactly` | internal/txapp/routes.go:759-773 | For every vote-body transaction: what each resolution is owed more is within what the transaction pays for its bytes, if and only if, for every resolution that was there before, the sender proposed it, has voted, or sends at least 16 bytes for it in all. |
| `Refunds.TwoShortRepeats` | internal/txapp/routes.go:759-773 | Two copies of an 8-byte body pay for the one vote they add. |
| `TokenSupply.TxBalanced` | internal/txapp/routes.go:159-219 | One transaction keeps coverage and the books: refunds plus coverage are within burned fees, and the supply is accounted for exactly. |
| `TokenSupply.PayoutCovered` | internal/txapp/txapp.go:375-461 | Unless a resolution is paid twice, what a vote step pays out, plus the coverage that remains, is within the coverage before it. |
| `TokenSupply.VotesBalanced` | internal/txapp/txapp.go:343-495 | One vote step keeps the books. |
| `TokenSupply.RunBalanced` | internal/txapp/txapp.go:343-533 | Any run keeps the books: supply equals genesis plus minted plus refunded minus burned minus lost. |
| `TokenSupply.RefundsAlwaysBacked` | internal/txapp/txapp.go:497-533 | Over every run with gas on, what was paid for each live resolution covers what applyResolution would pay for it, all refunds ever paid are at most the fees ever burned, and the supply never exceeds genesis plus what extensions credit. |
| `EventStore.Store` | internal/voting/events.go:194-232 | Stores an event once, only for known types and only while unprocessed. |
| `EventStore.StoredExactly` | internal/voting/events.go:194-232 | After an event arrives the store holds what it held, and the event exactly if its type is known in lower case and it was not processed. |
| `EventStore.SharedIDs` | core/types/types.go:72-75 | Two events share an id if and only if the longer type goes on as the other's body does; events of one type never do. |
| `EventStore.SharedIDWitness` | core/types/types.go:72-75 | Type credit with body 7 and type credi with body t, 7 have one id. |
| `EventStore.Fitting` | internal/txapp/txapp.go:606-633 | The longest prefix of the events, up to the maximum, that fits the byte budget. |
| `EventStore.ProposerTxs` | internal/txapp/txapp.go:575-666 | Proposes only stored, unprocessed events without a live resolution, within the byte budget, stopping only at the budget or the maximum; the transaction carries the proposer's next nonce, pays exactly its price and passes the per-transaction proposal checks. |
| `EventStore.ProposedBodiesAreFresh` | internal/txapp/txapp.go:568-633 | Bodies proposed this way are unprocessed, create their resolutions anew, and pay for them. |
| `EventStore.RunFresh` | internal/txapp/txapp.go:463-481 | In runs whose vote bodies come from ProposerTxs no live non-validator resolution is already processed. |
| `EventStore.MarkableWhenFresh` | internal/txapp/txapp.go:463-469 | In such states the vote step succeeds if and only if every resolution both confirmed and expired is a validator one. |
| `EventStore.MarkingNeverClashes` | internal/txapp/txapp.go:463-481 | After any such run, MarkProcessed inserts no duplicate id in the next block if and only if no non-validator resolution is both confirmed and expired in it. |
| `EventStore.NullTypeExactly` | internal/voting/sql.go:88-93 | A proposed event's resolution gets a NULL type if and only if the event's type name is not all lower case. |
| `EventStore.NullTypeStays` | internal/voting/sql.go:131-175 | A resolution with a NULL type stays through every run: it is never confirmed and never expires. |
| `EventStore.MixedCaseWitness` | internal/voting/events.go:194-232 | The event store takes an event of type Credit, and proposing it creates a NULL type. |
| `EventStore.ProposedClashes` | internal/voting/voting.go:117-137 | Proposing an event without a live resolution creates one that is already recorded as processed if and only if the event was processed and its type is an extension's, spelled in lower case. |
| `EventStore.ClashStays` | internal/txapp/txapp.go:463-481 | Such a resolution stays, unchanged, through every run. |
| `EventStore.ClashHalts` | internal/voting/voting.go:117-120 | Whatever happens after it was created, no block at or after its expiration can be executed: it is not cleaned out. |
| `EventStore.ProposedAgainWitness` | internal/voting/voting.go:117-137 | An event voted through at height 2 and proposed again at height 3 leaves such a resolution, expiring at 14403. |
| `ValidatorSet.ValidatorUpdates` | internal/abci/abci.go:573-610 | Whatever order the maps are visited in, the updates list exactly the new and changed powers and a zero for every removed validator, each once. |
| `ValidatorSet.UpdatesGiveFinal` | internal/abci/abci.go:573-610 | Applied in any order the updates turn the initial set into the final set, if and only if no new or changed validator has power 0. |
| `ValidatorSet.CatchUpExactly` | internal/abci/abci.go:552-570 | Applied to any other set, they lead to the final one if and only if that set agrees with it on every key that has no update. |
| `ValidatorSet.NoUpdateIsRedundant` | internal/abci/abci.go:573-610 | Leaving out any one update, consensus would not reach the final set. |
| `ValidatorSet.BookFollows` | internal/abci/abci.go:555-567 | The address book follows the validator set through any list of updates. |
| `ValidatorSet.ValidatorTracker.GetAllVoters` | internal/voting/voting.go:440-477 | Lists every voter once with its power. |
| `ValidatorSet.ValidatorTracker.GetValidators` | internal/txapp/txapp.go:186-197 | Returns the cached set when there is one, and the voters table otherwise. |
| `ValidatorSet.ValidatorTracker.Info` | internal/abci/abci.go:687-724 | After a start the address book becomes exactly the image of the voters table; fails exactly on a key that is not 32 bytes. |
| `ValidatorSet.ValidatorTracker.CacheFinal` | internal/txapp/txapp.go:309-336 | The tables become whatever the state modification makes of them, the cache becomes the voters read before it; an empty table leaves no cache, a failing modification ends the block. |
| `ValidatorSet.ValidatorTracker.Report` | internal/abci/abci.go:555-567 | Fails exactly when some update's key is not 32 bytes; otherwise enters every update into the address book. |
| `ValidatorSet.ValidatorTracker.EndBlock` | internal/abci/abci.go:552-570 | Succeeds exactly when the state modification does and every changed key is 32 bytes; then consensus, cache and address book have the voters read before the modification, and they agree with the table after the block if and only if it kept the voters. |
| `ValidatorSet.BlockReportsExactly` | internal/txapp/txapp.go:303-339 | In any state, a block brings consensus to the voters it read if and only if consensus already agrees with them wherever the block sees no change. |
| `ValidatorSet.ForkReported` | internal/txapp/txapp.go:303-339 | Over every run with state modifications in which the node does not restart between one that changed the voters and the next block, and none adds voters where a block left none: consensus holds the voters the last block read, the book is their image, the next report starts from them; the table is that set if and only if the last modification kept it. |
| `ValidatorSet.RunReported` | internal/abci/abci.go:552-570 | Over every run whose state modifications keep the voters, wherever the node restarts: consensus's validator set is the voters table and the address book is exactly its image. |
| `ValidatorSet.ForkWitness` | internal/txapp/txapp.go:309-336 | A fork adds a validator that its block does not report; the next block reports it on a node that kept running and never does on one that restarted in between. |
| `ValidatorSet.FinalizesExactly` | internal/abci/abci.go:555-567 | After any such run from genesis keys of 32 bytes, a block that executes can be reported if and only if the voters it reads all have 32-byte keys. |
| `ValidatorSet.ShortKeyWitness` | internal/abci/abci.go:177-183 | A join request from a 20-byte address, made and approved through the routes: the block that resolves it executes and cannot be reported. |
| `Membership.NewVoterWasConfirmed` | internal/voting/validators.go:20-55 | A key that is a voter after a block and was not before was admitted by a join request confirmed in that block, with exactly the power requested. |
| `Membership.ConfirmedByQuorum` | internal/voting/validators.go:21-31 | A confirmed join request had two thirds of the voting power behind it. |
| `Membership.NoValidatorWithoutQuorum` | internal/voting/validators.go:20-55 | Over every run: a validator was there at genesis, or some block admitted it with two thirds of the power of that moment behind its request. |
| `Membership.EveryPowerHasASource` | internal/voting/validators.go:20-55 | Over every run: a validator's power is its genesis power, what some block's punishment set, or exactly what a join request asked for that some block confirmed with two thirds of the power of that moment. |
| `Departures.ResolvedOneExactly` | internal/voting/validators.go:20-55 | One confirmed join or removal sets exactly the power it orders for the key it names, and nothing for anyone else. |
| `Departures.VotersAfterBlock` | internal/voting/validators.go:20-55 | The voters after a block, exactly: the last confirmed resolution that orders a power for a key decides; else a successful Leave; else its last punishment; else nothing changed. |
| `Departures.VotesAfterStep` | internal/txapp/txapp.go:463-481 | A vote outlives the vote step if and only if its resolution stays and no confirmed resolution orders its voter to power 0. |
| `Departures.RemovalTakesEffect` | internal/voting/validators.go:36-50 | After a block with a confirmed removal of a key, and no request to admit it resolved later in it, the key is no voter and has no votes. |
| `Departures.EveryRemovalTakesEffect` | internal/txapp/txapp.go:364-427 | In the order of the queries, types sorted, removals are resolved after all join requests, so every confirmed removal takes effect. |
| `Departures.DepartureHasACause` | internal/voting/validators.go:20-55 | A voter that is gone after a block left, was punished to 0, or was ordered to power 0 by a resolution that two thirds of the power confirmed. |
| `Departures.EveryDepartureHasACause` | internal/voting/validators.go:20-55 | The same between any two points of every run. |
| `Departures.RemovedStaysOut` | internal/voting/validators.go:20-55 | Over every run: a removed validator is one again only after a later block admitted it with two thirds of the power of that moment. |
| `Membership.JoinBodyExactly` | internal/txapp/routes.go:792-832 | A vote body keeps every candidate at one pending join request if and only if it is no join event, its request is already live, or its sender has none pending. |
| `Membership.JoinBodiesExactly` | internal/txapp/routes.go:792-832 | The same, exactly, for a whole list of vote bodies. |
| `Membership.TwoJoinBodies` | internal/txapp/routes.go:544-574 | Two join events among one proposer's vote bodies leave two requests pending, and approving fails with the error for several requests. |
| `Membership.RunSingleRequests` | internal/txapp/routes.go:472-513 | Over every run in which the join events of successful vote-body transactions fit in this sense, no candidate has two join requests pending. |
| `Membership.ApprovalRefusedExactly` | internal/txapp/routes.go:544-574 | In such runs an approval succeeds if and only if a request is pending and the sender is a validator; the error for several requests does not arise. |
| `TxSubList.SwapMirrors` | internal/abci/abci.go:958-964 | Swap keeps the invariant: the slot named by the sub-list's p-th entry holds the sender's original p-th transaction. |
| `TxSubList.SwapElsewhere` | internal/abci/abci.go:958-964 | Swapping inside one sender's group leaves every other group's slots untouched. |
| `TxSubList.SlotsHoldTheInverse` | internal/abci/abci.go:944-964 | After any Swap calls on any groups in any order, the parent slots hold the inverse of the permutation applied to the sub-list. |
| `TxSubList.GroupOrderIsNoise` | internal/abci/abci.go:999-1010 | Once every group is sorted the parent list is decided: neither the swaps used nor the order or interleaving of the groups matters. |
| `TxSubList.ArrangedPermutes` | internal/abci/abci.go:999-1010 | The parent list loses and repeats no transaction and every slot keeps its sender. |
| `TxSubList.SlotsSortedExactly` | internal/abci/abci.go:935-964 | A sender's slots come out in nonce order if and only if the permutation that sorts its transactions is its own inverse. |
| `TxSubList.PairsAreSorted` | internal/abci/abci.go:935-964 | For at most two transactions of a sender the slots do come out in order. |
| `TxSubList.CommentExample` | internal/abci/abci.go:935-945 | The example in the comment gives {a0, b1, b2, a1, b0}. |
| `TxSubList.SubList.Swap` | internal/abci/abci.go:958-964 | The new contents of both slices, in place, with the invariant kept and other senders' slots untouched. |
| `TxSubList.SubList.Stable` | internal/abci/abci.go:1004-1009 | Sorting through Less and Swap leaves the sub-list stably sorted and the parent mirroring it. |
| `TxSubList.GroupBySender` | internal/abci/abci.go:998-1003 | Groups the transactions by sender in list order. |
| `TxSubList.SortGroups` | internal/abci/abci.go:998-1010 | In place and with the groups in any order, the parent becomes exactly the arrangement described above. |
| `ProposalOrder.RearrangedFollowsExactly` | internal/abci/abci.go:998-1010 | The sorted proposal passes the nonce check of ProcessProposal if and only if every sender's nonces are a run from its committed one and the permutation that sorts them is its own inverse. |
| `ProposalOrder.SortedListStays` | internal/abci/abci.go:998-1010 | A list in which every sender's transactions are already in nonce order is left unchanged by the sort. |
| `ProposalOrder.FollowingListStays` | internal/abci/abci.go:998-1010 | A list that passes the nonce check is left unchanged and still passes it. |
| `Mempool.Pool.AccountInfo` | internal/txapp/mempool.go:26-41 | Returns the pending account, or loads the committed one, without changing any pending view. |
| `Mempool.Pool.ApplyTransaction` | internal/txapp/mempool.go:52-164 | Accepts exactly the admissible transactions; accepted nonces stay consecutive from the committed one and every pending account stays the saturating fold of its accepted spends; a rejection changes no pending account. |
| `Mempool.Pool.Reset` | internal/txapp/mempool.go:168-173 | After a commit nothing is pending, whatever the new ledger is. |
| `Mempool.PrefixBlocksPass` | internal/abci/abci.go:1175-1188 | Any block made of prefixes of the senders' accepted transactions passes the proposal nonce check. |
| `Mempool.PrefixBlocksAccepted` | internal/abci/abci.go:1158-1212 | With the other per-transaction checks met, ProcessProposal accepts such a block. |
| `Mempool.PendingBalanceExactly` | internal/txapp/mempool.go:139-152 | The pending balance is the committed one minus all accepted outlays if and only if those are within the committed balance, and never less than that difference. |
| `Mempool.PendingBalanceIs` | internal/txapp/mempool.go:109-162 | The pending balance is the committed one less all fees and all amounts sent, exactly as long as there is that much. |
| `Mempool.AdmissibleExactly` | internal/txapp/mempool.go:52-137 | What is taken: the next nonce of an account that is not empty while gas is on, votes for ids only from validators, no vote bodies, transfers of amounts between 0 and the pending balance. |
| `Mempool.AdmittedExecutes` | internal/txapp/mempool.go:79-162 | A transaction taken on the committed account meets its nonce when executed next, and a transfer then succeeds exactly if fee and balance cover the price besides the amount. |
| `ChainState.AbciApp.InitChainCall` | internal/abci/abci.go:726-785 | Opens the genesis transaction exactly on an uninitialised database; nothing durable changes. |
| `ChainState.AbciApp.FinalizeBlockCall` | internal/abci/abci.go:377-545 | Runs the block in the genesis or a new transaction, records the height with the 0x42 marker, and chains the reported hash; nothing durable changes. |
| `ChainState.AbciApp.Commit` | internal/abci/abci.go:614-641 | Stores the block's data, then its hash in a second transaction. |
| `ChainState.RunCoherent` | internal/abci/abci.go:525-545 | At every crash point of every run, stored data and recorded height agree and the recorded hash is the reported one or the marker. |
| `ChainState.UninitialisedUntilCommit` | internal/abci/abci.go:377-392 | Until a first Commit the database stays uninitialised, so InitChain can be called again. |
| `ChainState.RecoverableExactly` | internal/abci/abci.go:614-641 | Over every run, the database is empty or carries a real hash if and only if no restart ever fell between the two writes of a Commit and the node is not between them now. |
| `ChainState.CarriedHash` | internal/abci/abci.go:55-64 | Over every run, crashes anywhere included, the hash a node carries covers exactly the blocks since it last started. |
| `ChainState.NextHashExactly` | internal/abci/abci.go:542-545 | Over every run, the hash reported for an executed block is that of the whole chain if and only if the node never restarted while blocks were stored. |
| `ChainState.RestartWitness` | internal/abci/abci.go:55-64 | One block, a crash, and the second block's hash starts again from genesis. |
| `ChainState.EarlyCrashHarmless` | internal/abci/abci.go:377-392 | A crash after the first FinalizeBlock and before its Commit loses nothing. |
| `ChainState.SmoothRun` | internal/abci/abci.go:377-680 | An uninterrupted node has every block stored in order, and with the last height the hash of the whole chain. |
| `Schema.GetPrimaryKey` | core/types/schema.go:244-284 | The primary key, or the error, by the four declaration rules. |
| `Schema.PrimaryKeyExactly` | core/types/schema.go:244-284 | The key is the name of the one marked column, or the columns of the one primary index, if and only if that is the only declaration; each error has its condition. |
| `SelectScope.SqlContext.Visit` | parse/analyze.go:1655-1745 | Which relations and tables a FROM item adds to the scope, and which items are refused. |
| `SelectScope.VisitedValid` | parse/analyze.go:1655-1745 | Every accepted FROM keeps relation names distinct, with at most one unnamed relation and that one alone. |
| `SelectScope.TableVisited` | parse/analyze.go:1655-1704 | A table is found under its alias, or its name without one, with its columns and definition; it is refused exactly when that name is taken or an unnamed relation is there. |
| `SelectScope.ExpressionVisited` | parse/analyze.go:1655-1704 | A common table expression is found the same way, and is no table. |
| `SelectScope.QueryVisited` | parse/analyze.go:1708-1760 | A subquery is joined exactly if its name is free, or it has none and is the only relation. |
| `SelectScope.JoinedTwice` | parse/analyze.go:1683-1695 | One table can be joined twice under two aliases. |
| `DefaultOrdering.SelectStatement.ApplyDefaults` | parse/analyze.go:1335-1475 | The ordering after the rewrite: the user's terms as a prefix, then the default terms of the statement's kind, or the error. |
| `DefaultOrdering.PlainTermsExactly` | parse/analyze.go:1428-1466 | A plain SELECT can be ordered if and only if every joined table declares a key, and is then ordered by exactly the keys of its tables and all columns of its other relations. |
| `DefaultOrdering.RewriteExactly` | parse/analyze.go:1335-1475 | What each kind of statement is ordered by after the user's terms, and which statements are refused. |
| `Joins.EvalPermutes` | parse/analyze.go:1518-1600 | Over any chain of inner, left, right and full joins, the physical order of stored rows does not change the bag of joined rows. |
| `Joins.EvalComposed` | parse/analyze.go:1789-1815 | Every joined row is made of one stored row, or all NULLs, for each relation. |
| `Joins.JoinExactly` | parse/analyze.go:1518-1600 | The rows of each kind of join: the accepted pairs, and the rows without a partner of the sides that an outer join keeps. |
| `SortOrder.ObservationUnique` | parse/analyze.go:1428-1465 | Two arrangements of one bag that the same sort keys accept show the same sequence to every observation that ties agree on. |
| `PlainSelect.TiedRowsEqual` | parse/analyze.go:1428-1465 | Primary keys of joined tables plus all columns of other relations fix every joined row, also where outer joins found no match. |
| `PlainSelect.PlainSelectDeterministic` | parse/analyze.go:1428-1465 | Plain SELECT: two evaluations of the same rows in any physical order, under the rewritten ORDER BY, return the same row sequence, LIMIT and OFFSET included. |
| `PlainSelect.RewriteRefines` | parse/analyze.go:1342-1465 | Plain SELECT: the user's terms stay a prefix, every answer to the rewritten statement answers the original, and there is one. |
| `PlainSelect.RewriteTwice` | parse/analyze.go:1342-1465 | Plain SELECT: applying the rewrite again changes no answer. |
| `UnnamedSelect.UnnamedDeterministicExactly` | parse/analyze.go:1428-1465 | Every SELECT from an unnamed subquery, whatever its WHERE, expressions, user terms, LIMIT and OFFSET: the rewritten statement is deterministic if and only if LIMIT is 0 or rows that agree on all ordering terms show the same result. |
| `ShadowedSelect.RenamingDeterministicExactly` | parse/analyze.go:1452-1465 | Renaming columns of an unnamed subquery, with any columns in the user's ORDER BY, LIMIT and OFFSET: deterministic if and only if LIMIT is 0 or every selected column keeps a free name or is selected under the name of an ordering term. |
| `ShadowedSelect.RenamingWitness` | parse/analyze.go:1452-1465 | SELECT a AS b, b AS c FROM (...) without an alias is not deterministic. |
| `SetSelect.BagSame` | parse/analyze.go:1307-1325 | Through every compound operator and DISTINCT, the same stored rows give the same bag of result rows. |
| `SetSelect.BagExactly` | parse/analyze.go:1307-1325 | How often a row is in a DISTINCT or compound result, operator by operator. |
| `SetSelect.SetSelectDeterministic` | parse/analyze.go:1342-1427 | DISTINCT and compound SELECTs with named columns: every evaluation of the same rows returns the same row sequence. |
| `SetSelect.SetRewriteRefines` | parse/analyze.go:1342-1427 | DISTINCT and compound: the bag and the user's prefix are kept, answers are only ruled out, and one remains. |
| `SetSelect.SetRewriteTwice` | parse/analyze.go:1342-1427 | DISTINCT and compound: applying the rewrite again changes no answer. |
| `GroupedSelect.GroupedSelectDeterministic` | parse/analyze.go:1389-1413 | GROUP BY plain columns: every evaluation of the same rows returns the same sequence of groups. |
| `UnnamedGroups.GroupsDeterministicExactly` | parse/analyze.go:1389-1413 | Every grouped SELECT from an unnamed subquery, with any WHERE, HAVING, LIMIT and OFFSET: deterministic if and only if LIMIT is 0 or, in every possible list of groups long enough for OFFSET, two last ones that agree on all ordering terms show the same result. |
| `Aggregates.OverPermutes` | parse/functions.go:545-660 | count, sum, min and max do not see the order of the rows. |
| `Aggregates.SamplesDiffer` | parse/functions.go:545-660 | For count(*) and each aggregate of a column there are two groups that it tells apart and every other aggregate does not. |
| `RenamedGroups.GroupRenamingExactly` | parse/analyze.go:1402-1411 | Grouping columns and any mix of count(*), count, sum, min and max over an unnamed subquery, with any LIMIT and OFFSET: deterministic if and only if LIMIT is 0, or each grouping column is what some ordering term means, or each result column is. |
| `RenamedGroups.GroupRenamingWitness` | parse/analyze.go:1402-1411 | SELECT count(*) AS a, a AS c FROM (...) GROUP BY a without an alias is not deterministic, nor with count(b), sum(b), min(b) or max(b). |
| `GroupedSelect.GroupRewriteRefines` | parse/analyze.go:1389-1413 | GROUP BY: the groups and the user's prefix are kept, answers are only ruled out, and one remains. |
| `GroupedSelect.GroupRewriteTwice` | parse/analyze.go:1389-1413 | GROUP BY: applying the rewrite again changes no answer. |
| `SnapshotChunks.SplitRoundTrip` | internal/statesync/snapshotter.go:388-422 | Concatenating the chunks gives the file; all chunks but the last are full and the last, possibly empty, is short. |
| `SnapshotChunks.SplitDumpIntoChunks` | internal/statesync/snapshotter.go:373-456 | The chunk loop writes exactly that split and publishes its count, hashes and size. |
| `ChunkStreamer.Streamer.constructor` | internal/statesync/streamer.go:21-33 | A new streamer has the whole file ahead of it. |
| `ChunkStreamer.Streamer.Next` | internal/statesync/streamer.go:36-54 | Moves to the next chunk file without losing a byte; end exactly after the last. |
| `ChunkStreamer.Streamer.Read` | internal/statesync/streamer.go:67-83 | What is read is exactly the front of what remains; end of file exactly when nothing is left, after at most one empty read. |
| `ChunkStreamer.Drain` | internal/statesync/streamer.go:67-83 | Reads with any positive buffer sizes yield exactly the concatenation of the chunk files, then end of file. |
| `StateSync.StateSyncer.OfferSnapshot` | internal/statesync/statesync.go:90-108 | Accepts exactly when idle, the header is well formed and the providers confirm it; a refusal changes nothing. |
| `StateSync.OfferErrors` | internal/statesync/statesync.go:90-108 | Which error refuses an offer, by its condition. |
| `StateSync.DeliveryExactly` | internal/statesync/statesync.go:112-176 | What becomes of a delivery, by session, index and hash; a restore starts exactly when every other chunk is there. |
| `StateSync.OnlyConfirmedRestored` | internal/statesync/statesync.go:90-176 | In every session of offers and deliveries, a restore is checked against a header that the providers confirmed in an earlier call. |
| `StateSync.StateSyncer.ApplySnapshotChunk` | internal/statesync/statesync.go:112-176 | Every delivery: duplicates, bad indexes and wrong bytes are refused without effect; the completing chunk starts a restore, and its failure resets the receiver. |
| `StateSync.StateSyncer.Reset` | internal/statesync/statesync.go:287-294 | Back to idle with an empty chunk directory. |
| `StateSync.RestoreDB` | internal/statesync/statesync.go:180-221 | Restores exactly when the streamed bytes decompress to the announced hash and load. |
| `StateSync.EndToEnd` | internal/statesync/statesync.go:112-176 | For every file and every delivery sequence (any order, duplicates, wrong bytes, bad indexes), delivery n starts a restore if and only if it completes the chunk set, and the stream restored is the original file. |
| `StateSync.RestoredDumpIsTrusted` | internal/statesync/statesync.go:112-237 | For every accepted header and every delivery sequence: a restore streams delivered chunks with the announced hashes, in order, and one that succeeds has loaded the very dump whose hash was announced. |
| `SanitizeDump.OffsetsExactly` | internal/statesync/snapshotter.go:199-287 | A recorded offset points at the start of its line if and only if no earlier line ends in a carriage return. |
| `SanitizeDump.SeekReadsLine` | internal/statesync/snapshotter.go:219-236 | Seeking to the start of a line and reading to the newline gives that line. |
| `SanitizeDump.SeekSortIsSort` | internal/statesync/snapshotter.go:215-236 | Reading the hash-sorted records back by seeking gives the in-memory sort of the rows. |
| `SanitizeDump.WriteBlock` | internal/statesync/snapshotter.go:215-240 | Writes what is found at the recorded offsets, in hash order. |
| `SanitizeDump.CopyLine` | internal/statesync/snapshotter.go:203-265 | One line inside a COPY block: recorded, or the block written out. |
| `SanitizeDump.PlainLine` | internal/statesync/snapshotter.go:266-287 | One line outside COPY blocks: skipped, or written and checked for the start of a block. |
| `SanitizeDump.Sanitize` | internal/statesync/snapshotter.go:199-292 | Fails exactly on a line beyond the scanner's buffer; otherwise writes a file the line loop allows, on any dump, and on a dump without carriage returns exactly the reference output, whose lines outside COPY blocks are in order exactly those of the dump that stay. |
| `SanitizeDump.LinesExactly` | internal/statesync/snapshotter.go:266-285 | A line is dropped if and only if it has nothing but white space or starts with --, SET, SELECT or CREATE DATABASE, or has connect after its first character; a block opens after COPY ... FROM stdin;. |
| `SanitizeDump.OutsideKept` | internal/statesync/snapshotter.go:199-292 | Outside COPY blocks the lines of the output are, in order, exactly the lines of the dump that are not dropped. |
| `SanitizeDump.SanitizesClean` | internal/statesync/snapshotter.go:199-287 | Without carriage returns the loop allows one file only: the reference output. |
| `SanitizeDump.CarriageReturnWitness` | internal/statesync/snapshotter.go:199-240 | A dump with one carriage return before a COPY block: its only possible file has an empty line in place of the row. |
| `CanonicalDump.CleanKeepsMeaning` | internal/statesync/snapshotter.go:199-287 | Sanitising keeps what the dump says: its statements in order and every COPY block's bag of rows. |
| `CanonicalDump.SanitizedIsCanonical` | internal/statesync/snapshotter.go:199-287 | Two dumps sanitise to the same bytes if and only if they say the same thing. |
| `CanonicalDump.SanitizedTwice` | internal/statesync/snapshotter.go:199-287 | Sanitising a sanitised dump changes nothing. |
| `CanonicalDump.ReorderedRowsSameFile` | internal/statesync/snapshotter.go:199-287 | Dumps that differ only in the order of rows inside COPY blocks give identical files. |
| `SnapshotStore.Store.DeleteOldestSnapshot` | internal/statesync/store.go:169-183 | Removes the lowest height from the list and the map. |
| `SnapshotStore.Store.RegisterSnapshot` | internal/statesync/store.go:140-165 | After any sequence of registrations the heights are sorted, distinct, equal to the map's keys, and exactly the MaxSnapshots largest ever registered. |
| `SnapshotStore.KeptIsLargest` | internal/statesync/store.go:140-183 | A sorted list that drops only from the bottom, and only when full, is exactly the set of heights with fewer than MaxSnapshots heights above them. |

## Left out

- Postgres, pg_dump, psql, gzip, files, RPC, logging, locks: steps on tables and files are atomic, and failure of a single statement is modelled only where the code reacts to data (constraints, missing rows).
- Digests and UUIDs: SHA-256, RFC 4122 section 4.3 identifiers and key addresses are injective; signatures are a flag of the transaction.
- RLP: payloads arrive decoded, with a separate case for bytes that do not decode.
- Engine routes (deploy, drop, execute): an opaque effect on datasets that touches neither accounts nor votes.
- Extension resolve functions: they may fail or credit any accounts with any non-negative amounts; other writes are outside the model.
- 64-bit wrap-around of nonces, block heights and balances: integers are unbounded, except for the reported spend, required power and power encoding, where the conversion is modelled.
- Id order: ids are digests, so the byte order by which queries sort them is some injective ranking.
- Voter ids: voters are keyed by name, of which the id column is a digest; `votes` refers to them by name.
- Membership.RunSingleRequests: join events among the vote bodies of successful transactions have to fit in the sense of `Membership.JoinBodyExactly` when their turn comes.
- Membership.ApprovalRefusedExactly: the same.
- Membership.NoValidatorWithoutQuorum: punishments name current voters, as the address book does; the quorum is stated while powers fit an int64.
- Route objects: fields that PreTx stores for InTx are parameters.
- Mempool.Pool.ApplyTransaction: a sender is a validator when it has a row in voters, which the table's check on positive power makes the same as power above 0; marking events for rebroadcast is an out-parameter.
- TxSubList.SubList.Stable: sorts by insertion throughout; merging blocks of twenty by further swaps is covered by `TxSubList.GroupOrderIsNoise`, which allows any Swap calls.
- prepareBlockTransactions beyond the sort: dropping of re-used nonces compares with an entry that may not be the last one kept, and the byte budget only truncates.
- ValidatorSet.ForkReported: a failing block leaves the node as it was, as the process ends there, and a restart is guarded as its row says; every other restart is settled by `ValidatorSet.BlockReportsExactly`.
- ChainState: a call that returns an error ends the process, and CometBFT calls FinalizeBlock only after a handshake that found a real stored hash; replay inside CometBFT is outside the model.
- Supply with gas off: no fees are burned and no refunds are paid, so there is nothing to back.
- SanitizeDump.Sanitize: the scanner's limit counts bytes, here characters.
- TokenSupply.RefundsAlwaysBacked: needs each fee to cover the refunds it creates (removal targets, repeated bodies, join keys below ten gigabytes) and no resolution to be paid twice, checked in each state of the run; each condition is exact for each resolution of its step.
- PlainSelect.TiedRowsEqual: needs that no result column takes over a column name of an unnamed relation; statements over one are settled exactly by `UnnamedSelect.UnnamedDeterministicExactly`.
- PlainSelect.PlainSelectDeterministic: the same.
- GroupedSelect.GroupedSelectDeterministic: the same for grouping columns; statements over an unnamed relation are settled by `UnnamedGroups.GroupsDeterministicExactly`.
- RenamedGroups.GroupRenamingExactly: aggregates are over columns that are not grouped by, without DISTINCT.
- GROUP BY expressions and unnamed result columns: default terms for them name no column; the theorems are for plain GROUP BY columns and named, distinct result columns.
- User ORDER BY terms of DISTINCT and compound statements are functions of the result row; of plain statements, of the joined row.
- SELECT column resolution, types, subqueries inside expressions, and the parser: expressions are arbitrary functions of a row.
- Provider verification of a snapshot header compares header fields and not chunk hashes; a snapshot's own dump hash is what is checked, after decompression has already been streamed to psql.
- SnapshotStore.Store.RegisterSnapshot: MaxSnapshots is not negative (a negative one would loop forever), and loading snapshots from disk at start is not part of this model.
- Procedure return analysis, consensus parameter merging, dataset schemas, network configuration, gateways and clients.
