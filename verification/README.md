# Verified model of GotEth's epoch accounting and block pipeline

GotEth replays the Ethereum beacon chain. It keeps three consecutive states, separates each
validator's pure reward from every other movement of its balance, credits attestations to block
proposers, sums rewards over windows of epochs, and does all that in a pipeline of goroutines that
download, process, check and re-process slots and epochs. This project models those parts in Dafny 4.11
and proves what they promise, against the consensus specification where one exists (Electra, Deneb and
Altair `beacon-chain.md`, by section name in the module comments). `dafny verify dfyconfig.toml`
checks everything.

What the standard does is written out with its own helpers and values (`ElectraSpec.dfy` and the functions named
`Standard…`); nothing of the program's model is used in it.

Code that fills maps, bitmaps and queues in loops is modelled by classes and methods with loops; each
method is proved against value-level definitions, and the properties are proved of those. Integer
widths are explicit (`Chain.Wrap`, `Chain.WrapSigned`) wherever a proof says so below. Goroutines are
step systems: a step is one critical section or one blocking operation, and a run is any interleaving.

| file | what it models |
|---|---|
| `Chain.dfy` | constants, uint64 and int64 arithmetic, validators, Go map reads |
| `ElectraSpec.dfy` | predicates, churn limits and values of the consensus standard, shared with nothing in the program's model |
| `DepositQueue.dfy`, `ConsolidationQueue.dfy` | the two pending queues at an epoch transition, replay and standard |
| `RequestLedger.dfy`, `WithdrawalRequests.dfy`, `ConsolidationRequests.dfy`, `EpochRequests.dfy` | execution-layer requests, handler and standard, one kind at a time and a whole epoch of blocks |
| `EpochReward.dfy` | the net balance equation over two states |
| `ElectraMetrics.dfy` | the Electra bundle as it runs, loop by loop |
| `Attestations.dfy`, `ProposerRewards.dfy` | attestation crediting with participation bitmaps, and what the standard pays proposers |
| `InclusionWindows.dfy` | inclusion delays and possible flags since Deneb |
| `MissedBlocks.dfy` | missed slots from the root ring, sync committee maxima |
| `RewardsWindow.dfy` | aggregation windows and their narrow counters |
| `BlockingMap.dfy`, `RoutineBook.dfy` | the subscribing map and the keyed semaphore |
| `Pipeline.dfy` | the historical download pipeline and the eviction behind it |
| `CachedChain.dfy`, `Finality.dfy`, `Reorg.dfy` | the shared cache, finality checks, reorg walks |
| `StoredRows.dfy` | which rows a replaced state invalidates, and bundles in flight meanwhile |

## What the proofs found

Each of these is stated by a lemma or a contract named in the table below.

- The requests of the next state's blocks are judged with the current state's epoch, one behind the standard's.
  A sequence of withdrawal requests, or of consolidation requests, gets the standard's results if and only if
  this clock decides no check that is reached (a validator activated, gone, or old enough exactly with that
  epoch, or a churn limit that crosses 32 ETH with it) and no earlier granted exit, credential switch or
  wrapped uint64 sum touches a request. One request suffices for a wrong result by the clock, two for each of
  the others: a wrapped sum, an exiting target, the same switch twice, a target that has just switched.
- The bundle handles all consolidation requests of an epoch before any withdrawal request; the standard goes
  block by block, withdrawals first. For every epoch of blocks the two lists of results are the standard's
  if and only if every request is untouched in both orders; an exit in one block and a consolidation of the
  same validator in the next is answered the other way round.
- Without switches and with covered, distinct consolidation sources, `EpochReward` is the true reward if and
  only if two terms cancel: the deposits carried by the epoch's blocks, which in Electra only enter the pending
  queue and yet are subtracted, and what ejections in the same transition, which the replay does not know of,
  change in the walk of the queue. If the replay looks at no deposit of an ejected validator, that is if and
  only if the blocks carried no deposit for the validator. Two concrete epochs report a loss of almost 1 ETH.
- What is added to `ManualReward` of a block is exactly what the standard pays its proposer for attestations.
- The replay counts deposits of slot 0 like all others, although the comments beside it say that they are
  skipped.
- Running a bundle again leaves every `EpochReward` unchanged, but adds its rows to `DepositsNum` and
  `TotalDepositsAmount` and its consolidations to `ConsolidationsProcessed` and its amount again, and adds its
  attestation rewards to `ManualReward` of the same blocks again.
- In the historical pipeline waits have no cycle, whatever the pages: a run that cannot go on has ended every
  routine if and only if it was given whole epochs and no routine still needs what has been evicted behind
  the producer. The first cannot fail in the program, which aligns its start
  (`pkg/analyzer/chain_analyzer.go:87`, `pkg/analyzer/routines.go:170-171`). The second can: for aligned runs,
  every interleaving finishes if and only if the run has at most six epochs. In a longer one, a routine that
  gets no turn while six epochs are sent finds its entry evicted and waits for ever; only routines at least
  four epochs behind the producer can be hit.
- A cancelled wait leaves its channel among the subscribers. The next writer of the key then keeps the map's
  lock for ever; without cancelled waits the writer always goes on.
- The page book's tokens never exceed its size, but acquiring a key that is held loses one for good.
- 16-bit window counters cannot wrap if and only if a window has at most 257 epochs.
- `AdvanceFinalized` writes the rows of differing blocks again from the same cached blocks: `ProcessBlock` reads
  the cache, although the comment beside the call speaks of a new download. A refreshed state therefore still
  points to a block that is not finalized when its metrics are computed again. With a bound inside an epoch
  it evicts that epoch unchecked.
- `HandleReorg` gives a walked state the blocks of its epoch before it has replaced the lower ones; a walk of two
  slots shows it.
- `HandleReorg` computes a changed epoch again and so waits for the two states before it, but nothing fetches
  those, as `AdvanceFinalized` does. The walk ends if and only if they are cached, too; otherwise it has
  deleted the epoch's rows and waits for ever.
- `HandleReorg` waits for a page named `epoch=` with a slot number in place of the epoch
  (`pkg/analyzer/reorg.go:214`), and replaces the state in a later step. A bundle in flight then writes
  stale epoch and reward rows after the deletion. Over all runs no such row is left if and only if the last
  look at the book and the replacement are one step, an epoch has at most one bundle in flight, and the wait
  covers the pages of the epoch and of the two after it: waiting for the page of the epoch alone would not do.
- Deleting the duties of a replaced state compares `f_proposer_slot/32` with the epoch. ClickHouse
  divides as real numbers (`pkg/db/pools_summary.go:37` converts the same quotient with `toUInt64`), so only
  the duty of the epoch's first slot is deleted.
- Block rewards, slashings, processed deposits and consolidations and request results are computed from replaced
  states too, and are never deleted. Rewards of a replaced epoch's own blocks stay stale until the next bundle
  is computed; a record stays unless one is written at its place.

## Model

| member | source | states |
|---|---|---|
| DepositQueue.DepositsRefineStandard | pkg/spec/metrics/state_electra.go:712-781 | for every validator that existed before the transition, the replayed deposit is exactly its balance increase under `process_pending_deposits`, which starts from the fields of the state with its own churn limit, bounds and gates and grows the registry while it walks; both consume, apply, postpone and spend the same |
| DepositQueue.ConsumedIsGreatest | pkg/spec/metrics/state_electra.go:730-780 | the walk stops only at the queue's end, a closed gate, the 16-entry limit or an entry that would exceed the churn |
| DepositQueue.ChurnStaysWithinBudget | pkg/spec/metrics/state_electra.go:712-781 | churn spent never exceeds the available amount, whatever the queue; postponed entries spend none |
| DepositQueue.ChurnIsConserved | pkg/spec/metrics/state_electra.go:721 | over any run of transitions: churn spent, carried over at the end and given up is what was carried in and what the limits granted, and none is given up while the limit is reached |
| DepositQueue.LaterFinalityNeverLowers | pkg/spec/metrics/state_electra.go:718-739 | replaying with a later finalized epoch never lowers any validator's deposited amount |
| DepositQueue.EjectionsPostpone | pkg/spec/metrics/state_electra.go:741-757 | against the standard's walk after ejections in the same transition: the replay gives an ejected validator what the standard postpones, any other at most what the standard gives, and everyone the same if it looks at no deposit of an ejected one |
| ElectraMetrics.ElectraMetrics.ProcessDepositsForRewardCalculation | pkg/spec/metrics/state_electra.go:712-781 | the loop with its breaks adds to each map entry exactly what the standard's walk from the same fields, the carried-over balance included, adds to the validator, modulo 2^64 |
| ElectraMetrics.ElectraMetrics.ProcessPendingDeposits | pkg/spec/metrics/state_electra.go:848-922 | the second replay, with other counters and branch order, attributes the amounts of the standard's walk from the same fields; its rows are the deposits that walk applies, in order; the two totals advance by them and are never reset |
| ConsolidationQueue.StandardBooksBalance | pkg/spec/metrics/state_electra.go:638-659 | under the standard's `process_pending_consolidations` every balance changes by exactly what was moved in and out |
| ConsolidationQueue.ReplayAgreesWithStandard | pkg/spec/metrics/state_electra.go:638-659 | with each source used once and covered before and when the walk starts, the replay on old balances attributes what the standard moves on changing ones |
| ConsolidationQueue.PlaceholdersLeaveNet | pkg/spec/metrics/state_electra.go:257-258 | placeholder entries at the end of the queue change no validator's net amount |
| ElectraMetrics.ElectraMetrics.ProcessConsolidationsForRewardCalculation | pkg/spec/metrics/state_electra.go:638-659 | the loop fills both maps with the incoming and outgoing amounts of the definition |
| ElectraMetrics.ElectraMetrics.ProcessExcessActiveBalanceRestructuring | pkg/spec/metrics/state_electra.go:675-692 | exactly the validators switching from 0x01 to 0x02 credentials get their excess over 32 ETH added |
| EpochReward.NetRewardIsNet | pkg/spec/metrics/standard.go:31-63 | however the unsigned sums and signed steps wrap, the returned int64 is the true net change modulo 2^64 |
| EpochReward.SwitchExcessIsQueued | pkg/spec/metrics/state_electra.go:675-692 | for a validator that went from 0x01 to 0x02 the excess added back is what the standard's switch takes off and queues at that balance; for any other it is nothing |
| EpochReward.NetChangeEquation | pkg/spec/metrics/standard.go:31-63 | for every epoch evolving by the standard, ejections and activations included: net change = reward − block deposits + misjudged ejections, switches and consolidations, written out term by term |
| EpochReward.RewardIsExact | pkg/spec/metrics/standard.go:31-63 | undisturbed by switches and uncovered sources, the reported reward is exact if and only if block deposits and the ejections' effect on the deposit walk cancel; with no deposit of an ejected validator in reach, if and only if the blocks carried no deposit for the validator |
| EpochReward.PlaceholdersLeaveReward | pkg/spec/metrics/standard.go:31-63 | entries left by earlier bundles do not change any reported reward |
| ElectraMetrics.ElectraMetrics.FillRewardMaps | pkg/spec/metrics/state_electra.go:50-57 | maps are cleared and refilled: every validator's three entries are those of the definitions |
| EpochReward.BlockDepositCounterexample | pkg/spec/metrics/standard.go:31-63 | a concrete undisturbed epoch with a block deposit of 1 ETH: the reported reward is the true one less that deposit |
| EpochReward.EjectionCounterexample | pkg/spec/metrics/standard.go:31-63 | a concrete epoch whose only validator is ejected with a top-up of 1 ETH in the queue: the reported reward is the true one less the top-up |
| ElectraMetrics.ElectraMetrics.ProcessPendingConsolidations | pkg/spec/metrics/state_electra.go:594-623 | one row for each entry up to where the transition stops, in order; together they give every validator what the reward replay of the same queue attributes to it; rows and amount are added to those of earlier bundles |
| ElectraMetrics.ElectraMetrics.PreProcessBundle | pkg/spec/metrics/state_electra.go:45-70 | run for the first or the n-th time, the reward of every validator is that of the untouched queue; only placeholders are appended, the request ledger stays sound, request results are those of the two passes, deposit counters and consolidation rows advance again |
| RequestLedger.ChurnSplits | pkg/spec/metrics/state_electra.go:99-124 | the two churn shares sum to the whole without underflow, and consolidation gets a share only when the other is full |
| RequestLedger.ChurnIsStandard | pkg/spec/metrics/state_electra.go:99-124 | the three churn limits are those of the standard for every total balance |
| ElectraMetrics.ElectraMetrics.GetPendingBalanceToWithdraw | pkg/spec/metrics/state_electra.go:73-81 | the loop's uint64 total is the true queued sum modulo 2^64 |
| ElectraMetrics.ElectraMetrics.ProcessWithdrawalRequest | pkg/spec/metrics/state_electra.go:285-366 | result and queues of one request, every early return included |
| ElectraMetrics.ElectraMetrics.ProcessWithdrawalRequests | pkg/spec/metrics/state_electra.go:369-389 | the nested loops give the results of the whole request sequence in order |
| WithdrawalRequests.NotActiveExactly | pkg/spec/metrics/state_electra.go:318-320 | for every view, ledger and request: not active is answered exactly when the request names a validator with its address behind it and the cached epoch is before its activation or not before its exit |
| WithdrawalRequests.GrantedExactly | pkg/spec/metrics/state_electra.go:285-366 | for every view, ledger and request: exactly what is granted and to whom, in plain comparisons |
| WithdrawalRequests.StepExact | pkg/spec/metrics/state_electra.go:285-366 | one request, one epoch after the one the handler compares with and after any exits, switches and partial withdrawals granted before: the result equals the standard's if and only if neither the clock nor these nor a wrapped sum decides it in one place only, and then the two states still correspond |
| WithdrawalRequests.RunExact | pkg/spec/metrics/state_electra.go:369-389 | for every request sequence and all exit epochs, all results are the standard's if and only if every step is untouched in that sense |
| WithdrawalRequests.FittingSumsAreHarmless | pkg/spec/metrics/state_electra.go:73-81 | if requested sums fit uint64 and no validator asked for is activated, gone or comes of age with the epoch, every step of a run from the cached state is untouched |
| WithdrawalRequests.WrapCounterexample | pkg/spec/metrics/state_electra.go:334-360 | two concrete requests whose second is granted by the code and refused by the standard |
| WithdrawalRequests.EpochBoundaryCounterexample | pkg/spec/metrics/state_electra.go:328-332 | a validator that comes of age in the request's epoch: the exit is refused by the code and granted by the standard |
| ElectraMetrics.ElectraMetrics.ProcessConsolidationRequest | pkg/spec/metrics/state_electra.go:169-260 | result and queues of one request, every early return included |
| ElectraMetrics.ElectraMetrics.ProcessConsolidationRequests | pkg/spec/metrics/state_electra.go:263-282 | the nested loops give the results of the whole request sequence in order |
| ConsolidationRequests.SwitchGrantedExactly | pkg/spec/metrics/state_electra.go:130-166 | for every view and ledger: a request with equal keys is granted exactly to the holder of the address behind a registered, active, staying validator with 0x01 credentials |
| ConsolidationRequests.ConsolidationGrantedExactly | pkg/spec/metrics/state_electra.go:196-259 | for every view and ledger: exactly which consolidations are granted, with activation, exit, age and queue of the source and activation, exit and credentials of the target in plain comparisons |
| ConsolidationRequests.StepExact | pkg/spec/metrics/state_electra.go:169-260 | one request, one epoch after the one the handler compares with and after any exits, switches and partial withdrawals granted before: the result equals the standard's if and only if the clock decides no check of switch, churn, activity or age that is reached and none of the grants and no wrapped sum touches source or target, and then the two states still correspond |
| ConsolidationRequests.RunExact | pkg/spec/metrics/state_electra.go:263-282 | for every request sequence and all exit epochs, all results are the standard's, which switches, exits and appends as it goes, if and only if every step is untouched |
| ConsolidationRequests.EpochBoundaryCounterexample | pkg/spec/metrics/state_electra.go:246-249 | a source that comes of age in the request's epoch: refused by the code, granted by the standard |
| ConsolidationRequests.RepeatedSwitchCounterexample | pkg/spec/metrics/state_electra.go:190-192 | the same switch twice: granted twice by the code, the second refused by the standard |
| ConsolidationRequests.SwitchedTargetCounterexample | pkg/spec/metrics/state_electra.go:224-226 | switch B, then A into B: refused by the code, granted by the standard |
| ConsolidationRequests.TargetExitCounterexample | pkg/spec/metrics/state_electra.go:238-244 | A into B, then B into A: granted by the code, refused by the standard |
| ConsolidationRequests.EveryRunStaysSound | pkg/spec/metrics/state_electra.go:238-365 | over every sequence of both request kinds: no validator is listed as exiting twice, each listed one keeps zero pending balance from then on, both queues keep their limits and only grow |
| ConsolidationRequests.EpochRunIsOneRun | pkg/spec/metrics/state_electra.go:63-64 | the bundle's consolidation pass followed by its withdrawal pass is one such sequence |
| ConsolidationRequests.RunAppendsPlaceholders | pkg/spec/metrics/state_electra.go:257-258 | a whole epoch of requests appends only placeholder consolidations, and none without validators |
| EpochRequests.OrdersHoldSameRequests | pkg/spec/metrics/state_electra.go:263-282 | the two passes over all blocks and the standard's order hold the same requests of each kind, in the same order within the kind |
| EpochRequests.WithdrawalsComeFirst | pkg/spec/metrics/state_electra.go:63-64 | the standard's order in a block: its withdrawals and then its consolidations, each in order, none without execution requests |
| EpochRequests.BlocksInOrder | pkg/spec/metrics/state_electra.go:63-64 | the standard's order takes the blocks one after the other |
| EpochRequests.EpochExact | pkg/spec/metrics/state_electra.go:63-64 | for every epoch of blocks and all exit epochs, both lists of results are the standard's block-by-block ones, taken in the blocks' own epoch, if and only if every request is untouched |
| EpochRequests.OrderCounterexample | pkg/spec/metrics/state_electra.go:63-64 | A exits in one block, is consolidated into B in the next: the bundle grants the second and refuses the first, the standard the opposite |
| Attestations.GetAttestingIndices | pkg/spec/metrics/state_electra.go:412-432 | the attesters are exactly the members of the selected committees with a set bit, and no one twice if committees are disjoint |
| Attestations.CreditVote | pkg/spec/metrics/state_electra.go:470-501 | the bitmap loop over one attestation credits each attester's flags not covered before, repeated attesters included, and counts the validators credited |
| Attestations.CountersCount | pkg/spec/metrics/state_electra.go:470-501 | a block's two vote counters: all listed attesters of its counted attestations, and the validators who get a flag from one that they had not yet |
| Attestations.AttestationMetrics.ProcessBlock | pkg/spec/metrics/state_electra.go:449-512 | all attestations of a block, the skipped ones included: its counters and its proposer's entry grow by the definition's tally, and its current attesters are marked |
| Attestations.AttestationMetrics.ProcessAttestations | pkg/spec/metrics/state_electra.go:435-515 | every block's `ManualReward` and vote counters grow by its tally, every proposer's entry by the sum of its blocks, and exactly the attesters of the current epoch's votes are marked as included |
| Attestations.EachFlagOnce | pkg/spec/metrics/state_altair.go:102-190 | over all attestations, each (validator, epoch, flag) is credited exactly once: credits add up to what is covered at the end |
| ProposerRewards.FlagsAreStandard | pkg/spec/metrics/state_electra.go:555-590 | the flags of every admissible attestation are those of the standard, with its own delays: 1 slot for the head, the whole square root of 32 for the source |
| ProposerRewards.PickedIsStandard | pkg/spec/metrics/state_electra.go:412-432 | the attesters are those of the standard's committee-by-committee walk over the bits |
| ProposerRewards.ManualRewardIsStandard | pkg/spec/metrics/state_electra.go:435-515 | for any blocks of two successive epochs with admissible attestations: what is added to a block of the second is what `process_attestation` with its own flags, weights, attesters and its two rotating participation lists pays the proposer, and nothing is added to a block of the first |
| Attestations.ProposersGetAllRewards | pkg/spec/metrics/state_altair.go:178-185 | what is entered for proposers is in total what is added to blocks |
| Attestations.ProposersShareBounded | pkg/spec/metrics/state_altair.go:178-185 | for any blocks, the rewards of one bundle are at most floor(108 × sum of base rewards / 448), although each attestation is rounded on its own |
| Attestations.NoSumWraps | pkg/spec/metrics/state_electra.go:481-508 | while 108 times the sum of base rewards fits uint64, so do every attestation's credit, every block's reward and every proposer's entry |
| InclusionWindows.ProcessInclusionDelays | pkg/spec/metrics/state_deneb.go:143-176 | every validator gets the delay of its first included vote, or one more than its maximum |
| InclusionWindows.RecordedIsLeast | pkg/spec/metrics/state_deneb.go:143-176 | with ascending blocks and one attested slot, that is the least delay of all inclusions, and the maximum plus one exactly when there is none |
| InclusionWindows.RecordedPlainly | pkg/spec/metrics/state_deneb.go:143-176 | the same in plain terms of slots, blocks and attesters; 64 less the slot's place in its epoch when there is none |
| InclusionWindows.IsFlagPossible | pkg/spec/metrics/state_deneb.go:245-278 | the search succeeds exactly when a block was proposed in the flag's window, although for the target it reads one slot further |
| InclusionWindows.FlagPossibleExactly | pkg/spec/metrics/state_deneb.go:245-278 | a flag counts as possible if and only if some proposed block of the two epochs would have given it, by the standard's rules, to a fully matching attestation |
| InclusionWindows.FlagsNest | pkg/spec/metrics/state_deneb.go:245-278 | head possible implies source possible implies target possible |
| MissedBlocks.TrackMissingBlocks | pkg/spec/state.go:262-290 | with distinct roots, the result is the list of empty slots of the epoch, wherever it lies in the ring, the last slot included |
| MissedBlocks.EmptySlotsExactly | pkg/spec/state.go:262-290 | that list is ascending and holds all empty slots and no other |
| MissedBlocks.CountParticipations | pkg/spec/metrics/state_altair.go:211-221 | per member, set bits over all blocks, modulo 256 |
| MissedBlocks.MaxSyncRewards | pkg/spec/metrics/state_altair.go:222-225 | per member, one full maximum for each place it has in the committee |
| MissedBlocks.CountedWithinMaximum | pkg/spec/metrics/state_altair.go:193-227 | counted participations are never worth more than the maximum, and are the true count if fewer than 256 were possible |
| MissedBlocks.ParticipationsWithinMaximum | pkg/spec/metrics/state_altair.go:193-227 | the same from the ring: with the missed slots found there, for the blocks of the epoch's own slots |
| RewardsWindow.RewardsAggregator.ProcessEpochValRewards | pkg/analyzer/process_state.go:298-340 | after any deliveries, bounds, seen set, open sums and every written window are those of the delivery history |
| RewardsWindow.RewardsAggregator.ValidPlainly | pkg/analyzer/process_state.go:312-337 | between calls, in plain terms: who has a row in the k-th window, its bounds s0+k·n and s0+(k+1)·n−1, each of its sums, what is written and what is open |
| RewardsWindow.WrittenExactly | pkg/analyzer/process_state.go:325-337 | exactly the windows with some row are written |
| RewardsWindow.ClosedWindowIsExact | pkg/analyzer/process_state.go:312-337 | for any deliveries the k-th flushed window holds one delivery of each epoch of [s0+k·n, s0+(k+1)·n−1] and of no other |
| RewardsWindow.ClosedStays | pkg/analyzer/process_state.go:325-337 | over the whole delivery history, a flushed window never changes and keeps its place |
| RewardsWindow.CountsFirstDelivery | pkg/analyzer/process_state.go:312-323 | what is counted for an epoch is the first delivery made while its window was open |
| RewardsWindow.FlushesExactlyWhenComplete | pkg/analyzer/process_state.go:325-337 | a delivery flushes if and only if it completes the seen set to the whole window |
| RewardsWindow.NarrowAdd | pkg/spec/validator_rewards_aggregation.go:62-87 | narrowing at each addition, in every field's width, is narrowing the true sum once |
| RewardsWindow.NarrowIsResidue | pkg/spec/validator_rewards_aggregation.go:7-25 | each field keeps the true sum modulo its own width, in that width's range |
| RewardsWindow.OneRowComesBack | pkg/spec/validator_rewards_aggregation.go:62-87 | a row alone in its window comes back field by field |
| RewardsWindow.CountersFitExactly | pkg/spec/validator_rewards_aggregation.go:62-87 | no uint16 counter can wrap, whatever the rows, if and only if a window has at most 257 epochs |
| BlockingMap.AgnosticMap.Set | pkg/analyzer/utils.go:83-98 | returns if and only if no subscriber was cancelled; then the whole call is a begin, one send per subscriber and an end, all who waited have the new value and no subscriber is left |
| BlockingMap.AgnosticMap.Wait | pkg/analyzer/utils.go:100-130 | returns the entry, or subscribes the call's own channel |
| BlockingMap.AgnosticMap.Cancel | pkg/analyzer/utils.go:119-121 | the call goes away at any time and leaves its channel subscribed |
| BlockingMap.AgnosticMap.Delete | pkg/analyzer/utils.go:132-146 | a present key is always removed |
| BlockingMap.WriterBlocksExactly | pkg/analyzer/utils.go:92-97 | the writer that holds the lock can neither send nor return if and only if the next subscriber was cancelled |
| BlockingMap.BlockedForEver | pkg/analyzer/utils.go:83-98 | then it holds the lock in every continuation |
| BlockingMap.CancelledWaitBlocks | pkg/analyzer/utils.go:117-121 | wait, cancel, set: whatever follows, the lock is never free again |
| BlockingMap.WriterNeverBlocks | pkg/analyzer/utils.go:92-97 | in every interleaving without cancelled waits the writer that holds the lock can send or return |
| BlockingMap.NoLostWakeup | pkg/analyzer/utils.go:100-130 | in every interleaving, cancelled waits included, with the lock free a waiter waits only while the key has no value |
| BlockingMap.ReceivedWasHeld | pkg/analyzer/utils.go:83-130 | every received value was the map's entry for the key at the step that answered the call |
| BlockingMap.ReceivedOnce | pkg/analyzer/utils.go:117-129 | each call gets exactly one value |
| BlockingMap.DeleteRemoves | pkg/analyzer/utils.go:132-146 | in every interleaving, deleting a present key removes it |
| RoutineBook.TokensNeverExceedSize | pkg/utils/book.go:37-70 | in every interleaving, tokens, pages and acquirers in between never exceed the size, and equal it if and only if no held key was acquired |
| RoutineBook.FreeingNeverBlocks | pkg/utils/book.go:59-70 | the send under the lock always has room |
| RoutineBook.FreePagesShown | pkg/utils/book.go:126-130 | the free pages shown are the free tokens plus acquirers on their way plus lost tokens |
| RoutineBook.AcquiresExactly | pkg/utils/book.go:43-56 | in every interleaving, acquiring can start if and only if pages, acquirers and lost tokens leave one of the size free |
| RoutineBook.OverwritingStarves | pkg/utils/book.go:96-101 | after as many overwritten pages as tokens, no one ever acquires again |
| RoutineBook.RoutineBook.FreePage | pkg/utils/book.go:59-70 | the page is gone and its token back, with room for it proved |
| RoutineBook.RoutineBook.ActivePages | pkg/utils/book.go:113-124 | the loop counts every page |
| Pipeline.EveryRunEnds | pkg/analyzer/routines.go:182-228 | for every interleaving: no run exceeds a fixed amount of work, and a run that cannot go on has ended every routine if and only if it was given whole epochs and no routine still needs what was evicted |
| Pipeline.FinishesExactly | pkg/analyzer/routines.go:199-215 | for aligned starts, all interleavings finish if and only if the run has at most six epochs |
| Pipeline.DonePlainly | pkg/analyzer/routines.go:187-225 | a run that has ended every routine has downloaded and processed every slot from the first to the last one given, and has the state and metrics of every epoch that ends among them |
| Pipeline.LostForEver | pkg/analyzer/chain_cache.go:108-126 | a routine that needs an evicted entry it has not asked for never gets it |
| Pipeline.LostIsFarBehind | pkg/analyzer/routines.go:209-213 | only a routine at least four epochs behind the producer can need an evicted entry |
| Pipeline.WaitingHasOrder | pkg/analyzer/routines.go:17-46 | whatever a routine waits for comes strictly before it in one order of all routines: no cycle |
| Pipeline.WaitersAreBlocked | pkg/analyzer/routines.go:17-46 | a routine that waits for another has no step of its own |
| Pipeline.EveryoneMovesOrWaits | pkg/analyzer/process_state.go:25-69 | with nothing lost, every started routine has a step or waits for a started one |
| Pipeline.Progress | pkg/analyzer/routines.go:182-228 | with nothing lost, in every reachable state with unfinished routines some routine can step, pages or tokens being exhausted or not |
| Pipeline.NextTokens | pkg/utils/book.go:43-70 | every token is free or with exactly one routine, at every step |
| Pipeline.NextBackPressure | pkg/analyzer/download.go:77-119 | no block is downloaded before the state two epochs back has been stored |
| Pipeline.MetricsSeeWholeEpochs | pkg/analyzer/process_state.go:45-69 | in every run, metrics are computed only from three states that were stored with all blocks of their epochs |
| Pipeline.WaitsForPages | pkg/analyzer/process_state.go:34-37 | metrics pass the barrier only while the page of the epoch before is closed, and each block of that epoch only while its page is |
| Finality.ChainAnalyzer.AdvanceFinalized | pkg/analyzer/reorg.go:12-129 | the single pass over sorted keys writes again exactly the differing cached blocks and computes again exactly the epochs of the definition, in order; states whose blocks differ are given those same blocks; then exactly the epochs starting below the bound are gone |
| Finality.DueExactly | pkg/analyzer/reorg.go:66-95 | an epoch is due if and only if its state root differs or the blocks of a cached epoch among it and the two before it do |
| Finality.DuePlainly | pkg/analyzer/reorg.go:66-95 | the same with slots: a differing cached block of a cached epoch fewer than three epochs back, or a differing state root |
| Finality.DifferingExactly | pkg/analyzer/reorg.go:37-55 | the rows written again are exactly those of cached blocks that are not the finalized ones |
| Finality.RefreshKeepsOldBlock | pkg/analyzer/chain_cache.go:86-106 | an epoch whose blocks differ still has a state pointing to a block that is not finalized after the pass |
| Finality.ChainAnalyzer.EnsureDependencyStates | pkg/analyzer/reorg.go:135-163 | afterwards all three states are cached, nothing that was cached has changed |
| CachedChain.ChainCache.CleanUpTo | pkg/analyzer/chain_cache.go:108-126 | exactly the states that start below the bound and the blocks of their slots are evicted |
| Finality.UncheckedEviction | pkg/analyzer/reorg.go:27-30 | an epoch is evicted unchecked if and only if the bound lies inside it |
| Reorg.HandleReorg | pkg/analyzer/reorg.go:165-233 | the walk ends by itself if and only if depth+1 proposed blocks lie below the reorganised slot, every slot down to the last of them is cached, and every changed state at an epoch's end has the two states before it (from the run's first epoch on) cached; orphans, rewritten slots and deleted epochs are exactly those whose roots changed, and all deleted epochs have been computed again if it ends |
| Reorg.EvictedStatesCounterexample | pkg/analyzer/reorg.go:223-228 | a concrete cache where the walk deletes an epoch's rows and then waits for two evicted states for ever |
| Reorg.OrphansExactly | pkg/analyzer/reorg.go:195-198 | the orphans are exactly the old proposed blocks whose root changed |
| Reorg.RewrittenExactly | pkg/analyzer/reorg.go:194-201 | the slots written again are exactly the walked ones whose cached root is not the node's, missed or proposed, from the head down and each once |
| Reorg.OrphansFollowRewritten | pkg/analyzer/reorg.go:194-201 | the orphans come in the order of those slots |
| Reorg.DeletedExactly | pkg/analyzer/reorg.go:208-227 | the epochs whose rows are deleted are exactly the cached ones whose last slot was walked and whose state root changed, from the head down and each once |
| Reorg.ReprocessedExactly | pkg/analyzer/reorg.go:223-228 | those computed again are exactly the ones whose two earlier states, from the run's first epoch on, are cached |
| Reorg.EndsExactly | pkg/analyzer/reorg.go:174-184 | where the walk ends, in plain terms of cached slots, cached states and proposed blocks |
| Reorg.EndsOnce | pkg/analyzer/reorg.go:174-184 | there is only one slot where the walk can end |
| Reorg.StateBlocksFreshExactly | pkg/analyzer/reorg.go:208-221 | a walked state has the blocks the cache ends up with if and only if no lower walked slot of its epoch changed |
| Reorg.OldBlockCounterexample | pkg/analyzer/reorg.go:208-221 | a concrete walk of two slots leaves a state with the old block of the first |
| StoredRows.DBService.DeleteStateMetrics | pkg/db/epoch_metrics.go:206-265 | of the rows computed from the epoch's state, removes exactly the epoch metrics, the validator rewards and the first slot's duty: no other duty, no block reward and no slashing, deposit, consolidation or request row |
| StoredRows.StoredExactly | pkg/db/epoch_metrics.go:206-265 | at the end of every run of bundles in flight, replacements and deletions, a row is stored if and only if it was there or was written and no later step removed it; what deletions overlook is removed only by a row at the same place (a duty: with the same proposer) |
| StoredRows.StaleExactly | pkg/analyzer/process_state.go:45-104 | after every run with all deletions made, a stale epoch or reward row is stored if and only if some write came after the replacement and the deletion of a state the bundle had read, and no later step cleared it |
| StoredRows.SafeExactly | pkg/analyzer/reorg.go:205-230 | no run leaves a stale epoch or reward row if and only if check and replacement are one step, an epoch has at most one bundle in flight, and the wait covers the epoch's bundle and the next two |
| StoredRows.ReorgStaleRun | pkg/analyzer/reorg.go:214-227 | a concrete run under the handler's own wait that ends with a stale reward row |
| StoredRows.OwnEpochIsNotEnough | pkg/analyzer/reorg.go:214 | neither the handler's wait nor one for the page of the replaced epoch alone, even at its best, is enough |
| StoredRows.StaleDutyStaysExactly | pkg/db/proposer_duties.go:19-22 | a duty of the replaced state is still stored after its bundle is written again if and only if its slot is not the first and the proposer changed |
| StoredRows.StaleRecordStaysExactly | pkg/analyzer/process_state.go:90-95 | a slashing, deposit, consolidation or request row of a replaced state is still stored after its bundle is written again if and only if none is written at its place |
| StoredRows.StaleBlockRewardsStay | pkg/analyzer/process_state.go:86 | after a deletion and the epoch's own bundle again, the rewards of the epoch's own blocks are still the stale ones |
| StoredRows.LostUntilRecomputed | pkg/analyzer/reorg.go:96-121 | a deletion and the recomputation of its own epoch lose exactly the epoch and reward rows of the next two bundles that used the state |

## Left out

- Requests to beacon, execution and relay nodes, retries, event streams, ClickHouse drivers and the persist helpers: what they return is a parameter or a function, what they store is a set of rows.
- Fork constructors of blocks and states, logging, metrics export, command line, configuration, pool summaries.
- Floating point: the base reward is a parameter per validator, and the source window is the whole square root 5.
- Phase 0 metrics and the Altair variant of the target flag (delay at most 32): the Deneb rules are modelled, which Electra shares.
- `GetMaxFlagIndexDeltas`, `ProcessSlashings` and the assembly of a validator's maximum reward: sums of expressions over the parts that are modelled.
- `AddBlocks` and `RefreshBlocks` totals: plain sums; `ProcessPendingDeposits` shows what happens to the deposit totals.
- ElectraMetrics.ElectraMetrics.PreProcessBundle: attestations, inclusion delays and sync committees are modelled in their own modules, not as passes of this method; slashings and deposit requests are left out.
- EpochReward.RewardIsExact: the deposit sums of the replay fit uint64 (`DepositsFit`), as the standard requires.
- EpochRequests.EpochExact: on both sides the registry, the balances and the two older queues stay those of the cached state but for what the requests themselves do; the standard's other work at the transition (registry updates, pending deposits and consolidations, effective balances) and inside the blocks is not modelled. The total active balance of the blocks' epoch is free. The exit epoch that the standard assigns comes from the exit churn, which is not modelled either; it is any finite later epoch.
- WithdrawalRequests.RunExact: frozen registry, balances and queues and free exit epochs, as for `EpochExact`.
- ConsolidationRequests.RunExact: frozen registry, balances and queues and free exit epochs, as for `EpochExact`.
- Attestations.AttestationMetrics.ProcessAttestations: reward sums are naturals (`NoSumWraps`); bitmaps are sequences of flag sets. `ManualReward` left by earlier bundles is not bounded.
- Attestations.AttestationMetrics.ProcessBlock: naturals and flag sets, as for `ProcessAttestations`.
- ProposerRewards.ManualRewardIsStandard: source, target and head of an attestation are compared with the same roots on both sides, and base rewards are given per validator.
- RewardsWindow.RewardsAggregator.ProcessEpochValRewards: an aggregation row is a value in the map, not an object shared by reference.
- Pipeline.EveryRunEnds: the finalized slot lies beyond the run, so that the producer only cleans and does not check; nothing is cancelled; block and epoch metrics are both on; every downloaded state has a root. An epoch's state and blocks are evicted in one step. Polling waits are guards.
- Pipeline.Progress: a strict order of epochs is not claimed: an epoch's barrier looks at the page of the one before, which may not be open yet.
- Finality.ChainAnalyzer.AdvanceFinalized: computing metrics and writing a block's rows are entries in two logs.
- Reorg.HandleReorg: one walk with no other routine at work; bundles in flight beside it are the subject of `StoredRows`.
- StoredRows.DBService.DeleteStateMetrics: pool summaries and validator statuses, which are computed from other tables or overwritten by epoch, are not modelled.
- StoredRows.SafeExactly: a bundle in flight writes its tables in any order; deleting one state's rows is one step, and a state fetched again after eviction is unchanged.
