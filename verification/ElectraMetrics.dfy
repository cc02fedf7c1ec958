/** The Electra metrics bundle as it runs: loops over the cached states that fill per-validator maps
    and extend queues in place, each proved against the value-level definitions. */
module ElectraMetrics {
  import opened Chain
  import opened ConsolidationQueue
  import opened RequestLedger
  import opened EpochReward
  import DepositQueue
  import WithdrawalRequests
  import ConsolidationRequests
  import opened EpochRequests
  import ElectraSpec

  /** One row of the processed consolidations; skipped entries are kept as invalid. */
  datatype ConsolidationProcessed = ConsolidationProcessed(
    epoch: nat, index: nat, source: nat, target: nat, amount: Uint64, valid: bool)

  /** The fields of a cached state that the bundle reads (constants) and updates (variables). */
  class AgnosticState {
    const epoch: nat
    const emptyStateRoot: bool
    const registry: seq<Validator>
    const balances: seq<Uint64>
    const totalActiveBalance: Uint64
    const finalizedEpoch: nat
    const depositBalanceToConsume: Uint64
    const eth1DepositIndex: nat
    const depositRequestsStartIndex: nat
    const pendingDeposits: seq<DepositQueue.PendingDeposit>
    const blocks: seq<Block>
    const withdrawals: seq<Uint64>
    const deposits: seq<Uint64>

    var pendingConsolidations: seq<PendingConsolidation>
    var pendingPartialWithdrawals: seq<PartialWithdrawal>
    var newExitingValidators: seq<nat>
    var consolidatedAmounts: map<nat, Uint64>
    var consolidatedOutAmounts: map<nat, Uint64>
    var depositedAmounts: map<nat, Uint64>
    var depositsProcessed: seq<DepositQueue.PendingDeposit>
    var depositsNum: Uint64
    var totalDepositsAmount: Uint64
    var consolidationsProcessed: seq<ConsolidationProcessed>
    var consolidationsProcessedAmount: Uint64
    var consolidationResults: seq<ConsolidationRequests.Result>
    var withdrawalResults: seq<WithdrawalRequests.Result>

    function AsLedger(): Ledger
      reads this
    {
      Ledger(pendingPartialWithdrawals, newExitingValidators, pendingConsolidations)
    }

    /** The fields that the deposit walk from this state reads. */
    function TransitionTo(finalized: nat): DepositQueue.Transition {
      DepositQueue.Transition(epoch, depositBalanceToConsume, totalActiveBalance, eth1DepositIndex, depositRequestsStartIndex, finalized)
    }

    /** No sum the deposit walk forms leaves uint64; the standard is undefined otherwise. */
    ghost predicate DepositsFit() {
      var available := depositBalanceToConsume + ElectraSpec.ActivationExitChurnLimit(totalActiveBalance);
      available < U64 && forall i :: 0 <= i < |pendingDeposits| ==> available + pendingDeposits[i].amount < U64
    }
  }

  // ------------------------------------------------------------ accumulating into a map

  /** One statement m[index] += amount. */
  datatype Entry = Entry(index: nat, amount: Uint64)

  /** The map after the entries have been added in order. */
  function PlusAll(m: map<nat, Uint64>, entries: seq<Entry>): map<nat, Uint64> {
    if entries == [] then m
    else var last := entries[|entries| - 1];
         Plus(PlusAll(m, entries[..|entries| - 1]), last.index, last.amount)
  }

  function SumFor(entries: seq<Entry>, v: nat): nat {
    if entries == [] then 0
    else var last := entries[|entries| - 1];
         SumFor(entries[..|entries| - 1], v) + if last.index == v then last.amount else 0
  }

  /** Every reading of the map is its old value plus the true sum, modulo the word size. */
  lemma {:induction false} PlusAllReads(m: map<nat, Uint64>, entries: seq<Entry>, v: nat)
    ensures At(PlusAll(m, entries), v) == Wrap(At(m, v) + SumFor(entries, v))
  {
    if entries != [] {
      var rest, last := entries[..|entries| - 1], entries[|entries| - 1];
      PlusAllReads(m, rest, v);
      if last.index == v { WrapAdd(At(m, v) + SumFor(rest, v), last.amount); }
    }
  }

  lemma PlusAllSnoc(m: map<nat, Uint64>, entries: seq<Entry>, e: Entry)
    ensures PlusAll(m, entries + [e]) == Plus(PlusAll(m, entries), e.index, e.amount)
  {
    assert (entries + [e])[..|entries|] == entries;
  }

  lemma SumForSnoc(entries: seq<Entry>, e: Entry, v: nat)
    ensures SumFor(entries + [e], v) == SumFor(entries, v) + if e.index == v then e.amount else 0
  {
    assert (entries + [e])[..|entries|] == entries;
  }

  /** A uint64 counter after the amounts have been added in order. */
  function AddAll(x: Uint64, amounts: seq<Uint64>): Uint64 {
    if amounts == [] then x
    else Wrap(AddAll(x, amounts[..|amounts| - 1]) + amounts[|amounts| - 1])
  }

  lemma {:induction false} AddAllIsSum(x: Uint64, amounts: seq<Uint64>)
    ensures AddAll(x, amounts) == Wrap(x + Sum(amounts))
  {
    if amounts != [] {
      var rest := amounts[..|amounts| - 1];
      AddAllIsSum(x, rest);
      WrapAdd(x + Sum(rest), amounts[|amounts| - 1]);
    }
  }

  /** A map that gives every key the last index that holds it. */
  ghost predicate IndexesRegistry(m: map<Bytes, nat>, registry: seq<Validator>) {
    forall key :: (if key in m then Some(m[key]) else None) == LastIndex(registry, key)
  }

  method PubkeyIndex(registry: seq<Validator>) returns (m: map<Bytes, nat>)
    ensures IndexesRegistry(m, registry)
  {
    m := map[];
    for i := 0 to |registry|
      invariant IndexesRegistry(m, registry[..i])
    {
      assert registry[..i + 1][..i] == registry[..i];
      m := m[registry[i].pubkey := i];
    }
    assert registry[..|registry|] == registry;
  }

  // ------------------------------------------------------------ what the loops have done so far

  /** The amounts the walk has credited to validators after i entries. */
  function DepositEntries(rules: DepositQueue.Rules, registry: seq<Validator>, queue: seq<DepositQueue.PendingDeposit>, i: nat): seq<Entry>
    requires i <= |queue|
  {
    if i == 0 then []
    else
      var before, d := DepositEntries(rules, registry, queue, i - 1), queue[i - 1];
      var index := LastIndex(registry, d.pubkey);
      if index.Some? && DepositQueue.FateOf(rules, registry, d) != DepositQueue.Postponed
      then before + [Entry(index.value, d.amount)] else before
  }

  /** The entries applied among the first i. */
  function AppliedUpTo(rules: DepositQueue.Rules, registry: seq<Validator>, queue: seq<DepositQueue.PendingDeposit>, i: nat): seq<DepositQueue.PendingDeposit>
    requires i <= |queue|
  {
    if i == 0 then []
    else
      var before := AppliedUpTo(rules, registry, queue, i - 1);
      if DepositQueue.FateOf(rules, registry, queue[i - 1]) != DepositQueue.Postponed
      then before + [queue[i - 1]] else before
  }

  /** The deposits that one whole transition applies, in order. */
  function Applied(rules: DepositQueue.Rules, registry: seq<Validator>, queue: seq<DepositQueue.PendingDeposit>): seq<DepositQueue.PendingDeposit> {
    AppliedUpTo(rules, registry, queue, DepositQueue.Consumed(rules, registry, queue, 0, 0))
  }

  function Amounts(deposits: seq<DepositQueue.PendingDeposit>): (amounts: seq<Uint64>)
    ensures |amounts| == |deposits|
  {
    if deposits == [] then [] else Amounts(deposits[..|deposits| - 1]) + [deposits[|deposits| - 1].amount]
  }

  function Ones(n: nat): (s: seq<Uint64>)
    ensures |s| == n
  {
    if n == 0 then [] else Ones(n - 1) + [1]
  }

  lemma {:induction false} OnesSum(n: nat)
    ensures Sum(Ones(n)) == n
  {
    if n > 0 {
      OnesSum(n - 1);
      assert Ones(n)[..n - 1] == Ones(n - 1);
    }
  }

  /** The two counters of the deposit rows, as they stand after the rows so far. */
  ghost predicate Counted(rows: seq<DepositQueue.PendingDeposit>, numBefore: Uint64, totalBefore: Uint64, num: Uint64, total: Uint64) {
    num == AddAll(numBefore, Ones(|rows|)) && total == AddAll(totalBefore, Amounts(rows))
  }

  lemma CountsOne(rows: seq<DepositQueue.PendingDeposit>, d: DepositQueue.PendingDeposit,
                  numBefore: Uint64, totalBefore: Uint64, num: Uint64, total: Uint64, num1: Uint64, total1: Uint64)
    requires Counted(rows, numBefore, totalBefore, num, total)
    requires num1 == Wrap(num + 1) && total1 == Wrap(total + d.amount)
    ensures Counted(rows + [d], numBefore, totalBefore, num1, total1)
  {
    assert (rows + [d])[..|rows|] == rows;
    assert Amounts(rows + [d])[..|rows|] == Amounts(rows);
    assert Ones(|rows| + 1)[..|rows|] == Ones(|rows|);
  }

  /** The counters are not reset: a second bundle over the same state adds the same rows again. */
  ghost predicate CountersAdvance(rows: seq<DepositQueue.PendingDeposit>, numBefore: Uint64, totalBefore: Uint64, num: Uint64, total: Uint64) {
    num == Wrap(numBefore + |rows|) && total == Wrap(totalBefore + Sum(Amounts(rows)))
  }

  lemma CountedIsSum(rows: seq<DepositQueue.PendingDeposit>, numBefore: Uint64, totalBefore: Uint64, num: Uint64, total: Uint64)
    requires Counted(rows, numBefore, totalBefore, num, total)
    ensures CountersAdvance(rows, numBefore, totalBefore, num, total)
  {
    OnesSum(|rows|);
    AddAllIsSum(numBefore, Ones(|rows|));
    AddAllIsSum(totalBefore, Amounts(rows));
  }

  lemma {:induction false} CreditedSnoc(
      rules: DepositQueue.Rules, registry: seq<Validator>, queue: seq<DepositQueue.PendingDeposit>, i: nat, v: nat)
    requires i < |queue|
    ensures DepositQueue.Credited(rules, registry, queue, i + 1, v)
            == DepositQueue.Credited(rules, registry, queue, i, v) + DepositQueue.CreditOf(rules, registry, queue[i], v)
  {
    if i > 0 { CreditedSnoc(rules, registry, queue[1..], i - 1, v); }
  }

  lemma DepositEntriesStep(
      rules: DepositQueue.Rules, registry: seq<Validator>, queue: seq<DepositQueue.PendingDeposit>, i: nat, v: nat)
    requires 0 < i <= |queue|
    ensures SumFor(DepositEntries(rules, registry, queue, i), v)
            == SumFor(DepositEntries(rules, registry, queue, i - 1), v) + DepositQueue.CreditOf(rules, registry, queue[i - 1], v)
  {
    var index := LastIndex(registry, queue[i - 1].pubkey);
    if index.Some? {
      SumForSnoc(DepositEntries(rules, registry, queue, i - 1), Entry(index.value, queue[i - 1].amount), v);
    }
  }

  lemma {:induction false} DepositEntriesSum(
      rules: DepositQueue.Rules, registry: seq<Validator>, queue: seq<DepositQueue.PendingDeposit>, i: nat, v: nat)
    requires i <= |queue|
    ensures SumFor(DepositEntries(rules, registry, queue, i), v) == DepositQueue.Credited(rules, registry, queue, i, v)
  {
    if i > 0 {
      DepositEntriesSum(rules, registry, queue, i - 1, v);
      DepositEntriesStep(rules, registry, queue, i, v);
      CreditedSnoc(rules, registry, queue, i - 1, v);
    }
  }

  /** The walk has taken i entries so far, all of the ones it must take and no others. */
  ghost predicate WalkedSoFar(
      rules: DepositQueue.Rules, registry: seq<Validator>, queue: seq<DepositQueue.PendingDeposit>, i: nat, used: nat)
  {
    && i <= |queue| && used <= rules.available
    && DepositQueue.Consumed(rules, registry, queue, 0, 0)
       == i + DepositQueue.Consumed(rules, registry, queue[i..], i, used)
  }

  lemma WalksOn(
      rules: DepositQueue.Rules, registry: seq<Validator>, queue: seq<DepositQueue.PendingDeposit>, i: nat, used: nat, spent: nat)
    requires WalkedSoFar(rules, registry, queue, i, used)
    requires i < |queue| && i < DepositQueue.MAX_PENDING_DEPOSITS_PER_EPOCH && DepositQueue.GateOpen(rules, queue[i])
    requires spent == used + DepositQueue.ChurnOf(rules, registry, queue[i]) && spent <= rules.available
    ensures WalkedSoFar(rules, registry, queue, i + 1, spent)
  {
    assert queue[i..][0] == queue[i] && queue[i..][1..] == queue[i + 1..];
  }

  /** One turn of either replay, in one step: the walk, the map and the rows. */
  ghost predicate ReplayState(
      rules: DepositQueue.Rules, registry: seq<Validator>, queue: seq<DepositQueue.PendingDeposit>, i: nat, used: nat,
      before: map<nat, Uint64>, now: map<nat, Uint64>, rows: seq<DepositQueue.PendingDeposit>)
  {
    && WalkedSoFar(rules, registry, queue, i, used)
    && now == PlusAll(before, DepositEntries(rules, registry, queue, i))
    && rows == AppliedUpTo(rules, registry, queue, i)
  }

  lemma ReplayTurn(
      rules: DepositQueue.Rules, registry: seq<Validator>, queue: seq<DepositQueue.PendingDeposit>, i: nat, used: nat, spent: nat,
      before: map<nat, Uint64>, now: map<nat, Uint64>, after: map<nat, Uint64>,
      rows: seq<DepositQueue.PendingDeposit>, rowsAfter: seq<DepositQueue.PendingDeposit>)
    requires ReplayState(rules, registry, queue, i, used, before, now, rows)
    requires i < |queue| && i < DepositQueue.MAX_PENDING_DEPOSITS_PER_EPOCH && DepositQueue.GateOpen(rules, queue[i])
    requires spent == used + DepositQueue.ChurnOf(rules, registry, queue[i]) && spent <= rules.available
    requires var index := LastIndex(registry, queue[i].pubkey);
             var applied := DepositQueue.FateOf(rules, registry, queue[i]) != DepositQueue.Postponed;
             && after == (if index.Some? && applied then Plus(now, index.value, queue[i].amount) else now)
             && rowsAfter == (if applied then rows + [queue[i]] else rows)
    ensures ReplayState(rules, registry, queue, i + 1, spent, before, after, rowsAfter)
  {
    WalksOn(rules, registry, queue, i, used, spent);
    var index := LastIndex(registry, queue[i].pubkey);
    if index.Some? {
      PlusAllSnoc(before, DepositEntries(rules, registry, queue, i), Entry(index.value, queue[i].amount));
    }
  }

  /** Why the walk takes no further entry. */
  predicate Stops(rules: DepositQueue.Rules, registry: seq<Validator>, queue: seq<DepositQueue.PendingDeposit>, i: nat, used: nat)
    requires i <= |queue|
  {
    || i == |queue|
    || !DepositQueue.GateOpen(rules, queue[i])
    || i >= DepositQueue.MAX_PENDING_DEPOSITS_PER_EPOCH
    || (DepositQueue.FateOf(rules, registry, queue[i]) == DepositQueue.AppliedFromChurn
        && used + queue[i].amount > rules.available)
  }

  lemma WalkEnds(
      rules: DepositQueue.Rules, registry: seq<Validator>, queue: seq<DepositQueue.PendingDeposit>, i: nat, used: nat)
    requires WalkedSoFar(rules, registry, queue, i, used) && Stops(rules, registry, queue, i, used)
    ensures i == DepositQueue.Consumed(rules, registry, queue, 0, 0)
  {
    if i < |queue| { assert queue[i..][0] == queue[i]; }
  }

  /** What the whole walk leaves in the map. */
  ghost predicate MapHoldsDeposits(
      rules: DepositQueue.Rules, registry: seq<Validator>, queue: seq<DepositQueue.PendingDeposit>,
      before: map<nat, Uint64>, after: map<nat, Uint64>)
  {
    forall v: nat :: At(after, v) == Wrap(At(before, v) + DepositQueue.Deposited(rules, registry, queue, v))
  }

  lemma WalkFillsMap(
      rules: DepositQueue.Rules, registry: seq<Validator>, queue: seq<DepositQueue.PendingDeposit>,
      before: map<nat, Uint64>, after: map<nat, Uint64>)
    requires after == PlusAll(before, DepositEntries(rules, registry, queue, DepositQueue.Consumed(rules, registry, queue, 0, 0)))
    ensures MapHoldsDeposits(rules, registry, queue, before, after)
  {
    var k := DepositQueue.Consumed(rules, registry, queue, 0, 0);
    forall v: nat ensures At(after, v) == Wrap(At(before, v) + DepositQueue.Deposited(rules, registry, queue, v)) {
      DepositEntriesSum(rules, registry, queue, k, v);
      PlusAllReads(before, DepositEntries(rules, registry, queue, k), v);
    }
  }

  function Zeros(n: nat): seq<nat> { seq(n, _ => 0) }

  /** Read against the standard's own walk from the same fields, with balances that start at zero: every
      validator's entry has grown by what the standard adds to it. */
  ghost predicate MapHoldsStandard(
      t: DepositQueue.Transition, registry: seq<Validator>, queue: seq<DepositQueue.PendingDeposit>,
      before: map<nat, Uint64>, after: map<nat, Uint64>)
  {
    DistinctKeys(registry) && t.epoch + 1 <= FAR_FUTURE_EPOCH ==>
      var end := DepositQueue.StandardDeposits(t, registry, Zeros(|registry|), queue);
      |registry| <= |end.balances| && forall v :: 0 <= v < |registry| ==> At(after, v) == Wrap(At(before, v) + end.balances[v])
  }

  lemma MapIsStandard(
      t: DepositQueue.Transition, registry: seq<Validator>, queue: seq<DepositQueue.PendingDeposit>,
      before: map<nat, Uint64>, after: map<nat, Uint64>)
    requires MapHoldsDeposits(DepositQueue.RulesOf(t), registry, queue, before, after)
    ensures MapHoldsStandard(t, registry, queue, before, after)
  {
    if DistinctKeys(registry) && t.epoch + 1 <= FAR_FUTURE_EPOCH {
      DepositQueue.DepositsRefineStandard(t, registry, Zeros(|registry|), queue);
    }
  }

  /** The rows are the deposits that the standard applies, in its order. */
  ghost predicate RowsAreStandard(
      t: DepositQueue.Transition, registry: seq<Validator>, queue: seq<DepositQueue.PendingDeposit>, rows: seq<DepositQueue.PendingDeposit>)
  {
    DistinctKeys(registry) && t.epoch + 1 <= FAR_FUTURE_EPOCH ==>
      rows == DepositQueue.StandardDeposits(t, registry, Zeros(|registry|), queue).applied
  }

  lemma {:induction false} AppliedSnoc(
      rules: DepositQueue.Rules, registry: seq<Validator>, queue: seq<DepositQueue.PendingDeposit>, i: nat)
    requires i < |queue|
    ensures DepositQueue.AppliedAmong(rules, registry, queue, i + 1)
            == DepositQueue.AppliedAmong(rules, registry, queue, i) + DepositQueue.AppliedBy(rules, registry, queue[i])
  {
    if i > 0 {
      AppliedSnoc(rules, registry, queue[1..], i - 1);
      var first := DepositQueue.AppliedBy(rules, registry, queue[0]);
      var rest, last := DepositQueue.AppliedAmong(rules, registry, queue[1..], i - 1), DepositQueue.AppliedBy(rules, registry, queue[i]);
      assert first + (rest + last) == (first + rest) + last;
    }
  }

  lemma {:induction false} AppliedEitherWay(
      rules: DepositQueue.Rules, registry: seq<Validator>, queue: seq<DepositQueue.PendingDeposit>, i: nat)
    requires i <= |queue|
    ensures AppliedUpTo(rules, registry, queue, i) == DepositQueue.AppliedAmong(rules, registry, queue, i)
  {
    if i > 0 {
      AppliedEitherWay(rules, registry, queue, i - 1);
      AppliedSnoc(rules, registry, queue, i - 1);
    }
  }

  lemma AppliedIsStandard(t: DepositQueue.Transition, registry: seq<Validator>, queue: seq<DepositQueue.PendingDeposit>)
    ensures RowsAreStandard(t, registry, queue, Applied(DepositQueue.RulesOf(t), registry, queue))
  {
    if DistinctKeys(registry) && t.epoch + 1 <= FAR_FUTURE_EPOCH {
      var rules := DepositQueue.RulesOf(t);
      DepositQueue.DepositsRefineStandard(t, registry, Zeros(|registry|), queue);
      AppliedEitherWay(rules, registry, queue, DepositQueue.Consumed(rules, registry, queue, 0, 0));
    }
  }

  /** The consolidations that the first i entries apply, as updates of the two maps. */
  function MovesUpTo(registry: seq<Validator>, balances: seq<Uint64>, queue: seq<PendingConsolidation>, i: nat): (m: (seq<Entry>, seq<Entry>))
    requires InRegistry(registry, queue) && |registry| == |balances| && i <= |queue|
  {
    if i == 0 then ([], [])
    else
      var before, c := MovesUpTo(registry, balances, queue, i - 1), queue[i - 1];
      if registry[c.source].slashed then before
      else
        var amount: Uint64 := Movable(registry, balances, c.source);
        (before.0 + [Entry(c.target, amount)], before.1 + [Entry(c.source, amount)])
  }

  lemma {:induction false} MovesAccountForQueue(
      registry: seq<Validator>, nextEpoch: nat, balances: seq<Uint64>, queue: seq<PendingConsolidation>, i: nat, v: nat)
    requires InRegistry(registry, queue) && |registry| == |balances| && i <= |queue|
    requires forall j :: 0 <= j < i ==>
               registry[queue[j].source].slashed || registry[queue[j].source].withdrawableEpoch <= nextEpoch
    ensures Incoming(registry, nextEpoch, balances, queue, v)
            == SumFor(MovesUpTo(registry, balances, queue, i).0, v) + Incoming(registry, nextEpoch, balances, queue[i..], v)
    ensures Outgoing(registry, nextEpoch, balances, queue, v)
            == SumFor(MovesUpTo(registry, balances, queue, i).1, v) + Outgoing(registry, nextEpoch, balances, queue[i..], v)
  {
    if i == 0 {
      assert queue[0..] == queue;
    } else {
      MovesAccountForQueue(registry, nextEpoch, balances, queue, i - 1, v);
      var c := queue[i - 1];
      assert queue[i - 1..][0] == c && queue[i - 1..][1..] == queue[i..];
      if !registry[c.source].slashed {
        var before, amount := MovesUpTo(registry, balances, queue, i - 1), Movable(registry, balances, c.source);
        SumForSnoc(before.0, Entry(c.target, amount), v);
        SumForSnoc(before.1, Entry(c.source, amount), v);
      }
    }
  }

  /** What the whole replay leaves in the two maps. */
  ghost predicate MapsHoldConsolidations(
      registry: seq<Validator>, nextEpoch: nat, balances: seq<Uint64>, queue: seq<PendingConsolidation>,
      inBefore: map<nat, Uint64>, outBefore: map<nat, Uint64>, inAfter: map<nat, Uint64>, outAfter: map<nat, Uint64>)
    requires InRegistry(registry, queue) && |registry| == |balances|
  {
    && (forall v: nat :: At(inAfter, v) == Wrap(At(inBefore, v) + Incoming(registry, nextEpoch, balances, queue, v)))
    && (forall v: nat :: At(outAfter, v) == Wrap(At(outBefore, v) + Outgoing(registry, nextEpoch, balances, queue, v)))
  }

  /** The replay has applied the first i entries, all of them due. */
  ghost predicate MovedSoFar(
      registry: seq<Validator>, nextEpoch: nat, balances: seq<Uint64>, queue: seq<PendingConsolidation>, i: nat,
      inBefore: map<nat, Uint64>, outBefore: map<nat, Uint64>, inNow: map<nat, Uint64>, outNow: map<nat, Uint64>)
    requires InRegistry(registry, queue) && |registry| == |balances|
  {
    && i <= |queue|
    && (forall j :: 0 <= j < i ==>
          registry[queue[j].source].slashed || registry[queue[j].source].withdrawableEpoch <= nextEpoch)
    && inNow == PlusAll(inBefore, MovesUpTo(registry, balances, queue, i).0)
    && outNow == PlusAll(outBefore, MovesUpTo(registry, balances, queue, i).1)
  }

  lemma SkipTurn(
      registry: seq<Validator>, nextEpoch: nat, balances: seq<Uint64>, queue: seq<PendingConsolidation>, i: nat,
      inBefore: map<nat, Uint64>, outBefore: map<nat, Uint64>, inNow: map<nat, Uint64>, outNow: map<nat, Uint64>)
    requires InRegistry(registry, queue) && |registry| == |balances| && i < |queue|
    requires MovedSoFar(registry, nextEpoch, balances, queue, i, inBefore, outBefore, inNow, outNow)
    requires queue[i].source < |registry| && registry[queue[i].source].slashed
    ensures MovedSoFar(registry, nextEpoch, balances, queue, i + 1, inBefore, outBefore, inNow, outNow)
  {
    MovesSnoc(registry, balances, queue, i);
  }

  lemma MoveTurn(
      registry: seq<Validator>, nextEpoch: nat, balances: seq<Uint64>, queue: seq<PendingConsolidation>, i: nat,
      inBefore: map<nat, Uint64>, outBefore: map<nat, Uint64>, inNow: map<nat, Uint64>, outNow: map<nat, Uint64>,
      amount: Uint64, inAfter: map<nat, Uint64>, outAfter: map<nat, Uint64>)
    requires InRegistry(registry, queue) && |registry| == |balances| && i < |queue|
    requires MovedSoFar(registry, nextEpoch, balances, queue, i, inBefore, outBefore, inNow, outNow)
    requires queue[i].source < |registry| && !registry[queue[i].source].slashed
    requires registry[queue[i].source].withdrawableEpoch <= nextEpoch
    requires amount == Movable(registry, balances, queue[i].source)
    requires inAfter == Plus(inNow, queue[i].target, amount) && outAfter == Plus(outNow, queue[i].source, amount)
    ensures MovedSoFar(registry, nextEpoch, balances, queue, i + 1, inBefore, outBefore, inAfter, outAfter)
  {
    var moves := MovesUpTo(registry, balances, queue, i);
    MovesSnoc(registry, balances, queue, i);
    PlusAllSnoc(inBefore, moves.0, Entry(queue[i].target, amount));
    PlusAllSnoc(outBefore, moves.1, Entry(queue[i].source, amount));
  }

  lemma MovesSnoc(registry: seq<Validator>, balances: seq<Uint64>, queue: seq<PendingConsolidation>, i: nat)
    requires InRegistry(registry, queue) && |registry| == |balances| && i < |queue|
    ensures var c, moves := queue[i], MovesUpTo(registry, balances, queue, i);
            && c.source < |registry|
            && MovesUpTo(registry, balances, queue, i + 1)
               == if registry[c.source].slashed then moves
                  else (moves.0 + [Entry(c.target, Movable(registry, balances, c.source))],
                        moves.1 + [Entry(c.source, Movable(registry, balances, c.source))])
  {
    assert queue[i] in queue;
  }

  /** Where the replay stopped, nothing more is attributed. */
  lemma StoppedAttributesNothing(
      registry: seq<Validator>, nextEpoch: nat, balances: seq<Uint64>, queue: seq<PendingConsolidation>, i: nat, v: nat)
    requires InRegistry(registry, queue) && |registry| == |balances| && i <= |queue|
    requires i < |queue| ==>
               !registry[queue[i].source].slashed && registry[queue[i].source].withdrawableEpoch > nextEpoch
    ensures Incoming(registry, nextEpoch, balances, queue[i..], v) == 0
    ensures Outgoing(registry, nextEpoch, balances, queue[i..], v) == 0
  {
    if i < |queue| { assert queue[i..][0] == queue[i]; }
  }

  lemma ReplayFillsMaps(
      registry: seq<Validator>, nextEpoch: nat, balances: seq<Uint64>, queue: seq<PendingConsolidation>, i: nat,
      inBefore: map<nat, Uint64>, outBefore: map<nat, Uint64>, inAfter: map<nat, Uint64>, outAfter: map<nat, Uint64>)
    requires InRegistry(registry, queue) && |registry| == |balances|
    requires MovedSoFar(registry, nextEpoch, balances, queue, i, inBefore, outBefore, inAfter, outAfter)
    requires i < |queue| ==>
               !registry[queue[i].source].slashed && registry[queue[i].source].withdrawableEpoch > nextEpoch
    ensures MapsHoldConsolidations(registry, nextEpoch, balances, queue, inBefore, outBefore, inAfter, outAfter)
  {
    forall v: nat
      ensures At(inAfter, v) == Wrap(At(inBefore, v) + Incoming(registry, nextEpoch, balances, queue, v))
      ensures At(outAfter, v) == Wrap(At(outBefore, v) + Outgoing(registry, nextEpoch, balances, queue, v))
    {
      StoppedAttributesNothing(registry, nextEpoch, balances, queue, i, v);
      MovesAccountForQueue(registry, nextEpoch, balances, queue, i, v);
      PlusAllReads(inBefore, MovesUpTo(registry, balances, queue, i).0, v);
      PlusAllReads(outBefore, MovesUpTo(registry, balances, queue, i).1, v);
    }
  }

  /** The run so far and the run of the remaining requests make up the whole run. */
  ghost predicate WithdrawalsLeft(
      view: View, start: Ledger, all: seq<WithdrawalRequests.Request>,
      now: Ledger, results: seq<WithdrawalRequests.Result>, rest: seq<WithdrawalRequests.Request>)
    requires |view.registry| == |view.balances|
  {
    && results + WithdrawalRequests.Run(view, now, rest) == WithdrawalRequests.Run(view, start, all)
    && WithdrawalRequests.RunLedger(view, now, rest) == WithdrawalRequests.RunLedger(view, start, all)
  }

  lemma WithdrawalsStep(
      view: View, start: Ledger, all: seq<WithdrawalRequests.Request>,
      now: Ledger, results: seq<WithdrawalRequests.Result>, rest: seq<WithdrawalRequests.Request>)
    requires |view.registry| == |view.balances| && rest != []
    requires WithdrawalsLeft(view, start, all, now, results, rest)
    ensures var (result, after) := WithdrawalRequests.Handle(view, now, rest[0]);
            WithdrawalsLeft(view, start, all, after, results + [result], rest[1..])
  {
    var (result, after) := WithdrawalRequests.Handle(view, now, rest[0]);
    var tail := WithdrawalRequests.Run(view, after, rest[1..]);
    assert results + ([result] + tail) == (results + [result]) + tail;
  }

  ghost predicate ConsolidationsLeft(
      view: View, start: Ledger, all: seq<ConsolidationRequests.Request>,
      now: Ledger, results: seq<ConsolidationRequests.Result>, rest: seq<ConsolidationRequests.Request>)
    requires |view.registry| == |view.balances|
  {
    && results + ConsolidationRequests.Run(view, now, rest) == ConsolidationRequests.Run(view, start, all)
    && ConsolidationRequests.RunLedger(view, now, rest) == ConsolidationRequests.RunLedger(view, start, all)
  }

  lemma ConsolidationsStep(
      view: View, start: Ledger, all: seq<ConsolidationRequests.Request>,
      now: Ledger, results: seq<ConsolidationRequests.Result>, rest: seq<ConsolidationRequests.Request>)
    requires |view.registry| == |view.balances| && rest != []
    requires ConsolidationsLeft(view, start, all, now, results, rest)
    ensures var (result, after) := ConsolidationRequests.Handle(view, now, rest[0]);
            ConsolidationsLeft(view, start, all, after, results + [result], rest[1..])
  {
    var (result, after) := ConsolidationRequests.Handle(view, now, rest[0]);
    var tail := ConsolidationRequests.Run(view, after, rest[1..]);
    assert results + ([result] + tail) == (results + [result]) + tail;
  }

  /** What the three reward maps say of every validator, for an epoch. */
  ghost predicate Attributed(e: Epoch, deposited: map<nat, Uint64>, consolidated: map<nat, Uint64>, consolidatedOut: map<nat, Uint64>)
    requires ValidEpoch(e)
  {
    forall v: nat :: v < |e.registry| ==>
      && At(deposited, v) == Wrap(DepositQueue.Deposited(Rules(e), e.registry, e.pendingDeposits, v))
      && At(consolidated, v) == Wrap(Incoming(e.registry, Rules(e).nextEpoch, e.balances, e.pendingConsolidations, v))
      && At(consolidatedOut, v)
         == Wrap(SwitchExcess(e.registry, e.balances, e.nextRegistry, v)
                 + Outgoing(e.registry, Rules(e).nextEpoch, e.balances, e.pendingConsolidations, v))
  }

  lemma ReplaysAttribute(e: Epoch, excess: map<nat, Uint64>, deposited: map<nat, Uint64>,
                         consolidated: map<nat, Uint64>, consolidatedOut: map<nat, Uint64>)
    requires ValidEpoch(e)
    requires forall v: nat :: v < |e.registry| ==> At(excess, v) == Wrap(SwitchExcess(e.registry, e.balances, e.nextRegistry, v))
    requires MapHoldsDeposits(Rules(e), e.registry, e.pendingDeposits, map[], deposited)
    requires MapsHoldConsolidations(e.registry, Rules(e).nextEpoch, e.balances, e.pendingConsolidations,
                                    map[], excess, consolidated, consolidatedOut)
    ensures Attributed(e, deposited, consolidated, consolidatedOut)
  {
    forall v: nat | v < |e.registry|
      ensures At(consolidatedOut, v)
              == Wrap(SwitchExcess(e.registry, e.balances, e.nextRegistry, v)
                      + Outgoing(e.registry, Rules(e).nextEpoch, e.balances, e.pendingConsolidations, v))
    {
      WrapAdd(SwitchExcess(e.registry, e.balances, e.nextRegistry, v),
              Outgoing(e.registry, Rules(e).nextEpoch, e.balances, e.pendingConsolidations, v));
    }
  }

  // ------------------------------------------------------------ rows of consolidations

  function RowOf(epoch: nat, registry: seq<Validator>, balances: seq<Uint64>, c: PendingConsolidation, index: nat): ConsolidationProcessed
    requires c.source < |registry| == |balances|
  {
    if registry[c.source].slashed then ConsolidationProcessed(epoch, index, c.source, c.target, 0, false)
    else ConsolidationProcessed(epoch, index, c.source, c.target, Movable(registry, balances, c.source), true)
  }

  /** The rows of the first i entries. */
  function RowsUpTo(epoch: nat, registry: seq<Validator>, balances: seq<Uint64>, queue: seq<PendingConsolidation>, i: nat): seq<ConsolidationProcessed>
    requires InRegistry(registry, queue) && |registry| == |balances| && i <= |queue|
  {
    if i == 0 then []
    else RowsUpTo(epoch, registry, balances, queue, i - 1) + [RowOf(epoch, registry, balances, queue[i - 1], i - 1)]
  }

  /** What the rows say that v receives. */
  function ReceivedIn(rows: seq<ConsolidationProcessed>, v: nat): nat {
    if rows == [] then 0
    else
      var last := rows[|rows| - 1];
      if last.target == v then ReceivedIn(rows[..|rows| - 1], v) + last.amount else ReceivedIn(rows[..|rows| - 1], v)
  }

  function RowAmounts(rows: seq<ConsolidationProcessed>): (amounts: seq<Uint64>)
    ensures |amounts| == |rows|
  {
    if rows == [] then [] else RowAmounts(rows[..|rows| - 1]) + [rows[|rows| - 1].amount]
  }

  lemma {:induction false} RowsAccountForQueue(
      epoch: nat, registry: seq<Validator>, balances: seq<Uint64>, queue: seq<PendingConsolidation>, i: nat, v: nat)
    requires InRegistry(registry, queue) && |registry| == |balances| && i <= |queue|
    requires forall j :: 0 <= j < i ==>
               registry[queue[j].source].slashed || registry[queue[j].source].withdrawableEpoch <= epoch + 1
    ensures Incoming(registry, epoch + 1, balances, queue, v)
            == ReceivedIn(RowsUpTo(epoch, registry, balances, queue, i), v) + Incoming(registry, epoch + 1, balances, queue[i..], v)
  {
    if i == 0 {
      assert queue[0..] == queue;
    } else {
      RowsAccountForQueue(epoch, registry, balances, queue, i - 1, v);
      assert queue[i - 1..][0] == queue[i - 1] && queue[i - 1..][1..] == queue[i..];
      var rows := RowsUpTo(epoch, registry, balances, queue, i);
      assert rows[..|rows| - 1] == RowsUpTo(epoch, registry, balances, queue, i - 1);
    }
  }

  /** The rows that one transition makes: one for each entry up to where it stops, in order, and together
      they give every validator what the replay of the same queue attributes to it. */
  ghost predicate RowsOfTransition(
      epoch: nat, registry: seq<Validator>, balances: seq<Uint64>, queue: seq<PendingConsolidation>, rows: seq<ConsolidationProcessed>)
    requires InRegistry(registry, queue) && |registry| == |balances|
  {
    && |rows| <= |queue| && rows == RowsUpTo(epoch, registry, balances, queue, |rows|)
    && forall v: nat :: ReceivedIn(rows, v) == Incoming(registry, epoch + 1, balances, queue, v)
  }

  lemma RowsEnd(epoch: nat, registry: seq<Validator>, balances: seq<Uint64>, queue: seq<PendingConsolidation>, i: nat,
                rows: seq<ConsolidationProcessed>)
    requires InRegistry(registry, queue) && |registry| == |balances|
    requires RowWalk(epoch, registry, balances, queue, i, rows)
    requires i < |queue| ==>
               !registry[queue[i].source].slashed && registry[queue[i].source].withdrawableEpoch > epoch + 1
    ensures RowsOfTransition(epoch, registry, balances, queue, rows)
  {
    RowCount(epoch, registry, balances, queue, i);
    forall v: nat ensures ReceivedIn(rows, v) == Incoming(registry, epoch + 1, balances, queue, v) {
      RowsAccountForQueue(epoch, registry, balances, queue, i, v);
      StoppedAttributesNothing(registry, epoch + 1, balances, queue, i, v);
    }
  }

  lemma {:induction false} RowCount(epoch: nat, registry: seq<Validator>, balances: seq<Uint64>, queue: seq<PendingConsolidation>, i: nat)
    requires InRegistry(registry, queue) && |registry| == |balances| && i <= |queue|
    ensures |RowsUpTo(epoch, registry, balances, queue, i)| == i
  {
    if i > 0 { RowCount(epoch, registry, balances, queue, i - 1); }
  }

  /** Rows and amount as they stand after some rows. */
  ghost predicate RowsCounted(rows: seq<ConsolidationProcessed>, rowsBefore: seq<ConsolidationProcessed>, amountBefore: Uint64,
                              rowsNow: seq<ConsolidationProcessed>, amountNow: Uint64)
  {
    rowsNow == rowsBefore + rows && amountNow == AddAll(amountBefore, RowAmounts(rows))
  }

  lemma CountsRow(rows: seq<ConsolidationProcessed>, row: ConsolidationProcessed, rowsBefore: seq<ConsolidationProcessed>, amountBefore: Uint64,
                  rowsNow: seq<ConsolidationProcessed>, amountNow: Uint64, rowsNext: seq<ConsolidationProcessed>, amountNext: Uint64)
    requires RowsCounted(rows, rowsBefore, amountBefore, rowsNow, amountNow)
    requires rowsNext == rowsNow + [row] && amountNext == Wrap(amountNow + row.amount)
    ensures RowsCounted(rows + [row], rowsBefore, amountBefore, rowsNext, amountNext)
  {
    assert (rows + [row])[..|rows|] == rows;
    assert RowAmounts(rows + [row])[..|rows|] == RowAmounts(rows);
  }

  /** The first i entries passed and made their rows. */
  ghost predicate RowWalk(epoch: nat, registry: seq<Validator>, balances: seq<Uint64>, queue: seq<PendingConsolidation>, i: nat,
                          rows: seq<ConsolidationProcessed>)
    requires InRegistry(registry, queue) && |registry| == |balances|
  {
    && i <= |queue| && rows == RowsUpTo(epoch, registry, balances, queue, i)
    && forall j :: 0 <= j < i ==> registry[queue[j].source].slashed || registry[queue[j].source].withdrawableEpoch <= epoch + 1
  }

  lemma RowTurn(epoch: nat, registry: seq<Validator>, balances: seq<Uint64>, queue: seq<PendingConsolidation>, i: nat,
                rows: seq<ConsolidationProcessed>, row: ConsolidationProcessed)
    requires InRegistry(registry, queue) && |registry| == |balances|
    requires RowWalk(epoch, registry, balances, queue, i, rows) && i < |queue|
    requires registry[queue[i].source].slashed || registry[queue[i].source].withdrawableEpoch <= epoch + 1
    requires row == RowOf(epoch, registry, balances, queue[i], i)
    ensures RowWalk(epoch, registry, balances, queue, i + 1, rows + [row])
  {
  }

  /** Rows and amount are added to what earlier bundles have left, never reset. */
  ghost predicate RowsAdded(rows: seq<ConsolidationProcessed>, rowsBefore: seq<ConsolidationProcessed>, amountBefore: Uint64,
                            rowsAfter: seq<ConsolidationProcessed>, amountAfter: Uint64)
  {
    rowsAfter == rowsBefore + rows && amountAfter == Wrap(amountBefore + Sum(RowAmounts(rows)))
  }

  // ------------------------------------------------------------ the bundle

  class ElectraMetrics {
    const current: AgnosticState
    const next: AgnosticState
    const prevEmpty: bool

    constructor (next: AgnosticState, current: AgnosticState, prevEmpty: bool)
      requires current != next
      ensures this.next == next && this.current == current && this.prevEmpty == prevEmpty
    {
      this.next, this.current, this.prevEmpty := next, current, prevEmpty;
    }

    /** What request handling reads; the total of the next state is the standard's only. */
    function RequestView(): View {
      View(current.epoch, current.registry, current.balances, current.totalActiveBalance, next.totalActiveBalance)
    }

    /** One turn of the loop below: the i-th entry is taken, or the walk stops there. */
    method ReplayDeposit(i: nat, availableForProcessing: Uint64, processedAmount: Uint64, validatorPubkeys: map<Bytes, nat>,
                         ghost before: map<nat, Uint64>, ghost rows: seq<DepositQueue.PendingDeposit>)
      returns (taken: bool, spent: Uint64, ghost rows': seq<DepositQueue.PendingDeposit>)
      requires current.DepositsFit() && IndexesRegistry(validatorPubkeys, current.registry) && i < |current.pendingDeposits|
      requires availableForProcessing == DepositQueue.RulesOf(current.TransitionTo(next.finalizedEpoch)).available
      requires ReplayState(DepositQueue.RulesOf(current.TransitionTo(next.finalizedEpoch)), current.registry, current.pendingDeposits, i, processedAmount,
                           before, current.depositedAmounts, rows)
      modifies current`depositedAmounts
      ensures ReplayState(DepositQueue.RulesOf(current.TransitionTo(next.finalizedEpoch)), current.registry, current.pendingDeposits,
                          if taken then i + 1 else i, spent, before, current.depositedAmounts, rows')
      ensures !taken ==>
                Stops(DepositQueue.RulesOf(current.TransitionTo(next.finalizedEpoch)), current.registry, current.pendingDeposits, i, spent)
    {
      spent, rows' := processedAmount, rows;
      var deposit := current.pendingDeposits[i];
      ghost var rules, now := DepositQueue.RulesOf(current.TransitionTo(next.finalizedEpoch)), current.depositedAmounts;
      ChurnIsStandard(current.totalActiveBalance);
      assert availableForProcessing + deposit.amount < U64;
      if deposit.slot > 0 && current.eth1DepositIndex < current.depositRequestsStartIndex { return false, spent, rows'; }
      if deposit.slot > next.finalizedEpoch * SLOTS_PER_EPOCH { return false, spent, rows'; }
      if i >= DepositQueue.MAX_PENDING_DEPOSITS_PER_EPOCH { return false, spent, rows'; }
      assert (if deposit.pubkey in validatorPubkeys then Some(validatorPubkeys[deposit.pubkey]) else None)
             == LastIndex(current.registry, deposit.pubkey);
      ghost var fate := DepositQueue.FateOf(rules, current.registry, deposit);
      if deposit.pubkey in validatorPubkeys {
        var validatorIdx := validatorPubkeys[deposit.pubkey];
        var validator := current.registry[validatorIdx];
        var isValidatorExited := validator.exitEpoch < FAR_FUTURE_EPOCH;
        var isValidatorWithdrawn := validator.withdrawableEpoch < current.epoch + 1;
        if !(isValidatorExited && !isValidatorWithdrawn) {  // otherwise the deposit is postponed
          if !isValidatorWithdrawn {
            if Wrap(processedAmount + deposit.amount) > availableForProcessing { return false, spent, rows'; }
            spent := Wrap(processedAmount + deposit.amount);
          }
          current.depositedAmounts := Plus(current.depositedAmounts, validatorIdx, deposit.amount);
        }
      } else {
        if Wrap(processedAmount + deposit.amount) > availableForProcessing { return false, spent, rows'; }
        spent := Wrap(processedAmount + deposit.amount);
      }
      rows' := if fate != DepositQueue.Postponed then rows + [deposit] else rows;
      ReplayTurn(rules, current.registry, current.pendingDeposits, i, processedAmount, spent, before, now, current.depositedAmounts,
                 rows, rows');
      taken := true;
    }

    /** Replay of the pending deposits that the next state's balances already contain. */
    method ProcessDepositsForRewardCalculation()
      requires current.DepositsFit()
      modifies current`depositedAmounts
      ensures MapHoldsDeposits(DepositQueue.RulesOf(current.TransitionTo(next.finalizedEpoch)), current.registry, current.pendingDeposits,
                               old(current.depositedAmounts), current.depositedAmounts)
      ensures MapHoldsStandard(current.TransitionTo(next.finalizedEpoch), current.registry, current.pendingDeposits,
                               old(current.depositedAmounts), current.depositedAmounts)
    {
      ChurnIsStandard(current.totalActiveBalance);
      var availableForProcessing := Wrap(current.depositBalanceToConsume + ActivationExitChurnLimit(current.totalActiveBalance));
      var processedAmount: Uint64 := 0;
      var nextDepositIndex := 0;
      var validatorPubkeys := PubkeyIndex(current.registry);

      ghost var rules := DepositQueue.RulesOf(current.TransitionTo(next.finalizedEpoch));
      ghost var before, rows: seq<DepositQueue.PendingDeposit> := current.depositedAmounts, [];
      assert current.pendingDeposits[0..] == current.pendingDeposits;
      while nextDepositIndex < |current.pendingDeposits|
        invariant ReplayState(rules, current.registry, current.pendingDeposits, nextDepositIndex, processedAmount,
                              before, current.depositedAmounts, rows)
      {
        var taken;
        taken, processedAmount, rows :=
          ReplayDeposit(nextDepositIndex, availableForProcessing, processedAmount, validatorPubkeys, before, rows);
        if !taken { break; }
        nextDepositIndex := nextDepositIndex + 1;
      }
      WalkEnds(rules, current.registry, current.pendingDeposits, nextDepositIndex, processedAmount);
      WalkFillsMap(rules, current.registry, current.pendingDeposits, before, current.depositedAmounts);
      MapIsStandard(current.TransitionTo(next.finalizedEpoch), current.registry, current.pendingDeposits, before, current.depositedAmounts);
    }

    /** One applied deposit: its row, the two counters, and the amount of its validator if it has one. */
    method RecordDeposit(deposit: DepositQueue.PendingDeposit, validatorIdx: Option<nat>, rows: seq<DepositQueue.PendingDeposit>,
                         ghost num: Uint64, ghost total: Uint64)
      returns (rows': seq<DepositQueue.PendingDeposit>)
      requires Counted(rows, num, total, next.depositsNum, next.totalDepositsAmount)
      modifies next`depositedAmounts, next`depositsNum, next`totalDepositsAmount
      ensures rows' == rows + [deposit] && Counted(rows', num, total, next.depositsNum, next.totalDepositsAmount)
      ensures next.depositedAmounts
              == if validatorIdx.Some? then Plus(old(next.depositedAmounts), validatorIdx.value, deposit.amount)
                 else old(next.depositedAmounts)
    {
      var depositsNum := Wrap(next.depositsNum + 1);
      var totalDepositsAmount := Wrap(next.totalDepositsAmount + deposit.amount);
      CountsOne(rows, deposit, num, total, next.depositsNum, next.totalDepositsAmount, depositsNum, totalDepositsAmount);
      rows' := rows + [deposit];
      if validatorIdx.Some? {
        next.depositedAmounts := Plus(next.depositedAmounts, validatorIdx.value, deposit.amount);
      }
      next.depositsNum, next.totalDepositsAmount := depositsNum, totalDepositsAmount;
    }

    /** One turn of the loop below: the i-th entry is taken, or the walk stops there. */
    method TakePendingDeposit(i: nat, availableForProcessing: Uint64, processedAmount: Uint64, processedDeposits: seq<DepositQueue.PendingDeposit>,
                              validatorPubkeys: map<Bytes, nat>, ghost before: map<nat, Uint64>, ghost num: Uint64, ghost total: Uint64)
      returns (taken: bool, spent: Uint64, rows: seq<DepositQueue.PendingDeposit>)
      requires next.DepositsFit() && IndexesRegistry(validatorPubkeys, next.registry) && i < |next.pendingDeposits|
      requires availableForProcessing == DepositQueue.RulesOf(next.TransitionTo(next.finalizedEpoch)).available
      requires ReplayState(DepositQueue.RulesOf(next.TransitionTo(next.finalizedEpoch)), next.registry, next.pendingDeposits, i, processedAmount,
                           before, next.depositedAmounts, processedDeposits)
      requires Counted(processedDeposits, num, total, next.depositsNum, next.totalDepositsAmount)
      modifies next`depositedAmounts, next`depositsNum, next`totalDepositsAmount
      ensures Counted(rows, num, total, next.depositsNum, next.totalDepositsAmount)
      ensures ReplayState(DepositQueue.RulesOf(next.TransitionTo(next.finalizedEpoch)), next.registry, next.pendingDeposits, if taken then i + 1 else i, spent,
                          before, next.depositedAmounts, rows)
      ensures !taken ==> Stops(DepositQueue.RulesOf(next.TransitionTo(next.finalizedEpoch)), next.registry, next.pendingDeposits, i, spent)
    {
      spent, rows := processedAmount, processedDeposits;
      var deposit := next.pendingDeposits[i];
      ghost var rules, now := DepositQueue.RulesOf(next.TransitionTo(next.finalizedEpoch)), next.depositedAmounts;
      ChurnIsStandard(next.totalActiveBalance);
      assert availableForProcessing + deposit.amount < U64;
      if deposit.slot > 0 && next.eth1DepositIndex < next.depositRequestsStartIndex { return false, spent, rows; }
      if deposit.slot > next.finalizedEpoch * SLOTS_PER_EPOCH { return false, spent, rows; }
      if i >= DepositQueue.MAX_PENDING_DEPOSITS_PER_EPOCH { return false, spent, rows; }
      var validatorIdx := if deposit.pubkey in validatorPubkeys then Some(validatorPubkeys[deposit.pubkey]) else None;
      assert validatorIdx == LastIndex(next.registry, deposit.pubkey);
      var isValidatorExited := validatorIdx.Some? && next.registry[validatorIdx.value].exitEpoch < FAR_FUTURE_EPOCH;
      var isValidatorWithdrawn := validatorIdx.Some? && next.registry[validatorIdx.value].withdrawableEpoch < next.epoch + 1;
      assert (DepositQueue.FateOf(rules, next.registry, deposit) == DepositQueue.Postponed)
             == (isValidatorExited && !isValidatorWithdrawn);
      if isValidatorWithdrawn || !isValidatorExited {  // otherwise the deposit is postponed
        if !isValidatorWithdrawn {
          if Wrap(processedAmount + deposit.amount) > availableForProcessing { return false, spent, rows; }
          spent := Wrap(processedAmount + deposit.amount);
        }
        rows := RecordDeposit(deposit, validatorIdx, rows, num, total);
      }
      ReplayTurn(rules, next.registry, next.pendingDeposits, i, processedAmount, spent, before, now, next.depositedAmounts,
                 processedDeposits, rows);
      taken := true;
    }

    /** Replay of the pending deposits the next transition will apply, for the deposit rows. */
    method ProcessPendingDeposits()
      requires next.DepositsFit()
      modifies next`depositedAmounts, next`depositsProcessed, next`depositsNum, next`totalDepositsAmount
      ensures var rules := DepositQueue.RulesOf(next.TransitionTo(next.finalizedEpoch));
              && MapHoldsDeposits(rules, next.registry, next.pendingDeposits, old(next.depositedAmounts), next.depositedAmounts)
              && next.depositsProcessed == Applied(rules, next.registry, next.pendingDeposits)
      ensures MapHoldsStandard(next.TransitionTo(next.finalizedEpoch), next.registry, next.pendingDeposits,
                               old(next.depositedAmounts), next.depositedAmounts)
      ensures RowsAreStandard(next.TransitionTo(next.finalizedEpoch), next.registry, next.pendingDeposits, next.depositsProcessed)
      ensures CountersAdvance(next.depositsProcessed, old(next.depositsNum), old(next.totalDepositsAmount),
                              next.depositsNum, next.totalDepositsAmount)
    {
      ChurnIsStandard(next.totalActiveBalance);
      var availableForProcessing := Wrap(next.depositBalanceToConsume + ActivationExitChurnLimit(next.totalActiveBalance));
      var processedAmount: Uint64 := 0;
      var nextDepositIndex := 0;
      var processedDeposits: seq<DepositQueue.PendingDeposit> := [];
      var validatorPubkeys := PubkeyIndex(next.registry);

      ghost var rules := DepositQueue.RulesOf(next.TransitionTo(next.finalizedEpoch));
      ghost var before, num, total := next.depositedAmounts, next.depositsNum, next.totalDepositsAmount;
      assert next.pendingDeposits[0..] == next.pendingDeposits;
      while nextDepositIndex < |next.pendingDeposits|
        invariant ReplayState(rules, next.registry, next.pendingDeposits, nextDepositIndex, processedAmount,
                              before, next.depositedAmounts, processedDeposits)
        invariant Counted(processedDeposits, num, total, next.depositsNum, next.totalDepositsAmount)
      {
        var taken;
        taken, processedAmount, processedDeposits :=
          TakePendingDeposit(nextDepositIndex, availableForProcessing, processedAmount, processedDeposits, validatorPubkeys, before, num, total);
        if !taken { break; }
        nextDepositIndex := nextDepositIndex + 1;
      }
      WalkEnds(rules, next.registry, next.pendingDeposits, nextDepositIndex, processedAmount);
      WalkFillsMap(rules, next.registry, next.pendingDeposits, before, next.depositedAmounts);
      MapIsStandard(next.TransitionTo(next.finalizedEpoch), next.registry, next.pendingDeposits, before, next.depositedAmounts);
      AppliedIsStandard(next.TransitionTo(next.finalizedEpoch), next.registry, next.pendingDeposits);
      CountedIsSum(processedDeposits, num, total, next.depositsNum, next.totalDepositsAmount);
      next.depositsProcessed := processedDeposits;
    }

    /** Replay of the pending consolidations that the next state's balances already contain. */
    method ProcessConsolidationsForRewardCalculation()
      requires InRegistry(current.registry, current.pendingConsolidations) && |current.registry| == |current.balances|
      modifies current`consolidatedAmounts, current`consolidatedOutAmounts
      ensures MapsHoldConsolidations(current.registry, current.epoch + 1, current.balances, current.pendingConsolidations,
                                     old(current.consolidatedAmounts), old(current.consolidatedOutAmounts),
                                     current.consolidatedAmounts, current.consolidatedOutAmounts)
    {
      var nextEpoch := current.epoch + 1;
      var queue := current.pendingConsolidations;
      ghost var inBefore, outBefore := current.consolidatedAmounts, current.consolidatedOutAmounts;
      var i := 0;
      while i < |queue|
        invariant MovedSoFar(current.registry, nextEpoch, current.balances, queue, i, inBefore, outBefore,
                             current.consolidatedAmounts, current.consolidatedOutAmounts)
      {
        var pendingConsolidation := queue[i];
        assert pendingConsolidation in queue;
        var sourceValidator := current.registry[pendingConsolidation.source];
        ghost var inNow, outNow := current.consolidatedAmounts, current.consolidatedOutAmounts;
        if sourceValidator.slashed {
          SkipTurn(current.registry, nextEpoch, current.balances, queue, i, inBefore, outBefore, inNow, outNow);
          i := i + 1;
          continue;
        }
        if sourceValidator.withdrawableEpoch > nextEpoch { break; }
        var sourceEffectiveBalance := Min(current.balances[pendingConsolidation.source], sourceValidator.effectiveBalance);
        current.consolidatedAmounts := Plus(current.consolidatedAmounts, pendingConsolidation.target, sourceEffectiveBalance);
        current.consolidatedOutAmounts := Plus(current.consolidatedOutAmounts, pendingConsolidation.source, sourceEffectiveBalance);
        MoveTurn(current.registry, nextEpoch, current.balances, queue, i, inBefore, outBefore, inNow, outNow,
                 sourceEffectiveBalance, current.consolidatedAmounts, current.consolidatedOutAmounts);
        i := i + 1;
      }
      ReplayFillsMaps(current.registry, nextEpoch, current.balances, queue, i, inBefore, outBefore,
                      current.consolidatedAmounts, current.consolidatedOutAmounts);
    }

    /** The rows of the consolidations that the next transition will apply. The amounts it adds to the next
        state's map are cleared before that state is the current one. */
    method ProcessPendingConsolidations() returns (ghost rows: seq<ConsolidationProcessed>)
      requires InRegistry(next.registry, next.pendingConsolidations) && |next.registry| == |next.balances|
      modifies next`consolidatedAmounts, next`consolidationsProcessed, next`consolidationsProcessedAmount
      ensures RowsOfTransition(next.epoch, next.registry, next.balances, next.pendingConsolidations, rows)
      ensures RowsAdded(rows, old(next.consolidationsProcessed), old(next.consolidationsProcessedAmount),
                        next.consolidationsProcessed, next.consolidationsProcessedAmount)
    {
      var nextEpoch := next.epoch + 1;
      var registry, balances, queue := next.registry, next.balances, next.pendingConsolidations;
      ghost var rowsBefore, amountBefore := next.consolidationsProcessed, next.consolidationsProcessedAmount;
      rows := [];
      assert rowsBefore + [] == rowsBefore;
      var index := 0;
      while index < |queue|
        invariant RowWalk(next.epoch, registry, balances, queue, index, rows)
        invariant RowsCounted(rows, rowsBefore, amountBefore, next.consolidationsProcessed, next.consolidationsProcessedAmount)
      {
        var c := queue[index];
        assert c in queue;
        ghost var row := RowOf(next.epoch, registry, balances, c, index);
        ghost var rowsNow, amountNow := next.consolidationsProcessed, next.consolidationsProcessedAmount;
        if registry[c.source].slashed {
          next.consolidationsProcessed :=
            next.consolidationsProcessed + [ConsolidationProcessed(next.epoch, index, c.source, c.target, 0, false)];
          CountsRow(rows, row, rowsBefore, amountBefore, rowsNow, amountNow,
                    next.consolidationsProcessed, next.consolidationsProcessedAmount);
          RowTurn(next.epoch, registry, balances, queue, index, rows, row);
          rows, index := rows + [row], index + 1;
          continue;
        }
        if registry[c.source].withdrawableEpoch > nextEpoch { break; }
        var sourceEffectiveBalance := Min(balances[c.source], registry[c.source].effectiveBalance);
        next.consolidatedAmounts := Plus(next.consolidatedAmounts, c.target, sourceEffectiveBalance);
        next.consolidationsProcessed :=
          next.consolidationsProcessed + [ConsolidationProcessed(next.epoch, index, c.source, c.target, sourceEffectiveBalance, true)];
        next.consolidationsProcessedAmount := Wrap(next.consolidationsProcessedAmount + sourceEffectiveBalance);
        CountsRow(rows, row, rowsBefore, amountBefore, rowsNow, amountNow,
                  next.consolidationsProcessed, next.consolidationsProcessedAmount);
        RowTurn(next.epoch, registry, balances, queue, index, rows, row);
        rows, index := rows + [row], index + 1;
      }
      RowsEnd(next.epoch, registry, balances, queue, index, rows);
      AddAllIsSum(amountBefore, RowAmounts(rows));
    }

    /** Excess balance of validators that switched from 0x01 to 0x02 credentials. */
    method ProcessExcessActiveBalanceRestructuring()
      requires |current.registry| == |current.balances|
      modifies current`consolidatedOutAmounts
      ensures forall v: nat :: At(current.consolidatedOutAmounts, v)
                == if v < |current.registry| && v < |next.registry|
                   then Wrap(At(old(current.consolidatedOutAmounts), v)
                             + SwitchExcess(current.registry, current.balances, next.registry, v))
                   else At(old(current.consolidatedOutAmounts), v)
    {
      var minLen := if |current.registry| <= |next.registry| then |current.registry| else |next.registry|;
      for i := 0 to minLen
        invariant forall v: nat :: At(current.consolidatedOutAmounts, v)
                    == if v < i then Wrap(At(old(current.consolidatedOutAmounts), v)
                                          + SwitchExcess(current.registry, current.balances, next.registry, v))
                       else At(old(current.consolidatedOutAmounts), v)
      {
        if current.registry[i].prefix == ETH1_PREFIX && next.registry[i].prefix == COMPOUNDING_PREFIX {
          if current.balances[i] > MIN_ACTIVATION_BALANCE {
            var excess := current.balances[i] - MIN_ACTIVATION_BALANCE;
            current.consolidatedOutAmounts := Plus(current.consolidatedOutAmounts, i, excess);
          }
        }
      }
    }

    /** Sum queued for one validator, in uint64. */
    method GetPendingBalanceToWithdraw(v: nat) returns (total: Uint64)
      ensures total == Wrap(PendingSum(current.pendingPartialWithdrawals, v))
    {
      total := 0;
      var queue := current.pendingPartialWithdrawals;
      ghost var seen := 0;
      for i := 0 to |queue|
        invariant seen + PendingSum(queue[i..], v) == PendingSum(queue, v)
        invariant total == Wrap(seen)
      {
        assert queue[i..][0] == queue[i] && queue[i..][1..] == queue[i + 1..];
        if queue[i].validator == v {
          WrapAdd(seen, queue[i].amount);
          total := Wrap(total + queue[i].amount);
          seen := seen + queue[i].amount;
        }
      }
    }

    method ProcessWithdrawalRequest(r: WithdrawalRequests.Request) returns (result: WithdrawalRequests.Result)
      requires |current.registry| == |current.balances|
      modifies current`pendingPartialWithdrawals, current`newExitingValidators
      ensures (result, current.AsLedger()) == WithdrawalRequests.Handle(RequestView(), old(current.AsLedger()), r)
    {
      var isFullExitRequest := r.amount == 0;
      if |current.pendingPartialWithdrawals| == PENDING_PARTIAL_WITHDRAWALS_LIMIT && !isFullExitRequest {
        return WithdrawalRequests.QueueFull;
      }
      var requestPubkeyExists, v := false, 0;
      var i := 0;
      while i < |current.registry|
        invariant i <= |current.registry| && !requestPubkeyExists
        invariant forall j :: 0 <= j < i ==> current.registry[j].pubkey != r.pubkey
      {
        if current.registry[i].pubkey == r.pubkey {
          requestPubkeyExists, v := true, i;
          break;
        }
        i := i + 1;
      }
      if !requestPubkeyExists { return WithdrawalRequests.ValidatorNotFound; }
      assert FirstIndex(current.registry, r.pubkey) == Some(v);
      var validator := current.registry[v];
      if !(HasExecution(validator) && validator.address == r.address) { return WithdrawalRequests.InvalidCredentials; }
      if !IsActive(validator, current.epoch) { return WithdrawalRequests.ValidatorNotActive; }
      if validator.exitEpoch != FAR_FUTURE_EPOCH || v in current.newExitingValidators {
        return WithdrawalRequests.ExitAlreadyInitiated;
      }
      if current.epoch < validator.activationEpoch + SHARD_COMMITTEE_PERIOD { return WithdrawalRequests.ValidatorNotOldEnough; }
      var pending := GetPendingBalanceToWithdraw(v);
      if isFullExitRequest {
        if pending == 0 {
          current.newExitingValidators := current.newExitingValidators + [v];
          return WithdrawalRequests.Success;
        }
        return WithdrawalRequests.PendingWithdrawalExists;
      }
      var hasSufficientEffectiveBalance := validator.effectiveBalance >= MIN_ACTIVATION_BALANCE;
      var hasExcessBalance := current.balances[v] > Wrap(MIN_ACTIVATION_BALANCE + pending);
      if !HasCompounding(validator) { return WithdrawalRequests.ValidatorNotCompounding; }
      if !hasSufficientEffectiveBalance { return WithdrawalRequests.InsufficientBalance; }
      if !hasExcessBalance { return WithdrawalRequests.NoExcessBalance; }
      current.pendingPartialWithdrawals := current.pendingPartialWithdrawals + [PartialWithdrawal(v, r.amount)];
      return WithdrawalRequests.Success;
    }

    method ProcessConsolidationRequest(r: ConsolidationRequests.Request) returns (result: ConsolidationRequests.Result)
      requires |current.registry| == |current.balances|
      modifies current`pendingConsolidations, current`newExitingValidators
      ensures (result, current.AsLedger()) == ConsolidationRequests.Handle(RequestView(), old(current.AsLedger()), r)
    {
      var source, target: Option<nat> := None, None;
      var registry := current.registry;
      for i := 0 to |registry|
        invariant source == LastIndex(registry[..i], r.sourceKey) && target == LastIndex(registry[..i], r.targetKey)
      {
        assert registry[..i + 1][..i] == registry[..i];
        if registry[i].pubkey == r.sourceKey { source := Some(i); }
        if registry[i].pubkey == r.targetKey { target := Some(i); }
      }
      assert registry[..|registry|] == registry;
      if ConsolidationRequests.IsSwitch(registry, current.epoch, r, source) { return ConsolidationRequests.Success; }
      if r.sourceKey == r.targetKey { return ConsolidationRequests.RequestUsedAsExit; }
      if |current.pendingConsolidations| == PENDING_CONSOLIDATIONS_LIMIT { return ConsolidationRequests.QueueFull; }
      if ConsolidationChurnLimit(current.totalActiveBalance) <= MIN_ACTIVATION_BALANCE {
        return ConsolidationRequests.TotalBalanceTooLow;
      }
      if source.None? { return ConsolidationRequests.SrcNotFound; }
      if target.None? { return ConsolidationRequests.TgtNotFound; }
      var src, tgt := registry[source.value], registry[target.value];
      if !(HasExecution(src) && src.address == r.address) { return ConsolidationRequests.SrcInvalidCredentials; }
      if !HasCompounding(tgt) { return ConsolidationRequests.TgtNotCompounding; }
      if !IsActive(src, current.epoch) { return ConsolidationRequests.SrcNotActive; }
      if !IsActive(tgt, current.epoch) { return ConsolidationRequests.TgtNotActive; }
      if src.exitEpoch != FAR_FUTURE_EPOCH || source.value in current.newExitingValidators {
        return ConsolidationRequests.SrcExitAlreadyInitiated;
      }
      if tgt.exitEpoch != FAR_FUTURE_EPOCH { return ConsolidationRequests.TgtExitAlreadyInitiated; }
      if current.epoch < src.activationEpoch + SHARD_COMMITTEE_PERIOD { return ConsolidationRequests.SrcNotOldEnough; }
      var pending := GetPendingBalanceToWithdraw(source.value);
      if pending > 0 { return ConsolidationRequests.SrcHasPendingWithdrawal; }
      current.newExitingValidators := current.newExitingValidators + [source.value];
      current.pendingConsolidations := current.pendingConsolidations + [PendingConsolidation(0, 0)];
      return ConsolidationRequests.Success;
    }

    /** Results of all withdrawal requests of the next state's blocks, in order. */
    method ProcessWithdrawalRequests()
      requires |current.registry| == |current.balances|
      modifies current`pendingPartialWithdrawals, current`newExitingValidators, next`withdrawalResults
      ensures next.withdrawalResults
              == WithdrawalRequests.Run(RequestView(), old(current.AsLedger()), WithdrawalsIn(next.blocks))
      ensures current.AsLedger()
              == WithdrawalRequests.RunLedger(RequestView(), old(current.AsLedger()), WithdrawalsIn(next.blocks))
    {
      var results: seq<WithdrawalRequests.Result> := [];
      ghost var view, start := RequestView(), current.AsLedger();
      ghost var all := WithdrawalsIn(next.blocks);
      ghost var rest := all;
      assert next.blocks[0..] == next.blocks;
      for b := 0 to |next.blocks|
        invariant rest == WithdrawalsIn(next.blocks[b..])
        invariant WithdrawalsLeft(view, start, all, current.AsLedger(), results, rest)
      {
        var block := next.blocks[b];
        assert next.blocks[b..][0] == block && next.blocks[b..][1..] == next.blocks[b + 1..];
        ghost var later := WithdrawalsIn(next.blocks[b + 1..]);
        if block.executionRequests {
          assert block.withdrawals[0..] == block.withdrawals;
          for i := 0 to |block.withdrawals|
            invariant rest == block.withdrawals[i..] + later
            invariant WithdrawalsLeft(view, start, all, current.AsLedger(), results, rest)
          {
            assert rest[0] == block.withdrawals[i] && rest[1..] == block.withdrawals[i + 1..] + later;
            ghost var ledger := current.AsLedger();
            var result := ProcessWithdrawalRequest(block.withdrawals[i]);
            WithdrawalsStep(view, start, all, ledger, results, rest);
            results := results + [result];
            rest := rest[1..];
          }
          assert block.withdrawals[|block.withdrawals|..] + later == later;
        }
      }
      assert next.blocks[|next.blocks|..] == [];
      next.withdrawalResults := results;
    }

    /** Results of all consolidation requests of the next state's blocks, in order. */
    method ProcessConsolidationRequests()
      requires |current.registry| == |current.balances|
      modifies current`pendingConsolidations, current`newExitingValidators, next`consolidationResults
      ensures next.consolidationResults
              == ConsolidationRequests.Run(RequestView(), old(current.AsLedger()), ConsolidationsIn(next.blocks))
      ensures current.AsLedger()
              == ConsolidationRequests.RunLedger(RequestView(), old(current.AsLedger()), ConsolidationsIn(next.blocks))
    {
      var results: seq<ConsolidationRequests.Result> := [];
      ghost var view, start := RequestView(), current.AsLedger();
      ghost var all := ConsolidationsIn(next.blocks);
      ghost var rest := all;
      assert next.blocks[0..] == next.blocks;
      for b := 0 to |next.blocks|
        invariant rest == ConsolidationsIn(next.blocks[b..])
        invariant ConsolidationsLeft(view, start, all, current.AsLedger(), results, rest)
      {
        var block := next.blocks[b];
        assert next.blocks[b..][0] == block && next.blocks[b..][1..] == next.blocks[b + 1..];
        ghost var later := ConsolidationsIn(next.blocks[b + 1..]);
        if block.executionRequests {
          assert block.consolidations[0..] == block.consolidations;
          for i := 0 to |block.consolidations|
            invariant rest == block.consolidations[i..] + later
            invariant ConsolidationsLeft(view, start, all, current.AsLedger(), results, rest)
          {
            assert rest[0] == block.consolidations[i] && rest[1..] == block.consolidations[i + 1..] + later;
            ghost var ledger := current.AsLedger();
            var result := ProcessConsolidationRequest(block.consolidations[i]);
            ConsolidationsStep(view, start, all, ledger, results, rest);
            results := results + [result];
            rest := rest[1..];
          }
          assert block.consolidations[|block.consolidations|..] + later == later;
        }
      }
      assert next.blocks[|next.blocks|..] == [];
      next.consolidationResults := results;
    }

    /** The epoch as the bundle sees it, with the consolidation queue as it was before any bundle. */
    function EpochOf(base: seq<PendingConsolidation>): Epoch {
      Epoch(current.registry, current.balances, current.TransitionTo(next.finalizedEpoch), current.pendingDeposits, base,
            next.registry, next.balances, next.withdrawals, next.deposits)
    }

    /** The reward of one validator, read off the maps. */
    function EpochReward(v: nat): int
      requires v < |current.balances| && v < |next.balances| ==> v < |next.withdrawals|
      reads current
    {
      if v < |current.balances| && v < |next.balances| then
        NetReward(current.balances[v], next.balances[v], next.withdrawals[v], At(current.depositedAmounts, v),
                  if v < |next.deposits| then next.deposits[v] else 0,
                  At(current.consolidatedAmounts, v), At(current.consolidatedOutAmounts, v))
      else 0
    }

    /** The consolidation queue is the original one followed by n placeholders of granted requests. */
    ghost predicate QueueExtends(base: seq<PendingConsolidation>, n: nat)
      reads current
    {
      current.pendingConsolidations == base + Placeholders(n) && (n > 0 ==> current.registry != [])
    }

    /** The maps hold, for every validator, what the epoch with this queue attributes to it. */
    ghost predicate MapsFilled(queue: seq<PendingConsolidation>)
      requires ValidEpoch(EpochOf(queue))
      reads current
    {
      Attributed(EpochOf(queue), current.depositedAmounts, current.consolidatedAmounts, current.consolidatedOutAmounts)
    }

    /** The three reward maps, cleared and refilled. */
    method FillRewardMaps()
      requires ValidEpoch(EpochOf(current.pendingConsolidations)) && current.DepositsFit()
      modifies current`depositedAmounts, current`consolidatedAmounts, current`consolidatedOutAmounts
      ensures MapsFilled(current.pendingConsolidations)
    {
      current.consolidatedAmounts := map[];
      current.consolidatedOutAmounts := map[];
      current.depositedAmounts := map[];
      ghost var e := EpochOf(current.pendingConsolidations);
      ProcessExcessActiveBalanceRestructuring();
      ghost var excess := current.consolidatedOutAmounts;
      ProcessConsolidationsForRewardCalculation();
      ProcessDepositsForRewardCalculation();
      ReplaysAttribute(e, excess, current.depositedAmounts, current.consolidatedAmounts, current.consolidatedOutAmounts);
    }

    /** Filled maps give every validator the reported reward of the original queue, whatever number of
        placeholders earlier bundles have left behind it. */
    lemma FilledMapsGiveReward(base: seq<PendingConsolidation>, n: nat)
      requires ValidEpoch(EpochOf(base)) && QueueExtends(base, n)
      requires ValidEpoch(EpochOf(current.pendingConsolidations)) && MapsFilled(current.pendingConsolidations)
      ensures forall v :: 0 <= v < |current.registry| ==> EpochReward(v) == Reported(EpochOf(base), v)
    {
      PlaceholdersInRegistry(current.registry, base, n);
      assert EpochOf(base).(pendingConsolidations := base + Placeholders(n)) == EpochOf(current.pendingConsolidations);
      forall v | 0 <= v < |current.registry| ensures EpochReward(v) == Reported(EpochOf(base), v) {
        PlaceholdersLeaveReward(EpochOf(base), n, v);
      }
    }

    /** The two lists of results that EpochExact compares with the standard's. */
    ghost predicate RequestsHandled(
        before: Ledger, consolidations: seq<ConsolidationRequests.Result>, withdrawals: seq<WithdrawalRequests.Result>)
      requires |current.registry| == |current.balances|
    {
      BundleResults(RequestView(), before, next.blocks, consolidations, withdrawals)
    }

    /** Consolidation requests, then withdrawal requests: the queues only grow, by placeholders and by
        partial withdrawals, and stay sound. */
    method ProcessRequests(ghost base: seq<PendingConsolidation>, ghost n: nat) returns (ghost m: nat)
      requires |current.registry| == |current.balances| && QueueExtends(base, n)
      modifies current`pendingConsolidations, current`pendingPartialWithdrawals, current`newExitingValidators,
               next`consolidationResults, next`withdrawalResults
      ensures n <= m && QueueExtends(base, m)
      ensures ConsolidationRequests.Sound(RequestView(), old(current.AsLedger())) ==>
                ConsolidationRequests.Sound(RequestView(), current.AsLedger())
      ensures RequestsHandled(old(current.AsLedger()), next.consolidationResults, next.withdrawalResults)
    {
      ghost var view, before := RequestView(), current.AsLedger();
      ghost var ops := ConsolidationRequests.EpochOperations(ConsolidationsIn(next.blocks), WithdrawalsIn(next.blocks));
      ProcessConsolidationRequests();
      ProcessWithdrawalRequests();
      ConsolidationRequests.EpochRunIsOneRun(view, before, ConsolidationsIn(next.blocks), WithdrawalsIn(next.blocks));
      ghost var more := ConsolidationRequests.RunAppendsPlaceholders(view, before, ops);
      PlaceholdersJoin(base, n, more);
      m := n + more;
      if ConsolidationRequests.Sound(view, before) { ConsolidationRequests.EveryRunStaysSound(view, before, ops); }
    }

    /** The passes over pending deposits and consolidations, of the transition behind and of the one ahead. */
    method ReplayTransitions(ghost base: seq<PendingConsolidation>, ghost n: nat) returns (ghost rows: seq<ConsolidationProcessed>)
      requires ValidEpoch(EpochOf(base)) && QueueExtends(base, n)
      requires current != next && current.DepositsFit() && next.DepositsFit()
      requires InRegistry(next.registry, next.pendingConsolidations)
      modifies current`depositedAmounts, current`consolidatedAmounts, current`consolidatedOutAmounts,
               next`depositedAmounts, next`depositsProcessed, next`depositsNum, next`totalDepositsAmount,
               next`consolidatedAmounts, next`consolidationsProcessed, next`consolidationsProcessedAmount
      ensures forall v :: 0 <= v < |current.registry| ==> EpochReward(v) == Reported(EpochOf(base), v)
      ensures CountersAdvance(next.depositsProcessed, old(next.depositsNum), old(next.totalDepositsAmount),
                              next.depositsNum, next.totalDepositsAmount)
      ensures RowsOfTransition(next.epoch, next.registry, next.balances, next.pendingConsolidations, rows)
      ensures RowsAdded(rows, old(next.consolidationsProcessed), old(next.consolidationsProcessedAmount),
                        next.consolidationsProcessed, next.consolidationsProcessedAmount)
    {
      ProcessPendingDeposits();
      PlaceholdersInRegistry(current.registry, base, n);
      FillRewardMaps();
      rows := ProcessPendingConsolidations();
      FilledMapsGiveReward(base, n);
    }

    /** The whole bundle, run for the n-th time or the first: the reward of every validator is the one
        that the untouched queue gives, and the queues handed to the next run stay sound. */
    method PreProcessBundle(ghost base: seq<PendingConsolidation>, ghost n: nat)
      returns (ghost m: nat, ghost rows: seq<ConsolidationProcessed>)
      requires ValidEpoch(EpochOf(base)) && QueueExtends(base, n)
      requires current != next && current.DepositsFit() && next.DepositsFit()
      requires InRegistry(next.registry, next.pendingConsolidations)
      modifies current, next
      ensures n <= m && QueueExtends(base, m)
      ensures !current.emptyStateRoot ==> forall v :: 0 <= v < |current.registry| ==> EpochReward(v) == Reported(EpochOf(base), v)
      ensures ConsolidationRequests.Sound(RequestView(), old(current.AsLedger())) ==>
                ConsolidationRequests.Sound(RequestView(), current.AsLedger())
      ensures current.emptyStateRoot || prevEmpty ==> current.AsLedger() == old(current.AsLedger())
      ensures !current.emptyStateRoot && !prevEmpty ==>
                RequestsHandled(old(current.AsLedger()), next.consolidationResults, next.withdrawalResults)
      ensures !current.emptyStateRoot ==>
                CountersAdvance(next.depositsProcessed, old(next.depositsNum), old(next.totalDepositsAmount),
                                next.depositsNum, next.totalDepositsAmount)
      ensures next.pendingConsolidations == old(next.pendingConsolidations)
      ensures !current.emptyStateRoot ==>
                && RowsOfTransition(next.epoch, next.registry, next.balances, next.pendingConsolidations, rows)
                && RowsAdded(rows, old(next.consolidationsProcessed), old(next.consolidationsProcessedAmount),
                             next.consolidationsProcessed, next.consolidationsProcessedAmount)
    {
      m, rows := n, [];
      if current.emptyStateRoot { return; }
      rows := ReplayTransitions(base, n);
      if prevEmpty { return; }
      m := ProcessRequests(base, n);
    }
  }

  lemma PlaceholdersInRegistry(registry: seq<Validator>, base: seq<PendingConsolidation>, n: nat)
    requires InRegistry(registry, base) && (n > 0 ==> registry != [])
    ensures InRegistry(registry, Placeholders(n)) && InRegistry(registry, base + Placeholders(n))
  {
  }

  lemma PlaceholdersJoin(base: seq<PendingConsolidation>, n: nat, more: nat)
    ensures base + Placeholders(n) + Placeholders(more) == base + Placeholders(n + more)
  {
  }
}
