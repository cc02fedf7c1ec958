/** What the handlers of execution-layer requests share: the cached state they read, the queues they
    extend, the churn limits, and the consensus standard's state that they stand for. */
module RequestLedger {
  import opened Chain
  import opened ConsolidationQueue
  import ElectraSpec

  const PENDING_CONSOLIDATIONS_LIMIT: nat := 262_144
  const PENDING_PARTIAL_WITHDRAWALS_LIMIT: nat := 134_217_728
  const MIN_PER_EPOCH_CHURN_LIMIT: nat := 128_000_000_000
  const MAX_ACTIVATION_EXIT_CHURN_LIMIT: nat := 256_000_000_000
  const CHURN_LIMIT_QUOTIENT: nat := 65_536

  /** The part of a cached state that request handling only reads, and the total active balance of the epoch
      after it: the requests are those of the next state's blocks, so the standard takes them in that epoch. */
  datatype View = View(
    epoch: nat, registry: seq<Validator>, balances: seq<Uint64>, totalActiveBalance: Uint64, nextTotalActiveBalance: Uint64)

  /** The standard's current epoch for the requests; the handler compares with the epoch before. */
  function RequestEpoch(view: View): nat { view.epoch + 1 }

  ghost predicate ValidView(view: View) {
    && DistinctKeys(view.registry)
    && |view.registry| == |view.balances|
    && RequestEpoch(view) < FAR_FUTURE_EPOCH
  }

  datatype PartialWithdrawal = PartialWithdrawal(validator: nat, amount: Uint64)

  /** The part of a cached state that request handling extends. */
  datatype Ledger = Ledger(
    partials: seq<PartialWithdrawal>, exiting: seq<nat>, consolidations: seq<PendingConsolidation>)

  /** The true sum queued for v; the program holds it modulo the word size. */
  function PendingSum(queue: seq<PartialWithdrawal>, v: nat): nat {
    if queue == [] then 0
    else (if queue[0].validator == v then queue[0].amount else 0) + PendingSum(queue[1..], v)
  }

  lemma {:induction false} PendingSumAppend(queue: seq<PartialWithdrawal>, w: PartialWithdrawal, v: nat)
    ensures PendingSum(queue + [w], v) == PendingSum(queue, v) + if w.validator == v then w.amount else 0
  {
    if queue == [] {
      assert queue + [w] == [w];
    } else {
      assert (queue + [w])[1..] == queue[1..] + [w];
      PendingSumAppend(queue[1..], w, v);
    }
  }

  // ------------------------------------------------------------ churn limits

  /** The greatest whole number of ETH that is not above both 128 ETH and one 65536th of the total. */
  function BalanceChurnLimit(total: Uint64): (limit: nat)
    ensures limit % 1_000_000_000 == 0
    ensures limit <= 128_000_000_000 || limit <= total / 65_536
    ensures limit + 1_000_000_000 > 128_000_000_000 && limit + 1_000_000_000 > total / 65_536
  {
    var share := total / CHURN_LIMIT_QUOTIENT;
    var churn := if MIN_PER_EPOCH_CHURN_LIMIT > share then MIN_PER_EPOCH_CHURN_LIMIT else share;
    churn - churn % EFFECTIVE_BALANCE_INCREMENT
  }

  function ActivationExitChurnLimit(total: Uint64): nat {
    var limit := BalanceChurnLimit(total);
    if MAX_ACTIVATION_EXIT_CHURN_LIMIT < limit then MAX_ACTIVATION_EXIT_CHURN_LIMIT else limit
  }

  function ConsolidationChurnLimit(total: Uint64): int {
    BalanceChurnLimit(total) - ActivationExitChurnLimit(total)
  }

  /** The two shares split the whole churn and neither underflows; consolidation gets a share only
      after activations and exits have theirs in full, which is 256 ETH. */
  lemma ChurnSplits(total: Uint64)
    ensures 0 <= ConsolidationChurnLimit(total)
    ensures ActivationExitChurnLimit(total) + ConsolidationChurnLimit(total) == BalanceChurnLimit(total)
    ensures 128_000_000_000 <= ActivationExitChurnLimit(total) <= 256_000_000_000
    ensures ConsolidationChurnLimit(total) > 0 ==> ActivationExitChurnLimit(total) == 256_000_000_000
  {
  }

  lemma ChurnIsStandard(total: Uint64)
    ensures BalanceChurnLimit(total) == ElectraSpec.BalanceChurnLimit(total)
    ensures ActivationExitChurnLimit(total) == ElectraSpec.ActivationExitChurnLimit(total)
    ensures ConsolidationChurnLimit(total) == ElectraSpec.ConsolidationChurnLimit(total)
  {
  }

  // ------------------------------------------------------------ one epoch between the two

  /** Active in both epochs or in neither: the validator is neither activated nor gone with the second. */
  predicate SameActivity(view: View, v: Validator) {
    v.activationEpoch <= view.epoch < v.exitEpoch <==> v.activationEpoch <= view.epoch + 1 < v.exitEpoch
  }

  /** The validator has been active long enough in the second epoch and not in the first. */
  predicate ComesOfAge(view: View, v: Validator) { v.activationEpoch + 256 == view.epoch + 1 }

  // ------------------------------------------------------------ what has been granted

  /** What a sequence of requests has been granted: the queues and the list that the program extends, and
      the switches to compounding credentials, which it grants without noting them anywhere. */
  datatype Record = Record(ledger: Ledger, switched: set<nat>)

  // ------------------------------------------------------------ the consensus standard's state

  datatype StandardPartial = StandardPartial(validator: nat, amount: nat)

  /** A pending deposit of the balance that a switch to compounding credentials takes off. */
  datatype QueuedExcess = QueuedExcess(validator: nat, amount: nat)

  datatype StandardState = StandardState(
    registry: seq<Validator>, balances: seq<nat>, partials: seq<StandardPartial>,
    consolidations: seq<PendingConsolidation>, queued: seq<QueuedExcess>)

  function StandardPendingSum(queue: seq<StandardPartial>, v: nat): nat {
    if queue == [] then 0
    else (if queue[0].validator == v then queue[0].amount else 0) + StandardPendingSum(queue[1..], v)
  }

  lemma {:induction false} StandardPendingSumAppend(queue: seq<StandardPartial>, w: StandardPartial, v: nat)
    ensures StandardPendingSum(queue + [w], v) == StandardPendingSum(queue, v) + if w.validator == v then w.amount else 0
  {
    if queue == [] {
      assert queue + [w] == [w];
    } else {
      assert (queue + [w])[1..] == queue[1..] + [w];
      StandardPendingSumAppend(queue[1..], w, v);
    }
  }

  /** The exit of a validator, by request or as the source of a consolidation. The exit epoch comes from
      a churn that is not modelled: it is any finite epoch after the current one. */
  function InitiateExit(s: StandardState, v: nat, exitAt: nat): StandardState
    requires v < |s.registry|
  {
    s.(registry := s.registry[v := s.registry[v].(exitEpoch := exitAt, withdrawableEpoch := exitAt + 256)])
  }

  /** switch_to_compounding_validator, with queue_excess_active_balance. */
  function SwitchToCompounding(s: StandardState, v: nat): StandardState
    requires v < |s.registry| == |s.balances|
  {
    var switched := s.(registry := s.registry[v := s.registry[v].(prefix := 0x02)]);
    if s.balances[v] > 32_000_000_000 then
      switched.(balances := s.balances[v := 32_000_000_000],
                queued := s.queued + [QueuedExcess(v, s.balances[v] - 32_000_000_000)])
    else switched
  }

  predicate ValidExit(view: View, exitAt: nat) { RequestEpoch(view) < exitAt < FAR_FUTURE_EPOCH }

  // ------------------------------------------------------------ how the two correspond

  /** The two sums queued for one validator: equal, or the standard's has used up the excess. */
  ghost predicate Tracks(balance: int, held: nat, standard: nat) {
    && standard <= held
    && (held == 0 <==> standard == 0)
    && (held == standard || balance <= MIN_ACTIVATION_BALANCE + standard)
  }

  /** The standard's validator is the cached one with the exit and the switch it was granted. */
  ghost predicate SameValidator(view: View, granted: Record, mine: Validator, theirs: Validator, v: nat) {
    && theirs == mine.(prefix := theirs.prefix, exitEpoch := theirs.exitEpoch, withdrawableEpoch := theirs.withdrawableEpoch)
    && (if v in granted.switched then mine.prefix == ETH1_PREFIX && theirs.prefix == COMPOUNDING_PREFIX
        else theirs.prefix == mine.prefix)
    && (if v in granted.ledger.exiting then mine.exitEpoch == FAR_FUTURE_EPOCH && ValidExit(view, theirs.exitEpoch)
        else theirs.exitEpoch == mine.exitEpoch && theirs.withdrawableEpoch == mine.withdrawableEpoch)
  }

  /** A switch takes the excess over 32 ETH off. */
  function BalanceAfterSwitches(view: View, granted: Record, v: nat): nat
    requires v < |view.balances|
  {
    if v in granted.switched && view.balances[v] > MIN_ACTIVATION_BALANCE then MIN_ACTIVATION_BALANCE else view.balances[v]
  }

  ghost predicate Follows(view: View, granted: Record, s: StandardState, v: nat)
    requires v < |view.registry| == |view.balances| == |s.registry| == |s.balances|
  {
    && SameValidator(view, granted, view.registry[v], s.registry[v], v)
    && s.balances[v] == BalanceAfterSwitches(view, granted, v)
    && Tracks(s.balances[v], PendingSum(granted.ledger.partials, v), StandardPendingSum(s.partials, v))
  }

  /** The standard's state is the cached one after everything that was granted. */
  ghost predicate Corresponds(view: View, granted: Record, s: StandardState) {
    && ValidView(view)
    && |s.registry| == |s.balances| == |view.registry|
    && |granted.ledger.partials| == |s.partials|
    && |granted.ledger.consolidations| == |s.consolidations|
    && forall v :: 0 <= v < |view.registry| ==> Follows(view, granted, s, v)
  }

  /** Nothing changes a key, so both sides find the same validator. */
  lemma SameSearch(view: View, granted: Record, s: StandardState, key: Bytes)
    requires Corresponds(view, granted, s)
    ensures FirstIndex(s.registry, key) == FirstIndex(view.registry, key) == LastIndex(view.registry, key)
  {
    var a := FirstIndex(s.registry, key);
    forall v | 0 <= v < |view.registry| ensures s.registry[v].pubkey == view.registry[v].pubkey {
      assert Follows(view, granted, s, v);
    }
    if a.Some? { assert view.registry[a.value].pubkey == key; }
    IndexesAgree(view.registry, key);
  }

  lemma ExitKeepsCorrespondence(view: View, granted: Record, s: StandardState, v: nat, exitAt: nat)
    requires Corresponds(view, granted, s) && v < |view.registry| && ValidExit(view, exitAt)
    requires view.registry[v].exitEpoch == FAR_FUTURE_EPOCH && v !in granted.ledger.exiting
    ensures Corresponds(view, granted.(ledger := granted.ledger.(exiting := granted.ledger.exiting + [v])), InitiateExit(s, v, exitAt))
  {
    var after, t := granted.(ledger := granted.ledger.(exiting := granted.ledger.exiting + [v])), InitiateExit(s, v, exitAt);
    forall u | 0 <= u < |view.registry| ensures Follows(view, after, t, u) {
      assert Follows(view, granted, s, u);
    }
  }

  lemma SwitchKeepsCorrespondence(view: View, granted: Record, s: StandardState, v: nat)
    requires Corresponds(view, granted, s) && v < |view.registry|
    requires view.registry[v].prefix == ETH1_PREFIX && v !in granted.switched
    ensures Corresponds(view, granted.(switched := granted.switched + {v}), SwitchToCompounding(s, v))
  {
    var after, t := granted.(switched := granted.switched + {v}), SwitchToCompounding(s, v);
    forall u | 0 <= u < |view.registry| ensures Follows(view, after, t, u) {
      assert Follows(view, granted, s, u);
    }
  }

  lemma PartialKeepsCorrespondence(view: View, granted: Record, s: StandardState, v: nat, amount: Uint64, capped: nat)
    requires Corresponds(view, granted, s) && v < |view.registry|
    requires Tracks(s.balances[v], PendingSum(granted.ledger.partials, v) + amount, StandardPendingSum(s.partials, v) + capped)
    ensures Corresponds(view, granted.(ledger := granted.ledger.(partials := granted.ledger.partials + [PartialWithdrawal(v, amount)])),
                        s.(partials := s.partials + [StandardPartial(v, capped)]))
  {
    var after := granted.(ledger := granted.ledger.(partials := granted.ledger.partials + [PartialWithdrawal(v, amount)]));
    forall u | 0 <= u < |view.registry| ensures Follows(view, after, s.(partials := s.partials + [StandardPartial(v, capped)]), u) {
      assert Follows(view, granted, s, u);
      PendingSumAppend(granted.ledger.partials, PartialWithdrawal(v, amount), u);
      StandardPendingSumAppend(s.partials, StandardPartial(v, capped), u);
    }
  }
}
