/** The pending deposit queue at an epoch transition: a closed form of what one transition
    consumes, and the consensus standard's process_pending_deposits (Electra beacon chain
    specification, section "New process_pending_deposits") that it refines.

    The standard registers new validators while it walks the queue; the closed form only ever
    looks at the registry from before the walk. */
module DepositQueue {
  import opened Chain
  import RequestLedger
  import ElectraSpec

  const MAX_PENDING_DEPOSITS_PER_EPOCH: nat := 16

  datatype PendingDeposit = PendingDeposit(
    pubkey: Bytes, prefix: nat, address: Bytes, amount: Uint64, slot: nat,
    signatureValid: bool)   // outcome of the proof-of-possession check

  /** The fields of the state that one transition reads besides the registry and the queue; the finalized
      epoch is that of the state after it. */
  datatype Transition = Transition(
    epoch: nat, depositBalanceToConsume: nat, totalActiveBalance: Uint64,
    eth1DepositIndex: nat, depositRequestsStartIndex: nat, finalizedEpoch: nat)

  /** What the replay makes of them. */
  function RulesOf(t: Transition): Rules {
    Rules(t.epoch + 1, t.eth1DepositIndex < t.depositRequestsStartIndex, t.finalizedEpoch * SLOTS_PER_EPOCH,
          t.depositBalanceToConsume + RequestLedger.ActivationExitChurnLimit(t.totalActiveBalance))
  }

  datatype Rules = Rules(nextEpoch: nat, bridgePending: bool, finalizedSlot: nat, available: nat)

  /** The queue is walked no further than the first closed gate. */
  predicate GateOpen(rules: Rules, d: PendingDeposit) {
    !(d.slot > 0 && rules.bridgePending) && d.slot <= rules.finalizedSlot
  }

  datatype Fate = Postponed | AppliedFree | AppliedFromChurn

  function FateOf(rules: Rules, registry: seq<Validator>, d: PendingDeposit): Fate {
    match LastIndex(registry, d.pubkey) {
      case None => AppliedFromChurn
      case Some(i) =>
        if registry[i].withdrawableEpoch < rules.nextEpoch then AppliedFree
        else if registry[i].exitEpoch < FAR_FUTURE_EPOCH then Postponed
        else AppliedFromChurn
    }
  }

  function ChurnOf(rules: Rules, registry: seq<Validator>, d: PendingDeposit): nat {
    if FateOf(rules, registry, d) == AppliedFromChurn then d.amount else 0
  }

  function CreditOf(rules: Rules, registry: seq<Validator>, d: PendingDeposit, v: nat): nat {
    if FateOf(rules, registry, d) != Postponed && LastIndex(registry, d.pubkey) == Some(v) then d.amount else 0
  }

  /** How many entries one transition takes from the front, `count` and `used` being spent already. */
  function Consumed(rules: Rules, registry: seq<Validator>, queue: seq<PendingDeposit>, count: nat, used: nat): (k: nat)
    ensures k <= |queue|
    ensures count <= MAX_PENDING_DEPOSITS_PER_EPOCH ==> count + k <= MAX_PENDING_DEPOSITS_PER_EPOCH
  {
    if queue == [] || !GateOpen(rules, queue[0]) || count >= MAX_PENDING_DEPOSITS_PER_EPOCH then 0
    else
      var spent := used + ChurnOf(rules, registry, queue[0]);
      if spent > rules.available && FateOf(rules, registry, queue[0]) == AppliedFromChurn then 0
      else 1 + Consumed(rules, registry, queue[1..], count + 1, spent)
  }

  lemma {:induction false} ConsumedUnfolds(rules: Rules, registry: seq<Validator>, queue: seq<PendingDeposit>, count: nat, used: nat)
    requires Consumed(rules, registry, queue, count, used) > 0
    ensures Consumed(rules, registry, queue, count, used)
            == 1 + Consumed(rules, registry, queue[1..], count + 1, used + ChurnOf(rules, registry, queue[0]))
  {
  }

  /** Churn spent on the first k entries. */
  function ChurnUsed(rules: Rules, registry: seq<Validator>, queue: seq<PendingDeposit>, k: nat): nat
    requires k <= |queue|
  {
    if k == 0 then 0 else ChurnOf(rules, registry, queue[0]) + ChurnUsed(rules, registry, queue[1..], k - 1)
  }

  /** What validator v receives from the first k entries. */
  function Credited(rules: Rules, registry: seq<Validator>, queue: seq<PendingDeposit>, k: nat, v: nat): nat
    requires k <= |queue|
  {
    if k == 0 then 0 else CreditOf(rules, registry, queue[0], v) + Credited(rules, registry, queue[1..], k - 1, v)
  }

  function PostponedAmong(rules: Rules, registry: seq<Validator>, queue: seq<PendingDeposit>, k: nat): seq<PendingDeposit>
    requires k <= |queue|
  {
    if k == 0 then []
    else PostponedBy(rules, registry, queue[0]) + PostponedAmong(rules, registry, queue[1..], k - 1)
  }

  function PostponedBy(rules: Rules, registry: seq<Validator>, d: PendingDeposit): seq<PendingDeposit> {
    if FateOf(rules, registry, d) == Postponed then [d] else []
  }

  function AppliedAmong(rules: Rules, registry: seq<Validator>, queue: seq<PendingDeposit>, k: nat): seq<PendingDeposit>
    requires k <= |queue|
  {
    if k == 0 then [] else AppliedBy(rules, registry, queue[0]) + AppliedAmong(rules, registry, queue[1..], k - 1)
  }

  function AppliedBy(rules: Rules, registry: seq<Validator>, d: PendingDeposit): seq<PendingDeposit> {
    if FateOf(rules, registry, d) == Postponed then [] else [d]
  }

  /** The deposits one whole transition applies to validator v. */
  function Deposited(rules: Rules, registry: seq<Validator>, queue: seq<PendingDeposit>, v: nat): nat {
    Credited(rules, registry, queue, Consumed(rules, registry, queue, 0, 0), v)
  }

  // ------------------------------------------------------------ the closed form is the greatest one

  lemma {:induction false} ChurnStaysWithinBudget(
      rules: Rules, registry: seq<Validator>, queue: seq<PendingDeposit>, count: nat, used: nat, i: nat)
    requires used <= rules.available
    requires i <= Consumed(rules, registry, queue, count, used)
    ensures used + ChurnUsed(rules, registry, queue, i) <= rules.available
    ensures forall j :: 0 <= j < i ==> GateOpen(rules, queue[j])
  {
    if i > 0 {
      ChurnStaysWithinBudget(rules, registry, queue[1..], count + 1, used + ChurnOf(rules, registry, queue[0]), i - 1);
      forall j | 0 <= j < i ensures GateOpen(rules, queue[j]) {
        if j > 0 { assert queue[j] == queue[1..][j - 1]; }
      }
    }
  }

  /** The walk ends only at the end of the queue, at a closed gate, at the entry limit, or at an
      entry that does not fit the churn left over. */
  lemma {:induction false} ConsumedIsGreatest(
      rules: Rules, registry: seq<Validator>, queue: seq<PendingDeposit>, count: nat, used: nat)
    requires count <= MAX_PENDING_DEPOSITS_PER_EPOCH
    ensures var k := Consumed(rules, registry, queue, count, used);
      || k == |queue|
      || !GateOpen(rules, queue[k])
      || count + k == MAX_PENDING_DEPOSITS_PER_EPOCH
      || (FateOf(rules, registry, queue[k]) == AppliedFromChurn
          && used + ChurnUsed(rules, registry, queue, k) + queue[k].amount > rules.available)
  {
    var k := Consumed(rules, registry, queue, count, used);
    if k > 0 {
      var spent := used + ChurnOf(rules, registry, queue[0]);
      ConsumedIsGreatest(rules, registry, queue[1..], count + 1, spent);
      if k < |queue| { assert queue[k] == queue[1..][k - 1]; }
    }
  }

  lemma {:induction false} CreditGrowsWithPrefix(
      rules: Rules, registry: seq<Validator>, queue: seq<PendingDeposit>, i: nat, k: nat, v: nat)
    requires i <= k <= |queue|
    ensures Credited(rules, registry, queue, i, v) <= Credited(rules, registry, queue, k, v)
  {
    if i > 0 { CreditGrowsWithPrefix(rules, registry, queue[1..], i - 1, k - 1, v); }
  }

  lemma {:induction false} LaterFinalityConsumesMore(
      rules: Rules, later: Rules, registry: seq<Validator>, queue: seq<PendingDeposit>, count: nat, used: nat)
    requires later == rules.(finalizedSlot := later.finalizedSlot) && rules.finalizedSlot <= later.finalizedSlot
    ensures Consumed(rules, registry, queue, count, used) <= Consumed(later, registry, queue, count, used)
  {
    if Consumed(rules, registry, queue, count, used) > 0 {
      assert FateOf(rules, registry, queue[0]) == FateOf(later, registry, queue[0]);
      LaterFinalityConsumesMore(rules, later, registry, queue[1..], count + 1, used + ChurnOf(rules, registry, queue[0]));
    }
  }

  lemma {:induction false} FinalityDoesNotChangeCredit(
      rules: Rules, later: Rules, registry: seq<Validator>, queue: seq<PendingDeposit>, k: nat, v: nat)
    requires later == rules.(finalizedSlot := later.finalizedSlot)
    requires k <= |queue|
    ensures Credited(rules, registry, queue, k, v) == Credited(later, registry, queue, k, v)
  {
    if k > 0 { FinalityDoesNotChangeCredit(rules, later, registry, queue[1..], k - 1, v); }
  }

  /** Replaying with a later finalized checkpoint never lowers what a validator is credited. */
  lemma LaterFinalityNeverLowers(
      rules: Rules, later: Rules, registry: seq<Validator>, queue: seq<PendingDeposit>, v: nat)
    requires later == rules.(finalizedSlot := later.finalizedSlot) && rules.finalizedSlot <= later.finalizedSlot
    ensures Deposited(rules, registry, queue, v) <= Deposited(later, registry, queue, v)
  {
    var i, k := Consumed(rules, registry, queue, 0, 0), Consumed(later, registry, queue, 0, 0);
    LaterFinalityConsumesMore(rules, later, registry, queue, 0, 0);
    FinalityDoesNotChangeCredit(rules, later, registry, queue, k, v);
    CreditGrowsWithPrefix(rules, registry, queue, i, k, v);
  }

  // ------------------------------------------------------------ the consensus standard

  datatype Standard = Standard(
    registry: seq<Validator>, balances: seq<nat>,
    processed: nat, index: nat, postponed: seq<PendingDeposit>, applied: seq<PendingDeposit>, limitReached: bool)

  /** apply_pending_deposit: raise a balance, or register a validator whose signature checks. */
  function StandardApply(s: Standard, d: PendingDeposit): Standard
    requires |s.registry| == |s.balances|
  {
    var noted := s.(applied := s.applied + [d]);
    match FirstIndex(s.registry, d.pubkey) {
      case Some(i) => noted.(balances := s.balances[i := s.balances[i] + d.amount])
      case None =>
        if d.signatureValid then
          noted.(registry := s.registry + [NewValidator(d)], balances := s.balances + [d.amount as nat])
        else noted
    }
  }

  /** add_validator_to_registry; the initial effective balance plays no part in the walk. */
  function NewValidator(d: PendingDeposit): Validator {
    Validator(d.pubkey, d.prefix, d.address, 0, false, FAR_FUTURE_EPOCH, FAR_FUTURE_EPOCH, FAR_FUTURE_EPOCH)
  }

  datatype Turn = Stop(final: Standard) | Next(state: Standard)

  /** available_for_processing: what was carried over and what the churn limit grants. */
  function StandardAvailable(t: Transition): nat {
    t.depositBalanceToConsume + ElectraSpec.ActivationExitChurnLimit(t.totalActiveBalance)
  }

  /** One turn of the loop of process_pending_deposits. */
  function StandardTurn(t: Transition, s: Standard, d: PendingDeposit): (turn: Turn)
    requires |s.registry| == |s.balances|
    ensures turn.Next? ==> |turn.state.registry| == |turn.state.balances|
    ensures turn.Stop? ==> turn.final == s || turn.final == s.(limitReached := true)
  {
    if d.slot > 0 && t.eth1DepositIndex < t.depositRequestsStartIndex then Stop(s)
    else if d.slot > ElectraSpec.StartSlot(t.finalizedEpoch) then Stop(s)
    else if s.index >= 16 then Stop(s)
    else
      var found := FirstIndex(s.registry, d.pubkey);
      var exited := found.Some? && s.registry[found.value].exitEpoch < 18_446_744_073_709_551_615;
      var withdrawn := found.Some? && s.registry[found.value].withdrawableEpoch < t.epoch + 1;
      if withdrawn then Next(StandardApply(s, d).(index := s.index + 1))
      else if exited then Next(s.(postponed := s.postponed + [d], index := s.index + 1))
      else if s.processed + d.amount > StandardAvailable(t) then Stop(s.(limitReached := true))
      else Next(StandardApply(s, d).(processed := s.processed + d.amount, index := s.index + 1))
  }

  function StandardWalk(t: Transition, queue: seq<PendingDeposit>, s: Standard): (end: Standard)
    requires |s.registry| == |s.balances|
    ensures |end.registry| == |end.balances|
    decreases |queue|
  {
    if queue == [] then s
    else match StandardTurn(t, s, queue[0]) {
      case Stop(final) => final
      case Next(s1) => StandardWalk(t, queue[1..], s1)
    }
  }

  /** process_pending_deposits from the fields of the state: the walk, starting with nothing processed. */
  function StandardDeposits(t: Transition, registry: seq<Validator>, balances: seq<nat>, queue: seq<PendingDeposit>): (end: Standard)
    requires |registry| == |balances|
    ensures |end.registry| == |end.balances|
  {
    StandardWalk(t, queue, Standard(registry, balances, 0, 0, [], [], false))
  }

  /** The deposit_balance_to_consume that it leaves: what is left if the limit was reached, else nothing. */
  function CarriedOver(t: Transition, end: Standard): nat
    requires end.processed <= StandardAvailable(t)
  {
    if end.limitReached then StandardAvailable(t) - end.processed else 0
  }

  /** The standard's registry in mid-walk: the old one, then newcomers that no exit has touched. */
  ghost predicate Extends(before: seq<Validator>, now: seq<Validator>) {
    && |before| <= |now|
    && now[..|before|] == before
    && forall i :: |before| <= i < |now| ==>
         && now[i].exitEpoch == FAR_FUTURE_EPOCH
         && now[i].withdrawableEpoch == FAR_FUTURE_EPOCH
         && LastIndex(before, now[i].pubkey).None?
  }

  /** A search of the grown registry finds the same before validator, or one that is not exiting. */
  lemma SearchInGrownRegistry(before: seq<Validator>, now: seq<Validator>, key: Bytes)
    requires DistinctKeys(before) && Extends(before, now)
    ensures LastIndex(before, key).Some? ==> FirstIndex(now, key) == LastIndex(before, key)
    ensures LastIndex(before, key).None? && FirstIndex(now, key).Some? ==> FirstIndex(now, key).value >= |before|
  {
    var found, last := FirstIndex(now, key), LastIndex(before, key);
    if last.Some? {
      assert now[last.value] == before[last.value];
      assert found.Some? && found.value <= last.value;
      assert now[found.value] == before[found.value];
    } else {
      assert forall i :: 0 <= i < |before| ==> now[i] == before[i];
    }
  }

  /** What the walk does to the balances of the validators that were there before it. */
  ghost predicate WalkAgrees(
      rules: Rules, registry: seq<Validator>, queue: seq<PendingDeposit>, k: nat, s: Standard, t: Standard)
    requires k <= |queue| && |registry| <= |s.balances| && |registry| <= |t.balances|
  {
    && t.index == s.index + k
    && t.processed == s.processed + ChurnUsed(rules, registry, queue, k)
    && t.postponed == s.postponed + PostponedAmong(rules, registry, queue, k)
    && t.applied == s.applied + AppliedAmong(rules, registry, queue, k)
    && (forall v :: 0 <= v < |registry| ==>
          t.balances[v] == s.balances[v] + Credited(rules, registry, queue, k, v))
  }

  ghost predicate WalkReady(registry: seq<Validator>, rules: Rules, s: Standard) {
    && DistinctKeys(registry) && Extends(registry, s.registry) && |s.registry| == |s.balances|
    && rules.nextEpoch <= FAR_FUTURE_EPOCH
  }

  /** The standard reads off its grown registry the fate that the old registry gives. */
  lemma FateSurvivesGrowth(rules: Rules, registry: seq<Validator>, s: Standard, d: PendingDeposit)
    requires WalkReady(registry, rules, s)
    ensures var found := FirstIndex(s.registry, d.pubkey);
            var withdrawn := found.Some? && s.registry[found.value].withdrawableEpoch < rules.nextEpoch;
            var exited := found.Some? && s.registry[found.value].exitEpoch < FAR_FUTURE_EPOCH;
            FateOf(rules, registry, d) ==
            if withdrawn then AppliedFree else if exited then Postponed else AppliedFromChurn
  {
    SearchInGrownRegistry(registry, s.registry, d.pubkey);
    var found := FirstIndex(s.registry, d.pubkey);
    if found.Some? && found.value < |registry| { assert s.registry[found.value] == registry[found.value]; }
  }

  /** One consumed entry in the standard, seen from the old registry. */
  ghost predicate StepFacts(rules: Rules, registry: seq<Validator>, s: Standard, s1: Standard, d: PendingDeposit)
    requires |registry| <= |s.balances| && |registry| <= |s1.balances|
  {
    && s1.index == s.index + 1
    && s1.processed == s.processed + ChurnOf(rules, registry, d)
    && s1.postponed == s.postponed + PostponedBy(rules, registry, d)
    && s1.applied == s.applied + AppliedBy(rules, registry, d)
    && forall v :: 0 <= v < |registry| ==> s1.balances[v] == s.balances[v] + CreditOf(rules, registry, d, v)
  }

  lemma ApplyFacts(rules: Rules, registry: seq<Validator>, s: Standard, d: PendingDeposit)
    requires WalkReady(registry, rules, s) && FateOf(rules, registry, d) != Postponed
    ensures var s1 := StandardApply(s, d);
      && WalkReady(registry, rules, s1)
      && s1.postponed == s.postponed && s1.applied == s.applied + [d] && s1.index == s.index && s1.processed == s.processed
      && forall v :: 0 <= v < |registry| ==> s1.balances[v] == s.balances[v] + CreditOf(rules, registry, d, v)
  {
    SearchInGrownRegistry(registry, s.registry, d.pubkey);
  }

  lemma TurnFollowsFate(t0: Transition, rules: Rules, registry: seq<Validator>, queue: seq<PendingDeposit>, s: Standard)
    requires rules == RulesOf(t0) && WalkReady(registry, rules, s) && queue != []
    ensures Consumed(rules, registry, queue, s.index, s.processed) == 0 <==> StandardTurn(t0, s, queue[0]).Stop?
    ensures var turn := StandardTurn(t0, s, queue[0]);
            turn.Next? ==> WalkReady(registry, rules, turn.state) && StepFacts(rules, registry, s, turn.state, queue[0])
  {
    FateSurvivesGrowth(rules, registry, s, queue[0]);
    RequestLedger.ChurnIsStandard(t0.totalActiveBalance);
    if FateOf(rules, registry, queue[0]) != Postponed { ApplyFacts(rules, registry, s, queue[0]); }
  }

  lemma AgreementExtends(
      rules: Rules, registry: seq<Validator>, queue: seq<PendingDeposit>, k: nat, s: Standard, s1: Standard, t: Standard)
    requires 0 < k <= |queue| && |registry| <= |s.balances| && |registry| <= |s1.balances| && |registry| <= |t.balances|
    requires StepFacts(rules, registry, s, s1, queue[0])
    requires WalkAgrees(rules, registry, queue[1..], k - 1, s1, t)
    ensures WalkAgrees(rules, registry, queue, k, s, t)
  {
    var first := PostponedBy(rules, registry, queue[0]);
    var rest := PostponedAmong(rules, registry, queue[1..], k - 1);
    assert (s.postponed + first) + rest == s.postponed + (first + rest);
    var one, more := AppliedBy(rules, registry, queue[0]), AppliedAmong(rules, registry, queue[1..], k - 1);
    assert (s.applied + one) + more == s.applied + (one + more);
  }

  lemma StoppedWalkAgrees(rules: Rules, registry: seq<Validator>, queue: seq<PendingDeposit>, s: Standard, t: Standard)
    requires WalkReady(registry, rules, s) && (t == s || t == s.(limitReached := true))
    ensures WalkReady(registry, rules, t) && WalkAgrees(rules, registry, queue, 0, s, t)
  {
  }

  lemma {:induction false} WalkRefines(
      t0: Transition, rules: Rules, registry: seq<Validator>, queue: seq<PendingDeposit>, s: Standard, t: Standard)
    requires rules == RulesOf(t0) && WalkReady(registry, rules, s) && t == StandardWalk(t0, queue, s)
    ensures WalkReady(registry, rules, t)
    ensures WalkAgrees(rules, registry, queue, Consumed(rules, registry, queue, s.index, s.processed), s, t)
    decreases |queue|
  {
    if queue == [] {
      StoppedWalkAgrees(rules, registry, queue, s, t);
    } else {
      TurnFollowsFate(t0, rules, registry, queue, s);
      match StandardTurn(t0, s, queue[0])
      case Stop(_) => StoppedWalkAgrees(rules, registry, queue, s, t);
      case Next(s1) =>
        WalkRefines(t0, rules, registry, queue[1..], s1, t);
        AgreementCarriesOver(rules, registry, queue, s, s1, t);
    }
  }

  lemma {:induction false} AgreementCarriesOver(
      rules: Rules, registry: seq<Validator>, queue: seq<PendingDeposit>, s: Standard, s1: Standard, t: Standard)
    requires queue != [] && Consumed(rules, registry, queue, s.index, s.processed) > 0
    requires |registry| <= |s.balances| && |registry| <= |s1.balances| && |registry| <= |t.balances|
    requires StepFacts(rules, registry, s, s1, queue[0])
    requires WalkAgrees(rules, registry, queue[1..], Consumed(rules, registry, queue[1..], s1.index, s1.processed), s1, t)
    ensures WalkAgrees(rules, registry, queue, Consumed(rules, registry, queue, s.index, s.processed), s, t)
  {
    var k := Consumed(rules, registry, queue, s.index, s.processed);
    ConsumedUnfolds(rules, registry, queue, s.index, s.processed);
    AgreementExtends(rules, registry, queue, k, s, s1, t);
  }

  /** The deposited amount of every validator that existed before the transition is exactly what the
      standard adds to its balance; at most sixteen entries leave the queue; churn stays within the
      budget and postponed entries use none of it. */
  lemma DepositsRefineStandard(t0: Transition, registry: seq<Validator>, balances: seq<nat>, queue: seq<PendingDeposit>)
    requires DistinctKeys(registry) && |registry| == |balances|
    requires t0.epoch + 1 <= FAR_FUTURE_EPOCH
    ensures var rules, t := RulesOf(t0), StandardDeposits(t0, registry, balances, queue);
      && |registry| <= |t.registry| && t.registry[..|registry|] == registry
      && t.index == Consumed(rules, registry, queue, 0, 0) <= 16 && t.index <= |queue|
      && t.processed <= StandardAvailable(t0)
      && t.processed == ChurnUsed(rules, registry, queue, t.index)
      && t.postponed == PostponedAmong(rules, registry, queue, t.index)
      && t.applied == AppliedAmong(rules, registry, queue, t.index)
      && forall v :: 0 <= v < |registry| ==> t.balances[v] == balances[v] + Deposited(rules, registry, queue, v)
  {
    var rules, s := RulesOf(t0), Standard(registry, balances, 0, 0, [], [], false);
    RequestLedger.ChurnIsStandard(t0.totalActiveBalance);
    WalkRefines(t0, rules, registry, queue, s, StandardWalk(t0, queue, s));
    ChurnStaysWithinBudget(rules, registry, queue, 0, 0, Consumed(rules, registry, queue, 0, 0));
  }

  // ------------------------------------------------------------ churn over many transitions

  /** The state before one transition: its fields, but for what is carried over, and its registry and queue. */
  datatype Stage = Stage(t: Transition, registry: seq<Validator>, balances: seq<nat>, queue: seq<PendingDeposit>)

  ghost predicate ValidStages(stages: seq<Stage>) {
    forall i :: 0 <= i < |stages| ==> ValidStage(stages[i])
  }

  ghost predicate ValidStage(g: Stage) { DistinctKeys(g.registry) && |g.registry| == |g.balances| && g.t.epoch + 1 <= FAR_FUTURE_EPOCH }

  /** The walk of a stage that starts with so much carried over. */
  function WalkOf(g: Stage, carried: nat): Standard
    requires |g.registry| == |g.balances|
  {
    StandardDeposits(g.t.(depositBalanceToConsume := carried), g.registry, g.balances, g.queue)
  }

  ghost function Carry(g: Stage, carried: nat): nat
    requires ValidStage(g)
  {
    DepositsRefineStandard(g.t.(depositBalanceToConsume := carried), g.registry, g.balances, g.queue);
    CarriedOver(g.t.(depositBalanceToConsume := carried), WalkOf(g, carried))
  }

  /** What the stages spend in all, one carrying over to the next. */
  ghost function SpentOver(stages: seq<Stage>, carried: nat): nat
    requires ValidStages(stages)
  {
    if stages == [] then 0
    else WalkOf(stages[0], carried).processed + SpentOver(stages[1..], Carry(stages[0], carried))
  }

  ghost function CarriedAfter(stages: seq<Stage>, carried: nat): nat
    requires ValidStages(stages)
  {
    if stages == [] then carried else CarriedAfter(stages[1..], Carry(stages[0], carried))
  }

  /** What the churn limits grant in all. */
  function GrantedOver(stages: seq<Stage>): nat {
    if stages == [] then 0 else ElectraSpec.ActivationExitChurnLimit(stages[0].t.totalActiveBalance) + GrantedOver(stages[1..])
  }

  /** What is given up: all that is left by a transition that did not reach the limit. */
  ghost function GivenUp(stages: seq<Stage>, carried: nat): nat
    requires ValidStages(stages)
  {
    if stages == [] then 0
    else
      DepositsRefineStandard(stages[0].t.(depositBalanceToConsume := carried), stages[0].registry, stages[0].balances, stages[0].queue);
      var here := WalkOf(stages[0], carried);
      (if here.limitReached then 0
       else StandardAvailable(stages[0].t.(depositBalanceToConsume := carried)) - here.processed)
      + GivenUp(stages[1..], Carry(stages[0], carried))
  }

  ghost predicate AlwaysReached(stages: seq<Stage>, carried: nat)
    requires ValidStages(stages)
  {
    stages == [] || (WalkOf(stages[0], carried).limitReached && AlwaysReached(stages[1..], Carry(stages[0], carried)))
  }

  /** Over any run of transitions, whatever the registries and queues: what was spent, what is carried over at
      the end and what was given up is what was carried in and what the limits granted; and nothing is given
      up while the limit is reached. */
  lemma {:induction false} ChurnIsConserved(stages: seq<Stage>, carried: nat)
    requires ValidStages(stages)
    ensures SpentOver(stages, carried) + CarriedAfter(stages, carried) + GivenUp(stages, carried) == carried + GrantedOver(stages)
    ensures AlwaysReached(stages, carried) ==> GivenUp(stages, carried) == 0
    decreases |stages|
  {
    if stages != [] {
      DepositsRefineStandard(stages[0].t.(depositBalanceToConsume := carried), stages[0].registry, stages[0].balances, stages[0].queue);
      ChurnIsConserved(stages[1..], Carry(stages[0], carried));
    }
  }

  // ------------------------------------------------------------ ejections in the same transition

  /** The registry once process_registry_updates has run, which is before the walk: some validators that were
      not leaving are ejected, others get an activation epoch (Electra beacon chain specification, section
      "Modified process_registry_updates"). */
  ghost predicate Settles(registry: seq<Validator>, settled: seq<Validator>, nextEpoch: nat, ejected: set<nat>) {
    && |settled| == |registry|
    && forall v :: 0 <= v < |registry| ==> SettlesOne(registry[v], settled[v], nextEpoch, v in ejected)
  }

  ghost predicate SettlesOne(before: Validator, after: Validator, nextEpoch: nat, ejected: bool) {
    && after == before.(activationEpoch := after.activationEpoch, exitEpoch := after.exitEpoch, withdrawableEpoch := after.withdrawableEpoch)
    && if ejected then
         && before.exitEpoch == FAR_FUTURE_EPOCH && before.withdrawableEpoch == FAR_FUTURE_EPOCH
         && nextEpoch < after.exitEpoch < FAR_FUTURE_EPOCH && nextEpoch < after.withdrawableEpoch
       else after.exitEpoch == before.exitEpoch && after.withdrawableEpoch == before.withdrawableEpoch
  }

  lemma FateOnceSettled(rules: Rules, registry: seq<Validator>, settled: seq<Validator>, ejected: set<nat>, d: PendingDeposit)
    requires Settles(registry, settled, rules.nextEpoch, ejected)
    ensures LastIndex(settled, d.pubkey) == LastIndex(registry, d.pubkey)
    ensures var index := LastIndex(registry, d.pubkey);
            if index.Some? && index.value in ejected
            then FateOf(rules, registry, d) == AppliedFromChurn && FateOf(rules, settled, d) == Postponed
            else FateOf(rules, settled, d) == FateOf(rules, registry, d)
  {
    var a, b := LastIndex(registry, d.pubkey), LastIndex(settled, d.pubkey);
    assert forall v :: 0 <= v < |registry| ==> SettlesOne(registry[v], settled[v], rules.nextEpoch, v in ejected);
    assert forall v :: 0 <= v < |registry| ==> settled[v].pubkey == registry[v].pubkey;
    if a.Some? { assert settled[a.value].pubkey == d.pubkey; }
    if b.Some? { assert registry[b.value].pubkey == d.pubkey; }
  }

  /** Postponing frees churn, so the walk never stops earlier. */
  lemma {:induction false} SettledConsumesMore(
      rules: Rules, registry: seq<Validator>, settled: seq<Validator>, ejected: set<nat>, queue: seq<PendingDeposit>,
      count: nat, used: nat, less: nat)
    requires Settles(registry, settled, rules.nextEpoch, ejected) && less <= used
    ensures Consumed(rules, registry, queue, count, used) <= Consumed(rules, settled, queue, count, less)
  {
    if Consumed(rules, registry, queue, count, used) > 0 {
      FateOnceSettled(rules, registry, settled, ejected, queue[0]);
      SettledConsumesMore(rules, registry, settled, ejected, queue[1..], count + 1,
                          used + ChurnOf(rules, registry, queue[0]), less + ChurnOf(rules, settled, queue[0]));
    }
  }

  lemma {:induction false} SettledCredit(
      rules: Rules, registry: seq<Validator>, settled: seq<Validator>, ejected: set<nat>, queue: seq<PendingDeposit>, k: nat, v: nat)
    requires Settles(registry, settled, rules.nextEpoch, ejected) && k <= |queue|
    ensures Credited(rules, settled, queue, k, v) == if v in ejected then 0 else Credited(rules, registry, queue, k, v)
  {
    if k > 0 {
      FateOnceSettled(rules, registry, settled, ejected, queue[0]);
      SettledCredit(rules, registry, settled, ejected, queue[1..], k - 1, v);
    }
  }

  /** No entry that the walk over the old registry looks at is for an ejected validator; it looks at the one
      it stops at, too. */
  predicate NoneEjected(rules: Rules, registry: seq<Validator>, ejected: set<nat>, queue: seq<PendingDeposit>, count: nat, used: nat) {
    var k := Consumed(rules, registry, queue, count, used);
    forall i :: 0 <= i <= k && i < |queue| ==>
      var index := LastIndex(registry, queue[i].pubkey);
      !(index.Some? && index.value in ejected)
  }

  lemma NoneEjectedTail(rules: Rules, registry: seq<Validator>, ejected: set<nat>, queue: seq<PendingDeposit>, count: nat, used: nat)
    requires NoneEjected(rules, registry, ejected, queue, count, used) && Consumed(rules, registry, queue, count, used) > 0
    ensures NoneEjected(rules, registry, ejected, queue[1..], count + 1, used + ChurnOf(rules, registry, queue[0]))
  {
    var k := Consumed(rules, registry, queue, count, used);
    ConsumedUnfolds(rules, registry, queue, count, used);
    forall i | 0 <= i <= k - 1 && i < |queue[1..]|
      ensures var index := LastIndex(registry, queue[1..][i].pubkey); !(index.Some? && index.value in ejected)
    {
      assert queue[1..][i] == queue[i + 1];
    }
  }

  lemma NoneEjectedHead(
      rules: Rules, registry: seq<Validator>, settled: seq<Validator>, ejected: set<nat>, queue: seq<PendingDeposit>, count: nat, used: nat)
    requires Settles(registry, settled, rules.nextEpoch, ejected) && NoneEjected(rules, registry, ejected, queue, count, used)
    requires queue != []
    ensures FateOf(rules, settled, queue[0]) == FateOf(rules, registry, queue[0])
    ensures ChurnOf(rules, settled, queue[0]) == ChurnOf(rules, registry, queue[0])
  {
    FateOnceSettled(rules, registry, settled, ejected, queue[0]);
    var index := LastIndex(registry, queue[0].pubkey);
    assert !(index.Some? && index.value in ejected);
  }

  lemma {:induction false} NoneEjectedConsumesSame(
      rules: Rules, registry: seq<Validator>, settled: seq<Validator>, ejected: set<nat>, queue: seq<PendingDeposit>, count: nat, used: nat)
    requires Settles(registry, settled, rules.nextEpoch, ejected) && NoneEjected(rules, registry, ejected, queue, count, used)
    ensures Consumed(rules, settled, queue, count, used) == Consumed(rules, registry, queue, count, used)
  {
    if queue != [] {
      NoneEjectedHead(rules, registry, settled, ejected, queue, count, used);
      if Consumed(rules, registry, queue, count, used) > 0 {
        NoneEjectedTail(rules, registry, ejected, queue, count, used);
        NoneEjectedConsumesSame(rules, registry, settled, ejected, queue[1..], count + 1, used + ChurnOf(rules, registry, queue[0]));
      }
    }
  }

  /** Against the standard's walk with the ejections, the replay without them: gives an ejected validator what
      the standard postpones, gives any other at most what the standard gives, and gives everyone the same if
      it looks at no deposit of an ejected one. */
  lemma EjectionsPostpone(
      rules: Rules, registry: seq<Validator>, settled: seq<Validator>, ejected: set<nat>, queue: seq<PendingDeposit>, v: nat)
    requires Settles(registry, settled, rules.nextEpoch, ejected)
    ensures v in ejected ==> Deposited(rules, settled, queue, v) == 0
    ensures v !in ejected ==> Deposited(rules, registry, queue, v) <= Deposited(rules, settled, queue, v)
    ensures NoneEjected(rules, registry, ejected, queue, 0, 0) ==>
              Deposited(rules, settled, queue, v) == Deposited(rules, registry, queue, v)
  {
    var k, more := Consumed(rules, registry, queue, 0, 0), Consumed(rules, settled, queue, 0, 0);
    SettledConsumesMore(rules, registry, settled, ejected, queue, 0, 0, 0);
    SettledCredit(rules, registry, settled, ejected, queue, more, v);
    CreditGrowsWithPrefix(rules, registry, queue, k, more, v);
    if NoneEjected(rules, registry, ejected, queue, 0, 0) {
      NoneEjectedConsumesSame(rules, registry, settled, ejected, queue, 0, 0);
      if v in ejected { UnaskedGetsNothing(rules, registry, queue, k, v); }
    }
  }

  lemma {:induction false} UnaskedGetsNothing(rules: Rules, registry: seq<Validator>, queue: seq<PendingDeposit>, k: nat, v: nat)
    requires k <= |queue| && forall i :: 0 <= i < k ==> LastIndex(registry, queue[i].pubkey) != Some(v)
    ensures Credited(rules, registry, queue, k, v) == 0
  {
    if k > 0 {
      forall i | 0 <= i < k - 1 ensures LastIndex(registry, queue[1..][i].pubkey) != Some(v) {
        assert queue[1..][i] == queue[i + 1];
      }
      UnaskedGetsNothing(rules, registry, queue[1..], k - 1, v);
    }
  }
}
