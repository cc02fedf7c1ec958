/** Execution-layer withdrawal requests: the handler's result codes against the consensus standard
    (Electra beacon chain specification, section "New process_withdrawal_request").

    The standard caps a queued amount at the validator's excess balance; the handler queues the
    requested amount as it came, in uint64 arithmetic. */
module WithdrawalRequests {
  import opened Chain
  import opened RequestLedger
  import ElectraSpec

  datatype Request = Request(address: Bytes, pubkey: Bytes, amount: Uint64)

  datatype Result =
    | Success
    | QueueFull
    | ValidatorNotFound
    | InvalidCredentials
    | ValidatorNotActive
    | ExitAlreadyInitiated
    | ValidatorNotOldEnough
    | PendingWithdrawalExists
    | InsufficientBalance
    | ValidatorNotCompounding
    | NoExcessBalance

  predicate IsFullExit(r: Request) { r.amount == 0 }

  /** The checks up to the point where the pending balance is read. */
  function EarlyResult(view: View, ledger: Ledger, r: Request): Option<Result>
    requires |view.registry| == |view.balances|
  {
    if |ledger.partials| == PENDING_PARTIAL_WITHDRAWALS_LIMIT && !IsFullExit(r) then Some(QueueFull)
    else match FirstIndex(view.registry, r.pubkey) {
      case None => Some(ValidatorNotFound)
      case Some(v) =>
        var validator := view.registry[v];
        if !(HasExecution(validator) && validator.address == r.address) then Some(InvalidCredentials)
        else if !IsActive(validator, view.epoch) then Some(ValidatorNotActive)
        else if validator.exitEpoch != FAR_FUTURE_EPOCH || v in ledger.exiting then Some(ExitAlreadyInitiated)
        else if view.epoch < validator.activationEpoch + SHARD_COMMITTEE_PERIOD then Some(ValidatorNotOldEnough)
        else None
    }
  }

  /** The handler on one request: its result code and the queues it leaves. */
  function Handle(view: View, ledger: Ledger, r: Request): (Result, Ledger)
    requires |view.registry| == |view.balances|
  {
    var early := EarlyResult(view, ledger, r);
    if early.Some? then (early.value, ledger)
    else
      var v := FirstIndex(view.registry, r.pubkey).value;
      var pending := Wrap(PendingSum(ledger.partials, v));
      if IsFullExit(r) then
        if pending == 0 then (Success, ledger.(exiting := ledger.exiting + [v]))
        else (PendingWithdrawalExists, ledger)
      else HandlePartial(view, ledger, r, v, pending)
  }

  /** The handler's last checks on a partial withdrawal. */
  function HandlePartial(view: View, ledger: Ledger, r: Request, v: nat, pending: Uint64): (Result, Ledger)
    requires v < |view.registry| == |view.balances|
  {
    if !HasCompounding(view.registry[v]) then (ValidatorNotCompounding, ledger)
    else if view.registry[v].effectiveBalance < MIN_ACTIVATION_BALANCE then (InsufficientBalance, ledger)
    else if !(view.balances[v] > Wrap(MIN_ACTIVATION_BALANCE + pending)) then (NoExcessBalance, ledger)
    else (Success, ledger.(partials := ledger.partials + [PartialWithdrawal(v, r.amount)]))
  }

  // ------------------------------------------------------------ who is answered what

  /** The request names this validator and has its execution address behind it. */
  predicate Asks(view: View, r: Request, v: nat) {
    && v < |view.registry| && view.registry[v].pubkey == r.pubkey
    && (view.registry[v].prefix == 1 || view.registry[v].prefix == 2) && view.registry[v].address == r.address
  }

  /** For every view, ledger and request: a validator is called not active exactly when the request comes to
      that check and the cached epoch is outside its activation and its exit. */
  lemma NotActiveExactly(view: View, ledger: Ledger, r: Request)
    requires DistinctKeys(view.registry) && |view.registry| == |view.balances|
    ensures Handle(view, ledger, r).0 == ValidatorNotActive
            <==> (|ledger.partials| != 134_217_728 || r.amount == 0)
                 && exists v: nat ::
                      Asks(view, r, v) && !(view.registry[v].activationEpoch <= view.epoch < view.registry[v].exitEpoch)
  {
    OnlyOneAsked(view, r);
  }

  lemma OnlyOneAsked(view: View, r: Request)
    requires DistinctKeys(view.registry)
    ensures forall v: nat :: Asks(view, r, v) ==> FirstIndex(view.registry, r.pubkey) == Some(v)
  {
  }

  /** What a withdrawal is granted for. */
  predicate MayExit(view: View, ledger: Ledger, v: nat)
    requires v < |view.registry|
  {
    && view.registry[v].activationEpoch + 256 <= view.epoch
    && view.registry[v].exitEpoch == 18_446_744_073_709_551_615 && v !in ledger.exiting
  }

  /** For every view, ledger and request: what is granted, and to whom. */
  lemma GrantedExactly(view: View, ledger: Ledger, r: Request)
    requires ValidView(view)
    ensures Handle(view, ledger, r).0 == Success
            <==> exists v: nat ::
                   && Asks(view, r, v) && MayExit(view, ledger, v)
                   && (if r.amount == 0 then Wrap(PendingSum(ledger.partials, v)) == 0
                       else && |ledger.partials| != 134_217_728 && view.registry[v].prefix == 2
                            && view.registry[v].effectiveBalance >= 32_000_000_000
                            && view.balances[v] > Wrap(32_000_000_000 + Wrap(PendingSum(ledger.partials, v))))
  {
    OnlyOneAsked(view, r);
    var found := FirstIndex(view.registry, r.pubkey);
    if found.Some? && Asks(view, r, found.value) && EarlyResult(view, ledger, r).None? {
      assert MayExit(view, ledger, found.value);
    }
  }

  // ------------------------------------------------------------ the consensus standard

  /** process_withdrawal_request, with the first failing check as the result. */
  function StandardHandle(epoch: nat, s: StandardState, r: Request, exitAt: nat): (Result, StandardState)
    requires |s.registry| == |s.balances|
  {
    if |s.partials| == 134_217_728 && r.amount != 0 then (QueueFull, s)
    else match FirstIndex(s.registry, r.pubkey) {
      case None => (ValidatorNotFound, s)
      case Some(v) =>
        var validator := s.registry[v];
        if !(ElectraSpec.HasExecutionCredential(validator) && validator.address == r.address) then (InvalidCredentials, s)
        else if !ElectraSpec.IsActiveValidator(validator, epoch) then (ValidatorNotActive, s)
        else StandardFromExit(epoch, s, r, v, exitAt)
    }
  }

  /** The standard's checks from the validator's exit on. */
  function StandardFromExit(epoch: nat, s: StandardState, r: Request, v: nat, exitAt: nat): (Result, StandardState)
    requires v < |s.registry| == |s.balances|
  {
    if !ElectraSpec.IsStaying(s.registry[v]) then (ExitAlreadyInitiated, s)
    else if !ElectraSpec.IsOldEnough(s.registry[v], epoch) then (ValidatorNotOldEnough, s)
    else
      var pending := StandardPendingSum(s.partials, v);
      if r.amount == 0 then
        if pending == 0 then (Success, InitiateExit(s, v, exitAt)) else (PendingWithdrawalExists, s)
      else StandardPartialStep(s, r, v, pending)
  }

  /** The standard's last checks on a partial withdrawal; the queued amount is capped at the excess. */
  function StandardPartialStep(s: StandardState, r: Request, v: nat, pending: nat): (Result, StandardState)
    requires v < |s.registry| == |s.balances|
  {
    if !ElectraSpec.HasCompoundingCredential(s.registry[v]) then (ValidatorNotCompounding, s)
    else if s.registry[v].effectiveBalance < 32_000_000_000 then (InsufficientBalance, s)
    else if s.balances[v] <= 32_000_000_000 + pending then (NoExcessBalance, s)
    else
      var excess := s.balances[v] - 32_000_000_000 - pending;
      (Success, s.(partials := s.partials + [StandardPartial(v, if excess < r.amount then excess else r.amount)]))
  }

  // ------------------------------------------------------------ when one request is judged alike

  /** What has been granted once this request was answered so. */
  function Granted(view: View, granted: Record, r: Request, result: Result): Record {
    var found := FirstIndex(view.registry, r.pubkey);
    if result != Success || found.None? then granted
    else
      var v, ledger := found.value, granted.ledger;
      if IsFullExit(r) then granted.(ledger := ledger.(exiting := ledger.exiting + [v]))
      else granted.(ledger := ledger.(partials := ledger.partials + [PartialWithdrawal(v, r.amount)]))
  }

  /** The request gets as far as the check of the validator's activity. */
  predicate ReachesActivity(view: View, ledger: Ledger, r: Request) {
    !(|ledger.partials| == PENDING_PARTIAL_WITHDRAWALS_LIMIT && !IsFullExit(r))
    && match FirstIndex(view.registry, r.pubkey) {
         case None => false
         case Some(v) => HasExecution(view.registry[v]) && view.registry[v].address == r.address
       }
  }

  /** The request gets as far as the check of the validator's exit. */
  predicate ReachesExit(view: View, ledger: Ledger, r: Request) {
    ReachesActivity(view, ledger, r) && IsActive(view.registry[FirstIndex(view.registry, r.pubkey).value], view.epoch)
  }

  /** The epoch between the two sides decides neither the check of the validator's activity nor that of its
      age, where the handler comes to them. */
  predicate ClockHarmless(view: View, ledger: Ledger, r: Request)
    requires |view.registry| == |view.balances|
  {
    && (ReachesActivity(view, ledger, r) ==> SameActivity(view, view.registry[FirstIndex(view.registry, r.pubkey).value]))
    && (ReachesExit(view, ledger, r) && EarlyResult(view, ledger, r) != Some(ExitAlreadyInitiated) ==>
          !ComesOfAge(view, view.registry[FirstIndex(view.registry, r.pubkey).value]))
  }

  /** Wrap-around of the queued sum does not decide this request. */
  predicate WrapHarmless(view: View, ledger: Ledger, r: Request)
    requires |view.registry| == |view.balances|
  {
    EarlyResult(view, ledger, r).None? ==>
      var v := FirstIndex(view.registry, r.pubkey).value;
      var held := PendingSum(ledger.partials, v);
      if IsFullExit(r) then held == 0 || Wrap(held) != 0
      else
        HasCompounding(view.registry[v]) && view.registry[v].effectiveBalance >= MIN_ACTIVATION_BALANCE ==>
          MIN_ACTIVATION_BALANCE + held < U64 || view.balances[v] <= Wrap(MIN_ACTIVATION_BALANCE + held)
  }

  /** Neither the clock nor anything granted before decides this request in one place and not in the other:
      the handler, which has the ledger, knows of the validator's exit exactly if it has been granted; a
      partial withdrawal that gets that far is not for a validator that has switched; and no wrapped sum
      decides. A caller can evaluate this before the call. */
  predicate Untouched(view: View, ledger: Ledger, granted: Record, r: Request)
    requires |view.registry| == |view.balances|
  {
    && ClockHarmless(view, ledger, r)
    && (ReachesExit(view, ledger, r) ==>
      var v := FirstIndex(view.registry, r.pubkey).value;
      && (view.registry[v].exitEpoch == FAR_FUTURE_EPOCH ==> (v in ledger.exiting <==> v in granted.ledger.exiting))
      && (EarlyResult(view, ledger, r).None? && !IsFullExit(r) ==> v !in granted.switched)
      && WrapHarmless(view, ledger, r))
  }

  /** The facts of one validator that the checks read, on both sides. */
  ghost predicate SameChecks(view: View, granted: Record, mine: Validator, theirs: Validator, v: nat) {
    && theirs.address == mine.address && theirs.activationEpoch == mine.activationEpoch
    && theirs.effectiveBalance == mine.effectiveBalance
    && (ElectraSpec.HasExecutionCredential(theirs) <==> HasExecution(mine))
    && (ElectraSpec.HasCompoundingCredential(theirs) <==> HasCompounding(mine) || v in granted.switched)
    && (v in granted.switched ==> mine.prefix == ETH1_PREFIX && theirs.prefix == COMPOUNDING_PREFIX)
    && (v !in granted.switched ==> theirs.prefix == mine.prefix)
    && (ElectraSpec.IsActiveValidator(theirs, view.epoch + 1) <==> mine.activationEpoch <= view.epoch + 1 < mine.exitEpoch)
    && (!ElectraSpec.IsStaying(theirs) <==> mine.exitEpoch != FAR_FUTURE_EPOCH || v in granted.ledger.exiting)
  }

  lemma ChecksAgree(view: View, granted: Record, s: StandardState, v: nat)
    requires Corresponds(view, granted, s) && v < |view.registry|
    ensures SameChecks(view, granted, view.registry[v], s.registry[v], v)
  {
    assert Follows(view, granted, s, v);
  }

  lemma WrapOfPending(held: nat)
    ensures Wrap(MIN_ACTIVATION_BALANCE + Wrap(held)) == Wrap(MIN_ACTIVATION_BALANCE + held)
    ensures held < U64 ==> Wrap(held) == held
  {
    WrapAdd(held, MIN_ACTIVATION_BALANCE);
  }

  /** Before the exit is checked both sides read the same. */
  lemma EarlyChecksAgree(view: View, ledger: Ledger, granted: Record, s: StandardState, r: Request, exitAt: nat)
    requires Corresponds(view, granted, s) && |ledger.partials| == |granted.ledger.partials|
    requires ReachesActivity(view, ledger, r) ==> SameActivity(view, view.registry[FirstIndex(view.registry, r.pubkey).value])
    ensures !ReachesExit(view, ledger, r) ==>
              EarlyResult(view, ledger, r).Some?
              && StandardHandle(RequestEpoch(view), s, r, exitAt) == (EarlyResult(view, ledger, r).value, s)
    ensures ReachesExit(view, ledger, r) ==>
              var v := FirstIndex(view.registry, r.pubkey).value;
              v < |s.registry| && StandardHandle(RequestEpoch(view), s, r, exitAt) == StandardFromExit(RequestEpoch(view), s, r, v, exitAt)
  {
    SameSearch(view, granted, s, r.pubkey);
    var found := FirstIndex(view.registry, r.pubkey);
    if found.Some? { ChecksAgree(view, granted, s, found.value); }
  }

  /** A validator that is activated, or gone, with the epoch in between is judged differently. */
  lemma ActivityDecides(view: View, ledger: Ledger, granted: Record, s: StandardState, r: Request, exitAt: nat)
    requires Corresponds(view, granted, s) && |ledger.partials| == |granted.ledger.partials|
    requires ReachesActivity(view, ledger, r) && !SameActivity(view, view.registry[FirstIndex(view.registry, r.pubkey).value])
    ensures Handle(view, ledger, r).0 != StandardHandle(RequestEpoch(view), s, r, exitAt).0
  {
    SameSearch(view, granted, s, r.pubkey);
    var v := FirstIndex(view.registry, r.pubkey).value;
    ChecksAgree(view, granted, s, v);
    FromExitIsActive(view, s, r, v, exitAt);
  }

  lemma FromExitIsActive(view: View, s: StandardState, r: Request, v: nat, exitAt: nat)
    requires v < |s.registry| == |s.balances|
    ensures StandardFromExit(RequestEpoch(view), s, r, v, exitAt).0 != ValidatorNotActive
  {
  }

  /** The two excess checks on one validator agree exactly when wrap-around leaves the check alone. */
  lemma ExcessChecksAgree(balance: Uint64, held: nat, standard: nat)
    requires Tracks(balance, held, standard)
    ensures (balance > Wrap(MIN_ACTIVATION_BALANCE + Wrap(held)) <==> balance > MIN_ACTIVATION_BALANCE + standard)
            <==> (MIN_ACTIVATION_BALANCE + held < U64 || balance <= Wrap(MIN_ACTIVATION_BALANCE + held))
  {
    WrapOfPending(held);
    assert balance > MIN_ACTIVATION_BALANCE + standard <==> balance > MIN_ACTIVATION_BALANCE + held;
  }

  /** Queueing a request that passed the excess check keeps one validator's two sums related. */
  lemma TrackingStep(balance: Uint64, held: nat, standard: nat, amount: nat)
    requires Tracks(balance, held, standard) && amount > 0
    requires balance > Wrap(MIN_ACTIVATION_BALANCE + held)
    requires MIN_ACTIVATION_BALANCE + held < U64 || balance <= Wrap(MIN_ACTIVATION_BALANCE + held)
    ensures balance > MIN_ACTIVATION_BALANCE + standard && held == standard
    ensures var excess := balance - MIN_ACTIVATION_BALANCE - standard;
            Tracks(balance, held + amount, standard + if excess < amount then excess else amount)
  {
  }

  /** From the exit on: the handler's answer on what it reads of one validator. */
  function FromExit(view: View, ledger: Ledger, r: Request, v: nat): Result
    requires v < |view.registry| == |view.balances|
  {
    if view.registry[v].exitEpoch != FAR_FUTURE_EPOCH || v in ledger.exiting then ExitAlreadyInitiated
    else if view.epoch < view.registry[v].activationEpoch + SHARD_COMMITTEE_PERIOD then ValidatorNotOldEnough
    else
      var pending := Wrap(PendingSum(ledger.partials, v));
      if IsFullExit(r) then if pending == 0 then Success else PendingWithdrawalExists
      else HandlePartial(view, ledger, r, v, pending).0
  }

  lemma HandleFromExit(view: View, ledger: Ledger, r: Request)
    requires |view.registry| == |view.balances| && ReachesExit(view, ledger, r)
    ensures Handle(view, ledger, r).0 == FromExit(view, ledger, r, FirstIndex(view.registry, r.pubkey).value)
  {
  }

  /** With the clock out of the way. */
  lemma FromExitExact(view: View, ledger: Ledger, granted: Record, s: StandardState, r: Request, exitAt: nat, v: nat)
    requires Corresponds(view, granted, s) && ledger.partials == granted.ledger.partials
    requires ReachesExit(view, ledger, r) && FirstIndex(view.registry, r.pubkey) == Some(v) && ClockHarmless(view, ledger, r)
    ensures FromExit(view, ledger, r, v) == StandardFromExit(RequestEpoch(view), s, r, v, exitAt).0 <==> Untouched(view, ledger, granted, r)
  {
    ChecksAgree(view, granted, s, v);
    assert Follows(view, granted, s, v);
    if !IsFullExit(r) && v !in granted.switched {
      ExcessChecksAgree(view.balances[v], PendingSum(ledger.partials, v), StandardPendingSum(s.partials, v));
    }
  }

  /** A validator that comes of age in between is old enough for the standard only. */
  lemma AgeDecides(view: View, ledger: Ledger, granted: Record, s: StandardState, r: Request, exitAt: nat, v: nat)
    requires Corresponds(view, granted, s) && v < |view.registry| && ComesOfAge(view, view.registry[v])
    requires view.registry[v].exitEpoch == FAR_FUTURE_EPOCH && v !in ledger.exiting
    ensures FromExit(view, ledger, r, v) == ValidatorNotOldEnough != StandardFromExit(RequestEpoch(view), s, r, v, exitAt).0
  {
    ChecksAgree(view, granted, s, v);
  }

  lemma FullExitFollows(view: View, granted: Record, s: StandardState, r: Request, exitAt: nat, v: nat)
    requires Corresponds(view, granted, s) && ValidExit(view, exitAt)
    requires FirstIndex(view.registry, r.pubkey) == Some(v) && IsFullExit(r)
    requires StandardFromExit(RequestEpoch(view), s, r, v, exitAt).0 == Success
    ensures Corresponds(view, Granted(view, granted, r, Success), StandardFromExit(RequestEpoch(view), s, r, v, exitAt).1)
  {
    ChecksAgree(view, granted, s, v);
    ExitKeepsCorrespondence(view, granted, s, v, exitAt);
  }

  lemma PartialFollows(view: View, ledger: Ledger, granted: Record, s: StandardState, r: Request, exitAt: nat, v: nat)
    requires Corresponds(view, granted, s) && ledger.partials == granted.ledger.partials
    requires ReachesExit(view, ledger, r) && FirstIndex(view.registry, r.pubkey) == Some(v) && !IsFullExit(r)
    requires Untouched(view, ledger, granted, r)
    requires FromExit(view, ledger, r, v) == Success == StandardFromExit(RequestEpoch(view), s, r, v, exitAt).0
    ensures Corresponds(view, Granted(view, granted, r, Success), StandardFromExit(RequestEpoch(view), s, r, v, exitAt).1)
  {
    assert Follows(view, granted, s, v);
    var held, standard := PendingSum(ledger.partials, v), StandardPendingSum(s.partials, v);
    WrapOfPending(held);
    TrackingStep(view.balances[v], held, standard, r.amount);
    var excess := view.balances[v] - MIN_ACTIVATION_BALANCE - standard;
    PartialKeepsCorrespondence(view, granted, s, v, r.amount, if excess < r.amount then excess else r.amount);
  }

  /** One request: the results agree if and only if it is untouched, and then the standard's state still
      corresponds to what has been granted. */
  lemma StepExact(view: View, ledger: Ledger, granted: Record, s: StandardState, r: Request, exitAt: nat)
    requires Corresponds(view, granted, s) && ledger.partials == granted.ledger.partials && ValidExit(view, exitAt)
    ensures Handle(view, ledger, r).0 == StandardHandle(RequestEpoch(view), s, r, exitAt).0 <==> Untouched(view, ledger, granted, r)
    ensures Untouched(view, ledger, granted, r) ==>
              Corresponds(view, Granted(view, granted, r, Handle(view, ledger, r).0), StandardHandle(RequestEpoch(view), s, r, exitAt).1)
  {
    if ReachesActivity(view, ledger, r) && !SameActivity(view, view.registry[FirstIndex(view.registry, r.pubkey).value]) {
      ActivityDecides(view, ledger, granted, s, r, exitAt);
    } else {
      EarlyChecksAgree(view, ledger, granted, s, r, exitAt);
      if ReachesExit(view, ledger, r) { StepFromExit(view, ledger, granted, s, r, exitAt); }
    }
  }

  lemma StepFromExit(view: View, ledger: Ledger, granted: Record, s: StandardState, r: Request, exitAt: nat)
    requires Corresponds(view, granted, s) && ledger.partials == granted.ledger.partials && ValidExit(view, exitAt)
    requires ReachesExit(view, ledger, r) && SameActivity(view, view.registry[FirstIndex(view.registry, r.pubkey).value])
    ensures var v := FirstIndex(view.registry, r.pubkey).value;
            var mine, theirs := Handle(view, ledger, r).0, StandardFromExit(RequestEpoch(view), s, r, v, exitAt);
            && (mine == theirs.0 <==> Untouched(view, ledger, granted, r))
            && (Untouched(view, ledger, granted, r) ==> Corresponds(view, Granted(view, granted, r, mine), theirs.1))
  {
    var v := FirstIndex(view.registry, r.pubkey).value;
    HandleFromExit(view, ledger, r);
    if ClockHarmless(view, ledger, r) {
      FromExitExact(view, ledger, granted, s, r, exitAt, v);
      if Untouched(view, ledger, granted, r) { AnswerFollows(view, ledger, granted, s, r, exitAt, v); }
    } else {
      AgeDecides(view, ledger, granted, s, r, exitAt, v);
    }
  }

  lemma AnswerFollows(view: View, ledger: Ledger, granted: Record, s: StandardState, r: Request, exitAt: nat, v: nat)
    requires Corresponds(view, granted, s) && ledger.partials == granted.ledger.partials && ValidExit(view, exitAt)
    requires ReachesExit(view, ledger, r) && FirstIndex(view.registry, r.pubkey) == Some(v)
    requires Untouched(view, ledger, granted, r)
    requires FromExit(view, ledger, r, v) == StandardFromExit(RequestEpoch(view), s, r, v, exitAt).0
    ensures Corresponds(view, Granted(view, granted, r, FromExit(view, ledger, r, v)), StandardFromExit(RequestEpoch(view), s, r, v, exitAt).1)
  {
    if FromExit(view, ledger, r, v) == Success {
      if IsFullExit(r) { FullExitFollows(view, granted, s, r, exitAt, v); }
      else { PartialFollows(view, ledger, granted, s, r, exitAt, v); }
    } else {
      RefusedLeavesState(view, s, r, v, exitAt);
    }
  }

  lemma RefusedLeavesState(view: View, s: StandardState, r: Request, v: nat, exitAt: nat)
    requires v < |s.registry| == |s.balances|
    ensures StandardFromExit(RequestEpoch(view), s, r, v, exitAt).0 != Success ==> StandardFromExit(RequestEpoch(view), s, r, v, exitAt).1 == s
  {
  }

  /** The handler's own ledger is what has been granted, as long as it has granted everything itself. */
  lemma LedgerIsGranted(view: View, granted: Record, r: Request)
    requires |view.registry| == |view.balances|
    ensures var (result, after) := Handle(view, granted.ledger, r);
            Granted(view, granted, r, result) == granted.(ledger := after)
  {
  }

  // ------------------------------------------------------------ whole request sequences

  function Run(view: View, ledger: Ledger, requests: seq<Request>): seq<Result>
    requires |view.registry| == |view.balances|
    decreases |requests|
  {
    if requests == [] then []
    else var (result, after) := Handle(view, ledger, requests[0]);
         [result] + Run(view, after, requests[1..])
  }

  /** The queues left by a whole request sequence. */
  function RunLedger(view: View, ledger: Ledger, requests: seq<Request>): Ledger
    requires |view.registry| == |view.balances|
    decreases |requests|
  {
    if requests == [] then ledger
    else RunLedger(view, Handle(view, ledger, requests[0]).1, requests[1..])
  }

  function StandardRun(epoch: nat, s: StandardState, requests: seq<Request>, exits: seq<nat>): seq<Result>
    requires |s.registry| == |s.balances| && |exits| == |requests|
    decreases |requests|
  {
    if requests == [] then []
    else var (result, after) := StandardHandle(epoch, s, requests[0], exits[0]);
         [result] + StandardRun(epoch, after, requests[1..], exits[1..])
  }

  /** Every request of the handler's own run is untouched. */
  predicate RunUntouched(view: View, granted: Record, requests: seq<Request>)
    requires |view.registry| == |view.balances|
    decreases |requests|
  {
    requests == [] ||
    (Untouched(view, granted.ledger, granted, requests[0])
     && RunUntouched(view, granted.(ledger := Handle(view, granted.ledger, requests[0]).1), requests[1..]))
  }

  /** For every request sequence and every choice of exit epochs, the handler reports the standard's
      result for each request if and only if each is untouched. */
  lemma {:induction false} RunExact(view: View, granted: Record, s: StandardState, requests: seq<Request>, exits: seq<nat>)
    requires Corresponds(view, granted, s)
    requires |exits| == |requests| && forall i :: 0 <= i < |exits| ==> ValidExit(view, exits[i])
    ensures Run(view, granted.ledger, requests) == StandardRun(RequestEpoch(view), s, requests, exits)
            <==> RunUntouched(view, granted, requests)
    decreases |requests|
  {
    if requests != [] {
      var r, exitAt := requests[0], exits[0];
      StepExact(view, granted.ledger, granted, s, r, exitAt);
      LedgerIsGranted(view, granted, r);
      var mine, theirs := Run(view, granted.ledger, requests), StandardRun(RequestEpoch(view), s, requests, exits);
      var (a, ledger1) := Handle(view, granted.ledger, r);
      var (b, s1) := StandardHandle(RequestEpoch(view), s, r, exitAt);
      assert mine[0] == a && theirs[0] == b;
      if a == b {
        RunExact(view, granted.(ledger := ledger1), s1, requests[1..], exits[1..]);
        assert mine[1..] == Run(view, ledger1, requests[1..]);
        assert theirs[1..] == StandardRun(RequestEpoch(view), s1, requests[1..], exits[1..]);
        assert mine == [a] + mine[1..] && theirs == [b] + theirs[1..];
      }
    }
  }

  /** What the requests ask for validator v in all. */
  function RequestedFor(registry: seq<Validator>, requests: seq<Request>, v: nat): nat {
    if requests == [] then 0
    else (if FirstIndex(registry, requests[0].pubkey) == Some(v) then requests[0].amount else 0)
         + RequestedFor(registry, requests[1..], v)
  }

  ghost predicate SumsFit(view: View, ledger: Ledger, requests: seq<Request>) {
    forall v :: 0 <= v < |view.registry| ==>
      MIN_ACTIVATION_BALANCE + PendingSum(ledger.partials, v) + RequestedFor(view.registry, requests, v) < U64
  }

  lemma HandleKeepsSumsFit(view: View, ledger: Ledger, requests: seq<Request>)
    requires ValidView(view) && requests != [] && SumsFit(view, ledger, requests)
    ensures SumsFit(view, Handle(view, ledger, requests[0]).1, requests[1..])
  {
    var after := Handle(view, ledger, requests[0]).1;
    forall v | 0 <= v < |view.registry|
      ensures MIN_ACTIVATION_BALANCE + PendingSum(after.partials, v) + RequestedFor(view.registry, requests[1..], v) < U64
    {
      if after.partials != ledger.partials {
        PendingSumAppend(ledger.partials, after.partials[|ledger.partials|], v);
      }
    }
  }

  /** No validator asked for is activated or gone with the epoch in between, or comes of age in it. */
  ghost predicate NoBoundary(view: View, requests: seq<Request>) {
    forall i :: 0 <= i < |requests| ==>
      var found := FirstIndex(view.registry, requests[i].pubkey);
      found.Some? ==> SameActivity(view, view.registry[found.value]) && !ComesOfAge(view, view.registry[found.value])
  }

  /** Without switches, sums that fit a machine word are enough for the whole sequence if no validator it asks
      for is at one of the boundaries. */
  lemma {:induction false} FittingSumsAreHarmless(view: View, ledger: Ledger, requests: seq<Request>)
    requires ValidView(view) && SumsFit(view, ledger, requests) && NoBoundary(view, requests)
    ensures RunUntouched(view, Record(ledger, {}), requests)
    decreases |requests|
  {
    if requests != [] {
      HandleKeepsSumsFit(view, ledger, requests);
      assert NoBoundary(view, requests[..1]) && NoBoundary(view, requests[1..]);
      assert requests[..1][0] == requests[0];
      FittingSumsAreHarmless(view, Handle(view, ledger, requests[0]).1, requests[1..]);
      var found := FirstIndex(view.registry, requests[0].pubkey);
      if found.Some? { WrapOfPending(PendingSum(ledger.partials, found.value)); }
    }
  }

  /** A request in the epoch in which the validator comes of age: the handler, one epoch behind, refuses the
      exit that the standard grants. */
  lemma EpochBoundaryCounterexample()
    ensures var v := Validator("k", COMPOUNDING_PREFIX, "a", 32_000_000_000, false, 745, FAR_FUTURE_EPOCH, FAR_FUTURE_EPOCH);
            var view, r := View(1000, [v], [32_000_000_000], 0, 0), Request("a", "k", 0);
            && Run(view, Ledger([], [], []), [r]) == [ValidatorNotOldEnough]
            && StandardRun(1001, StandardState([v], [32_000_000_000], [], [], []), [r], [1006]) == [Success]
  {
    var v := Validator("k", COMPOUNDING_PREFIX, "a", 32_000_000_000, false, 745, FAR_FUTURE_EPOCH, FAR_FUTURE_EPOCH);
    var view, r := View(1000, [v], [32_000_000_000], 0, 0), Request("a", "k", 0);
    var s := StandardState([v], [32_000_000_000], [], [], []);
    assert FirstIndex([v], "k") == Some(0);
    assert Handle(view, Ledger([], [], []), r) == (ValidatorNotOldEnough, Ledger([], [], []));
    assert StandardHandle(1001, s, r, 1006).0 == Success;
    assert [r][1..] == [] && [1006][1..] == [];
    assert Run(view, Ledger([], [], []), [r]) == [ValidatorNotOldEnough] + [];
    assert StandardRun(1001, s, [r], [1006]) == [Success] + [];
  }

  /** The property fails on two requests: the first queues an amount that makes the next sum wrap. */
  lemma WrapCounterexample()
    ensures var v := Validator("k", COMPOUNDING_PREFIX, "a", 64_000_000_000, false, 0, FAR_FUTURE_EPOCH, FAR_FUTURE_EPOCH);
            var view := View(1000, [v], [64_000_000_000], 0, 0);
            var requests := [Request("a", "k", 0xFFFF_FFFF_FFFF_FFFF), Request("a", "k", 1)];
            && Run(view, Ledger([], [], []), requests) == [Success, Success]
            && StandardRun(1001, StandardState([v], [64_000_000_000], [], [], []), requests, [1005, 1005])
               == [Success, NoExcessBalance]
  {
    var v := Validator("k", COMPOUNDING_PREFIX, "a", 64_000_000_000, false, 0, FAR_FUTURE_EPOCH, FAR_FUTURE_EPOCH);
    var view := View(1000, [v], [64_000_000_000], 0, 0);
    var first, second := Request("a", "k", 0xFFFF_FFFF_FFFF_FFFF), Request("a", "k", 1);
    assert FirstIndex([v], "k") == Some(0);
    var mine := Handle(view, Ledger([], [], []), first);
    assert EarlyResult(view, Ledger([], [], []), first).None?;
    assert Wrap(PendingSum([], 0)) == 0;
    assert [] + [PartialWithdrawal(0, first.amount)] == [PartialWithdrawal(0, first.amount)];
    assert mine == (Success, Ledger([PartialWithdrawal(0, first.amount)], [], []));
    assert PendingSum(mine.1.partials, 0) == first.amount;
    assert Wrap(MIN_ACTIVATION_BALANCE + first.amount) == MIN_ACTIVATION_BALANCE - 1;
    assert Handle(view, mine.1, second).0 == Success;
    var s0 := StandardState([v], [64_000_000_000], [], [], []);
    var theirs := StandardHandle(1001, s0, first, 1005);
    assert [] + [StandardPartial(0, 32_000_000_000)] == [StandardPartial(0, 32_000_000_000)];
    assert theirs == (Success, s0.(partials := [StandardPartial(0, 32_000_000_000)]));
    assert StandardHandle(1001, theirs.1, second, 1005).0 == NoExcessBalance;
    assert [first, second][1..] == [second] && [second][1..] == [];
    assert [1005, 1005][1..] == [1005];
    assert StandardRun(1001, theirs.1, [second], [1005]) == [NoExcessBalance] + [];
    assert Run(view, mine.1, [second]) == [Success] + [];
  }
}
