/** Execution-layer consolidation requests, and what a whole epoch of consolidation and withdrawal
    requests keeps (Electra beacon chain specification, section "New process_consolidation_request").

    The handler remembers exits it has granted in a list beside the registry, and consults that list
    for sources but not for targets, and not for switches to compounding credentials. */
module ConsolidationRequests {
  import opened Chain
  import opened ConsolidationQueue
  import opened RequestLedger
  import WithdrawalRequests
  import ElectraSpec

  datatype Request = Request(address: Bytes, sourceKey: Bytes, targetKey: Bytes)

  datatype Result =
    | Success
    | TotalBalanceTooLow
    | QueueFull
    | RequestUsedAsExit
    | SrcNotFound
    | SrcInvalidCredentials
    | SrcNotActive
    | SrcNotOldEnough
    | SrcHasPendingWithdrawal
    | SrcExitAlreadyInitiated
    | TgtNotFound
    | TgtNotCompounding
    | TgtNotActive
    | TgtExitAlreadyInitiated

  /** is_valid_switch_to_compounding_request on a given registry. */
  predicate IsSwitch(registry: seq<Validator>, epoch: nat, r: Request, source: Option<nat>)
    requires source.Some? ==> source.value < |registry|
  {
    && r.sourceKey == r.targetKey
    && source.Some?
    && registry[source.value].address == r.address
    && registry[source.value].prefix == ETH1_PREFIX
    && IsActive(registry[source.value], epoch)
    && registry[source.value].exitEpoch == FAR_FUTURE_EPOCH
  }

  /** The handler's checks up to and including the source's exit. */
  function EarlyResult(view: View, ledger: Ledger, r: Request): Option<Result>
    requires |view.registry| == |view.balances|
  {
    var source, target := LastIndex(view.registry, r.sourceKey), LastIndex(view.registry, r.targetKey);
    if IsSwitch(view.registry, view.epoch, r, source) then Some(Success)
    else if r.sourceKey == r.targetKey then Some(RequestUsedAsExit)
    else if |ledger.consolidations| == PENDING_CONSOLIDATIONS_LIMIT then Some(QueueFull)
    else if ConsolidationChurnLimit(view.totalActiveBalance) <= MIN_ACTIVATION_BALANCE then Some(TotalBalanceTooLow)
    else if source.None? then Some(SrcNotFound)
    else if target.None? then Some(TgtNotFound)
    else
      var src, tgt := view.registry[source.value], view.registry[target.value];
      if !(HasExecution(src) && src.address == r.address) then Some(SrcInvalidCredentials)
      else if !HasCompounding(tgt) then Some(TgtNotCompounding)
      else if !IsActive(src, view.epoch) then Some(SrcNotActive)
      else if !IsActive(tgt, view.epoch) then Some(TgtNotActive)
      else if src.exitEpoch != FAR_FUTURE_EPOCH || source.value in ledger.exiting then Some(SrcExitAlreadyInitiated)
      else None
  }

  /** The handler on one request. */
  function Handle(view: View, ledger: Ledger, r: Request): (Result, Ledger)
    requires |view.registry| == |view.balances|
  {
    var early := EarlyResult(view, ledger, r);
    if early.Some? then (early.value, ledger)
    else
      var source := LastIndex(view.registry, r.sourceKey).value;
      var target := LastIndex(view.registry, r.targetKey).value;
      if view.registry[target].exitEpoch != FAR_FUTURE_EPOCH then (TgtExitAlreadyInitiated, ledger)
      else if view.epoch < view.registry[source].activationEpoch + SHARD_COMMITTEE_PERIOD then (SrcNotOldEnough, ledger)
      else if Wrap(PendingSum(ledger.partials, source)) > 0 then (SrcHasPendingWithdrawal, ledger)
      else (Success, ledger.(exiting := ledger.exiting + [source],
                             consolidations := ledger.consolidations + [PendingConsolidation(0, 0)]))
  }

  function Run(view: View, ledger: Ledger, requests: seq<Request>): seq<Result>
    requires |view.registry| == |view.balances|
    decreases |requests|
  {
    if requests == [] then []
    else var (result, after) := Handle(view, ledger, requests[0]);
         [result] + Run(view, after, requests[1..])
  }

  /** The queues left by a whole request sequence. */
  function RunLedger(view: View, ledger: Ledger, requests: seq<Request>): Ledger
    requires |view.registry| == |view.balances|
    decreases |requests|
  {
    if requests == [] then ledger
    else RunLedger(view, Handle(view, ledger, requests[0]).1, requests[1..])
  }

  // ------------------------------------------------------------ who is answered what

  /** The validator of the key may be acted for by the address: it has the address behind its credentials, is
      active and is not leaving. */
  predicate May(view: View, key: Bytes, address: Bytes, v: nat) {
    && v < |view.registry| && view.registry[v].pubkey == key && view.registry[v].address == address
    && (view.registry[v].prefix == 1 || view.registry[v].prefix == 2)
    && view.registry[v].activationEpoch <= view.epoch < view.registry[v].exitEpoch
    && view.registry[v].exitEpoch == 18_446_744_073_709_551_615
  }

  /** The validator of the key may be consolidated into. */
  predicate MayReceive(view: View, key: Bytes, v: nat) {
    && v < |view.registry| && view.registry[v].pubkey == key && view.registry[v].prefix == 2
    && view.registry[v].activationEpoch <= view.epoch < view.registry[v].exitEpoch
    && view.registry[v].exitEpoch == 18_446_744_073_709_551_615
  }

  lemma KeysFindOne(view: View, key: Bytes, v: nat)
    requires DistinctKeys(view.registry) && v < |view.registry| && view.registry[v].pubkey == key
    ensures LastIndex(view.registry, key) == Some(v)
  {
  }

  /** For every view, ledger and request with equal keys: it is granted exactly to the holder of the address
      behind a registered validator with 0x01 credentials that is active and not leaving. */
  lemma SwitchGrantedExactly(view: View, ledger: Ledger, r: Request)
    requires ValidView(view) && r.sourceKey == r.targetKey
    ensures Handle(view, ledger, r).0 == Success
            <==> exists v: nat :: May(view, r.sourceKey, r.address, v) && view.registry[v].prefix == 1
  {
    if v: nat :| May(view, r.sourceKey, r.address, v) && view.registry[v].prefix == 1 {
      KeysFindOne(view, r.sourceKey, v);
    }
    if Handle(view, ledger, r).0 == Success {
      var v := LastIndex(view.registry, r.sourceKey).value;
      assert May(view, r.sourceKey, r.address, v) && view.registry[v].prefix == 1;
    }
  }

  /** And every other one: exactly to the holder of the address behind an active source, 256 epochs old, that is
      not leaving and has nothing queued, into an active target with 0x02 credentials that is not leaving,
      while the queue has room and consolidations have more than 32 ETH of churn. */
  lemma ConsolidationGrantedExactly(view: View, ledger: Ledger, r: Request)
    requires ValidView(view) && r.sourceKey != r.targetKey
    ensures Handle(view, ledger, r).0 == Success
            <==> && |ledger.consolidations| != 262_144
                 && ElectraSpec.ConsolidationChurnLimit(view.totalActiveBalance) > 32_000_000_000
                 && exists v: nat, w: nat ::
                      && May(view, r.sourceKey, r.address, v) && MayReceive(view, r.targetKey, w)
                      && view.registry[v].activationEpoch + 256 <= view.epoch
                      && v !in ledger.exiting && Wrap(PendingSum(ledger.partials, v)) == 0
  {
    ChurnIsStandard(view.totalActiveBalance);
    if v: nat, w: nat :| May(view, r.sourceKey, r.address, v) && MayReceive(view, r.targetKey, w)
                         && view.registry[v].activationEpoch + 256 <= view.epoch
                         && v !in ledger.exiting && Wrap(PendingSum(ledger.partials, v)) == 0 {
      KeysFindOne(view, r.sourceKey, v);
      KeysFindOne(view, r.targetKey, w);
    }
    if Handle(view, ledger, r).0 == Success {
      var v, w := LastIndex(view.registry, r.sourceKey).value, LastIndex(view.registry, r.targetKey).value;
      assert May(view, r.sourceKey, r.address, v) && MayReceive(view, r.targetKey, w);
    }
  }

  // ------------------------------------------------------------ the consensus standard

  /** The standard's checks up to and including the source's exit. */
  function StandardEarlyResult(view: View, s: StandardState, r: Request): Option<Result>
    requires |s.registry| == |s.balances|
  {
    var source, target := FirstIndex(s.registry, r.sourceKey), FirstIndex(s.registry, r.targetKey);
    if ElectraSpec.IsValidSwitch(s.registry, view.epoch + 1, r.address, r.sourceKey, r.targetKey) then Some(Success)
    else if r.sourceKey == r.targetKey then Some(RequestUsedAsExit)
    else if |s.consolidations| == 262_144 then Some(QueueFull)
    else if ElectraSpec.ConsolidationChurnLimit(view.nextTotalActiveBalance) <= 32_000_000_000 then Some(TotalBalanceTooLow)
    else if source.None? then Some(SrcNotFound)
    else if target.None? then Some(TgtNotFound)
    else
      var src, tgt := s.registry[source.value], s.registry[target.value];
      if !(ElectraSpec.HasExecutionCredential(src) && src.address == r.address) then Some(SrcInvalidCredentials)
      else if !ElectraSpec.HasCompoundingCredential(tgt) then Some(TgtNotCompounding)
      else if !ElectraSpec.IsActiveValidator(src, view.epoch + 1) then Some(SrcNotActive)
      else if !ElectraSpec.IsActiveValidator(tgt, view.epoch + 1) then Some(TgtNotActive)
      else if !ElectraSpec.IsStaying(src) then Some(SrcExitAlreadyInitiated)
      else None
  }

  /** The result of process_consolidation_request, named by its first failing check. */
  function StandardResult(view: View, s: StandardState, r: Request): Result
    requires |s.registry| == |s.balances|
  {
    var early := StandardEarlyResult(view, s, r);
    if early.Some? then early.value
    else
      var source := FirstIndex(s.registry, r.sourceKey).value;
      var target := FirstIndex(s.registry, r.targetKey).value;
      if !ElectraSpec.IsStaying(s.registry[target]) then TgtExitAlreadyInitiated
      else if !ElectraSpec.IsOldEnough(s.registry[source], view.epoch + 1) then SrcNotOldEnough
      else if StandardPendingSum(s.partials, source) > 0 then SrcHasPendingWithdrawal
      else Success
  }

  /** process_consolidation_request: a switch changes the credentials and queues the excess balance, a
      consolidation puts the source into the exit queue and itself into the queue of consolidations. */
  function StandardHandle(view: View, s: StandardState, r: Request, exitAt: nat): (Result, StandardState)
    requires |s.registry| == |s.balances|
  {
    var result := StandardResult(view, s, r);
    var source, target := FirstIndex(s.registry, r.sourceKey), FirstIndex(s.registry, r.targetKey);
    if result != Success || source.None? || target.None? then (result, s)
    else if r.sourceKey == r.targetKey then (Success, SwitchToCompounding(s, source.value))
    else
      var left := InitiateExit(s, source.value, exitAt);
      (Success, left.(consolidations := left.consolidations + [PendingConsolidation(source.value, target.value)]))
  }

  // ------------------------------------------------------------ when one request is judged alike

  /** What has been granted once this request was answered so. */
  function Granted(view: View, granted: Record, r: Request, result: Result): Record {
    var source, ledger := LastIndex(view.registry, r.sourceKey), granted.ledger;
    if result != Success || source.None? then granted
    else if r.sourceKey == r.targetKey then granted.(switched := granted.switched + {source.value})
    else granted.(ledger := ledger.(exiting := ledger.exiting + [source.value],
                                    consolidations := ledger.consolidations + [PendingConsolidation(0, 0)]))
  }

  /** A consolidation that gets as far as the check of the churn, or as the check of the source's activity. */
  predicate ReachesChurn(ledger: Ledger, r: Request) {
    r.sourceKey != r.targetKey && |ledger.consolidations| != PENDING_CONSOLIDATIONS_LIMIT
  }

  predicate ReachesActivity(view: View, ledger: Ledger, r: Request)
    requires |view.registry| == |view.balances|
  {
    var early := EarlyResult(view, ledger, r);
    r.sourceKey != r.targetKey
    && (early.None? || early.value == SrcNotActive || early.value == TgtNotActive || early.value == SrcExitAlreadyInitiated)
  }

  /** The epoch between the two sides decides no check that the handler comes to: there is churn for
      consolidations in both or in neither, source and target are active in both or in neither, and the
      source does not come of age. */
  predicate ClockHarmless(view: View, ledger: Ledger, r: Request)
    requires |view.registry| == |view.balances|
  {
    var source, target := LastIndex(view.registry, r.sourceKey), LastIndex(view.registry, r.targetKey);
    && (ReachesChurn(ledger, r) ==>
          (ElectraSpec.ConsolidationChurnLimit(view.totalActiveBalance) <= 32_000_000_000
           <==> ElectraSpec.ConsolidationChurnLimit(view.nextTotalActiveBalance) <= 32_000_000_000))
    && (ReachesActivity(view, ledger, r) ==>
          && SameActivity(view, view.registry[source.value])
          && (EarlyResult(view, ledger, r) != Some(SrcNotActive) ==> SameActivity(view, view.registry[target.value])))
    && (EarlyResult(view, ledger, r).None? && view.registry[target.value].exitEpoch == FAR_FUTURE_EPOCH ==>
          !ComesOfAge(view, view.registry[source.value]))
  }

  /** Neither the clock nor anything granted before decides this request for the standard and not for the
      handler, which has the ledger: not a switch of the source or of the target, not an exit of either, and
      no pending amount. A caller can evaluate this before the call. */
  predicate Untouched(view: View, ledger: Ledger, granted: Record, r: Request)
    requires |view.registry| == |view.balances|
  {
    var source, target := LastIndex(view.registry, r.sourceKey), LastIndex(view.registry, r.targetKey);
    var early, exits := EarlyResult(view, ledger, r), granted.ledger.exiting;
    && ClockHarmless(view, ledger, r)
    && (ElectraSpec.IsValidSwitch(view.registry, view.epoch, r.address, r.sourceKey, r.targetKey)
        <==> ElectraSpec.IsValidSwitch(view.registry, view.epoch + 1, r.address, r.sourceKey, r.targetKey)
             && source.value !in exits && source.value !in granted.switched)
    && (early == Some(TgtNotCompounding) ==> target.value !in granted.switched)
    && ((early == Some(SrcExitAlreadyInitiated) || early.None?) && view.registry[source.value].exitEpoch == FAR_FUTURE_EPOCH ==>
          (source.value in ledger.exiting <==> source.value in exits))
    && (early.None? && view.registry[target.value].exitEpoch == FAR_FUTURE_EPOCH ==>
          && target.value !in exits
          && (view.epoch >= view.registry[source.value].activationEpoch + SHARD_COMMITTEE_PERIOD ==>
                (Wrap(PendingSum(ledger.partials, source.value)) > 0
                 <==> PendingSum(granted.ledger.partials, source.value) > 0)))
  }

  /** Both searches find the same validators, and the checks read of them what has been granted. */
  ghost predicate SameSubjects(view: View, granted: Record, s: StandardState, r: Request)
    requires |s.registry| == |view.registry|
  {
    var source, target := LastIndex(view.registry, r.sourceKey), LastIndex(view.registry, r.targetKey);
    && FirstIndex(s.registry, r.sourceKey) == source == FirstIndex(view.registry, r.sourceKey)
    && FirstIndex(s.registry, r.targetKey) == target
    && (source.Some? ==> WithdrawalRequests.SameChecks(view, granted, view.registry[source.value], s.registry[source.value], source.value))
    && (target.Some? ==> WithdrawalRequests.SameChecks(view, granted, view.registry[target.value], s.registry[target.value], target.value))
  }

  lemma SubjectsAgree(view: View, granted: Record, s: StandardState, r: Request)
    requires Corresponds(view, granted, s)
    ensures SameSubjects(view, granted, s, r)
  {
    var source, target := LastIndex(view.registry, r.sourceKey), LastIndex(view.registry, r.targetKey);
    SameSearch(view, granted, s, r.sourceKey);
    SameSearch(view, granted, s, r.targetKey);
    if source.Some? { WithdrawalRequests.ChecksAgree(view, granted, s, source.value); }
    if target.Some? { WithdrawalRequests.ChecksAgree(view, granted, s, target.value); }
  }

  lemma PendingSumsAgree(view: View, granted: Record, s: StandardState, v: nat)
    requires Corresponds(view, granted, s) && v < |view.registry|
    ensures PendingSum(granted.ledger.partials, v) == 0 <==> StandardPendingSum(s.partials, v) == 0
  {
    assert Follows(view, granted, s, v);
  }

  lemma SwitchResultExact(view: View, ledger: Ledger, granted: Record, s: StandardState, r: Request)
    requires |s.registry| == |s.balances| == |view.registry| == |view.balances| && SameSubjects(view, granted, s, r)
    requires |ledger.consolidations| == |s.consolidations|
    requires r.sourceKey == r.targetKey
    ensures Handle(view, ledger, r).0 == StandardResult(view, s, r) <==> Untouched(view, ledger, granted, r)
  {
  }

  /** Up to the check of the source's activity. */
  lemma EarlyConsolidationExact(view: View, ledger: Ledger, granted: Record, s: StandardState, r: Request)
    requires |s.registry| == |s.balances| == |view.registry| == |view.balances| && SameSubjects(view, granted, s, r)
    requires |ledger.consolidations| == |s.consolidations|
    requires r.sourceKey != r.targetKey && !ReachesActivity(view, ledger, r)
    ensures Handle(view, ledger, r).0 == StandardResult(view, s, r) <==> Untouched(view, ledger, granted, r)
  {
  }

  lemma LateConsolidationExact(view: View, ledger: Ledger, granted: Record, s: StandardState, r: Request)
    requires |s.registry| == |s.balances| == |view.registry| == |view.balances| && SameSubjects(view, granted, s, r)
    requires |ledger.consolidations| == |s.consolidations|
    requires var source := LastIndex(view.registry, r.sourceKey);
             source.Some? ==>
               (PendingSum(granted.ledger.partials, source.value) == 0 <==> StandardPendingSum(s.partials, source.value) == 0)
    requires ReachesActivity(view, ledger, r)
    ensures Handle(view, ledger, r).0 == StandardResult(view, s, r) <==> Untouched(view, ledger, granted, r)
  {
  }

  lemma ResultExact(view: View, ledger: Ledger, granted: Record, s: StandardState, r: Request)
    requires |s.registry| == |s.balances| == |view.registry| == |view.balances| && SameSubjects(view, granted, s, r)
    requires |ledger.consolidations| == |s.consolidations|
    requires var source := LastIndex(view.registry, r.sourceKey);
             source.Some? ==>
               (PendingSum(granted.ledger.partials, source.value) == 0 <==> StandardPendingSum(s.partials, source.value) == 0)
    ensures Handle(view, ledger, r).0 == StandardResult(view, s, r) <==> Untouched(view, ledger, granted, r)
  {
    ChurnIsStandard(view.nextTotalActiveBalance);
    if r.sourceKey == r.targetKey {
      SwitchResultExact(view, ledger, granted, s, r);
    } else if ReachesActivity(view, ledger, r) {
      LateConsolidationExact(view, ledger, granted, s, r);
    } else {
      EarlyConsolidationExact(view, ledger, granted, s, r);
    }
  }

  lemma GrantFollows(view: View, granted: Record, s: StandardState, r: Request, exitAt: nat)
    requires Corresponds(view, granted, s) && ValidExit(view, exitAt) && StandardResult(view, s, r) == Success
    requires SameSubjects(view, granted, s, r)
    ensures Corresponds(view, Granted(view, granted, r, Success), StandardHandle(view, s, r, exitAt).1)
  {
    var source := LastIndex(view.registry, r.sourceKey).value;
    assert source < |view.registry|;
    if r.sourceKey == r.targetKey {
      SwitchKeepsCorrespondence(view, granted, s, source);
    } else {
      ExitKeepsCorrespondence(view, granted, s, source, exitAt);
      var left := granted.(ledger := granted.ledger.(exiting := granted.ledger.exiting + [source]));
      AppendKeepsCorrespondence(view, left, InitiateExit(s, source, exitAt), PendingConsolidation(0, 0),
                                PendingConsolidation(source, LastIndex(view.registry, r.targetKey).value));
    }
  }

  lemma AppendKeepsCorrespondence(view: View, granted: Record, s: StandardState, mine: PendingConsolidation, theirs: PendingConsolidation)
    requires Corresponds(view, granted, s)
    ensures Corresponds(view, granted.(ledger := granted.ledger.(consolidations := granted.ledger.consolidations + [mine])),
                        s.(consolidations := s.consolidations + [theirs]))
  {
    var after := granted.(ledger := granted.ledger.(consolidations := granted.ledger.consolidations + [mine]));
    forall v | 0 <= v < |view.registry| ensures Follows(view, after, s.(consolidations := s.consolidations + [theirs]), v) {
      assert Follows(view, granted, s, v);
    }
  }

  /** One request: the results agree if and only if it is untouched, and then the standard's state still
      corresponds to what has been granted. */
  lemma StepExact(view: View, ledger: Ledger, granted: Record, s: StandardState, r: Request, exitAt: nat)
    requires Corresponds(view, granted, s) && |ledger.consolidations| == |granted.ledger.consolidations| && ValidExit(view, exitAt)
    ensures Handle(view, ledger, r).0 == StandardHandle(view, s, r, exitAt).0 <==> Untouched(view, ledger, granted, r)
    ensures Untouched(view, ledger, granted, r) ==>
              Corresponds(view, Granted(view, granted, r, Handle(view, ledger, r).0), StandardHandle(view, s, r, exitAt).1)
  {
    SubjectsAgree(view, granted, s, r);
    var source := LastIndex(view.registry, r.sourceKey);
    if source.Some? { PendingSumsAgree(view, granted, s, source.value); }
    ResultExact(view, ledger, granted, s, r);
    if StandardResult(view, s, r) == Success { GrantFollows(view, granted, s, r, exitAt); }
  }

  /** The handler's own ledger is what has been granted, as long as it has granted everything itself. */
  lemma LedgerIsGranted(view: View, granted: Record, r: Request)
    requires |view.registry| == |view.balances|
    ensures var (result, after) := Handle(view, granted.ledger, r);
            Granted(view, granted, r, result).ledger == after
  {
  }

  // ------------------------------------------------------------ whole request sequences

  function StandardRun(view: View, s: StandardState, requests: seq<Request>, exits: seq<nat>): seq<Result>
    requires |s.registry| == |s.balances| && |exits| == |requests|
    decreases |requests|
  {
    if requests == [] then []
    else var (result, after) := StandardHandle(view, s, requests[0], exits[0]);
         [result] + StandardRun(view, after, requests[1..], exits[1..])
  }

  /** Every request of the handler's own run is untouched. */
  predicate RunUntouched(view: View, granted: Record, requests: seq<Request>)
    requires |view.registry| == |view.balances|
    decreases |requests|
  {
    requests == [] ||
    (Untouched(view, granted.ledger, granted, requests[0])
     && RunUntouched(view, Granted(view, granted, requests[0], Handle(view, granted.ledger, requests[0]).0), requests[1..]))
  }

  /** For every sequence of consolidation requests and every choice of exit epochs, the handler reports the
      standard's result for each request if and only if each is untouched. */
  lemma {:induction false} RunExact(view: View, granted: Record, s: StandardState, requests: seq<Request>, exits: seq<nat>)
    requires Corresponds(view, granted, s)
    requires |exits| == |requests| && forall i :: 0 <= i < |exits| ==> ValidExit(view, exits[i])
    ensures Run(view, granted.ledger, requests) == StandardRun(view, s, requests, exits)
            <==> RunUntouched(view, granted, requests)
    decreases |requests|
  {
    if requests != [] {
      var r, exitAt := requests[0], exits[0];
      StepExact(view, granted.ledger, granted, s, r, exitAt);
      LedgerIsGranted(view, granted, r);
      var mine, theirs := Run(view, granted.ledger, requests), StandardRun(view, s, requests, exits);
      var (a, ledger1) := Handle(view, granted.ledger, r);
      var (b, s1) := StandardHandle(view, s, r, exitAt);
      assert mine[0] == a && theirs[0] == b;
      if a == b {
        RunExact(view, Granted(view, granted, r, a), s1, requests[1..], exits[1..]);
        assert mine[1..] == Run(view, ledger1, requests[1..]);
        assert theirs[1..] == StandardRun(view, s1, requests[1..], exits[1..]);
        assert mine == [a] + mine[1..] && theirs == [b] + theirs[1..];
      }
    }
  }

  // ------------------------------------------------------------ requests that are touched

  /** Two validators, both with compounding credentials unless changed, old enough and well funded. */
  const A: Validator := Validator("a", COMPOUNDING_PREFIX, "w", 32_000_000_000, false, 0, FAR_FUTURE_EPOCH, FAR_FUTURE_EPOCH)
  const B: Validator := A.(pubkey := "b")

  function Two(a: Validator, b: Validator): View {
    View(1000, [a, b], [32_000_000_000, 32_000_000_000], 0x100_0000_0000_0000, 0x100_0000_0000_0000)
  }

  function Start(view: View): StandardState { StandardState(view.registry, view.balances, [], [], []) }

  const NOTHING_YET: Ledger := Ledger([], [], [])

  lemma TwoFound(a: Validator, b: Validator)
    requires a.pubkey == "a" && b.pubkey == "b"
    ensures DistinctKeys([a, b])
    ensures LastIndex([a, b], "a") == FirstIndex([a, b], "a") == Some(0)
    ensures LastIndex([a, b], "b") == FirstIndex([a, b], "b") == Some(1)
  {
    assert "a" != "b" by { assert "a"[0] != "b"[0]; }
    assert DistinctKeys([a, b]);
    assert [a, b][0].pubkey == "a" && [a, b][1].pubkey == "b";
  }

  lemma RunOfTwo(view: View, s: StandardState, first: Request, second: Request)
    requires |view.registry| == |view.balances| && |s.registry| == |s.balances|
    ensures Run(view, NOTHING_YET, [first, second])
            == [Handle(view, NOTHING_YET, first).0, Handle(view, Handle(view, NOTHING_YET, first).1, second).0]
    ensures StandardRun(view, s, [first, second], [1005, 1005])
            == [StandardHandle(view, s, first, 1005).0,
                StandardHandle(view, StandardHandle(view, s, first, 1005).1, second, 1005).0]
  {
    assert [first, second][1..] == [second] && [second][1..] == [] && [1005, 1005][1..] == [1005];
    var ledger, t := Handle(view, NOTHING_YET, first).1, StandardHandle(view, s, first, 1005).1;
    assert Run(view, ledger, [second]) == [Handle(view, ledger, second).0] + [];
    assert StandardRun(view, t, [second], [1005]) == [StandardHandle(view, t, second, 1005).0] + [];
  }

  /** A consolidates into B, then B into A: the handler grants the second request although the
      standard refuses it, because A is already leaving. */
  lemma TargetExitCounterexample()
    ensures var view, requests := Two(A, B), [Request("w", "a", "b"), Request("w", "b", "a")];
            && Run(view, NOTHING_YET, requests) == [Success, Success]
            && StandardRun(view, Start(view), requests, [1005, 1005]) == [Success, TgtExitAlreadyInitiated]
  {
    var view := Two(A, B);
    var first, second := Request("w", "a", "b"), Request("w", "b", "a");
    TwoFound(A, B);
    assert "a" != "b" by { assert "a"[0] != "b"[0]; }
    RunOfTwo(view, Start(view), first, second);
    assert EarlyResult(view, NOTHING_YET, first).None? && StandardEarlyResult(view, Start(view), first).None?;
    var ledger := Handle(view, NOTHING_YET, first).1;
    assert ledger.exiting == [0] && ledger.partials == [];
    var leaving := StandardHandle(view, Start(view), first, 1005).1;
    assert leaving.registry == [leaving.registry[0], B];
    TwoFound(leaving.registry[0], B);
    assert EarlyResult(view, ledger, second).None? && StandardEarlyResult(view, leaving, second).None?;
  }

  /** The same switch twice: the handler grants both, the standard takes the second for an exit. */
  lemma RepeatedSwitchCounterexample()
    ensures var view, requests := Two(A.(prefix := ETH1_PREFIX), B), [Request("w", "a", "a"), Request("w", "a", "a")];
            && Run(view, NOTHING_YET, requests) == [Success, Success]
            && StandardRun(view, Start(view), requests, [1005, 1005]) == [Success, RequestUsedAsExit]
  {
    var view, r := Two(A.(prefix := ETH1_PREFIX), B), Request("w", "a", "a");
    TwoFound(A.(prefix := ETH1_PREFIX), B);
    RunOfTwo(view, Start(view), r, r);
    assert Handle(view, NOTHING_YET, r) == (Success, NOTHING_YET);
    var switched := StandardHandle(view, Start(view), r, 1005).1;
    assert switched.registry == [A, B];
    TwoFound(A, B);
  }

  /** A comes of age in the epoch of the request: the handler, one epoch behind, refuses what the standard grants. */
  lemma EpochBoundaryCounterexample()
    ensures var view, r := Two(A.(activationEpoch := 745), B), Request("w", "a", "b");
            && Handle(view, NOTHING_YET, r).0 == SrcNotOldEnough
            && StandardHandle(view, Start(view), r, 1005).0 == Success
  {
    var view, r := Two(A.(activationEpoch := 745), B), Request("w", "a", "b");
    TwoFound(A.(activationEpoch := 745), B);
    assert "a" != "b" by { assert "a"[0] != "b"[0]; }
    assert EarlyResult(view, NOTHING_YET, r).None? && StandardEarlyResult(view, Start(view), r).None?;
  }

  /** B switches, then A consolidates into B: the handler still sees B's old credentials. */
  lemma SwitchedTargetCounterexample()
    ensures var view, requests := Two(A, B.(prefix := ETH1_PREFIX)), [Request("w", "b", "b"), Request("w", "a", "b")];
            && Run(view, NOTHING_YET, requests) == [Success, TgtNotCompounding]
            && StandardRun(view, Start(view), requests, [1005, 1005]) == [Success, Success]
  {
    var view := Two(A, B.(prefix := ETH1_PREFIX));
    var first, second := Request("w", "b", "b"), Request("w", "a", "b");
    TwoFound(A, B.(prefix := ETH1_PREFIX));
    assert "a" != "b" by { assert "a"[0] != "b"[0]; }
    RunOfTwo(view, Start(view), first, second);
    assert Handle(view, NOTHING_YET, first) == (Success, NOTHING_YET);
    assert Handle(view, NOTHING_YET, second).0 == TgtNotCompounding;
    var switched := StandardHandle(view, Start(view), first, 1005).1;
    assert switched.registry == [A, B];
    TwoFound(A, B);
    assert StandardEarlyResult(view, switched, second).None?;
  }

  // ------------------------------------------------------------ what every request of an epoch keeps

  datatype Operation = Consolidate(consolidation: Request) | Withdraw(withdrawal: WithdrawalRequests.Request)

  function Apply(view: View, ledger: Ledger, op: Operation): Ledger
    requires |view.registry| == |view.balances|
  {
    match op {
      case Consolidate(r) => Handle(view, ledger, r).1
      case Withdraw(r) => WithdrawalRequests.Handle(view, ledger, r).1
    }
  }

  function ApplyAll(view: View, ledger: Ledger, ops: seq<Operation>): Ledger
    requires |view.registry| == |view.balances|
    decreases |ops|
  {
    if ops == [] then ledger else ApplyAll(view, Apply(view, ledger, ops[0]), ops[1..])
  }

  /** No validator is listed twice, listed validators have nothing queued, and queues keep their limits. */
  ghost predicate Sound(view: View, ledger: Ledger) {
    && NoRepeats(ledger.exiting)
    && (forall v :: v in ledger.exiting ==> v < |view.registry| && Wrap(PendingSum(ledger.partials, v)) == 0)
    && |ledger.partials| <= PENDING_PARTIAL_WITHDRAWALS_LIMIT
    && |ledger.consolidations| <= PENDING_CONSOLIDATIONS_LIMIT
  }

  /** Queues and the list only grow, and nothing more is queued for a listed validator. */
  ghost predicate Grows(before: Ledger, after: Ledger) {
    && before.exiting <= after.exiting
    && before.partials <= after.partials
    && before.consolidations <= after.consolidations
    && forall v :: v in before.exiting ==> PendingSum(after.partials, v) == PendingSum(before.partials, v)
  }

  lemma ApplyKeepsSound(view: View, ledger: Ledger, op: Operation)
    requires |view.registry| == |view.balances| && Sound(view, ledger)
    ensures Sound(view, Apply(view, ledger, op)) && Grows(ledger, Apply(view, ledger, op))
  {
    var after := Apply(view, ledger, op);
    if after.partials != ledger.partials {
      var added := after.partials[|ledger.partials|];
      assert after.partials == ledger.partials + [added] && added.validator !in ledger.exiting;
      forall v | v in ledger.exiting ensures PendingSum(after.partials, v) == PendingSum(ledger.partials, v) {
        PendingSumAppend(ledger.partials, added, v);
      }
    }
  }

  lemma {:induction false} GrowsTransitive(a: Ledger, b: Ledger, c: Ledger)
    requires Grows(a, b) && Grows(b, c)
    ensures Grows(a, c)
  {
    forall v | v in a.exiting ensures PendingSum(c.partials, v) == PendingSum(a.partials, v) {
      var i :| 0 <= i < |a.exiting| && a.exiting[i] == v;
      assert b.exiting[i] == v;
    }
  }

  /** Over every sequence of requests, in every order: the list of leaving validators stays free of
      duplicates, each of them keeps a zero pending balance from then on, and both queues keep their
      limits. */
  lemma {:induction false} EveryRunStaysSound(view: View, ledger: Ledger, ops: seq<Operation>)
    requires |view.registry| == |view.balances| && Sound(view, ledger)
    ensures Sound(view, ApplyAll(view, ledger, ops)) && Grows(ledger, ApplyAll(view, ledger, ops))
    decreases |ops|
  {
    if ops != [] {
      var next := Apply(view, ledger, ops[0]);
      ApplyKeepsSound(view, ledger, ops[0]);
      EveryRunStaysSound(view, next, ops[1..]);
      GrowsTransitive(ledger, next, ApplyAll(view, ledger, ops));
    }
  }

  // ------------------------------------------------------------ an epoch: consolidations, then withdrawals

  /** The order in which the bundle takes the requests of an epoch. */
  function EpochOperations(consolidations: seq<Request>, withdrawals: seq<WithdrawalRequests.Request>): seq<Operation> {
    if consolidations != [] then [Consolidate(consolidations[0])] + EpochOperations(consolidations[1..], withdrawals)
    else if withdrawals != [] then [Withdraw(withdrawals[0])] + EpochOperations([], withdrawals[1..])
    else []
  }

  /** The two handler runs, one after the other, are one run over the epoch's operations. */
  lemma {:induction false} EpochRunIsOneRun(view: View, ledger: Ledger, consolidations: seq<Request>, withdrawals: seq<WithdrawalRequests.Request>)
    requires |view.registry| == |view.balances|
    ensures WithdrawalRequests.RunLedger(view, RunLedger(view, ledger, consolidations), withdrawals)
            == ApplyAll(view, ledger, EpochOperations(consolidations, withdrawals))
    decreases |consolidations| + |withdrawals|
  {
    var ops := EpochOperations(consolidations, withdrawals);
    if consolidations != [] {
      assert ops[1..] == EpochOperations(consolidations[1..], withdrawals);
      EpochRunIsOneRun(view, Apply(view, ledger, ops[0]), consolidations[1..], withdrawals);
    } else if withdrawals != [] {
      assert ops[1..] == EpochOperations([], withdrawals[1..]);
      EpochRunIsOneRun(view, Apply(view, ledger, ops[0]), [], withdrawals[1..]);
    }
  }

  /** Granted consolidations leave only placeholders in the queue. */
  lemma {:induction false} RunAppendsPlaceholders(view: View, ledger: Ledger, ops: seq<Operation>) returns (n: nat)
    requires |view.registry| == |view.balances|
    ensures ApplyAll(view, ledger, ops).consolidations == ledger.consolidations + Placeholders(n)
    ensures n > 0 ==> view.registry != []
    decreases |ops|
  {
    if ops == [] {
      n := 0;
    } else {
      var after := Apply(view, ledger, ops[0]);
      var m := RunAppendsPlaceholders(view, after, ops[1..]);
      n := if after.consolidations == ledger.consolidations then m else m + 1;
      assert Placeholders(m + 1) == [PendingConsolidation(0, 0)] + Placeholders(m);
    }
  }
}
