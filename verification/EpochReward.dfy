/** The net balance equation: what is left of a validator's balance change over one epoch once every
    movement that is not a reward has been taken out, and what that number really is when the
    balances evolve as the consensus standard says. */
module EpochReward {
  import opened Chain
  import opened ConsolidationQueue
  import DepositQueue
  import RequestLedger

  /** The int64 expression the program evaluates for one validator. */
  function NetReward(before: Uint64, after: Uint64, withdrawn: Uint64, deposited: Uint64, blockDeposits: Uint64,
                     consolidatedIn: Uint64, consolidatedOut: Uint64): int
  {
    var reward := WrapSigned(AsInt64(after) - AsInt64(before));
    Adjusted(reward, withdrawn, Wrap(deposited + blockDeposits), consolidatedIn, consolidatedOut)
  }

  function Adjusted(reward: int, withdrawn: Uint64, deposits: Uint64, consolidatedIn: Uint64, consolidatedOut: Uint64): int {
    WrapSigned(WrapSigned(WrapSigned(WrapSigned(reward + AsInt64(withdrawn)) - AsInt64(deposits))
                          - AsInt64(consolidatedIn)) + AsInt64(consolidatedOut))
  }

  lemma SignedPlus(a: int, b: Uint64)
    ensures WrapSigned(WrapSigned(a) + AsInt64(b)) == WrapSigned(a + b)
    ensures WrapSigned(WrapSigned(a) - AsInt64(b)) == WrapSigned(a - b)
  {
    SignedStep(a, AsInt64(b));
    SignedStep(a, -AsInt64(b));
    AsInt64Congruent(a, b);
  }

  lemma SameResidue(p: int, q: int, k: int)
    requires p == q + k * 0x1_0000_0000_0000_0000
    ensures WrapSigned(p) == WrapSigned(q)
  {
    WrapPeriodic(q, k);
  }

  lemma SignedDifference(after: Uint64, before: Uint64)
    ensures WrapSigned(AsInt64(after) - AsInt64(before)) == WrapSigned(after - before)
  {
    AsInt64Congruent(AsInt64(after), before);
    AsInt64Congruent(-(before as int), after);
  }

  lemma NetRewardUnsigned(before: Uint64, after: Uint64, withdrawn: Uint64, deposited: Uint64, blockDeposits: Uint64,
                          consolidatedIn: Uint64, consolidatedOut: Uint64, deposits: Uint64, net: int)
    requires deposits == Wrap(deposited + blockDeposits)
    requires net == after - before + withdrawn - deposits - consolidatedIn + consolidatedOut
    ensures NetReward(before, after, withdrawn, deposited, blockDeposits, consolidatedIn, consolidatedOut) == WrapSigned(net)
  {
    SignedDifference(after, before);
    AdjustedUnsigned(after - before, withdrawn, deposits, consolidatedIn, consolidatedOut, net);
  }

  lemma AdjustedUnsigned(a: int, withdrawn: Uint64, deposits: Uint64, consolidatedIn: Uint64, consolidatedOut: Uint64, net: int)
    requires net == a + withdrawn - deposits - consolidatedIn + consolidatedOut
    ensures Adjusted(WrapSigned(a), withdrawn, deposits, consolidatedIn, consolidatedOut) == WrapSigned(net)
  {
    SignedPlus(a, withdrawn);
    var b := a + withdrawn;
    SignedPlus(b, deposits);
    var c := b - deposits;
    SignedPlus(c, consolidatedIn);
    var d := c - consolidatedIn;
    SignedPlus(d, consolidatedOut);
    assert d + consolidatedOut == net;
  }

  /** The sums that enter the expression are known up to multiples of the word size. */
  lemma NetRewardCongruent(before: Uint64, after: Uint64, withdrawn: Uint64, blockDeposits: Uint64,
                           d: Uint64, i: Uint64, o: Uint64, deposited: int, consolidatedIn: int, consolidatedOut: int,
                           x: int, y: int, z: int, net: int)
    requires deposited == x * 0x1_0000_0000_0000_0000 + d
    requires consolidatedIn == y * 0x1_0000_0000_0000_0000 + i
    requires consolidatedOut == z * 0x1_0000_0000_0000_0000 + o
    requires net == after - before + withdrawn - deposited - blockDeposits - consolidatedIn + consolidatedOut
    ensures NetReward(before, after, withdrawn, d, blockDeposits, i, o) == WrapSigned(net)
  {
    var deposits := Wrap(d + blockDeposits);
    var q := WrapQuotient(d + blockDeposits);
    var m := after - before + withdrawn - deposits - i + o;
    NetRewardUnsigned(before, after, withdrawn, d, blockDeposits, i, o, deposits, m);
    SameResidue(m, net, q + x + y - z);
  }

  /** However the unsigned sums and the signed steps wrap, the expression is the true net change
      modulo the word size. */
  lemma NetRewardIsNet(before: Uint64, after: Uint64, withdrawn: Uint64, deposited: int, blockDeposits: Uint64,
                       consolidatedIn: int, consolidatedOut: int, net: int)
    requires net == after - before + withdrawn - deposited - blockDeposits - consolidatedIn + consolidatedOut
    ensures NetReward(before, after, withdrawn, Wrap(deposited), blockDeposits, Wrap(consolidatedIn), Wrap(consolidatedOut))
            == WrapSigned(net)
  {
    var x := WrapQuotient(deposited);
    var y := WrapQuotient(consolidatedIn);
    var z := WrapQuotient(consolidatedOut);
    NetRewardCongruent(before, after, withdrawn, blockDeposits, Wrap(deposited), Wrap(consolidatedIn), Wrap(consolidatedOut),
                       deposited, consolidatedIn, consolidatedOut, x, y, z, net);
  }

  // ------------------------------------------------------------ one epoch by the standard

  /** What the two cached states and the blocks between them say about one epoch. */
  datatype Epoch = Epoch(
    registry: seq<Validator>, balances: seq<Uint64>,          // CurrentState
    transition: DepositQueue.Transition, pendingDeposits: seq<DepositQueue.PendingDeposit>,
    pendingConsolidations: seq<PendingConsolidation>,
    nextRegistry: seq<Validator>, nextBalances: seq<Uint64>,  // NextState
    withdrawals: seq<Uint64>, blockDeposits: seq<Uint64>)

  /** What the replay makes of the fields that the deposit walk reads. */
  function Rules(e: Epoch): DepositQueue.Rules { DepositQueue.RulesOf(e.transition) }

  ghost predicate ValidEpoch(e: Epoch) {
    && DistinctKeys(e.registry)
    && |e.balances| == |e.registry| <= |e.nextRegistry| == |e.nextBalances| == |e.withdrawals| == |e.blockDeposits|
    && Rules(e).nextEpoch <= FAR_FUTURE_EPOCH
    && InRegistry(e.registry, e.pendingConsolidations)
  }

  /** What a switch to compounding credentials makes the replay add back for v. */
  function SwitchExcess(registry: seq<Validator>, balances: seq<Uint64>, nextRegistry: seq<Validator>, v: nat): nat
    requires v < |registry| == |balances| && v < |nextRegistry|
  {
    if registry[v].prefix == ETH1_PREFIX && nextRegistry[v].prefix == COMPOUNDING_PREFIX
       && balances[v] > MIN_ACTIVATION_BALANCE
    then balances[v] - MIN_ACTIVATION_BALANCE else 0
  }

  /** It is what the standard takes off and queues when the switch finds the balance still as it was, and
      nothing for a validator that did not switch. */
  lemma SwitchExcessIsQueued(
      registry: seq<Validator>, balances: seq<Uint64>, nextRegistry: seq<Validator>, v: nat, s: RequestLedger.StandardState)
    requires v < |registry| == |balances| && v < |nextRegistry| && v < |s.registry| == |s.balances|
    requires s.balances[v] == balances[v]
    ensures var excess, t := SwitchExcess(registry, balances, nextRegistry, v), RequestLedger.SwitchToCompounding(s, v);
            if registry[v].prefix == 1 && nextRegistry[v].prefix == 2 then
              && t.balances[v] == s.balances[v] - excess
              && t.queued == if excess == 0 then s.queued else s.queued + [RequestLedger.QueuedExcess(v, excess)]
            else excess == 0
  {
  }

  /** The reward the program reports for validator v. */
  function Reported(e: Epoch, v: nat): int
    requires |e.balances| == |e.registry| <= |e.nextRegistry| == |e.nextBalances| == |e.withdrawals| == |e.blockDeposits|
    requires InRegistry(e.registry, e.pendingConsolidations) && v < |e.registry|
  {
    NetReward(e.balances[v], e.nextBalances[v], e.withdrawals[v],
              Wrap(DepositQueue.Deposited(Rules(e), e.registry, e.pendingDeposits, v)), e.blockDeposits[v],
              Wrap(Incoming(e.registry, Rules(e).nextEpoch, e.balances, e.pendingConsolidations, v)),
              Wrap(SwitchExcess(e.registry, e.balances, e.nextRegistry, v)
                   + Outgoing(e.registry, Rules(e).nextEpoch, e.balances, e.pendingConsolidations, v)))
  }

  /** The balances after rewards and pending deposits, by the standard. */
  function AfterDeposits(e: Epoch, settled: seq<Validator>, rewarded: seq<nat>): DepositQueue.Standard
    requires |rewarded| == |settled|
  {
    DepositQueue.StandardDeposits(e.transition, settled, rewarded, e.pendingDeposits)
  }

  /** One epoch of balances: rewards `early` at the transition, ejections and activations, the standard's
      deposits and consolidations, then rewards `late`, withdrawals and excess balance `queued` by credential
      switches while blocks are processed. */
  ghost predicate Evolves(e: Epoch, settled: seq<Validator>, ejected: set<nat>, early: seq<int>, late: seq<int>, queued: seq<nat>) {
    && ValidEpoch(e)
    && DepositQueue.Settles(e.registry, settled, Rules(e).nextEpoch, ejected)
    && |early| == |late| == |queued| == |e.registry|
    && (forall v :: 0 <= v < |e.registry| ==> e.balances[v] + early[v] >= 0)
    && var mid := AfterDeposits(e, settled, Rewarded(e, early));
       && |e.registry| <= |mid.registry| == |mid.balances|
       && mid.registry[..|e.registry|] == settled
       && InRegistry(mid.registry, e.pendingConsolidations)
       && var end := StandardConsolidations(mid.registry, Rules(e).nextEpoch, e.pendingConsolidations, mid.balances);
          forall v :: 0 <= v < |e.registry| ==>
            e.nextBalances[v] == end[v] + late[v] - e.withdrawals[v] - queued[v]
  }

  ghost function Rewarded(e: Epoch, early: seq<int>): (r: seq<nat>)
    requires |early| == |e.registry| == |e.balances|
    requires forall v :: 0 <= v < |e.registry| ==> e.balances[v] + early[v] >= 0
    ensures |r| == |e.registry| && forall v :: 0 <= v < |r| ==> r[v] == e.balances[v] + early[v]
  {
    seq(|e.registry|, v requires 0 <= v < |e.registry| => e.balances[v] + early[v])
  }

  /** The walk over consolidations reads only validators that were there before the deposits. */
  lemma {:induction false} GrownRegistryConsolidatesAlike(
      registry: seq<Validator>, grown: seq<Validator>, nextEpoch: nat, queue: seq<PendingConsolidation>, balances: seq<nat>)
    requires |registry| <= |grown| <= |balances| && grown[..|registry|] == registry
    requires InRegistry(registry, queue) && InRegistry(grown, queue)
    ensures StandardConsolidations(grown, nextEpoch, queue, balances)
            == StandardConsolidations(registry, nextEpoch, queue, balances)
    decreases |queue|
  {
    if queue != [] {
      var c := queue[0];
      assert c in queue && grown[c.source] == registry[c.source];
      var after := if registry[c.source].slashed then balances else Move(registry, balances, c);
      GrownRegistryConsolidatesAlike(registry, grown, nextEpoch, queue[1..], after);
    }
  }

  /** Nor does it notice ejections: what it takes for leaving is leaving for longer than one epoch. */
  lemma {:induction false} SettledRegistryConsolidatesAlike(
      registry: seq<Validator>, settled: seq<Validator>, nextEpoch: nat, ejected: set<nat>, queue: seq<PendingConsolidation>, balances: seq<nat>)
    requires DepositQueue.Settles(registry, settled, nextEpoch, ejected) && |registry| <= |balances|
    requires InRegistry(registry, queue) && InRegistry(settled, queue)
    ensures StandardConsolidations(settled, nextEpoch, queue, balances)
            == StandardConsolidations(registry, nextEpoch, queue, balances)
    decreases |queue|
  {
    if queue != [] {
      var c := queue[0];
      assert c in queue;
      assert DepositQueue.SettlesOne(registry[c.source], settled[c.source], nextEpoch, c.source in ejected);
      assert Move(settled, balances, c) == Move(registry, balances, c);
      var after := if registry[c.source].slashed then balances else Move(registry, balances, c);
      SettledRegistryConsolidatesAlike(registry, settled, nextEpoch, ejected, queue[1..], after);
    }
  }

  /** The walk of deposits and then of consolidations, both over the settled registry. */
  lemma SettledWalks(e: Epoch, settled: seq<Validator>, ejected: set<nat>, rewarded: seq<nat>)
    requires ValidEpoch(e) && |rewarded| == |e.registry|
    requires DepositQueue.Settles(e.registry, settled, Rules(e).nextEpoch, ejected)
    ensures var mid, q := AfterDeposits(e, settled, rewarded), e.pendingConsolidations;
            && |settled| <= |mid.balances|
            && (forall u :: 0 <= u < |settled| ==>
                  mid.balances[u] == rewarded[u] + DepositQueue.Deposited(Rules(e), settled, e.pendingDeposits, u))
            && (InRegistry(mid.registry, q) ==>
                  StandardConsolidations(mid.registry, Rules(e).nextEpoch, q, mid.balances)
                  == StandardConsolidations(e.registry, Rules(e).nextEpoch, q, mid.balances))
  {
    var mid, q := AfterDeposits(e, settled, rewarded), e.pendingConsolidations;
    assert forall u :: 0 <= u < |e.registry| ==> DepositQueue.SettlesOne(e.registry[u], settled[u], Rules(e).nextEpoch, u in ejected);
    assert DistinctKeys(settled) by {
      assert forall u :: 0 <= u < |e.registry| ==> settled[u].pubkey == e.registry[u].pubkey;
    }
    DepositQueue.DepositsRefineStandard(e.transition, settled, rewarded, e.pendingDeposits);
    if InRegistry(mid.registry, q) {
      GrownRegistryConsolidatesAlike(settled, mid.registry, Rules(e).nextEpoch, q, mid.balances);
      SettledRegistryConsolidatesAlike(e.registry, settled, Rules(e).nextEpoch, ejected, q, mid.balances);
    }
  }

  /** The next balance, written out by cause. */
  lemma EvolvedBalance(e: Epoch, settled: seq<Validator>, ejected: set<nat>, early: seq<int>, late: seq<int>, queued: seq<nat>, v: nat)
    requires Evolves(e, settled, ejected, early, late, queued) && v < |e.registry|
    ensures var mid := AfterDeposits(e, settled, Rewarded(e, early)).balances;
            var next, q := Rules(e).nextEpoch, e.pendingConsolidations;
            && |e.registry| <= |mid|
            && e.nextBalances[v] == e.balances[v] + early[v] + late[v] - e.withdrawals[v] - queued[v]
                 + DepositQueue.Deposited(Rules(e), settled, e.pendingDeposits, v)
                 + MovedIn(e.registry, next, q, mid, v) - MovedOut(e.registry, next, q, mid, v)
  {
    var rewarded := Rewarded(e, early);
    var mid := AfterDeposits(e, settled, rewarded);
    var next, q := Rules(e).nextEpoch, e.pendingConsolidations;
    SettledWalks(e, settled, ejected, rewarded);
    StandardBooksBalance(e.registry, next, q, mid.balances, v);
  }

  /** The true net change that the reported reward stands for. */
  function NetChange(e: Epoch, v: nat): int
    requires |e.balances| == |e.registry| <= |e.nextRegistry| == |e.nextBalances| == |e.withdrawals| == |e.blockDeposits|
    requires InRegistry(e.registry, e.pendingConsolidations) && v < |e.registry|
  {
    e.nextBalances[v] - e.balances[v] + e.withdrawals[v]
    - DepositQueue.Deposited(Rules(e), e.registry, e.pendingDeposits, v) - e.blockDeposits[v]
    - Incoming(e.registry, Rules(e).nextEpoch, e.balances, e.pendingConsolidations, v)
    + (SwitchExcess(e.registry, e.balances, e.nextRegistry, v)
       + Outgoing(e.registry, Rules(e).nextEpoch, e.balances, e.pendingConsolidations, v))
  }

  lemma ReportedIsNet(e: Epoch, v: nat)
    requires |e.balances| == |e.registry| <= |e.nextRegistry| == |e.nextBalances| == |e.withdrawals| == |e.blockDeposits|
    requires InRegistry(e.registry, e.pendingConsolidations) && v < |e.registry|
    ensures Reported(e, v) == WrapSigned(NetChange(e, v))
  {
    NetRewardIsNet(e.balances[v], e.nextBalances[v], e.withdrawals[v],
                   DepositQueue.Deposited(Rules(e), e.registry, e.pendingDeposits, v), e.blockDeposits[v],
                   Incoming(e.registry, Rules(e).nextEpoch, e.balances, e.pendingConsolidations, v),
                   SwitchExcess(e.registry, e.balances, e.nextRegistry, v)
                   + Outgoing(e.registry, Rules(e).nextEpoch, e.balances, e.pendingConsolidations, v),
                   NetChange(e, v));
  }

  /** For every epoch: the net change behind the reported reward is the validator's true reward, less
      the deposits carried by the blocks themselves, plus what the replay misjudges of ejections, switches
      and consolidations. */
  lemma NetChangeEquation(e: Epoch, settled: seq<Validator>, ejected: set<nat>, early: seq<int>, late: seq<int>, queued: seq<nat>, v: nat)
    requires Evolves(e, settled, ejected, early, late, queued) && v < |e.registry|
    ensures var mid := AfterDeposits(e, settled, Rewarded(e, early)).balances;
            var next, q := Rules(e).nextEpoch, e.pendingConsolidations;
            && |e.registry| <= |mid|
            && NetChange(e, v) ==
                 early[v] + late[v] - e.blockDeposits[v]
                 + (DepositQueue.Deposited(Rules(e), settled, e.pendingDeposits, v)
                    - DepositQueue.Deposited(Rules(e), e.registry, e.pendingDeposits, v))
                 + (SwitchExcess(e.registry, e.balances, e.nextRegistry, v) - queued[v])
                 + (MovedIn(e.registry, next, q, mid, v) - Incoming(e.registry, next, e.balances, q, v))
                 - (MovedOut(e.registry, next, q, mid, v) - Outgoing(e.registry, next, e.balances, q, v))
  {
    EvolvedBalance(e, settled, ejected, early, late, queued, v);
  }

  /** No credential switch, and each consolidation source used once and covered by its balance before
      the transition and after the early rewards. */
  ghost predicate Undisturbed(e: Epoch, early: seq<int>)
    requires ValidEpoch(e) && |early| == |e.registry|
    requires forall v :: 0 <= v < |e.registry| ==> e.balances[v] + early[v] >= 0
  {
    var sources := Sources(e.registry, Rules(e).nextEpoch, e.pendingConsolidations);
    && NoRepeats(sources)
    && CoversSources(e.registry, e.balances, sources)
    && CoversSources(e.registry, Rewarded(e, early), sources)
    && forall u :: 0 <= u < |e.registry| ==>
         !(e.registry[u].prefix == ETH1_PREFIX && e.nextRegistry[u].prefix == COMPOUNDING_PREFIX)
  }

  /** What is subtracted beyond the validator's deposits: those carried by blocks, which in Electra only enter
      the pending queue, and the difference the ejections make to the walk of that queue. */
  function Misjudged(e: Epoch, settled: seq<Validator>, v: nat): int
    requires v < |e.blockDeposits|
  {
    e.blockDeposits[v] + DepositQueue.Deposited(Rules(e), e.registry, e.pendingDeposits, v)
    - DepositQueue.Deposited(Rules(e), settled, e.pendingDeposits, v)
  }

  lemma UndisturbedNetChange(e: Epoch, settled: seq<Validator>, ejected: set<nat>, early: seq<int>, late: seq<int>, queued: seq<nat>, v: nat)
    requires Evolves(e, settled, ejected, early, late, queued) && v < |e.registry| && Undisturbed(e, early) && queued[v] == 0
    ensures NetChange(e, v) == early[v] + late[v] - Misjudged(e, settled, v)
  {
    var rewarded := Rewarded(e, early);
    var mid := AfterDeposits(e, settled, rewarded).balances;
    SettledWalks(e, settled, ejected, rewarded);
    ReplayAgreesWithStandard(e.registry, Rules(e).nextEpoch, e.pendingConsolidations, e.balances, mid, v);
    NetChangeEquation(e, settled, ejected, early, late, queued, v);
  }

  lemma WrapNoticesDifference(r: int, d: Uint64)
    requires FitsInt64(r)
    ensures WrapSigned(r - d) == r <==> d == 0
  {
    SignedExact(r);
    if WrapSigned(r - d) == r {
      assert Wrap(r - d) == Wrap(r);
      var i := WrapQuotient(r);
      var k := WrapQuotient(r - d);
      assert d == (i - k) * 0x1_0000_0000_0000_0000;
    }
  }

  lemma WrapNoticesResidue(r: int, d: int)
    requires FitsInt64(r)
    ensures WrapSigned(r - d) == r <==> Wrap(d) == 0
  {
    var k := WrapQuotient(d);
    SameResidue(r - d, r - Wrap(d), -k);
    WrapNoticesDifference(r, Wrap(d));
  }

  lemma ExactUnlessMisjudged(e: Epoch, settled: seq<Validator>, ejected: set<nat>, early: seq<int>, late: seq<int>, queued: seq<nat>, v: nat)
    requires Evolves(e, settled, ejected, early, late, queued) && v < |e.registry| && Undisturbed(e, early) && queued[v] == 0
    requires FitsInt64(early[v] + late[v])
    ensures Reported(e, v) == early[v] + late[v] <==> Wrap(Misjudged(e, settled, v)) == 0
  {
    UndisturbedNetChange(e, settled, ejected, early, late, queued, v);
    ReportedIsNet(e, v);
    WrapNoticesResidue(early[v] + late[v], Misjudged(e, settled, v));
  }

  /** Undisturbed by switches and uncovered sources, the reported reward is exact if and only if nothing is
      misjudged, in machine words. When the replay looks at no deposit of a validator that is ejected in the
      same transition, that is if and only if the epoch's blocks carried no deposit for the validator. For an
      ejected validator it is if and only if block deposits and replayed deposits come to nothing. */
  lemma RewardIsExact(e: Epoch, settled: seq<Validator>, ejected: set<nat>, early: seq<int>, late: seq<int>, queued: seq<nat>, v: nat)
    requires Evolves(e, settled, ejected, early, late, queued) && v < |e.registry| && Undisturbed(e, early) && queued[v] == 0
    requires FitsInt64(early[v] + late[v])
    ensures Reported(e, v) == early[v] + late[v] <==> Wrap(Misjudged(e, settled, v)) == 0
    ensures DepositQueue.NoneEjected(Rules(e), e.registry, ejected, e.pendingDeposits, 0, 0) ==>
              (Reported(e, v) == early[v] + late[v] <==> e.blockDeposits[v] == 0)
    ensures v in ejected ==>
              (Reported(e, v) == early[v] + late[v]
               <==> Wrap(e.blockDeposits[v] + DepositQueue.Deposited(Rules(e), e.registry, e.pendingDeposits, v)) == 0)
  {
    ExactUnlessMisjudged(e, settled, ejected, early, late, queued, v);
    DepositQueue.EjectionsPostpone(Rules(e), e.registry, settled, ejected, e.pendingDeposits, v);
  }

  const STAKER: Validator :=
    Validator("a", ETH1_PREFIX, "w", 32_000_000_000, false, 0, FAR_FUTURE_EPOCH, FAR_FUTURE_EPOCH)

  /** One validator of 32 ETH that earns 10 Gwei while a block carries a deposit of 1 ETH for it. */
  const TOPPED_UP: Epoch := Epoch(
    [STAKER], [32_000_000_000], DepositQueue.Transition(999, 0, 0, 0, 0, 0), [], [],
    [STAKER], [32_000_000_010], [0], [1_000_000_000])

  /** The program reports a loss of almost 1 ETH for it. */
  lemma BlockDepositCounterexample()
    ensures Evolves(TOPPED_UP, [STAKER], {}, [10], [0], [0]) && Undisturbed(TOPPED_UP, [10])
    ensures Reported(TOPPED_UP, 0) == 10 - 1_000_000_000
  {
    var e := TOPPED_UP;
    assert Rewarded(e, [10]) == [32_000_000_010];
    assert AfterDeposits(e, [STAKER], [32_000_000_010]).balances == [32_000_000_010];
    assert StandardConsolidations([STAKER], 1000, [], [32_000_000_010]) == [32_000_000_010];
    UndisturbedNetChange(e, [STAKER], {}, [10], [0], [0], 0);
    ReportedIsNet(e, 0);
    SignedExact(10 - 1_000_000_000);
  }

  const TOP_UP: DepositQueue.PendingDeposit := DepositQueue.PendingDeposit("a", ETH1_PREFIX, "w", 1_000_000_000, 0, true)

  /** One validator of 16 ETH with a top-up of 1 ETH in the queue, that earns 10 Gwei and is ejected. */
  const EJECTED: Epoch := Epoch(
    [STAKER.(effectiveBalance := 16_000_000_000)], [16_000_000_000], DepositQueue.Transition(999, 0, 0, 0, 0, 0), [TOP_UP], [],
    [STAKER.(effectiveBalance := 16_000_000_000)], [16_000_000_010], [0], [0])

  /** The standard postpones the top-up, the replay subtracts it. */
  lemma EjectionCounterexample()
    ensures var settled := [STAKER.(effectiveBalance := 16_000_000_000, exitEpoch := 1004, withdrawableEpoch := 1260)];
            Evolves(EJECTED, settled, {0}, [10], [0], [0]) && Undisturbed(EJECTED, [10])
    ensures Reported(EJECTED, 0) == 10 - 1_000_000_000
  {
    var e, leaving := EJECTED, STAKER.(effectiveBalance := 16_000_000_000, exitEpoch := 1004, withdrawableEpoch := 1260);
    assert Rewarded(e, [10]) == [16_000_000_010];
    assert LastIndex(e.registry, "a") == Some(0) && FirstIndex([leaving], "a") == Some(0);
    assert [TOP_UP][1..] == [];
    var s := DepositQueue.Standard([leaving], [16_000_000_010], 0, 0, [], [], false);
    var s1 := s.(postponed := [] + [TOP_UP], index := 1);
    assert DepositQueue.StandardTurn(e.transition, s, TOP_UP) == DepositQueue.Next(s1);
    assert AfterDeposits(e, [leaving], [16_000_000_010]) == DepositQueue.StandardWalk(e.transition, [], s1) == s1;
    assert DepositQueue.SettlesOne(e.registry[0], leaving, 1000, true);
    assert StandardConsolidations([leaving], 1000, [], [16_000_000_010]) == [16_000_000_010];
    assert DepositQueue.Consumed(Rules(e), e.registry, [TOP_UP], 0, 0) == 1 + DepositQueue.Consumed(Rules(e), e.registry, [], 1, 1_000_000_000);
    assert DepositQueue.Deposited(Rules(e), e.registry, [TOP_UP], 0) == 1_000_000_000 + DepositQueue.Credited(Rules(e), e.registry, [], 0, 0);
    DepositQueue.EjectionsPostpone(Rules(e), e.registry, [leaving], {0}, [TOP_UP], 0);
    UndisturbedNetChange(e, [leaving], {0}, [10], [0], [0], 0);
    ReportedIsNet(e, 0);
    SignedExact(10 - 1_000_000_000);
  }

  /** Placeholder entries behind the consolidation queue do not change the reported reward. */
  lemma PlaceholdersLeaveReward(e: Epoch, n: nat, v: nat)
    requires ValidEpoch(e) && InRegistry(e.registry, Placeholders(n)) && v < |e.registry|
    ensures InRegistry(e.registry, e.pendingConsolidations + Placeholders(n))
    ensures Reported(e.(pendingConsolidations := e.pendingConsolidations + Placeholders(n)), v) == Reported(e, v)
  {
    PlaceholdersLeaveNet(e.registry, Rules(e).nextEpoch, e.balances, e.pendingConsolidations, n, v);
    ReportedIsNet(e, v);
    ReportedIsNet(e.(pendingConsolidations := e.pendingConsolidations + Placeholders(n)), v);
  }
}
