/** The pending consolidation queue at an epoch transition: what the replay attributes to each
    validator, and what the consensus standard really moves (Electra beacon chain specification,
    section "New process_pending_consolidations").

    The replay reads every source balance before the transition; the standard reads it at its
    turn, after rewards, deposits and earlier consolidations. */
module ConsolidationQueue {
  import opened Chain

  datatype PendingConsolidation = PendingConsolidation(source: nat, target: nat)

  ghost predicate InRegistry(registry: seq<Validator>, queue: seq<PendingConsolidation>) {
    forall c :: c in queue ==> c.source < |registry| && c.target < |registry|
  }

  function Min(a: int, b: int): int { if a <= b then a else b }

  /** What a consolidation of validator v takes when the balances are as given. */
  function Movable(registry: seq<Validator>, balances: seq<nat>, v: nat): nat
    requires v < |registry| && v < |balances|
  {
    Min(balances[v], registry[v].effectiveBalance)
  }

  // ------------------------------------------------------------ the replay, balances fixed

  /** Sum attributed to v as a target by replaying the queue on fixed balances. */
  function Incoming(registry: seq<Validator>, nextEpoch: nat, balances: seq<nat>, queue: seq<PendingConsolidation>, v: nat): nat
    requires InRegistry(registry, queue) && |registry| <= |balances|
  {
    if queue == [] then 0
    else
      var c := queue[0];
      if registry[c.source].slashed then Incoming(registry, nextEpoch, balances, queue[1..], v)
      else if registry[c.source].withdrawableEpoch > nextEpoch then 0
      else (if c.target == v then Movable(registry, balances, c.source) else 0)
           + Incoming(registry, nextEpoch, balances, queue[1..], v)
  }

  /** Sum attributed to v as a source by replaying the queue on fixed balances. */
  function Outgoing(registry: seq<Validator>, nextEpoch: nat, balances: seq<nat>, queue: seq<PendingConsolidation>, v: nat): nat
    requires InRegistry(registry, queue) && |registry| <= |balances|
  {
    if queue == [] then 0
    else
      var c := queue[0];
      if registry[c.source].slashed then Outgoing(registry, nextEpoch, balances, queue[1..], v)
      else if registry[c.source].withdrawableEpoch > nextEpoch then 0
      else (if c.source == v then Movable(registry, balances, c.source) else 0)
           + Outgoing(registry, nextEpoch, balances, queue[1..], v)
  }

  // ------------------------------------------------------------ the consensus standard

  /** decrease_balance of the source, then increase_balance of the target. */
  function Move(registry: seq<Validator>, balances: seq<nat>, c: PendingConsolidation): (after: seq<nat>)
    requires c.source < |registry| && c.target < |registry| <= |balances|
    ensures |after| == |balances|
  {
    var amount := Movable(registry, balances, c.source);
    var taken := balances[c.source := balances[c.source] - amount];
    taken[c.target := taken[c.target] + amount]
  }

  /** The balances left by process_pending_consolidations. */
  function StandardConsolidations(registry: seq<Validator>, nextEpoch: nat, queue: seq<PendingConsolidation>, balances: seq<nat>): (after: seq<nat>)
    requires InRegistry(registry, queue) && |registry| <= |balances|
    ensures |after| == |balances|
    decreases |queue|
  {
    if queue == [] then balances
    else
      var c := queue[0];
      if registry[c.source].slashed then StandardConsolidations(registry, nextEpoch, queue[1..], balances)
      else if registry[c.source].withdrawableEpoch > nextEpoch then balances
      else StandardConsolidations(registry, nextEpoch, queue[1..], Move(registry, balances, c))
  }

  /** Sum the standard really adds to v. */
  function MovedIn(registry: seq<Validator>, nextEpoch: nat, queue: seq<PendingConsolidation>, balances: seq<nat>, v: nat): nat
    requires InRegistry(registry, queue) && |registry| <= |balances|
    decreases |queue|
  {
    if queue == [] then 0
    else
      var c := queue[0];
      if registry[c.source].slashed then MovedIn(registry, nextEpoch, queue[1..], balances, v)
      else if registry[c.source].withdrawableEpoch > nextEpoch then 0
      else (if c.target == v then Movable(registry, balances, c.source) else 0)
           + MovedIn(registry, nextEpoch, queue[1..], Move(registry, balances, c), v)
  }

  /** Sum the standard really takes from v. */
  function MovedOut(registry: seq<Validator>, nextEpoch: nat, queue: seq<PendingConsolidation>, balances: seq<nat>, v: nat): nat
    requires InRegistry(registry, queue) && |registry| <= |balances|
    decreases |queue|
  {
    if queue == [] then 0
    else
      var c := queue[0];
      if registry[c.source].slashed then MovedOut(registry, nextEpoch, queue[1..], balances, v)
      else if registry[c.source].withdrawableEpoch > nextEpoch then 0
      else (if c.source == v then Movable(registry, balances, c.source) else 0)
           + MovedOut(registry, nextEpoch, queue[1..], Move(registry, balances, c), v)
  }

  /** Every balance changes by exactly what was moved in and out. */
  lemma {:induction false} StandardBooksBalance(
      registry: seq<Validator>, nextEpoch: nat, queue: seq<PendingConsolidation>, balances: seq<nat>, v: nat)
    requires InRegistry(registry, queue) && |registry| <= |balances| && v < |balances|
    ensures StandardConsolidations(registry, nextEpoch, queue, balances)[v]
            == balances[v] + MovedIn(registry, nextEpoch, queue, balances, v)
               - MovedOut(registry, nextEpoch, queue, balances, v)
    decreases |queue|
  {
    if queue != [] {
      var c := queue[0];
      var after := if registry[c.source].slashed then balances else Move(registry, balances, c);
      StandardBooksBalance(registry, nextEpoch, queue[1..], after, v);
    }
  }

  // ------------------------------------------------------------ when the two agree

  /** The sources that the walk has still to consolidate, in order. */
  function Sources(registry: seq<Validator>, nextEpoch: nat, queue: seq<PendingConsolidation>): seq<nat>
    requires InRegistry(registry, queue)
  {
    if queue == [] then []
    else
      var c := queue[0];
      if registry[c.source].slashed then Sources(registry, nextEpoch, queue[1..])
      else if registry[c.source].withdrawableEpoch > nextEpoch then []
      else [c.source] + Sources(registry, nextEpoch, queue[1..])
  }

  /** Every source still to come holds at least its effective balance. */
  ghost predicate CoversSources(registry: seq<Validator>, balances: seq<nat>, sources: seq<nat>) {
    forall v :: v in sources ==> v < |registry| && v < |balances| && balances[v] >= registry[v].effectiveBalance
  }

  lemma {:induction false} SourcesInRegistry(registry: seq<Validator>, nextEpoch: nat, queue: seq<PendingConsolidation>)
    requires InRegistry(registry, queue)
    ensures forall v :: v in Sources(registry, nextEpoch, queue) ==> v < |registry|
  {
    if queue != [] { SourcesInRegistry(registry, nextEpoch, queue[1..]); }
  }

  /** A consolidation leaves the other sources covered. */
  lemma MoveKeepsCover(registry: seq<Validator>, balances: seq<nat>, c: PendingConsolidation, rest: seq<nat>)
    requires c.source < |registry| && c.target < |registry| <= |balances|
    requires CoversSources(registry, balances, rest) && c.source !in rest
    ensures CoversSources(registry, Move(registry, balances, c), rest)
  {
  }

  /** With each source used once and covered by its balance both before the transition and when the
      walk starts, the replay attributes to every validator what the standard moves. */
  lemma {:induction false} ReplayAgreesWithStandard(
      registry: seq<Validator>, nextEpoch: nat, queue: seq<PendingConsolidation>,
      before: seq<nat>, balances: seq<nat>, v: nat)
    requires InRegistry(registry, queue) && |registry| <= |before| && |registry| <= |balances|
    requires var sources := Sources(registry, nextEpoch, queue);
             NoRepeats(sources) && CoversSources(registry, before, sources) && CoversSources(registry, balances, sources)
    ensures Incoming(registry, nextEpoch, before, queue, v) == MovedIn(registry, nextEpoch, queue, balances, v)
    ensures Outgoing(registry, nextEpoch, before, queue, v) == MovedOut(registry, nextEpoch, queue, balances, v)
    decreases |queue|
  {
    if queue != [] {
      var c := queue[0];
      var sources := Sources(registry, nextEpoch, queue);
      if registry[c.source].slashed {
        ReplayAgreesWithStandard(registry, nextEpoch, queue[1..], before, balances, v);
      } else if registry[c.source].withdrawableEpoch <= nextEpoch {
        var rest := sources[1..];
        assert sources[0] == c.source && c.source in sources;
        assert rest == Sources(registry, nextEpoch, queue[1..]);
        assert forall x :: x in rest ==> x in sources;
        MoveKeepsCover(registry, balances, c, rest);
        ReplayAgreesWithStandard(registry, nextEpoch, queue[1..], before, Move(registry, balances, c), v);
      }
    }
  }

  // ------------------------------------------------------------ placeholders appended by request processing

  function Placeholders(n: nat): seq<PendingConsolidation> { seq(n, _ => PendingConsolidation(0, 0)) }

  lemma {:induction false} PlaceholdersCancel(registry: seq<Validator>, nextEpoch: nat, balances: seq<nat>, n: nat, v: nat)
    requires InRegistry(registry, Placeholders(n)) && |registry| <= |balances|
    ensures Incoming(registry, nextEpoch, balances, Placeholders(n), v)
            == Outgoing(registry, nextEpoch, balances, Placeholders(n), v)
  {
    if n > 0 {
      assert Placeholders(n)[1..] == Placeholders(n - 1);
      PlaceholdersCancel(registry, nextEpoch, balances, n - 1, v);
    }
  }

  /** Placeholders at the end of the queue change no validator's net amount. */
  lemma {:induction false} PlaceholdersLeaveNet(
      registry: seq<Validator>, nextEpoch: nat, balances: seq<nat>, queue: seq<PendingConsolidation>, n: nat, v: nat)
    requires InRegistry(registry, queue) && InRegistry(registry, Placeholders(n)) && |registry| <= |balances|
    ensures InRegistry(registry, queue + Placeholders(n))
    ensures Incoming(registry, nextEpoch, balances, queue + Placeholders(n), v)
            - Outgoing(registry, nextEpoch, balances, queue + Placeholders(n), v)
            == Incoming(registry, nextEpoch, balances, queue, v) - Outgoing(registry, nextEpoch, balances, queue, v)
  {
    if queue == [] {
      assert queue + Placeholders(n) == Placeholders(n);
      PlaceholdersCancel(registry, nextEpoch, balances, n, v);
    } else {
      assert (queue + Placeholders(n))[1..] == queue[1..] + Placeholders(n);
      PlaceholdersLeaveNet(registry, nextEpoch, balances, queue[1..], n, v);
    }
  }
}
