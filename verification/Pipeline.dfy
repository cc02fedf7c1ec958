/** The historical download pipeline as a step system: the task producer, the consumer that starts
    four kinds of routines, and the pages and cached values those routines wait for. Behind the producer
    old epochs are evicted from the cache.

    A value is asked for once, and then received even if it is evicted in between: a waiting routine has
    subscribed to it. Slots and epochs are counted from the start of the run. Nothing is cancelled, and the
    finalized slot lies beyond the run. */
module Pipeline {
  import opened Chain

  /** A run over the slots init..end, with so many pages and so much room in the task channel. */
  datatype Config = Config(init: nat, end: nat, pages: nat, room: nat)

  ghost predicate ValidConfig(c: Config) { c.init <= c.end && c.pages > 0 && c.room > 0 }

  function Slots(c: Config): nat
    requires c.init <= c.end
  {
    c.end - c.init + 1
  }

  /** The epochs whose last slot lies in the run: those that get a state and metrics. */
  function Epochs(c: Config): nat
    requires c.init <= c.end
  {
    EpochsAmong(c, Slots(c))
  }

  /** How many of the first k slots of the run end an epoch. */
  function EpochsAmong(c: Config, k: nat): nat { (c.init + k) / SLOTS_PER_EPOCH - c.init / SLOTS_PER_EPOCH }

  /** The epoch of a slot; both counted from the start of the run. */
  function EpochOf(c: Config, i: nat): nat { (c.init + i) / SLOTS_PER_EPOCH - c.init / SLOTS_PER_EPOCH }

  /** Position in the run of block b of epoch j; negative for blocks before an unaligned start. */
  function SlotOf(c: Config, j: nat, b: nat): int {
    SLOTS_PER_EPOCH * (c.init / SLOTS_PER_EPOCH + j) + b - c.init
  }

  /** A routine that holds a page of the book while it works on one block. */
  datatype BlockTask = Queued | HasToken | Working | Asked | Finished

  /** A routine that holds a page while it goes through the waits of one epoch's metrics. The stages
      are: 0 the barrier on the previous epoch's page, 1 to 6 asking for and receiving the states two
      epochs back, one back and its own, 7 to 38 the pages of the previous epoch's blocks, 39 releasing
      the page. */
  datatype EpochTask = EpochQueued | EpochHasToken | EpochWorking(stage: nat) | EpochFinished

  const FIRST_WATCH: nat := 7
  const RELEASE: nat := 39
  /** Stages of a state: so many blocks collected, stored, or evicted together with its blocks. */
  const STORED: nat := 33
  const EVICTED: nat := 34
  /** How far behind the next slot the cache is kept. */
  const KEPT_SLOTS: nat := 5 * SLOTS_PER_EPOCH

  datatype State = State(
    cleared: bool,            // the producer has seen a free page for the next slot
    outdated: set<nat>,       // epochs it still has to evict before it sends the slot
    sent: nat,                // slots put into the channel
    started: nat,             // slots taken from the channel, their block routines started
    epochs: nat,              // epochs whose state and metrics routines were started
    tokens: nat,              // free tokens of the page book
    downloaded: seq<bool>,    // per slot: the block is in the cache
    blocks: seq<BlockTask>,   // per slot
    collected: seq<nat>,      // per epoch: the stage of its state
    metrics: seq<EpochTask>)  // per epoch

  function Initial(c: Config): State
    requires ValidConfig(c)
  {
    State(false, {}, 0, 0, 0, c.pages, seq(Slots(c), _ => false), seq(Slots(c), _ => Queued),
          seq(Epochs(c), _ => 0), seq(Epochs(c), _ => EpochQueued))
  }

  // ------------------------------------------------------------ sums over the routines

  function Total<T>(s: seq<T>, f: T -> nat): nat {
    if s == [] then 0 else f(s[0]) + Total(s[1..], f)
  }

  lemma {:induction false} TotalUpdate<T>(s: seq<T>, f: T -> nat, i: nat, x: T)
    requires i < |s|
    ensures Total(s[i := x], f) == Total(s, f) - f(s[i]) + f(x)
  {
    if i == 0 {
      assert s[0 := x][1..] == s[1..];
    } else {
      assert s[i := x][1..] == s[1..][i - 1 := x];
      TotalUpdate(s[1..], f, i - 1, x);
    }
  }

  lemma {:induction false} TotalBounded<T>(s: seq<T>, f: T -> nat, bound: nat)
    requires forall x :: x in s ==> f(x) <= bound
    ensures Total(s, f) <= |s| * bound
  {
    if s != [] {
      assert forall x :: x in s[1..] ==> x in s;
      TotalBounded(s[1..], f, bound);
      Times(|s[1..]|, bound);
    }
  }

  lemma {:induction false} SomeContributes<T>(s: seq<T>, f: T -> nat) returns (i: nat)
    requires Total(s, f) > 0
    ensures i < |s| && f(s[i]) > 0
  {
    if f(s[0]) > 0 {
      i := 0;
    } else {
      var k := SomeContributes(s[1..], f);
      i := k + 1;
    }
  }

  lemma {:induction false} NoneContributes<T>(s: seq<T>, f: T -> nat)
    requires forall x :: x in s ==> f(x) == 0
    ensures Total(s, f) == 0
  {
    if s != [] {
      assert forall x :: x in s[1..] ==> x in s;
      NoneContributes(s[1..], f);
    }
  }

  // ------------------------------------------------------------ pages and guards

  function BlockTokens(t: BlockTask): nat { if t.HasToken? || HasPage(t) then 1 else 0 }
  function EpochTokens(t: EpochTask): nat { if t.EpochHasToken? || t.EpochWorking? then 1 else 0 }
  predicate HasPage(t: BlockTask) { t.Working? || t.Asked? }
  function BlockPages(t: BlockTask): nat { if HasPage(t) then 1 else 0 }
  function EpochPages(t: EpochTask): nat { if t.EpochWorking? then 1 else 0 }

  /** The pages in use; a routine between token and page does not have one yet. */
  function PagesInUse(st: State): nat { Total(st.blocks, BlockPages) + Total(st.metrics, EpochPages) }

  predicate Shaped(c: Config, st: State)
    requires ValidConfig(c)
  {
    && |st.downloaded| == |st.blocks| == Slots(c)
    && |st.collected| == |st.metrics| == Epochs(c)
    && st.started <= st.sent <= Slots(c)
    && st.epochs == EpochsAmong(c, st.started) <= Epochs(c)
  }

  /** WaitForPrevState: a block waits for the state two epochs back, unless that was not downloaded by
      this run, and for its page to be free. */
  predicate MayDownload(c: Config, st: State, i: nat)
    requires ValidConfig(c) && Shaped(c, st) && i < st.started
  {
    var slot := c.init + i;
    slot < SLOTS_PER_EPOCH * 2
    || var prevEpoch := slot / SLOTS_PER_EPOCH - 2;
       var prevSlot := (prevEpoch + 1) * SLOTS_PER_EPOCH - 1;
       prevSlot < c.init
       || var j := prevEpoch - c.init / SLOTS_PER_EPOCH;
          0 <= j < Epochs(c) && st.collected[j] == STORED && !st.metrics[j].EpochWorking?
  }

  /** The epochs that are evicted before slot i is sent: at an epoch boundary, those stored ones that start
      more than five epochs below it. */
  function OutdatedAt(c: Config, st: State, i: nat): set<nat>
    requires ValidConfig(c) && Shaped(c, st)
  {
    var slot := c.init + i;
    if slot % SLOTS_PER_EPOCH == 0 && slot > KEPT_SLOTS then
      set j: nat | j < Epochs(c) && st.collected[j] == STORED
                   && (c.init / SLOTS_PER_EPOCH + j) * SLOTS_PER_EPOCH < slot - KEPT_SLOTS
    else {}
  }

  predicate WasDownloaded(c: Config, st: State, i: int)
    requires ValidConfig(c) && Shaped(c, st)
  {
    0 <= i < Slots(c) && st.downloaded[i]
  }

  /** What one stage of an epoch's metrics waits for. */
  predicate StageOpen(c: Config, st: State, j: nat, stage: nat)
    requires ValidConfig(c) && Shaped(c, st) && j < Epochs(c)
  {
    if stage == 0 then j == 0 || !st.metrics[j - 1].EpochWorking?
    else if stage == 1 then j < 2 || st.collected[j - 2] != EVICTED
    else if stage == 2 then j < 2 || st.collected[j - 2] >= STORED
    else if stage == 3 then j < 1 || st.collected[j - 1] != EVICTED
    else if stage == 4 then j < 1 || st.collected[j - 1] >= STORED
    else if stage == 5 then st.collected[j] != EVICTED
    else if stage == 6 then st.collected[j] >= STORED
    else if stage < RELEASE then
      // block rewards are written only with all three states, over the blocks of the previous epoch
      j < 2 || (var i := SlotOf(c, j - 1, stage - FIRST_WATCH); 0 <= i < Slots(c) ==> !HasPage(st.blocks[i]))
    else true
  }

  // ------------------------------------------------------------ steps

  datatype Step =
    | Check | Evict(j: nat) | Send | Start
    | Download(i: nat)
    | TakeToken(i: nat) | OpenPage(i: nat) | AskBlock(i: nat) | FinishBlock(i: nat)
    | Collect(j: nat) | Store(j: nat)
    | TakeEpochToken(j: nat) | OpenEpochPage(j: nat) | Advance(j: nat) | FinishEpoch(j: nat)

  /** The block went with the state of its epoch. */
  predicate BlockEvicted(c: Config, st: State, i: nat)
    requires ValidConfig(c) && Shaped(c, st) && i < Slots(c)
  {
    EpochOf(c, i) < Epochs(c) && st.collected[EpochOf(c, i)] == EVICTED
  }

  predicate Enabled(c: Config, st: State, step: Step)
    requires ValidConfig(c) && Shaped(c, st)
  {
    match step {
      case Check => st.sent < Slots(c) && !st.cleared && PagesInUse(st) < c.pages
      case Evict(j) => j in st.outdated && j < Epochs(c) && st.collected[j] == STORED
      case Send => st.sent < Slots(c) && st.cleared && st.outdated == {} && st.sent - st.started < c.room
      case Start => st.started < st.sent
      case Download(i) => i < st.started && !st.downloaded[i] && MayDownload(c, st, i)
      case TakeToken(i) => i < st.started && st.blocks[i].Queued? && st.tokens > 0
      case OpenPage(i) => i < st.started && st.blocks[i].HasToken?
      case AskBlock(i) => i < st.started && st.blocks[i].Working? && !BlockEvicted(c, st, i)
      case FinishBlock(i) => i < st.started && st.blocks[i].Asked? && st.downloaded[i]
      case Collect(j) => j < st.epochs && st.collected[j] < SLOTS_PER_EPOCH && WasDownloaded(c, st, SlotOf(c, j, st.collected[j]))
      case Store(j) => j < st.epochs && st.collected[j] == SLOTS_PER_EPOCH
      case TakeEpochToken(j) => j < st.epochs && st.metrics[j].EpochQueued? && st.tokens > 0
      case OpenEpochPage(j) => j < st.epochs && st.metrics[j].EpochHasToken?
      case Advance(j) => j < st.epochs && st.metrics[j].EpochWorking? && st.metrics[j].stage < RELEASE
                         && StageOpen(c, st, j, st.metrics[j].stage)
      case FinishEpoch(j) => j < st.epochs && st.metrics[j] == EpochWorking(RELEASE)
    }
  }

  function Next(c: Config, st: State, step: Step): State
    requires ValidConfig(c) && Shaped(c, st) && Enabled(c, st, step)
  {
    match step {
      case Check => st.(cleared := true, outdated := OutdatedAt(c, st, st.sent))
      case Evict(j) => st.(outdated := st.outdated - {j}, collected := st.collected[j := EVICTED])
      case Send => st.(cleared := false, sent := st.sent + 1)
      case Start =>
        // at the last slot of an epoch the state and the metrics routines start too
        st.(started := st.started + 1,
            epochs := if (c.init + st.started) % SLOTS_PER_EPOCH == SLOTS_PER_EPOCH - 1 then st.epochs + 1 else st.epochs)
      case Download(i) => st.(downloaded := st.downloaded[i := true])
      case TakeToken(i) => st.(tokens := st.tokens - 1, blocks := st.blocks[i := HasToken])
      case OpenPage(i) => st.(blocks := st.blocks[i := Working])
      case AskBlock(i) => st.(blocks := st.blocks[i := Asked])
      case FinishBlock(i) => st.(tokens := st.tokens + 1, blocks := st.blocks[i := Finished])
      case Collect(j) => st.(collected := st.collected[j := st.collected[j] + 1])
      case Store(j) => st.(collected := st.collected[j := STORED])
      case TakeEpochToken(j) => st.(tokens := st.tokens - 1, metrics := st.metrics[j := EpochHasToken])
      case OpenEpochPage(j) => st.(metrics := st.metrics[j := EpochWorking(0)])
      case Advance(j) => st.(metrics := st.metrics[j := EpochWorking(st.metrics[j].stage + 1)])
      case FinishEpoch(j) => st.(tokens := st.tokens + 1, metrics := st.metrics[j := EpochFinished])
    }
  }

  /** Every routine of the run has been started and has ended. */
  ghost predicate AllDone(c: Config, st: State)
    requires ValidConfig(c) && Shaped(c, st)
  {
    && st.started == Slots(c)
    && (forall i :: 0 <= i < Slots(c) ==> st.downloaded[i] && st.blocks[i].Finished?)
    && (forall j :: 0 <= j < Epochs(c) ==> st.collected[j] >= STORED && st.metrics[j].EpochFinished?)
  }

  // ------------------------------------------------------------ the invariant

  ghost predicate Sane(c: Config, st: State)
    requires ValidConfig(c) && Shaped(c, st)
  {
    InRange(c, st) && Idle(c, st)
  }

  ghost predicate InRange(c: Config, st: State)
    requires ValidConfig(c) && Shaped(c, st)
  {
    && (st.cleared ==> st.sent < Slots(c))
    && (st.outdated != {} ==> st.cleared)
    && (forall j :: j in st.outdated ==> j < Epochs(c) && st.collected[j] == STORED)
    && (forall j :: 0 <= j < Epochs(c) ==> st.collected[j] <= EVICTED)
    && (forall j :: 0 <= j < Epochs(c) && st.metrics[j].EpochWorking? ==> st.metrics[j].stage <= RELEASE)
  }

  /** Nothing happens in a routine before it is started. */
  ghost predicate Idle(c: Config, st: State)
    requires ValidConfig(c) && Shaped(c, st)
  {
    && (forall i :: st.started <= i < Slots(c) ==> !st.downloaded[i] && st.blocks[i].Queued?)
    && (forall j :: st.epochs <= j < Epochs(c) ==> st.collected[j] == 0 && st.metrics[j].EpochQueued?)
  }

  /** Every token is either free or with exactly one routine. */
  ghost predicate TokensConserved(c: Config, st: State) {
    st.tokens + Total(st.blocks, BlockTokens) + Total(st.metrics, EpochTokens) == c.pages
  }

  /** What a state download has collected is in the cache. */
  ghost predicate BlocksCollected(c: Config, st: State)
    requires ValidConfig(c) && Shaped(c, st)
  {
    forall j, b :: 0 <= j < Epochs(c) && 0 <= b < SLOTS_PER_EPOCH && b < st.collected[j] ==> WasDownloaded(c, st, SlotOf(c, j, b))
  }

  /** Metrics past a wait have the states they waited for. */
  ghost predicate MetricsCovered(c: Config, st: State)
    requires ValidConfig(c) && Shaped(c, st)
  {
    forall j :: 0 <= j < Epochs(c) ==> Covered(c, st, j)
  }

  ghost predicate Covered(c: Config, st: State, j: nat)
    requires ValidConfig(c) && Shaped(c, st) && j < Epochs(c)
  {
    match st.metrics[j] {
      case EpochFinished => StatesReady(c, st, j)
      case EpochWorking(stage) =>
        && (stage >= 3 && j >= 2 ==> st.collected[j - 2] >= STORED)
        && (stage >= 5 && j >= 1 ==> st.collected[j - 1] >= STORED)
        && (stage >= FIRST_WATCH ==> st.collected[j] >= STORED)
      case _ => true
    }
  }

  predicate StatesReady(c: Config, st: State, j: nat)
    requires ValidConfig(c) && Shaped(c, st) && j < Epochs(c)
  {
    st.collected[j] >= STORED && (j >= 1 ==> st.collected[j - 1] >= STORED) && (j >= 2 ==> st.collected[j - 2] >= STORED)
  }

  /** Blocks run at most two epochs ahead of the states. */
  ghost predicate BackPressure(c: Config, st: State)
    requires ValidConfig(c) && Shaped(c, st)
  {
    forall i :: 0 <= i < Slots(c) && st.downloaded[i] && EpochOf(c, i) >= 2 ==>
      EpochOf(c, i) - 2 < Epochs(c) && st.collected[EpochOf(c, i) - 2] >= STORED
  }

  /** What is evicted, or about to be, lies six epochs or more below the slot to be sent. */
  ghost predicate EvictedFarBehind(c: Config, st: State)
    requires ValidConfig(c) && Shaped(c, st)
  {
    && (forall j :: j in st.outdated ==> j + 6 <= EpochOf(c, Reached(c, st)))
    && (forall j :: 0 <= j < Epochs(c) && st.collected[j] == EVICTED ==> j + 6 <= EpochOf(c, Reached(c, st)))
  }

  /** The slot the producer is at. */
  function Reached(c: Config, st: State): nat
    requires ValidConfig(c)
  {
    if st.sent < Slots(c) then st.sent else Slots(c) - 1
  }

  ghost predicate Inv(c: Config, st: State)
    requires ValidConfig(c)
  {
    && Shaped(c, st) && Sane(c, st) && TokensConserved(c, st)
    && BlocksCollected(c, st) && MetricsCovered(c, st) && BackPressure(c, st) && EvictedFarBehind(c, st)
  }

  lemma InitialInv(c: Config)
    requires ValidConfig(c)
    ensures Inv(c, Initial(c))
  {
    NoneContributes(Initial(c).blocks, BlockTokens);
    NoneContributes(Initial(c).metrics, EpochTokens);
  }

  lemma NextShaped(c: Config, st: State, step: Step)
    requires ValidConfig(c) && Shaped(c, st) && Enabled(c, st, step)
    ensures Shaped(c, Next(c, st, step))
  {
  }

  /** The wait of a block, in epochs of the run: it needs the state two epochs back exactly when the
      run has one. */
  lemma WaitInEpochs(c: Config, st: State, i: nat)
    requires ValidConfig(c) && Shaped(c, st) && i < st.started
    ensures MayDownload(c, st, i) <==>
              EpochOf(c, i) < 2
              || (EpochOf(c, i) - 2 < Epochs(c)
                  && st.collected[EpochOf(c, i) - 2] == STORED && !st.metrics[EpochOf(c, i) - 2].EpochWorking?)
  {
  }

  lemma NextInRange(c: Config, st: State, step: Step)
    requires ValidConfig(c) && Shaped(c, st) && InRange(c, st) && Enabled(c, st, step)
    ensures Shaped(c, Next(c, st, step)) && InRange(c, Next(c, st, step))
  {
    NextShaped(c, st, step);
  }

  lemma NextIdle(c: Config, st: State, step: Step)
    requires ValidConfig(c) && Shaped(c, st) && Idle(c, st) && Enabled(c, st, step)
    ensures Shaped(c, Next(c, st, step)) && Idle(c, Next(c, st, step))
  {
    NextShaped(c, st, step);
  }

  predicate EpochStep(step: Step) {
    || step.Collect? || step.Store? || step.Evict? || step.TakeEpochToken? || step.OpenEpochPage? || step.Advance?
    || step.FinishEpoch?
  }

  lemma NextEpochTokens(c: Config, st: State, step: Step)
    requires ValidConfig(c) && Shaped(c, st) && TokensConserved(c, st) && Enabled(c, st, step) && EpochStep(step)
    ensures TokensConserved(c, Next(c, st, step))
  {
    match step {
      case TakeEpochToken(j) => TotalUpdate(st.metrics, EpochTokens, j, EpochHasToken);
      case OpenEpochPage(j) => TotalUpdate(st.metrics, EpochTokens, j, EpochWorking(0));
      case Advance(j) => TotalUpdate(st.metrics, EpochTokens, j, EpochWorking(st.metrics[j].stage + 1));
      case FinishEpoch(j) => TotalUpdate(st.metrics, EpochTokens, j, EpochFinished);
      case _ =>
    }
  }

  lemma NextTokens(c: Config, st: State, step: Step)
    requires ValidConfig(c) && Shaped(c, st) && TokensConserved(c, st) && Enabled(c, st, step)
    ensures TokensConserved(c, Next(c, st, step))
  {
    if EpochStep(step) { NextEpochTokens(c, st, step); }
    match step {
      case TakeToken(i) => TotalUpdate(st.blocks, BlockTokens, i, HasToken);
      case OpenPage(i) => TotalUpdate(st.blocks, BlockTokens, i, Working);
      case AskBlock(i) => TotalUpdate(st.blocks, BlockTokens, i, Asked);
      case FinishBlock(i) => TotalUpdate(st.blocks, BlockTokens, i, Finished);
      case _ =>
    }
  }

  /** What has once been in the cache. */
  ghost predicate CacheGrows(st: State, after: State) {
    && |st.downloaded| == |after.downloaded| && |st.collected| == |after.collected|
    && (forall i :: 0 <= i < |st.downloaded| && st.downloaded[i] ==> after.downloaded[i])
    && (forall j :: 0 <= j < |st.collected| && st.collected[j] >= STORED ==> after.collected[j] >= STORED)
  }

  lemma NextGrows(c: Config, st: State, step: Step)
    requires ValidConfig(c) && Shaped(c, st) && Enabled(c, st, step)
    ensures CacheGrows(st, Next(c, st, step))
  {
  }

  lemma NextBlocksCollected(c: Config, st: State, step: Step)
    requires ValidConfig(c) && Shaped(c, st) && BlocksCollected(c, st) && Enabled(c, st, step)
    ensures Shaped(c, Next(c, st, step)) && BlocksCollected(c, Next(c, st, step))
  {
    NextShaped(c, st, step);
  }

  lemma NextCovered(c: Config, st: State, step: Step, j: nat)
    requires ValidConfig(c) && Shaped(c, st) && Enabled(c, st, step) && j < Epochs(c) && Covered(c, st, j)
    ensures Shaped(c, Next(c, st, step)) && Covered(c, Next(c, st, step), j)
  {
    NextShaped(c, st, step);
    NextGrows(c, st, step);
  }

  lemma NextMetricsCovered(c: Config, st: State, step: Step)
    requires ValidConfig(c) && Shaped(c, st) && MetricsCovered(c, st) && Enabled(c, st, step)
    ensures Shaped(c, Next(c, st, step)) && MetricsCovered(c, Next(c, st, step))
  {
    NextShaped(c, st, step);
    forall j | 0 <= j < Epochs(c) ensures Covered(c, Next(c, st, step), j) {
      NextCovered(c, st, step, j);
    }
  }

  lemma NextBackPressure(c: Config, st: State, step: Step)
    requires ValidConfig(c) && Shaped(c, st) && Sane(c, st) && BackPressure(c, st) && Enabled(c, st, step)
    ensures Shaped(c, Next(c, st, step)) && BackPressure(c, Next(c, st, step))
  {
    NextShaped(c, st, step);
    if step.Download? { WaitInEpochs(c, st, step.i); }
  }

  lemma NextFarBehind(c: Config, st: State, step: Step)
    requires ValidConfig(c) && Shaped(c, st) && InRange(c, st) && EvictedFarBehind(c, st) && Enabled(c, st, step)
    ensures Shaped(c, Next(c, st, step)) && EvictedFarBehind(c, Next(c, st, step))
  {
    NextShaped(c, st, step);
    assert EpochOf(c, Reached(c, st)) <= EpochOf(c, Reached(c, Next(c, st, step)));
  }

  lemma NextInv(c: Config, st: State, step: Step)
    requires ValidConfig(c) && Inv(c, st) && Enabled(c, st, step)
    ensures Inv(c, Next(c, st, step))
  {
    NextInRange(c, st, step);
    NextIdle(c, st, step);
    NextTokens(c, st, step);
    NextBlocksCollected(c, st, step);
    NextMetricsCovered(c, st, step);
    NextBackPressure(c, st, step);
    NextFarBehind(c, st, step);
  }

  // ------------------------------------------------------------ progress

  /** Every block of every epoch of the run belongs to the run: the start is on an epoch boundary, or
      no epoch ends in the run. */
  predicate WholeEpochs(c: Config)
    requires ValidConfig(c)
  {
    c.init % SLOTS_PER_EPOCH == 0 || Epochs(c) == 0
  }

  ghost predicate CanMove(c: Config, st: State)
    requires ValidConfig(c) && Shaped(c, st)
  {
    exists step :: Enabled(c, st, step)
  }

  // ------------------------------------------------------------ what eviction can cost

  /** The metrics have still to ask for a state that is evicted. */
  predicate MetricsLost(c: Config, st: State, j: nat)
    requires ValidConfig(c) && Shaped(c, st) && j < Epochs(c)
  {
    !st.metrics[j].EpochFinished?
    && var stage := if st.metrics[j].EpochWorking? then st.metrics[j].stage else 0;
       || (stage <= 1 && j >= 2 && st.collected[j - 2] == EVICTED)
       || (stage <= 3 && j >= 1 && st.collected[j - 1] == EVICTED)
       || (stage <= 5 && st.collected[j] == EVICTED)
  }

  /** The processing has still to ask for a block that is evicted. */
  predicate ProcessorLost(c: Config, st: State, i: nat)
    requires ValidConfig(c) && Shaped(c, st) && i < Slots(c)
  {
    !st.blocks[i].Asked? && !st.blocks[i].Finished? && BlockEvicted(c, st, i)
  }

  /** The download still has to see the state two epochs back, which is evicted. */
  predicate DownloadLost(c: Config, st: State, i: nat)
    requires ValidConfig(c) && Shaped(c, st) && i < Slots(c)
  {
    !st.downloaded[i] && EpochOf(c, i) >= 2 && EpochOf(c, i) - 2 < Epochs(c) && st.collected[EpochOf(c, i) - 2] == EVICTED
  }

  /** Some routine still needs what has been evicted. */
  ghost predicate Lost(c: Config, st: State)
    requires ValidConfig(c) && Shaped(c, st)
  {
    || (exists i: nat :: i < Slots(c) && (ProcessorLost(c, st, i) || DownloadLost(c, st, i)))
    || (exists j: nat :: j < Epochs(c) && MetricsLost(c, st, j))
  }

  lemma ProcessorStaysLost(c: Config, st: State, step: Step, i: nat)
    requires ValidConfig(c) && Shaped(c, st) && Enabled(c, st, step) && i < Slots(c) && ProcessorLost(c, st, i)
    ensures Shaped(c, Next(c, st, step)) && ProcessorLost(c, Next(c, st, step), i)
  {
    NextShaped(c, st, step);
  }

  lemma DownloadStaysLost(c: Config, st: State, step: Step, i: nat)
    requires ValidConfig(c) && Shaped(c, st) && Enabled(c, st, step) && i < Slots(c) && DownloadLost(c, st, i)
    ensures Shaped(c, Next(c, st, step)) && DownloadLost(c, Next(c, st, step), i)
  {
    NextShaped(c, st, step);
    if step == Download(i) { WaitInEpochs(c, st, i); }
  }

  lemma MetricsStayLost(c: Config, st: State, step: Step, j: nat)
    requires ValidConfig(c) && Shaped(c, st) && Enabled(c, st, step) && j < Epochs(c) && MetricsLost(c, st, j)
    ensures Shaped(c, Next(c, st, step)) && MetricsLost(c, Next(c, st, step), j)
  {
    NextShaped(c, st, step);
  }

  /** It never gets it. */
  lemma LostForEver(c: Config, st: State, step: Step)
    requires ValidConfig(c) && Shaped(c, st) && Lost(c, st) && Enabled(c, st, step)
    ensures Shaped(c, Next(c, st, step)) && Lost(c, Next(c, st, step))
  {
    if i: nat :| i < Slots(c) && ProcessorLost(c, st, i) {
      ProcessorStaysLost(c, st, step, i);
    } else if i: nat :| i < Slots(c) && DownloadLost(c, st, i) {
      DownloadStaysLost(c, st, step, i);
    } else {
      var j: nat :| j < Epochs(c) && MetricsLost(c, st, j);
      MetricsStayLost(c, st, step, j);
    }
  }

  /** Only routines at least four epochs behind the producer can lose something. */
  lemma LostIsFarBehind(c: Config, st: State)
    requires ValidConfig(c) && Inv(c, st) && Lost(c, st)
    ensures
      || (exists i: nat :: i < Slots(c) && EpochOf(c, i) + 4 <= EpochOf(c, Reached(c, st)) && !(st.downloaded[i] && st.blocks[i].Finished?))
      || (exists j: nat :: j < Epochs(c) && j + 4 <= EpochOf(c, Reached(c, st)) && !st.metrics[j].EpochFinished?)
  {
    if i: nat :| i < Slots(c) && (ProcessorLost(c, st, i) || DownloadLost(c, st, i)) {
      assert EpochOf(c, i) + 4 <= EpochOf(c, Reached(c, st));
    }
  }

  // ------------------------------------------------------------ who waits for whom

  /** The producer with the consumer that takes its slots, and the four kinds of routines. */
  datatype Routine = Feeder | Downloader(i: nat) | Processor(i: nat) | Collector(j: nat) | Metrics(j: nat)

  /** Started and not yet ended. */
  predicate Active(c: Config, st: State, r: Routine)
    requires ValidConfig(c) && Shaped(c, st)
  {
    match r {
      case Feeder => st.started < Slots(c)
      case Downloader(i) => i < st.started && !st.downloaded[i]
      case Processor(i) => i < st.started && !st.blocks[i].Finished?
      case Collector(j) => j < st.epochs && st.collected[j] < STORED
      case Metrics(j) => j < st.epochs && !st.metrics[j].EpochFinished?
    }
  }

  /** The step is one of the routine's. */
  predicate StepOf(r: Routine, step: Step) {
    match r {
      case Feeder => step.Check? || step.Evict? || step.Send? || step.Start?
      case Downloader(i) => step == Download(i)
      case Processor(i) => step == TakeToken(i) || step == OpenPage(i) || step == AskBlock(i) || step == FinishBlock(i)
      case Collector(j) => step == Collect(j) || step == Store(j)
      case Metrics(j) => step == TakeEpochToken(j) || step == OpenEpochPage(j) || step == Advance(j) || step == FinishEpoch(j)
    }
  }

  predicate WantsToken(c: Config, st: State, r: Routine)
    requires ValidConfig(c) && Shaped(c, st) && Active(c, st, r)
  {
    match r {
      case Processor(i) => st.blocks[i].Queued?
      case Metrics(j) => st.metrics[j].EpochQueued?
      case _ => false
    }
  }

  predicate HoldsToken(c: Config, st: State, r: Routine)
    requires ValidConfig(c) && Shaped(c, st) && Active(c, st, r)
  {
    (r.Processor? || r.Metrics?) && !WantsToken(c, st, r)
  }

  /** The routine waits for something that the other one has or will do. */
  predicate WaitsFor(c: Config, st: State, r: Routine, q: Routine)
    requires ValidConfig(c) && Shaped(c, st) && Active(c, st, r) && Active(c, st, q)
  {
    match r {
      case Feeder =>      // a page
        st.started == st.sent && !st.cleared && PagesInUse(st) >= c.pages && HoldsToken(c, st, q)
      case Downloader(i) =>      // the state two epochs back, or its page
        var e := EpochOf(c, i);
        e >= 2 && (q == Collector(e - 2) || (q == Metrics(e - 2) && st.metrics[e - 2].EpochWorking?))
      case Processor(i) =>      // a token, or its block
        if st.blocks[i].Queued? then st.tokens == 0 && HoldsToken(c, st, q)
        else st.blocks[i].Asked? && q == Downloader(i)
      case Collector(j) =>      // the next block of its epoch
        st.collected[j] < SLOTS_PER_EPOCH && q.Downloader? && q.i == SlotOf(c, j, st.collected[j])
      case Metrics(j) =>
        match st.metrics[j] {
          case EpochQueued => st.tokens == 0 && HoldsToken(c, st, q)
          case EpochWorking(stage) => WaitsInStage(c, st, j, stage, q)
          case _ => false
        }
    }
  }

  /** The page of the epoch before, one of three states, or the page of a block of the epoch before. */
  predicate WaitsInStage(c: Config, st: State, j: nat, stage: nat, q: Routine)
    requires ValidConfig(c) && Shaped(c, st) && Active(c, st, q)
  {
    if stage == 0 then q.Metrics? && q.j + 1 == j && st.metrics[q.j].EpochWorking?
    else if stage == 2 then q.Collector? && q.j + 2 == j
    else if stage == 4 then q.Collector? && q.j + 1 == j
    else if stage == 6 then q == Collector(j)
    else
      && FIRST_WATCH <= stage < RELEASE && j >= 2
      && q.Processor? && q.i == SlotOf(c, j - 1, stage - FIRST_WATCH) && HasPage(st.blocks[q.i])
  }

  lemma WaitingMetricsBlocked(c: Config, st: State, j: nat, q: Routine, step: Step)
    requires ValidConfig(c) && Inv(c, st) && Active(c, st, Metrics(j)) && Active(c, st, q) && WaitsFor(c, st, Metrics(j), q)
    requires StepOf(Metrics(j), step)
    ensures !Enabled(c, st, step)
  {
    if st.metrics[j].EpochWorking? { assert !StageOpen(c, st, j, st.metrics[j].stage); }
  }

  /** A routine that waits for an active one has no step. */
  lemma WaitersAreBlocked(c: Config, st: State, r: Routine, q: Routine, step: Step)
    requires ValidConfig(c) && Inv(c, st) && Active(c, st, r) && Active(c, st, q) && WaitsFor(c, st, r, q)
    requires StepOf(r, step)
    ensures !Enabled(c, st, step)
  {
    match r {
      case Downloader(i) => WaitInEpochs(c, st, i);
      case Metrics(j) => WaitingMetricsBlocked(c, st, j, q, step);
      case _ =>
    }
  }

  /** The feeder comes after those that want a token, and these after all others. */
  function Phase(c: Config, st: State, r: Routine): nat
    requires ValidConfig(c) && Shaped(c, st) && Active(c, st, r)
  {
    if r.Feeder? then 2 else if WantsToken(c, st, r) then 1 else 0
  }

  function EpochOfRoutine(c: Config, r: Routine): nat {
    match r {
      case Feeder => 0
      case Downloader(i) => EpochOf(c, i)
      case Processor(i) => EpochOf(c, i)
      case Collector(j) => j
      case Metrics(j) => j
    }
  }

  function Kind(r: Routine): nat { if r.Metrics? then 2 else if r.Downloader? then 0 else 1 }

  /** Whatever waits comes after what it waits for: there is no cycle. */
  lemma WaitingHasOrder(c: Config, st: State, r: Routine, q: Routine)
    requires ValidConfig(c) && Shaped(c, st) && Active(c, st, r) && Active(c, st, q) && WaitsFor(c, st, r, q)
    ensures Phase(c, st, q) < Phase(c, st, r)
            || (Phase(c, st, q) == Phase(c, st, r)
                && (EpochOfRoutine(c, q) < EpochOfRoutine(c, r)
                    || (EpochOfRoutine(c, q) == EpochOfRoutine(c, r) && Kind(q) < Kind(r))))
  {
  }

  /** The routine can take a step, or waits for one that is active. */
  ghost predicate MovesOrWaits(c: Config, st: State, r: Routine)
    requires ValidConfig(c) && Shaped(c, st) && Active(c, st, r)
  {
    || (exists step :: StepOf(r, step) && Enabled(c, st, step))
    || (exists q :: Active(c, st, q) && WaitsFor(c, st, r, q))
  }

  lemma DownloaderMovesOrWaits(c: Config, st: State, i: nat)
    requires ValidConfig(c) && Inv(c, st) && WholeEpochs(c) && !Lost(c, st) && Active(c, st, Downloader(i))
    ensures MovesOrWaits(c, st, Downloader(i))
  {
    var r := Downloader(i);
    if MayDownload(c, st, i) {
      assert StepOf(r, Download(i)) && Enabled(c, st, Download(i));
    } else {
      WaitInEpochs(c, st, i);
      var j := EpochOf(c, i) - 2;
      assert !DownloadLost(c, st, i);
      assert j < st.epochs;
      var q := if st.collected[j] < STORED then Collector(j) else Metrics(j);
      assert Active(c, st, q) && WaitsFor(c, st, r, q);
    }
  }

  lemma CollectorMovesOrWaits(c: Config, st: State, j: nat)
    requires ValidConfig(c) && Inv(c, st) && WholeEpochs(c) && Active(c, st, Collector(j))
    ensures MovesOrWaits(c, st, Collector(j))
  {
    var r := Collector(j);
    if st.collected[j] == SLOTS_PER_EPOCH {
      assert StepOf(r, Store(j)) && Enabled(c, st, Store(j));
    } else {
      var i := SlotOf(c, j, st.collected[j]);
      assert 0 <= i < st.started && EpochOf(c, i) == j;
      if st.downloaded[i] {
        assert StepOf(r, Collect(j)) && Enabled(c, st, Collect(j));
      } else {
        assert Active(c, st, Downloader(i)) && WaitsFor(c, st, r, Downloader(i));
      }
    }
  }

  lemma ProcessorMovesOrWaits(c: Config, st: State, i: nat)
    requires ValidConfig(c) && Inv(c, st) && !Lost(c, st) && Active(c, st, Processor(i))
    ensures MovesOrWaits(c, st, Processor(i))
  {
    var r := Processor(i);
    match st.blocks[i] {
      case Queued =>
        if st.tokens > 0 {
          assert StepOf(r, TakeToken(i)) && Enabled(c, st, TakeToken(i));
        } else {
          var q := Holder(c, st);
          assert WaitsFor(c, st, r, q);
        }
      case HasToken => assert StepOf(r, OpenPage(i)) && Enabled(c, st, OpenPage(i));
      case Working =>
        assert !ProcessorLost(c, st, i);
        assert StepOf(r, AskBlock(i)) && Enabled(c, st, AskBlock(i));
      case Asked =>
        if st.downloaded[i] {
          assert StepOf(r, FinishBlock(i)) && Enabled(c, st, FinishBlock(i));
        } else {
          assert Active(c, st, Downloader(i)) && WaitsFor(c, st, r, Downloader(i));
        }
    }
  }

  lemma MetricsMoveOrWait(c: Config, st: State, j: nat)
    requires ValidConfig(c) && Inv(c, st) && WholeEpochs(c) && !Lost(c, st) && Active(c, st, Metrics(j))
    ensures MovesOrWaits(c, st, Metrics(j))
  {
    var r := Metrics(j);
    match st.metrics[j] {
      case EpochQueued =>
        if st.tokens > 0 {
          assert StepOf(r, TakeEpochToken(j)) && Enabled(c, st, TakeEpochToken(j));
        } else {
          var q := Holder(c, st);
          assert WaitsFor(c, st, r, q);
        }
      case EpochHasToken => assert StepOf(r, OpenEpochPage(j)) && Enabled(c, st, OpenEpochPage(j));
      case EpochWorking(stage) =>
        if stage == RELEASE {
          assert StepOf(r, FinishEpoch(j)) && Enabled(c, st, FinishEpoch(j));
        } else if StageOpen(c, st, j, stage) {
          assert StepOf(r, Advance(j)) && Enabled(c, st, Advance(j));
        } else {
          var q := ClosedStage(c, st, j);
          assert WaitsFor(c, st, r, q);
        }
    }
  }

  /** What a closed stage of the metrics waits for. */
  lemma ClosedStage(c: Config, st: State, j: nat) returns (q: Routine)
    requires ValidConfig(c) && Inv(c, st) && WholeEpochs(c) && !Lost(c, st) && j < st.epochs
    requires st.metrics[j].EpochWorking? && st.metrics[j].stage < RELEASE && !StageOpen(c, st, j, st.metrics[j].stage)
    ensures Active(c, st, q) && WaitsFor(c, st, Metrics(j), q)
  {
    var stage := st.metrics[j].stage;
    assert !MetricsLost(c, st, j);
    if stage == 0 {
      q := Metrics(j - 1);
    } else if stage < FIRST_WATCH {
      q := Collector(if stage == 2 then j - 2 else if stage == 4 then j - 1 else j);
    } else {
      var i := SlotOf(c, j - 1, stage - FIRST_WATCH);
      assert EpochOf(c, i) == j - 1;
      q := Processor(i);
    }
  }

  /** With no token free, some active routine holds one. */
  lemma Holder(c: Config, st: State) returns (q: Routine)
    requires ValidConfig(c) && Inv(c, st) && st.tokens == 0
    ensures Active(c, st, q) && HoldsToken(c, st, q)
  {
    if Total(st.blocks, BlockTokens) > 0 {
      var i := SomeContributes(st.blocks, BlockTokens);
      q := Processor(i);
    } else {
      var j := SomeContributes(st.metrics, EpochTokens);
      q := Metrics(j);
    }
  }

  lemma {:induction false} PagesAreTokens<T>(s: seq<T>, pages: T -> nat, tokens: T -> nat)
    requires forall x :: x in s ==> pages(x) <= tokens(x)
    ensures Total(s, pages) <= Total(s, tokens)
  {
    if s != [] {
      assert forall x :: x in s[1..] ==> x in s;
      PagesAreTokens(s[1..], pages, tokens);
    }
  }

  lemma FeederMovesOrWaits(c: Config, st: State)
    requires ValidConfig(c) && Inv(c, st) && Active(c, st, Feeder)
    ensures MovesOrWaits(c, st, Feeder)
  {
    if st.started < st.sent {
      assert StepOf(Feeder, Start) && Enabled(c, st, Start);
    } else if st.outdated != {} {
      var j :| j in st.outdated;
      assert StepOf(Feeder, Evict(j)) && Enabled(c, st, Evict(j));
    } else if st.cleared {
      assert StepOf(Feeder, Send) && Enabled(c, st, Send);
    } else if PagesInUse(st) < c.pages {
      assert StepOf(Feeder, Check) && Enabled(c, st, Check);
    } else {
      PagesAreTokens(st.blocks, BlockPages, BlockTokens);
      PagesAreTokens(st.metrics, EpochPages, EpochTokens);
      var q := Holder(c, st);
      assert WaitsFor(c, st, Feeder, q);
    }
  }

  /** As long as nothing is lost, every active routine can take a step or waits for an active one. */
  lemma EveryoneMovesOrWaits(c: Config, st: State, r: Routine)
    requires ValidConfig(c) && Inv(c, st) && WholeEpochs(c) && !Lost(c, st) && Active(c, st, r)
    ensures MovesOrWaits(c, st, r)
  {
    match r {
      case Feeder => FeederMovesOrWaits(c, st);
      case Downloader(i) => DownloaderMovesOrWaits(c, st, i);
      case Processor(i) => ProcessorMovesOrWaits(c, st, i);
      case Collector(j) => CollectorMovesOrWaits(c, st, j);
      case Metrics(j) => MetricsMoveOrWait(c, st, j);
    }
  }

  /** Hence, following the waits, one comes to a routine that can take a step. */
  lemma {:induction false} SomeoneMoves(c: Config, st: State, r: Routine)
    requires ValidConfig(c) && Inv(c, st) && WholeEpochs(c) && !Lost(c, st) && Active(c, st, r)
    ensures CanMove(c, st)
    decreases Phase(c, st, r), EpochOfRoutine(c, r), Kind(r)
  {
    EveryoneMovesOrWaits(c, st, r);
    if !exists step :: StepOf(r, step) && Enabled(c, st, step) {
      var q :| Active(c, st, q) && WaitsFor(c, st, r, q);
      WaitingHasOrder(c, st, r, q);
      SomeoneMoves(c, st, q);
    }
  }

  /** No reachable state that has lost nothing is stuck before every routine has ended. */
  lemma Progress(c: Config, st: State)
    requires ValidConfig(c) && Inv(c, st) && WholeEpochs(c) && !Lost(c, st) && !AllDone(c, st)
    ensures CanMove(c, st)
  {
    var r: Routine;
    if st.started < Slots(c) {
      r := Feeder;
    } else if i :| 0 <= i < Slots(c) && !st.downloaded[i] {
      r := Downloader(i);
    } else if i :| 0 <= i < Slots(c) && !st.blocks[i].Finished? {
      r := Processor(i);
    } else if j :| 0 <= j < Epochs(c) && st.collected[j] < STORED {
      r := Collector(j);
    } else {
      var j :| 0 <= j < Epochs(c) && !st.metrics[j].EpochFinished?;
      r := Metrics(j);
    }
    SomeoneMoves(c, st, r);
  }

  // ------------------------------------------------------------ every run ends

  function DownloadWork(done: bool): nat { if done then 1 else 0 }
  function BlockWork(t: BlockTask): nat { match t { case Queued => 0 case HasToken => 1 case Working => 2 case Asked => 3 case Finished => 4 } }
  function CollectWork(n: nat): nat { n }
  function EpochWork(t: EpochTask): nat {
    match t { case EpochQueued => 0 case EpochHasToken => 1 case EpochWorking(stage) => 2 + stage case EpochFinished => RELEASE + 3 }
  }

  function SlotWork(st: State): nat {
    2 * st.sent + (if st.cleared then 1 else 0) + st.started
    + Total(st.downloaded, DownloadWork) + Total(st.blocks, BlockWork)
  }

  function StateWork(st: State): nat { Total(st.collected, CollectWork) + Total(st.metrics, EpochWork) }

  /** The work done so far; each step does one unit. */
  function Work(st: State): nat { SlotWork(st) + StateWork(st) }

  /** The work of a whole run. */
  function WholeWork(c: Config): nat
    requires ValidConfig(c)
  {
    Slots(c) * 8 + Epochs(c) * (EVICTED + RELEASE + 3)
  }

  lemma NextSlotWork(c: Config, st: State, step: Step)
    requires ValidConfig(c) && Shaped(c, st) && Enabled(c, st, step)
    requires !EpochStep(step)
    ensures SlotWork(Next(c, st, step)) == SlotWork(st) + 1
  {
    NextShaped(c, st, step);
    match step {
      case Download(i) => TotalUpdate(st.downloaded, DownloadWork, i, true);
      case TakeToken(i) => TotalUpdate(st.blocks, BlockWork, i, HasToken);
      case OpenPage(i) => TotalUpdate(st.blocks, BlockWork, i, Working);
      case AskBlock(i) => TotalUpdate(st.blocks, BlockWork, i, Asked);
      case FinishBlock(i) => TotalUpdate(st.blocks, BlockWork, i, Finished);
      case _ =>
    }
  }

  lemma NextStateWork(c: Config, st: State, step: Step)
    requires ValidConfig(c) && Shaped(c, st) && Enabled(c, st, step)
    requires EpochStep(step)
    ensures StateWork(Next(c, st, step)) == StateWork(st) + 1
  {
    NextShaped(c, st, step);
    match step {
      case Collect(j) => TotalUpdate(st.collected, CollectWork, j, st.collected[j] + 1);
      case Store(j) => TotalUpdate(st.collected, CollectWork, j, STORED);
      case Evict(j) => TotalUpdate(st.collected, CollectWork, j, EVICTED);
      case TakeEpochToken(j) => TotalUpdate(st.metrics, EpochWork, j, EpochHasToken);
      case OpenEpochPage(j) => TotalUpdate(st.metrics, EpochWork, j, EpochWorking(0));
      case Advance(j) => TotalUpdate(st.metrics, EpochWork, j, EpochWorking(st.metrics[j].stage + 1));
      case FinishEpoch(j) => TotalUpdate(st.metrics, EpochWork, j, EpochFinished);
    }
  }

  lemma NextWorks(c: Config, st: State, step: Step)
    requires ValidConfig(c) && Shaped(c, st) && Enabled(c, st, step)
    ensures Work(Next(c, st, step)) == Work(st) + 1
  {
    if EpochStep(step) {
      NextStateWork(c, st, step);
    } else {
      NextSlotWork(c, st, step);
    }
  }

  lemma WorkBounded(c: Config, st: State)
    requires ValidConfig(c) && Inv(c, st)
    ensures Work(st) <= WholeWork(c)
  {
    TotalBounded(st.downloaded, DownloadWork, 1);
    TotalBounded(st.blocks, BlockWork, 4);
    TotalBounded(st.collected, CollectWork, EVICTED);
    TotalBounded(st.metrics, EpochWork, RELEASE + 3);
  }

  /** The steps lead from one state to another, each enabled when it is taken. */
  ghost predicate Leads(c: Config, st: State, steps: seq<Step>, last: State)
    requires ValidConfig(c) && Shaped(c, st)
    decreases |steps|
  {
    if steps == [] then last == st
    else
      Enabled(c, st, steps[0])
      && (NextShaped(c, st, steps[0]);
          Leads(c, Next(c, st, steps[0]), steps[1..], last))
  }

  /** A run: any interleaving of enabled steps from the initial state. */
  ghost predicate Run(c: Config, steps: seq<Step>, last: State)
    requires ValidConfig(c)
  {
    Leads(c, Initial(c), steps, last)
  }

  lemma {:induction false} LeadsKeepsInv(c: Config, st: State, steps: seq<Step>, last: State)
    requires ValidConfig(c) && Inv(c, st) && Leads(c, st, steps, last)
    ensures Inv(c, last) && Work(last) == Work(st) + |steps|
    decreases |steps|
  {
    if steps != [] {
      NextInv(c, st, steps[0]);
      NextWorks(c, st, steps[0]);
      LeadsKeepsInv(c, Next(c, st, steps[0]), steps[1..], last);
    }
  }

  lemma NoWorkYet(c: Config)
    requires ValidConfig(c)
    ensures Work(Initial(c)) == 0
  {
    var st := Initial(c);
    NoneContributes(st.downloaded, DownloadWork);
    NoneContributes(st.blocks, BlockWork);
    NoneContributes(st.collected, CollectWork);
    NoneContributes(st.metrics, EpochWork);
  }

  lemma RunFacts(c: Config, steps: seq<Step>, last: State)
    requires ValidConfig(c) && Run(c, steps, last)
    ensures Inv(c, last) && Work(last) == |steps|
  {
    InitialInv(c);
    NoWorkYet(c);
    LeadsKeepsInv(c, Initial(c), steps, last);
  }

  /** What a run that has ended every routine has done: all slots from the first to the last are downloaded and
      processed, and all epochs that end among them have their state and their metrics. */
  lemma DonePlainly(c: Config, st: State, slot: nat)
    requires ValidConfig(c) && Inv(c, st) && AllDone(c, st)
    ensures c.init <= slot <= c.end ==>
              && slot - c.init < |st.blocks| == |st.downloaded| && st.downloaded[slot - c.init] && st.blocks[slot - c.init].Finished?
    ensures Aligned(c) && c.init <= slot <= c.end && slot % 32 == 31 ==>
              var j := slot / 32 - c.init / 32;
              j < |st.metrics| == |st.collected| && st.collected[j] >= STORED && st.metrics[j].EpochFinished?
  {
  }

  /** Metrics go past the barrier only while the page of the epoch before is not open, and past the b-th block of
      that epoch only while that block's page is not. */
  lemma WaitsForPages(c: Config, st: State, j: nat, b: nat)
    requires ValidConfig(c) && Inv(c, st) && Aligned(c) && Enabled(c, st, Advance(j)) && b < 32
    ensures st.metrics[j] == EpochWorking(0) && j >= 1 ==> !st.metrics[j - 1].EpochWorking?
    ensures st.metrics[j] == EpochWorking(FIRST_WATCH + b) && j >= 2 ==>
              && 32 * (j - 1) + b < |st.blocks|
              && !st.blocks[32 * (j - 1) + b].Working? && !st.blocks[32 * (j - 1) + b].Asked?
  {
  }

  /** From an unaligned start the first state waits for ever for a block before the start. */
  lemma UnalignedNeverDone(c: Config, st: State)
    requires ValidConfig(c) && Inv(c, st) && !WholeEpochs(c)
    ensures !AllDone(c, st)
  {
    assert SlotOf(c, 0, 0) < 0;
    assert !WasDownloaded(c, st, SlotOf(c, 0, 0));
  }

  /** When everything has ended, all tokens are back. */
  lemma DoneFreesTokens(c: Config, st: State)
    requires ValidConfig(c) && Inv(c, st) && AllDone(c, st)
    ensures st.tokens == c.pages
  {
    NoneContributes(st.blocks, BlockTokens);
    NoneContributes(st.metrics, EpochTokens);
  }

  lemma LostIsNeverDone(c: Config, st: State)
    requires ValidConfig(c) && Inv(c, st) && Lost(c, st)
    ensures !AllDone(c, st)
  {
  }

  lemma StuckExactly(c: Config, st: State)
    requires ValidConfig(c) && Inv(c, st) && !CanMove(c, st)
    ensures AllDone(c, st) <==> WholeEpochs(c) && !Lost(c, st)
  {
    if !WholeEpochs(c) {
      UnalignedNeverDone(c, st);
    } else if Lost(c, st) {
      LostIsNeverDone(c, st);
    } else if !AllDone(c, st) {
      Progress(c, st);
    }
  }

  /** Main result, for every interleaving: no run is longer than the whole work; a run that cannot be
      continued has ended every routine, with all tokens back, if and only if it was given whole epochs and
      no routine still needs what has been evicted. */
  lemma EveryRunEnds(c: Config, steps: seq<Step>, last: State)
    requires ValidConfig(c) && Run(c, steps, last)
    ensures |steps| <= WholeWork(c)
    ensures Shaped(c, last) && (!CanMove(c, last) ==> (AllDone(c, last) <==> WholeEpochs(c) && !Lost(c, last)))
    ensures AllDone(c, last) ==> last.tokens == c.pages
  {
    RunFacts(c, steps, last);
    WorkBounded(c, last);
    if !CanMove(c, last) { StuckExactly(c, last); }
    if AllDone(c, last) { DoneFreesTokens(c, last); }
  }

  // ------------------------------------------------------------ when eviction strands a routine

  lemma {:induction false} LeadsAppend(c: Config, a: State, first: seq<Step>, b: State, second: seq<Step>, d: State)
    requires ValidConfig(c) && Shaped(c, a) && Shaped(c, b) && Leads(c, a, first, b) && Leads(c, b, second, d)
    ensures Leads(c, a, first + second, d)
    decreases |first|
  {
    if first == [] {
      assert first + second == second;
    } else {
      assert (first + second)[1..] == first[1..] + second;
      NextShaped(c, a, first[0]);
      LeadsAppend(c, Next(c, a, first[0]), first[1..], b, second, d);
    }
  }

  lemma LeadsOne(c: Config, st: State, step: Step)
    requires ValidConfig(c) && Shaped(c, st) && Enabled(c, st, step)
    ensures Leads(c, st, [step], Next(c, st, step))
  {
    assert [step][1..] == [];
    NextShaped(c, st, step);
  }

  predicate Aligned(c: Config)
    requires ValidConfig(c)
  {
    c.init % SLOTS_PER_EPOCH == 0
  }

  lemma AlignedEpochs(c: Config, k: nat)
    requires ValidConfig(c) && Aligned(c)
    ensures EpochOf(c, k) == EpochsAmong(c, k) == k / SLOTS_PER_EPOCH
    ensures Epochs(c) == Slots(c) / SLOTS_PER_EPOCH
  {
  }

  /** Slots below `down` are downloaded and the states of the first e epochs stored, b blocks collected for the
      next; no block is processed and no metrics are computed yet. */
  function Quiet(c: Config, cleared: bool, sent: nat, started: nat, down: nat, e: nat, b: nat): State
    requires ValidConfig(c)
  {
    State(cleared, {}, sent, started, EpochsAmong(c, started), c.pages, seq(Slots(c), i => i < down),
          seq(Slots(c), _ => Queued), seq(Epochs(c), j => if j < e then STORED else if j == e then b else 0),
          seq(Epochs(c), _ => EpochQueued))
  }

  lemma QuietPages(c: Config, cleared: bool, sent: nat, started: nat, down: nat, e: nat, b: nat)
    requires ValidConfig(c)
    ensures PagesInUse(Quiet(c, cleared, sent, started, down, e, b)) == 0
  {
    var st := Quiet(c, cleared, sent, started, down, e, b);
    NoneContributes(st.blocks, BlockPages);
    NoneContributes(st.metrics, EpochPages);
  }

  /** One more slot goes through the channel. */
  lemma QuietSlot(c: Config, k: nat) returns (steps: seq<Step>)
    requires ValidConfig(c) && Aligned(c) && k < Slots(c) && k < 6 * SLOTS_PER_EPOCH
    ensures var e := k / SLOTS_PER_EPOCH;
            && Shaped(c, Quiet(c, false, k, k, k, e, 0))
            && Leads(c, Quiet(c, false, k, k, k, e, 0), steps, Quiet(c, false, k + 1, k + 1, k, e, 0))
  {
    var e := k / SLOTS_PER_EPOCH;
    var s0, s1 := Quiet(c, false, k, k, k, e, 0), Quiet(c, true, k, k, k, e, 0);
    var s2, s3 := Quiet(c, false, k + 1, k, k, e, 0), Quiet(c, false, k + 1, k + 1, k, e, 0);
    AlignedEpochs(c, k);
    AlignedEpochs(c, k + 1);
    QuietPages(c, false, k, k, k, e, 0);
    assert OutdatedAt(c, s0, k) == {};
    assert Next(c, s0, Check) == s1 && Next(c, s1, Send) == s2 && Next(c, s2, Start) == s3;
    LeadsOne(c, s0, Check);
    LeadsOne(c, s1, Send);
    LeadsOne(c, s2, Start);
    LeadsAppend(c, s1, [Send], s2, [Start], s3);
    LeadsAppend(c, s0, [Check], s1, [Send] + [Start], s3);
    steps := [Check] + ([Send] + [Start]);
  }

  /** Its block is downloaded. */
  lemma QuietDownload(c: Config, k: nat)
    requires ValidConfig(c) && Aligned(c) && k < Slots(c)
    ensures var e := k / SLOTS_PER_EPOCH;
            && Shaped(c, Quiet(c, false, k + 1, k + 1, k, e, 0)) && Shaped(c, Quiet(c, false, k + 1, k + 1, k + 1, e, 0))
            && Leads(c, Quiet(c, false, k + 1, k + 1, k, e, 0), [Download(k)], Quiet(c, false, k + 1, k + 1, k + 1, e, 0))
  {
    var e := k / SLOTS_PER_EPOCH;
    var s0, s1 := Quiet(c, false, k + 1, k + 1, k, e, 0), Quiet(c, false, k + 1, k + 1, k + 1, e, 0);
    AlignedEpochs(c, k);
    AlignedEpochs(c, k + 1);
    WaitInEpochs(c, s0, k);
    assert s0.downloaded[k := true] == s1.downloaded;
    assert Next(c, s0, Download(k)) == s1;
    LeadsOne(c, s0, Download(k));
  }

  /** All of the first k slots are downloaded, and the states of their epochs stored. */
  function Resting(c: Config, k: nat): State
    requires ValidConfig(c)
  {
    Quiet(c, false, k, k, k, k / SLOTS_PER_EPOCH, 0)
  }

  lemma QuietCollectOne(c: Config, k: nat, b: nat)
    requires ValidConfig(c) && Aligned(c) && 0 < k <= Slots(c) && k % SLOTS_PER_EPOCH == 0 && b < SLOTS_PER_EPOCH
    ensures var e := k / SLOTS_PER_EPOCH - 1;
            && Shaped(c, Quiet(c, false, k, k, k, e, b)) && Shaped(c, Quiet(c, false, k, k, k, e, b + 1))
            && Leads(c, Quiet(c, false, k, k, k, e, b), [Collect(e)], Quiet(c, false, k, k, k, e, b + 1))
  {
    var e := k / SLOTS_PER_EPOCH - 1;
    var s0, s1 := Quiet(c, false, k, k, k, e, b), Quiet(c, false, k, k, k, e, b + 1);
    AlignedEpochs(c, k);
    assert e < Epochs(c) && SlotOf(c, e, b) == SLOTS_PER_EPOCH * e + b < k;
    assert s0.collected[e := b + 1] == s1.collected;
    assert Next(c, s0, Collect(e)) == s1;
    LeadsOne(c, s0, Collect(e));
  }

  lemma QuietStore(c: Config, k: nat)
    requires ValidConfig(c) && Aligned(c) && 0 < k <= Slots(c) && k % SLOTS_PER_EPOCH == 0
    ensures var e := k / SLOTS_PER_EPOCH - 1;
            && Shaped(c, Quiet(c, false, k, k, k, e, SLOTS_PER_EPOCH)) && Shaped(c, Resting(c, k))
            && Leads(c, Quiet(c, false, k, k, k, e, SLOTS_PER_EPOCH), [Store(e)], Resting(c, k))
  {
    var e := k / SLOTS_PER_EPOCH - 1;
    var s0 := Quiet(c, false, k, k, k, e, SLOTS_PER_EPOCH);
    AlignedEpochs(c, k);
    assert e < Epochs(c) && s0.collected[e := STORED] == Resting(c, k).collected;
    assert Next(c, s0, Store(e)) == Resting(c, k);
    LeadsOne(c, s0, Store(e));
  }

  /** At the end of an epoch its state is collected. */
  lemma {:induction false} QuietCollect(c: Config, k: nat, b: nat) returns (steps: seq<Step>)
    requires ValidConfig(c) && Aligned(c) && 0 < k <= Slots(c) && k % SLOTS_PER_EPOCH == 0 && b <= SLOTS_PER_EPOCH
    ensures var s0 := Quiet(c, false, k, k, k, k / SLOTS_PER_EPOCH - 1, b);
            Shaped(c, s0) && Leads(c, s0, steps, Resting(c, k))
    decreases SLOTS_PER_EPOCH - b
  {
    var e := k / SLOTS_PER_EPOCH - 1;
    if b == SLOTS_PER_EPOCH {
      QuietStore(c, k);
      steps := [Store(e)];
    } else {
      QuietCollectOne(c, k, b);
      QuietStore(c, k);
      var rest := QuietCollect(c, k, b + 1);
      LeadsAppend(c, Quiet(c, false, k, k, k, e, b), [Collect(e)], Quiet(c, false, k, k, k, e, b + 1), rest, Resting(c, k));
      steps := [Collect(e)] + rest;
    }
  }

  lemma QuietSlotAndBlock(c: Config, k: nat) returns (steps: seq<Step>)
    requires ValidConfig(c) && Aligned(c) && k < Slots(c) && k < 6 * SLOTS_PER_EPOCH
    ensures var s2 := Quiet(c, false, k + 1, k + 1, k + 1, k / SLOTS_PER_EPOCH, 0);
            Shaped(c, Resting(c, k)) && Shaped(c, s2) && Leads(c, Resting(c, k), steps, s2)
  {
    var e := k / SLOTS_PER_EPOCH;
    var s1, s2 := Quiet(c, false, k + 1, k + 1, k, e, 0), Quiet(c, false, k + 1, k + 1, k + 1, e, 0);
    var slot := QuietSlot(c, k);
    QuietDownload(c, k);
    LeadsAppend(c, Resting(c, k), slot, s1, [Download(k)], s2);
    steps := slot + [Download(k)];
  }

  lemma QuietEpochEnd(c: Config, k: nat) returns (steps: seq<Step>)
    requires ValidConfig(c) && Aligned(c) && k < Slots(c) && (k + 1) % SLOTS_PER_EPOCH == 0
    ensures var s2 := Quiet(c, false, k + 1, k + 1, k + 1, k / SLOTS_PER_EPOCH, 0);
            Shaped(c, s2) && Shaped(c, Resting(c, k + 1)) && Leads(c, s2, steps, Resting(c, k + 1))
  {
    assert k / SLOTS_PER_EPOCH == (k + 1) / SLOTS_PER_EPOCH - 1;
    steps := QuietCollect(c, k + 1, 0);
    QuietStore(c, k + 1);
  }

  /** One more slot, and the state if it ends an epoch. */
  lemma QuietTurn(c: Config, k: nat) returns (steps: seq<Step>)
    requires ValidConfig(c) && Aligned(c) && k < Slots(c) && k < 6 * SLOTS_PER_EPOCH
    ensures Shaped(c, Resting(c, k)) && Shaped(c, Resting(c, k + 1)) && Leads(c, Resting(c, k), steps, Resting(c, k + 1))
  {
    var slot := QuietSlotAndBlock(c, k);
    if (k + 1) % SLOTS_PER_EPOCH == 0 {
      var s2 := Quiet(c, false, k + 1, k + 1, k + 1, k / SLOTS_PER_EPOCH, 0);
      var collect := QuietEpochEnd(c, k);
      LeadsAppend(c, Resting(c, k), slot, s2, collect, Resting(c, k + 1));
      steps := slot + collect;
    } else {
      assert (k + 1) / SLOTS_PER_EPOCH == k / SLOTS_PER_EPOCH;
      steps := slot;
    }
  }

  /** The first six epochs can be sent, downloaded and stored while every processing is still to start. */
  lemma {:induction false} QuietRun(c: Config, k: nat) returns (steps: seq<Step>)
    requires ValidConfig(c) && Aligned(c) && k <= Slots(c) && k <= 6 * SLOTS_PER_EPOCH
    ensures Shaped(c, Resting(c, 0)) && Shaped(c, Resting(c, k)) && Leads(c, Resting(c, 0), steps, Resting(c, k))
  {
    RestsInitially(c);
    steps := [];
    if k > 0 {
      var before := QuietRun(c, k - 1);
      steps := QuietExtend(c, k - 1, before);
    }
  }

  lemma QuietExtend(c: Config, k: nat, before: seq<Step>) returns (steps: seq<Step>)
    requires ValidConfig(c) && Aligned(c) && k < Slots(c) && k < 6 * SLOTS_PER_EPOCH
    requires Shaped(c, Resting(c, 0)) && Shaped(c, Resting(c, k)) && Leads(c, Resting(c, 0), before, Resting(c, k))
    ensures Shaped(c, Resting(c, k + 1)) && Leads(c, Resting(c, 0), steps, Resting(c, k + 1))
  {
    var turn := QuietTurn(c, k);
    LeadsAppend(c, Resting(c, 0), before, Resting(c, k), turn, Resting(c, k + 1));
    steps := before + turn;
  }

  lemma RestsInitially(c: Config)
    requires ValidConfig(c) && Aligned(c)
    ensures Initial(c) == Resting(c, 0) && Shaped(c, Initial(c)) && Leads(c, Resting(c, 0), [], Resting(c, 0))
  {
    AlignedEpochs(c, 0);
  }

  /** Then the seventh epoch evicts the first, whose blocks are still to be processed. */
  lemma SeventhEpochStrands(c: Config) returns (steps: seq<Step>, last: State)
    requires ValidConfig(c) && Aligned(c) && Slots(c) > 6 * SLOTS_PER_EPOCH
    ensures Run(c, steps, last) && Shaped(c, last) && Lost(c, last)
  {
    var k := 6 * SLOTS_PER_EPOCH;
    steps := QuietRun(c, k);
    RestsInitially(c);
    var s0 := Resting(c, k);
    AlignedEpochs(c, 0);
    AlignedEpochs(c, k);
    QuietPages(c, false, k, k, k, 6, 0);
    assert Enabled(c, s0, Check);
    LeadsOne(c, s0, Check);
    var s1 := Next(c, s0, Check);
    NextShaped(c, s0, Check);
    assert 0 in OutdatedAt(c, s0, k);
    LeadsOne(c, s1, Evict(0));
    last := Next(c, s1, Evict(0));
    NextShaped(c, s1, Evict(0));
    LeadsAppend(c, Initial(c), steps, s0, [Check], s1);
    LeadsAppend(c, Initial(c), steps + [Check], s1, [Evict(0)], last);
    steps := steps + [Check] + [Evict(0)];
    assert ProcessorLost(c, last, 0);
  }

  /** With up to six epochs nothing is ever evicted. */
  lemma SixEpochsKeepAll(c: Config, st: State)
    requires ValidConfig(c) && Aligned(c) && Inv(c, st) && Slots(c) <= 6 * SLOTS_PER_EPOCH
    ensures !Lost(c, st)
  {
    AlignedEpochs(c, Reached(c, st));
    assert EpochOf(c, Reached(c, st)) < 6;
  }

  /** Every state leads to one that cannot go on; what is lost stays lost. */
  lemma {:induction false} RunsOn(c: Config, st: State) returns (steps: seq<Step>, last: State)
    requires ValidConfig(c) && Inv(c, st)
    ensures Leads(c, st, steps, last) && Inv(c, last) && !CanMove(c, last)
    ensures Lost(c, st) ==> Lost(c, last)
    decreases WholeWork(c) - Work(st)
  {
    steps, last := [], st;
    WorkBounded(c, st);
    if CanMove(c, st) {
      var step :| Enabled(c, st, step);
      var st1 := Next(c, st, step);
      NextInv(c, st, step);
      NextWorks(c, st, step);
      WorkBounded(c, st1);
      if Lost(c, st) { LostForEver(c, st, step); }
      var rest;
      rest, last := RunsOn(c, st1);
      LeadsOne(c, st, step);
      LeadsAppend(c, st, [step], st1, rest, last);
      steps := [step] + rest;
    }
  }

  /** However the routines interleave, a run ends with all of them done. */
  ghost predicate AlwaysFinishes(c: Config)
    requires ValidConfig(c)
  {
    forall steps, last :: Run(c, steps, last) && Shaped(c, last) && !CanMove(c, last) ==> AllDone(c, last)
  }

  /** For the aligned starts that the program always chooses: every interleaving finishes if and only if the
      run has at most six epochs. Beyond that, a routine that gets no turn for so long finds its epoch
      evicted and waits for ever. */
  lemma FinishesExactly(c: Config)
    requires ValidConfig(c) && Aligned(c)
    ensures AlwaysFinishes(c) <==> c.end < c.init + 192
  {
    if Slots(c) <= 6 * SLOTS_PER_EPOCH {
      forall steps, last | Run(c, steps, last) && Shaped(c, last) && !CanMove(c, last) ensures AllDone(c, last) {
        RunFacts(c, steps, last);
        SixEpochsKeepAll(c, last);
        StuckExactly(c, last);
      }
    } else {
      var steps, lost := SeventhEpochStrands(c);
      RunFacts(c, steps, lost);
      var rest, last := RunsOn(c, lost);
      LeadsAppend(c, Initial(c), steps, lost, rest, last);
      LostIsNeverDone(c, last);
      assert Run(c, steps + rest, last);
    }
  }

  /** An epoch's metrics are being computed or have been. */
  ghost predicate MetricsPastWaits(c: Config, st: State, j: nat)
    requires ValidConfig(c)
  {
    Shaped(c, st) && j < Epochs(c)
    && match st.metrics[j] {
         case EpochFinished => true
         case EpochWorking(stage) => stage >= FIRST_WATCH
         case _ => false
       }
  }

  ghost predicate StateWhole(c: Config, st: State, k: nat)
    requires ValidConfig(c)
  {
    Shaped(c, st) && k < Epochs(c) && st.collected[k] >= STORED
    && forall b :: 0 <= b < SLOTS_PER_EPOCH ==> WasDownloaded(c, st, SlotOf(c, k, b))
  }

  lemma PastWaitsSeesWhole(c: Config, st: State, j: nat, k: nat)
    requires ValidConfig(c) && Inv(c, st) && MetricsPastWaits(c, st, j) && k <= j <= k + 2
    ensures StateWhole(c, st, k)
  {
    assert Covered(c, st, j);
  }

  /** In every run, an epoch's metrics are computed only from states of that epoch and the two before it
      that were stored with all their blocks. */
  lemma MetricsSeeWholeEpochs(c: Config, steps: seq<Step>, last: State, j: nat, k: nat)
    requires ValidConfig(c) && Run(c, steps, last) && MetricsPastWaits(c, last, j) && k <= j <= k + 2
    ensures StateWhole(c, last, k)
  {
    RunFacts(c, steps, last);
    PastWaitsSeesWhole(c, last, j, k);
  }
}
