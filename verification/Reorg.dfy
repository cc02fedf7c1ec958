/** The walk that replaces cached blocks and states after a chain reorganisation, from the cached head
    down to the last reorganised block. Waiting for an entry that nobody will put into the cache is an
    outcome of its own here: the walk ends early there. */
module Reorg {
  import opened Chain
  import opened CachedChain

  predicate EndsEpoch(slot: nat) { (slot + 1) % SLOTS_PER_EPOCH == 0 }

  /** The state of the epoch is not the node's, so its metrics are deleted and computed again. */
  predicate RootChanged(c: Cache, node: Node, epoch: nat) { epoch in c.states && c.states[epoch].root != node.stateRoot(epoch) }

  /** The states that computing the epoch's metrics waits for, besides its own; none from before the run. */
  predicate PredecessorsCached(c: Cache, initEpoch: nat, epoch: nat) {
    forall d: nat :: initEpoch <= d < epoch <= d + 2 ==> d in c.states
  }

  /** The walk gets past slot i: its block is cached and, at the end of an epoch, its state is, and if that
      has changed the two states before it are. */
  predicate Passable(c: Cache, node: Node, initEpoch: nat, i: nat) {
    i in c.blocks
    && (EndsEpoch(i) ==>
          EpochAt(i) in c.states && (RootChanged(c, node, EpochAt(i)) ==> PredecessorsCached(c, initEpoch, EpochAt(i))))
  }

  /** Counts towards the depth of the reorganisation. */
  predicate Reorged(c: Cache, reorgSlot: nat, i: nat) { i < reorgSlot && i in c.blocks && c.blocks[i].proposed }

  // ------------------------------------------------------------ where the walk ends, by definition

  /** Reorganised blocks in [low, head]. */
  function CountReorged(c: Cache, reorgSlot: nat, low: nat, head: nat): nat
    requires low <= head + 1
    decreases head + 1 - low
  {
    if low == head + 1 then 0
    else CountReorged(c, reorgSlot, low + 1, head) + if Reorged(c, reorgSlot, low) then 1 else 0
  }

  /** The slots [low, head] can all be walked and hold the depth + 1 blocks, the lowest at low. */
  ghost predicate EndsAt(c: Cache, node: Node, initEpoch: nat, reorgSlot: nat, depth: nat, head: nat, low: nat) {
    && low <= head
    && (forall i :: low <= i <= head ==> Passable(c, node, initEpoch, i))
    && CountReorged(c, reorgSlot, low, head) == depth + 1 && Reorged(c, reorgSlot, low)
  }

  lemma {:induction false} CountMonotone(c: Cache, reorgSlot: nat, low: nat, mid: nat, head: nat)
    requires low <= mid <= head + 1
    ensures CountReorged(c, reorgSlot, mid, head) <= CountReorged(c, reorgSlot, low, head)
    decreases mid - low
  {
    if low < mid { CountMonotone(c, reorgSlot, low + 1, mid, head); }
  }

  /** There is at most one such slot. */
  lemma EndsOnce(c: Cache, node: Node, initEpoch: nat, reorgSlot: nat, depth: nat, head: nat, a: nat, b: nat)
    requires EndsAt(c, node, initEpoch, reorgSlot, depth, head, a) && EndsAt(c, node, initEpoch, reorgSlot, depth, head, b)
    ensures a == b
  {
    if a < b { CountMonotone(c, reorgSlot, a + 1, b, head); }
    if b < a { CountMonotone(c, reorgSlot, b + 1, a, head); }
  }

  /** The slots of [low, head] that hold a proposed block below the reorganised slot. */
  function ProposedBelow(c: Cache, reorgSlot: nat, low: nat, head: nat): set<nat> {
    set i: nat | low <= i <= head && i < reorgSlot && i in c.blocks && c.blocks[i].proposed
  }

  lemma {:induction false} CountIsSize(c: Cache, reorgSlot: nat, low: nat, head: nat)
    requires low <= head + 1
    ensures CountReorged(c, reorgSlot, low, head) == |ProposedBelow(c, reorgSlot, low, head)|
    decreases head + 1 - low
  {
    if low <= head {
      CountIsSize(c, reorgSlot, low + 1, head);
      var rest, all := ProposedBelow(c, reorgSlot, low + 1, head), ProposedBelow(c, reorgSlot, low, head);
      if low in all { assert all == rest + {low}; } else { assert all == rest; }
    }
  }

  ghost predicate AllArrive(c: Cache, node: Node, initEpoch: nat, low: nat, head: nat) {
    && (forall i :: low <= i <= head ==> i in c.blocks)
    && (forall epoch: nat :: low <= 32 * epoch + 31 <= head ==> StateArrives(c, node, initEpoch, epoch))
  }

  lemma PassesAll(c: Cache, node: Node, initEpoch: nat, low: nat, head: nat)
    requires AllArrive(c, node, initEpoch, low, head)
    ensures forall i :: low <= i <= head ==> Passable(c, node, initEpoch, i)
  {
    forall i | low <= i <= head ensures Passable(c, node, initEpoch, i) {
      if EndsEpoch(i) {
        EpochEnds(i, EpochAt(i));
        assert StateArrives(c, node, initEpoch, EpochAt(i));
        TwoBefore(c, initEpoch, EpochAt(i));
      }
    }
  }

  lemma AllHaveArrived(c: Cache, node: Node, initEpoch: nat, low: nat, head: nat)
    requires forall i :: low <= i <= head ==> Passable(c, node, initEpoch, i)
    ensures AllArrive(c, node, initEpoch, low, head)
  {
    forall i | low <= i <= head ensures i in c.blocks {
      assert Passable(c, node, initEpoch, i);
    }
    forall epoch: nat | low <= 32 * epoch + 31 <= head ensures StateArrives(c, node, initEpoch, epoch) {
      EpochEnds(32 * epoch + 31, epoch);
      assert Passable(c, node, initEpoch, 32 * epoch + 31);
      TwoBefore(c, initEpoch, epoch);
    }
  }

  /** In plain terms: depth + 1 proposed blocks below the reorganised slot, the lowest of them at low, with every
      slot down to it cached, the state of every epoch that ends on the way cached, and the two states before
      it, from the run's first epoch on, if it has changed. */
  lemma EndsExactly(c: Cache, node: Node, initEpoch: nat, reorgSlot: nat, depth: nat, head: nat, low: nat)
    ensures EndsAt(c, node, initEpoch, reorgSlot, depth, head, low)
            <==> && low in ProposedBelow(c, reorgSlot, low, head) && |ProposedBelow(c, reorgSlot, low, head)| == depth + 1
                 && AllArrive(c, node, initEpoch, low, head)
  {
    if low <= head {
      CountIsSize(c, reorgSlot, low, head);
      if forall i :: low <= i <= head ==> Passable(c, node, initEpoch, i) {
        AllHaveArrived(c, node, initEpoch, low, head);
      } else if AllArrive(c, node, initEpoch, low, head) {
        PassesAll(c, node, initEpoch, low, head);
      }
    }
  }

  ghost predicate StateArrives(c: Cache, node: Node, initEpoch: nat, epoch: nat) {
    && epoch in c.states
    && (c.states[epoch].root != node.stateRoot(epoch) ==>
          (epoch >= initEpoch + 1 ==> epoch - 1 in c.states) && (epoch >= initEpoch + 2 ==> epoch - 2 in c.states))
  }

  // ------------------------------------------------------------ what the walk leaves, by definition

  predicate Changed(c: Cache, node: Node, i: nat) { i in c.blocks && c.blocks[i].root != node.block(i).root }

  /** Old proposed blocks of [low, head] that the reorganisation replaced, from the head down. */
  function Orphans(c: Cache, node: Node, low: nat, head: nat): seq<Block>
    requires low <= head + 1
    decreases head + 1 - low
  {
    if low == head + 1 then []
    else if Changed(c, node, low) && c.blocks[low].proposed then Orphans(c, node, low + 1, head) + [c.blocks[low]]
    else Orphans(c, node, low + 1, head)
  }

  /** Slots of [low, head] whose rows were deleted and written again, from the head down. */
  function Rewritten(c: Cache, node: Node, low: nat, head: nat): seq<nat>
    requires low <= head + 1
    decreases head + 1 - low
  {
    if low == head + 1 then []
    else if Changed(c, node, low) then Rewritten(c, node, low + 1, head) + [low]
    else Rewritten(c, node, low + 1, head)
  }

  lemma {:induction false} OrphansExactly(c: Cache, node: Node, low: nat, head: nat, b: Block)
    requires low <= head + 1
    ensures b in Orphans(c, node, low, head)
            <==> exists i :: low <= i <= head && Changed(c, node, i) && c.blocks[i].proposed && c.blocks[i] == b
    decreases head + 1 - low
  {
    if low <= head { OrphansExactly(c, node, low + 1, head, b); }
  }

  /** Every block of [low, head] is the node's; all others are as they were. */
  ghost predicate BlocksReplaced(c: Cache, node: Node, low: nat, head: nat, blocks: map<nat, Block>) {
    forall slot: nat ::
      && (slot in blocks <==> slot in c.blocks)
      && (slot in blocks ==> blocks[slot] == if low <= slot <= head then node.block(slot) else c.blocks[slot])
  }

  /** The roots a state is given when its last slot has been replaced and the walk has gone no lower. */
  function RootsAtEnd(c: Cache, node: Node, epoch: nat): seq<Bytes> {
    seq(SLOTS_PER_EPOCH, k requires 0 <= k < SLOTS_PER_EPOCH =>
      var slot := epoch * SLOTS_PER_EPOCH + k;
      if k == SLOTS_PER_EPOCH - 1 then node.block(slot).root else if slot in c.blocks then c.blocks[slot].root else "")
  }

  /** States of the epochs whose last slot was walked are the node's; the others are as they were. */
  ghost predicate StatesReplaced(c: Cache, node: Node, low: nat, head: nat, states: map<nat, CachedState>) {
    forall epoch: nat ::
      && (epoch in states <==> epoch in c.states)
      && (epoch in states ==>
            states[epoch] == if low <= LastSlotOf(epoch) <= head
                             then CachedState(node.stateRoot(epoch), RootsAtEnd(c, node, epoch))
                             else c.states[epoch])
  }

  lemma EpochEnds(i: nat, epoch: nat)
    ensures EndsEpoch(i) && EpochAt(i) == epoch <==> i == LastSlotOf(epoch)
  {
  }

  /** Epochs whose state root changed and whose rows were deleted, from the head down. */
  function Deleted(c: Cache, node: Node, low: nat, head: nat): seq<nat>
    requires low <= head + 1
    decreases head + 1 - low
  {
    if low == head + 1 then []
    else if EndsEpoch(low) && RootChanged(c, node, EpochAt(low)) then Deleted(c, node, low + 1, head) + [EpochAt(low)]
    else Deleted(c, node, low + 1, head)
  }

  ghost predicate Descending(s: seq<nat>) { forall i, j :: 0 <= i < j < |s| ==> s[i] > s[j] }

  lemma DescendingSnoc(s: seq<nat>, x: nat)
    requires Descending(s) && forall y :: y in s ==> y > x
    ensures Descending(s + [x])
  {
    assert forall i :: 0 <= i < |s| ==> s[i] in s;
  }

  /** Every slot of the walk whose cached block is not the node's, proposed or missed, and no other; from the head
      down, each once. */
  lemma {:induction false} RewrittenExactly(c: Cache, node: Node, low: nat, head: nat)
    requires low <= head + 1
    ensures forall slot: nat ::
              slot in Rewritten(c, node, low, head)
              <==> low <= slot <= head && slot in c.blocks && c.blocks[slot].root != node.block(slot).root
    ensures Descending(Rewritten(c, node, low, head))
    decreases head + 1 - low
  {
    if low <= head {
      RewrittenExactly(c, node, low + 1, head);
      DescendingSnoc(Rewritten(c, node, low + 1, head), low);
    }
  }

  /** The cached blocks of these slots that were proposed, in the order of the slots. */
  function ProposedAt(c: Cache, slots: seq<nat>): seq<Block> {
    if slots == [] then []
    else
      var last := slots[|slots| - 1];
      ProposedAt(c, slots[..|slots| - 1]) + if last in c.blocks && c.blocks[last].proposed then [c.blocks[last]] else []
  }

  /** The orphans come in the order of the rewritten slots, one for each that held a proposed block. */
  lemma {:induction false} OrphansFollowRewritten(c: Cache, node: Node, low: nat, head: nat)
    requires low <= head + 1
    ensures Orphans(c, node, low, head) == ProposedAt(c, Rewritten(c, node, low, head))
    decreases head + 1 - low
  {
    if low <= head {
      OrphansFollowRewritten(c, node, low + 1, head);
      var rest := Rewritten(c, node, low + 1, head);
      assert (rest + [low])[..|rest|] == rest;
    }
  }

  lemma LastSlotDecides(low: nat, epoch: nat)
    ensures low == 32 * epoch + 31 <==> EndsEpoch(low) && EpochAt(low) == epoch
  {
    EpochEnds(low, epoch);
  }

  /** Every cached epoch whose last slot was walked and whose state root is not the node's, and no other; from
      the head down, each once. */
  lemma {:induction false} DeletedExactly(c: Cache, node: Node, low: nat, head: nat)
    requires low <= head + 1
    ensures forall epoch: nat ::
              epoch in Deleted(c, node, low, head)
              <==> low <= 32 * epoch + 31 <= head && epoch in c.states && c.states[epoch].root != node.stateRoot(epoch)
    ensures Descending(Deleted(c, node, low, head))
    decreases head + 1 - low
  {
    if low <= head {
      DeletedExactly(c, node, low + 1, head);
      forall epoch: nat ensures low == 32 * epoch + 31 <==> EndsEpoch(low) && EpochAt(low) == epoch {
        LastSlotDecides(low, epoch);
      }
      if EndsEpoch(low) { DescendingSnoc(Deleted(c, node, low + 1, head), EpochAt(low)); }
    }
  }

  /** Those of them whose metrics have been computed again, which takes the two states before. */
  function Reprocessed(c: Cache, node: Node, initEpoch: nat, low: nat, head: nat): seq<nat>
    requires low <= head + 1
    decreases head + 1 - low
  {
    if low == head + 1 then []
    else if EndsEpoch(low) && RootChanged(c, node, EpochAt(low)) && PredecessorsCached(c, initEpoch, EpochAt(low))
    then Reprocessed(c, node, initEpoch, low + 1, head) + [EpochAt(low)]
    else Reprocessed(c, node, initEpoch, low + 1, head)
  }

  /** Of the deleted epochs, those whose two predecessors are cached, as far as they belong to the run. */
  lemma {:induction false} ReprocessedExactly(c: Cache, node: Node, initEpoch: nat, low: nat, head: nat, epoch: nat)
    requires low <= head + 1
    ensures epoch in Reprocessed(c, node, initEpoch, low, head)
            <==> && low <= 32 * epoch + 31 <= head && epoch in c.states && c.states[epoch].root != node.stateRoot(epoch)
                 && (epoch >= initEpoch + 1 ==> epoch - 1 in c.states) && (epoch >= initEpoch + 2 ==> epoch - 2 in c.states)
    decreases head + 1 - low
  {
    if low <= head {
      ReprocessedExactly(c, node, initEpoch, low + 1, head, epoch);
      LastSlotDecides(low, epoch);
      TwoBefore(c, initEpoch, epoch);
    }
  }

  lemma TwoBefore(c: Cache, initEpoch: nat, epoch: nat)
    ensures PredecessorsCached(c, initEpoch, epoch)
            <==> (epoch >= initEpoch + 1 ==> epoch - 1 in c.states) && (epoch >= initEpoch + 2 ==> epoch - 2 in c.states)
  {
  }

  /** Where the walk has passed every slot, all deleted epochs have been computed again. */
  lemma {:induction false} AllReprocessed(c: Cache, node: Node, initEpoch: nat, low: nat, head: nat)
    requires low <= head + 1 && forall i :: low <= i <= head ==> Passable(c, node, initEpoch, i)
    ensures Reprocessed(c, node, initEpoch, low, head) == Deleted(c, node, low, head)
    decreases head + 1 - low
  {
    if low <= head {
      AllReprocessed(c, node, initEpoch, low + 1, head);
      assert Passable(c, node, initEpoch, low);
    }
  }

  /** How far the walk has come when it has not ended above slot low. */
  ghost predicate Descended(c: Cache, node: Node, initEpoch: nat, reorgSlot: nat, depth: nat, head: nat, low: nat, count: nat) {
    && low <= head + 1
    && (forall i :: low <= i <= head ==> Passable(c, node, initEpoch, i))
    && count == CountReorged(c, reorgSlot, low, head) <= depth + 1
    && (count == depth + 1 ==> low <= head && Reorged(c, reorgSlot, low))
  }

  lemma Descends(c: Cache, node: Node, initEpoch: nat, reorgSlot: nat, depth: nat, head: nat, i: nat, count: nat, count': nat)
    requires Descended(c, node, initEpoch, reorgSlot, depth, head, i + 1, count) && count <= depth && Passable(c, node, initEpoch, i)
    requires count' == if Reorged(c, reorgSlot, i) then count + 1 else count
    ensures Descended(c, node, initEpoch, reorgSlot, depth, head, i, count')
  {
  }

  lemma Arrives(c: Cache, node: Node, initEpoch: nat, reorgSlot: nat, depth: nat, head: nat, low: nat, count: nat)
    requires Descended(c, node, initEpoch, reorgSlot, depth, head, low, count) && count > depth
    ensures EndsAt(c, node, initEpoch, reorgSlot, depth, head, low)
  {
  }

  /** Below the depth and stopped by a slot that cannot be passed, the walk can end nowhere. */
  lemma EndsNowhere(c: Cache, node: Node, initEpoch: nat, reorgSlot: nat, depth: nat, head: nat, low: nat, count: nat)
    requires Descended(c, node, initEpoch, reorgSlot, depth, head, low, count) && count <= depth
    requires low == 0 || !Passable(c, node, initEpoch, low - 1)
    ensures forall l: nat :: !EndsAt(c, node, initEpoch, reorgSlot, depth, head, l)
  {
    forall l: nat | l <= head && forall i :: l <= i <= head ==> Passable(c, node, initEpoch, i)
      ensures CountReorged(c, reorgSlot, l, head) <= depth
    {
      assert low <= l by { assert low > 0 ==> !Passable(c, node, initEpoch, low - 1); }
      CountMonotone(c, reorgSlot, low, l, head);
    }
  }

  // ------------------------------------------------------------ the walk

  /** Everything that the walk has left behind when it has gone down to slot low. */
  ghost predicate Walked(c: Cache, node: Node, initEpoch: nat, low: nat, head: nat, now: Cache,
                         orphans: seq<Block>, rewritten: seq<nat>, deleted: seq<nat>, reprocessed: seq<nat>)
  {
    && low <= head + 1
    && BlocksReplaced(c, node, low, head, now.blocks) && StatesReplaced(c, node, low, head, now.states)
    && orphans == Orphans(c, node, low, head)
    && rewritten == Rewritten(c, node, low, head)
    && deleted == Deleted(c, node, low, head)
    && reprocessed == Reprocessed(c, node, initEpoch, low, head)
  }

  /** The block of one slot; its rows are written again only if its root changed. */
  method ReplaceBlock(cache: ChainCache, i: nat, ghost c: Cache, ghost head: nat, orphans: seq<Block>, rewritten: seq<nat>)
    returns (orphans': seq<Block>, rewritten': seq<nat>)
    requires i <= head && i in c.blocks && BlocksReplaced(c, cache.node, i + 1, head, cache.blocks)
    requires orphans == Orphans(c, cache.node, i + 1, head) && rewritten == Rewritten(c, cache.node, i + 1, head)
    modifies cache`blocks
    ensures BlocksReplaced(c, cache.node, i, head, cache.blocks)
    ensures orphans' == Orphans(c, cache.node, i, head) && rewritten' == Rewritten(c, cache.node, i, head)
  {
    var oldBlock := cache.blocks[i];
    assert oldBlock == c.blocks[i];
    cache.DownloadBlock(i);
    var newBlock := cache.blocks[i];
    orphans', rewritten' := orphans, rewritten;
    if newBlock.root != oldBlock.root {
      if oldBlock.proposed { orphans' := orphans + [oldBlock]; }
      rewritten' := rewritten + [i];
    }
  }

  /** Computing an epoch's metrics waits for the two states before it; nobody fetches them here. */
  method PredecessorsArrive(cache: ChainCache, initEpoch: nat, epoch: nat) returns (arrive: bool)
    ensures arrive <==> PredecessorsCached(cache.View(), initEpoch, epoch)
  {
    arrive := true;
    if epoch >= 2 && epoch - 2 >= initEpoch && epoch - 2 !in cache.states { arrive := false; }
    if epoch >= 1 && epoch - 1 >= initEpoch && epoch - 1 !in cache.states { arrive := false; }
  }

  /** The state of an epoch whose last slot has just been replaced. If its root has changed its rows are
      deleted, and the walk goes on once its metrics are computed again. */
  method ReplaceState(cache: ChainCache, initEpoch: nat, i: nat, ghost c: Cache, ghost head: nat, deleted: seq<nat>, reprocessed: seq<nat>)
    returns (passed: bool, deleted': seq<nat>, reprocessed': seq<nat>)
    requires i <= head && EndsEpoch(i) && EpochAt(i) in c.states && i in c.blocks && Valid(c)
    requires BlocksReplaced(c, cache.node, i, head, cache.blocks) && StatesReplaced(c, cache.node, i + 1, head, cache.states)
    requires deleted == Deleted(c, cache.node, i + 1, head)
    requires reprocessed == Reprocessed(c, cache.node, initEpoch, i + 1, head)
    modifies cache`states
    ensures StatesReplaced(c, cache.node, i, head, cache.states)
    ensures passed <==> Passable(c, cache.node, initEpoch, i)
    ensures deleted' == Deleted(c, cache.node, i, head)
    ensures reprocessed' == Reprocessed(c, cache.node, initEpoch, i, head)
  {
    var epoch := EpochAt(i);
    EpochEnds(i, epoch);
    assert HasBlocks(c.blocks, epoch);
    var oldState := cache.states[epoch];
    RootsCollected(c, cache.node, i, head, cache.blocks, epoch);
    StateStep(c, cache.node, i, head, cache.states, epoch);
    cache.DownloadState(epoch);
    SamePredecessors(c, cache.node, i, head, cache.View(), initEpoch, epoch);
    passed, deleted', reprocessed' := true, deleted, reprocessed;
    if cache.states[epoch].root != oldState.root {
      deleted' := deleted + [epoch];
      passed := PredecessorsArrive(cache, initEpoch, epoch);
      if passed { reprocessed' := reprocessed + [epoch]; }
    }
  }

  lemma SamePredecessors(c: Cache, node: Node, low: nat, head: nat, now: Cache, initEpoch: nat, epoch: nat)
    requires StatesReplaced(c, node, low, head, now.states)
    ensures PredecessorsCached(now, initEpoch, epoch) <==> PredecessorsCached(c, initEpoch, epoch)
  {
    assert forall d: nat :: d in now.states <==> d in c.states;
  }

  /** One slot of the walk; it stops there if the state at the end of the epoch is not cached, or has changed
      and one of the two before it is not. */
  method ReplaceSlot(cache: ChainCache, initEpoch: nat, i: nat, ghost c: Cache, ghost head: nat,
                     orphans: seq<Block>, rewritten: seq<nat>, deleted: seq<nat>, reprocessed: seq<nat>)
    returns (passed: bool, orphans': seq<Block>, rewritten': seq<nat>, deleted': seq<nat>, reprocessed': seq<nat>)
    requires Valid(c) && i <= head && i in c.blocks
    requires Walked(c, cache.node, initEpoch, i + 1, head, cache.View(), orphans, rewritten, deleted, reprocessed)
    modifies cache
    ensures passed <==> Passable(c, cache.node, initEpoch, i)
    ensures Walked(c, cache.node, initEpoch, i, head, cache.View(), orphans', rewritten', deleted', reprocessed')
  {
    orphans', rewritten' := ReplaceBlock(cache, i, c, head, orphans, rewritten);
    deleted', reprocessed' := deleted, reprocessed;
    passed := !EndsEpoch(i) || EpochAt(i) in cache.states;
    if EndsEpoch(i) && passed {
      passed, deleted', reprocessed' := ReplaceState(cache, initEpoch, i, c, head, deleted, reprocessed);
    } else {
      NoStateStep(c, cache.node, initEpoch, i, head, cache.states);
    }
  }

  /** From the cached head down until depth + 1 proposed blocks below the reorganised slot have been
      replaced. It comes to that if and only if a slot exists where the walk ends by definition, and has then
      computed again every epoch whose rows it deleted; else it waits for ever for something that nobody will
      put into the cache, below everything it has replaced. */
  method HandleReorg(cache: ChainCache, initEpoch: nat, depth: nat, reorgSlot: nat, head: nat)
    returns (finished: bool, low: nat, orphans: seq<Block>, rewritten: seq<nat>, deleted: seq<nat>, reprocessed: seq<nat>)
    requires Valid(cache.View())
    modifies cache
    ensures finished <==> exists l: nat :: EndsAt(old(cache.View()), cache.node, initEpoch, reorgSlot, depth, head, l)
    ensures finished ==> EndsAt(old(cache.View()), cache.node, initEpoch, reorgSlot, depth, head, low) && reprocessed == deleted
    ensures Walked(old(cache.View()), cache.node, initEpoch, low, head, cache.View(), orphans, rewritten, deleted, reprocessed)
    ensures forall slot: nat ::
              low <= slot <= head && slot in old(cache.blocks) && cache.blocks[slot].root != old(cache.blocks)[slot].root ==>
                slot in rewritten
  {
    ghost var c := cache.View();
    low, orphans, rewritten, deleted, reprocessed := head + 1, [], [], [], [];
    var reorgedSlots := 0;
    while reorgedSlots <= depth
      invariant Walked(c, cache.node, initEpoch, low, head, cache.View(), orphans, rewritten, deleted, reprocessed)
      invariant Descended(c, cache.node, initEpoch, reorgSlot, depth, head, low, reorgedSlots)
      decreases low
    {
      if low == 0 || low - 1 !in cache.blocks {
        assert low > 0 ==> !Passable(c, cache.node, initEpoch, low - 1);
        EndsNowhere(c, cache.node, initEpoch, reorgSlot, depth, head, low, reorgedSlots);
        RewrittenExactly(c, cache.node, low, head);
        return false, low, orphans, rewritten, deleted, reprocessed;
      }
      var i := low - 1;
      assert cache.blocks[i] == c.blocks[i];
      ghost var count := reorgedSlots;
      if i < reorgSlot && cache.blocks[i].proposed { reorgedSlots := reorgedSlots + 1; }
      var passed;
      passed, orphans, rewritten, deleted, reprocessed :=
        ReplaceSlot(cache, initEpoch, i, c, head, orphans, rewritten, deleted, reprocessed);
      if !passed {
        EndsNowhere(c, cache.node, initEpoch, reorgSlot, depth, head, low, count);
        RewrittenExactly(c, cache.node, i, head);
        return false, i, orphans, rewritten, deleted, reprocessed;
      }
      Descends(c, cache.node, initEpoch, reorgSlot, depth, head, i, count, reorgedSlots);
      low := i;
    }
    finished := true;
    Arrives(c, cache.node, initEpoch, reorgSlot, depth, head, low, reorgedSlots);
    AllReprocessed(c, cache.node, initEpoch, low, head);
    RewrittenExactly(c, cache.node, low, head);
  }

  lemma RootsCollected(c: Cache, node: Node, i: nat, head: nat, blocks: map<nat, Block>, epoch: nat)
    requires BlocksReplaced(c, node, i, head, blocks) && i == LastSlotOf(epoch) <= head && HasBlocks(c.blocks, epoch)
    ensures HasBlocks(blocks, epoch) && CurrentRoots(blocks, epoch) == RootsAtEnd(c, node, epoch)
  {
    forall k | 0 <= k < SLOTS_PER_EPOCH
      ensures CurrentRoots(blocks, epoch)[k] == RootsAtEnd(c, node, epoch)[k]
    {
    }
  }

  lemma StateStep(c: Cache, node: Node, i: nat, head: nat, states: map<nat, CachedState>, epoch: nat)
    requires StatesReplaced(c, node, i + 1, head, states) && i == LastSlotOf(epoch) <= head && epoch in c.states
    ensures epoch in states && states[epoch] == c.states[epoch]
    ensures StatesReplaced(c, node, i, head, states[epoch := CachedState(node.stateRoot(epoch), RootsAtEnd(c, node, epoch))])
  {
    forall e: nat | e != epoch ensures LastSlotOf(e) != i {
      EpochEnds(i, e);
      EpochEnds(i, epoch);
    }
  }

  lemma NoStateStep(c: Cache, node: Node, initEpoch: nat, i: nat, head: nat, states: map<nat, CachedState>)
    requires StatesReplaced(c, node, i + 1, head, states) && i <= head
    requires !EndsEpoch(i) || EpochAt(i) !in states
    ensures StatesReplaced(c, node, i, head, states)
    ensures Deleted(c, node, i, head) == Deleted(c, node, i + 1, head)
    ensures Reprocessed(c, node, initEpoch, i, head) == Reprocessed(c, node, initEpoch, i + 1, head)
  {
    forall e: nat | e in states ensures LastSlotOf(e) != i {
      EpochEnds(i, e);
    }
  }

  /** A walked state points to the blocks that the cache ends up with if and only if no lower walked slot
      of its epoch got another block: it was fetched before those were. */
  lemma StateBlocksFreshExactly(c: Cache, node: Node, low: nat, head: nat, now: Cache, epoch: nat)
    requires Valid(c) && BlocksReplaced(c, node, low, head, now.blocks) && StatesReplaced(c, node, low, head, now.states)
    requires epoch in c.states && low <= LastSlotOf(epoch) <= head
    ensures now.states[epoch].blockRoots == CurrentRoots(now.blocks, epoch)
            <==> forall slot: nat :: epoch * SLOTS_PER_EPOCH <= slot < LastSlotOf(epoch) && low <= slot ==> !Changed(c, node, slot)
  {
    assert HasBlocks(c.blocks, epoch);
    var given, current := RootsAtEnd(c, node, epoch), CurrentRoots(now.blocks, epoch);
    var first := epoch * SLOTS_PER_EPOCH;
    forall k | 0 <= k < SLOTS_PER_EPOCH
      ensures given[k] == current[k] <==> (k < SLOTS_PER_EPOCH - 1 && low <= first + k ==> !Changed(c, node, first + k))
    {
    }
    if forall slot: nat :: first <= slot < LastSlotOf(epoch) && low <= slot ==> !Changed(c, node, slot) {
      assert given == current;
    } else {
      var slot: nat :| first <= slot < LastSlotOf(epoch) && low <= slot && Changed(c, node, slot);
      assert given[slot - first] != current[slot - first];
    }
  }

  /** The first epoch with its state cached, before a reorganisation of its last two slots. */
  function EpochZero(): Cache {
    Cache(map slot: nat | slot < 32 :: Block(slot, "a", true), map[0 := CachedState("s", [])])
  }

  /** The node has another block in every slot, and another state. */
  function OtherChain(): Node { Node((slot: nat) => Block(slot, "b", true), (epoch: nat) => "t") }

  /** The walk for slot 31 ends at slot 30, which then has the new block, while the state fetched in between
      keeps the old one. */
  lemma OldBlockCounterexample(now: Cache)
    requires BlocksReplaced(EpochZero(), OtherChain(), 30, 31, now.blocks)
    requires StatesReplaced(EpochZero(), OtherChain(), 30, 31, now.states)
    ensures Valid(EpochZero()) && EndsAt(EpochZero(), OtherChain(), 0, 31, 0, 31, 30)
    ensures now.blocks[30].root == "b" && now.states[0].root == "t" && now.states[0].blockRoots[30] == "a"
  {
    var c := EpochZero();
    assert CountReorged(c, 31, 32, 31) == 0;
    assert CountReorged(c, 31, 31, 31) == 0 && CountReorged(c, 31, 30, 31) == 1;
    assert LastSlotOf(0) == 31;
  }

  /** Only the sixth epoch is cached, with its state; the two states before it were evicted. */
  function SixthEpochOnly(): Cache {
    Cache(map slot: nat | 160 <= slot < 192 :: Block(slot, "a", true), map[5 := CachedState("s", [])])
  }

  /** The walk over its last slot deletes the epoch's rows and then waits for ever for the evicted states; in a
      run that starts with the epoch it would end at once. */
  lemma EvictedStatesCounterexample(l: nat)
    ensures Valid(SixthEpochOnly())
    ensures !EndsAt(SixthEpochOnly(), OtherChain(), 0, 192, 0, 191, l)
    ensures Deleted(SixthEpochOnly(), OtherChain(), 191, 191) == [5] && Reprocessed(SixthEpochOnly(), OtherChain(), 0, 191, 191) == []
    ensures EndsAt(SixthEpochOnly(), OtherChain(), 5, 192, 0, 191, 191)
  {
    var c, node := SixthEpochOnly(), OtherChain();
    assert EndsEpoch(191) && EpochAt(191) == 5;
    assert "s" != "t" by { assert "s"[0] != "t"[0]; }
    assert RootChanged(c, node, 5);
    assert 4 !in c.states && !PredecessorsCached(c, 0, 5) by { assert 0 <= 4 < 5 <= 4 + 2; }
    assert !Passable(c, node, 0, 191);
    assert CountReorged(c, 192, 192, 191) == 0 && CountReorged(c, 192, 191, 191) == 1;
    assert Deleted(c, node, 192, 191) == [] && Reprocessed(c, node, 0, 192, 191) == [];
  }
}
