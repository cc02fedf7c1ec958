/** The check of cached epochs against the finalized chain: which blocks are written and which epochs are
    computed again, and what is left in the cache. */
module Finality {
  import opened Chain
  import opened CachedChain

  // ------------------------------------------------------------ the definition

  /** Some cached block of the epoch is not the one in the finalized chain. */
  predicate BlocksDiffer(node: Node, c: Cache, epoch: nat) {
    exists slot ::
      && epoch * SLOTS_PER_EPOCH <= slot < (epoch + 1) * SLOTS_PER_EPOCH
      && slot in c.blocks && c.blocks[slot].root != node.block(slot).root
  }

  predicate CachedAndDiffer(node: Node, c: Cache, epoch: int) {
    0 <= epoch && epoch in c.states && BlocksDiffer(node, c, epoch)
  }

  /** An epoch is computed again if its state root differs, or the blocks of any cached epoch among it
      and the two before it. */
  predicate MustReprocess(node: Node, c: Cache, finalizedEpoch: nat, epoch: nat) {
    && epoch < finalizedEpoch
    && epoch in c.states
    && (|| c.states[epoch].root != node.stateRoot(epoch)
        || CachedAndDiffer(node, c, epoch) || CachedAndDiffer(node, c, epoch - 1) || CachedAndDiffer(node, c, epoch - 2))
  }

  /** Those of the first i keys, in their order. */
  function Due(node: Node, c: Cache, finalizedEpoch: nat, keys: seq<nat>, i: nat): seq<nat>
    requires i <= |keys|
  {
    if i == 0 then []
    else if MustReprocess(node, c, finalizedEpoch, keys[i - 1])
    then Due(node, c, finalizedEpoch, keys, i - 1) + [keys[i - 1]]
    else Due(node, c, finalizedEpoch, keys, i - 1)
  }

  lemma {:induction false} DueExactly(node: Node, c: Cache, finalizedEpoch: nat, keys: seq<nat>, i: nat, epoch: nat)
    requires i <= |keys|
    ensures epoch in Due(node, c, finalizedEpoch, keys, i)
            <==> epoch in keys[..i] && MustReprocess(node, c, finalizedEpoch, epoch)
  {
    if i > 0 { DueExactly(node, c, finalizedEpoch, keys, i - 1, epoch); }
  }

  /** In plain terms: among the epochs looked at, those below the finalized one whose cached state root is not
      the node's, or with a cached block that is not, in an epoch whose state is cached, fewer than three
      epochs back. */
  lemma DuePlainly(node: Node, c: Cache, finalizedEpoch: nat, keys: seq<nat>, epoch: nat)
    requires Valid(c)
    ensures epoch in Due(node, c, finalizedEpoch, keys, |keys|)
            <==> && epoch in keys && epoch < finalizedEpoch && epoch in c.states
                 && (|| c.states[epoch].root != node.stateRoot(epoch)
                     || exists slot: nat :: DiffersWithin(node, c, epoch, slot))
  {
    DueExactly(node, c, finalizedEpoch, keys, |keys|, epoch);
    assert keys[..|keys|] == keys;
    forall e: nat | e in c.states && e <= epoch <= e + 2 && BlocksDiffer(node, c, e)
      ensures exists slot: nat :: DiffersWithin(node, c, epoch, slot)
    {
      var slot :|
        && e * SLOTS_PER_EPOCH <= slot < (e + 1) * SLOTS_PER_EPOCH
        && slot in c.blocks && c.blocks[slot].root != node.block(slot).root;
      SlotsOfEpoch(e, slot);
      assert DiffersWithin(node, c, epoch, slot);
    }
    if slot: nat :| DiffersWithin(node, c, epoch, slot) {
      var e := slot / 32;
      SlotsOfEpoch(e, slot);
      assert BlocksDiffer(node, c, e) && CachedAndDiffer(node, c, e);
      assert e == epoch || e == epoch - 1 || e == epoch - 2;
    }
  }

  predicate DiffersWithin(node: Node, c: Cache, epoch: nat, slot: nat) {
    && slot < 32 * epoch + 32 <= slot + 96
    && slot / 32 in c.states && slot in c.blocks && c.blocks[slot].root != node.block(slot).root
  }

  lemma {:induction false} DueAscending(node: Node, c: Cache, finalizedEpoch: nat, keys: seq<nat>, i: nat)
    requires i <= |keys| && Ascending(keys)
    ensures Ascending(Due(node, c, finalizedEpoch, keys, i))
  {
    if i > 0 {
      DueAscending(node, c, finalizedEpoch, keys, i - 1);
      var before := Due(node, c, finalizedEpoch, keys, i - 1);
      forall k | 0 <= k < |before| ensures before[k] < keys[i - 1] {
        assert before[k] in before;
        DueExactly(node, c, finalizedEpoch, keys, i - 1, before[k]);
      }
    }
  }

  // ------------------------------------------------------------ how the cache changes meanwhile

  /** Blocks and states may be added; blocks that were there stay as they were, and so do the states
      of the epochs from this one on. */
  ghost predicate OnlyAdds(before: Cache, now: Cache, from: nat) {
    && (forall slot: nat :: slot in before.blocks ==> slot in now.blocks && now.blocks[slot] == before.blocks[slot])
    && (forall epoch: nat :: epoch in before.states ==> epoch in now.states)
    && (forall epoch: nat :: epoch in before.states && epoch >= from ==> now.states[epoch] == before.states[epoch])
  }

  /** States of other epochs that were there are as they were. */
  ghost predicate OtherStatesStay(before: Cache, now: Cache, epoch: nat) {
    forall e: nat :: e in before.states && e != epoch ==> e in now.states && now.states[e] == before.states[e]
  }

  /** One state replaced, and then only additions. */
  lemma AddsAfterReplacing(first: Cache, second: Cache, third: Cache, epoch: nat)
    requires second.blocks == first.blocks && epoch in first.states && epoch in second.states
    requires forall e: nat :: e in first.states && e != epoch ==> e in second.states && second.states[e] == first.states[e]
    requires OnlyAdds(second, third, 0)
    ensures OnlyAdds(first, third, epoch + 1) && OtherStatesStay(first, third, epoch)
    ensures third.states[epoch] == second.states[epoch]
  {
  }

  lemma SameRoots(node: Node, before: Cache, now: Cache, epoch: nat, from: nat)
    requires OnlyAdds(before, now, from) && HasBlocks(before.blocks, epoch)
    ensures HasBlocks(now.blocks, epoch) && CurrentRoots(now.blocks, epoch) == CurrentRoots(before.blocks, epoch)
    ensures Differing(node, now.blocks, epoch * SLOTS_PER_EPOCH, (epoch + 1) * SLOTS_PER_EPOCH)
            == Differing(node, before.blocks, epoch * SLOTS_PER_EPOCH, (epoch + 1) * SLOTS_PER_EPOCH)
  {
    SameDiffering(node, before.blocks, now.blocks, epoch * SLOTS_PER_EPOCH, (epoch + 1) * SLOTS_PER_EPOCH);
  }

  lemma SameBlocks(node: Node, before: Cache, now: Cache, epoch: nat, from: nat)
    requires OnlyAdds(before, now, from) && HasBlocks(before.blocks, epoch)
    ensures HasBlocks(now.blocks, epoch) && (BlocksDiffer(node, now, epoch) <==> BlocksDiffer(node, before, epoch))
  {
    if BlocksDiffer(node, now, epoch) {
      var slot :|
        && epoch * SLOTS_PER_EPOCH <= slot < (epoch + 1) * SLOTS_PER_EPOCH
        && slot in now.blocks && now.blocks[slot].root != node.block(slot).root;
      assert slot in before.blocks;
    }
    if BlocksDiffer(node, before, epoch) {
      var slot :|
        && epoch * SLOTS_PER_EPOCH <= slot < (epoch + 1) * SLOTS_PER_EPOCH
        && slot in before.blocks && before.blocks[slot].root != node.block(slot).root;
      assert slot in now.blocks;
    }
  }

  /** The epochs among the first i keys whose blocks were found to differ. */
  ghost predicate ChangedSoFar(node: Node, start: Cache, finalizedEpoch: nat, keys: seq<nat>, i: nat, changed: set<nat>)
    requires i <= |keys|
  {
    forall d: nat :: d in changed <==> d < finalizedEpoch && d in keys[..i] && CachedAndDiffer(node, start, d)
  }

  lemma DueStep(node: Node, c: Cache, finalizedEpoch: nat, keys: seq<nat>, i: nat, log: seq<nat>, now: seq<nat>, after: seq<nat>)
    requires i < |keys| && now == log + Due(node, c, finalizedEpoch, keys, i)
    requires after == if keys[i] < finalizedEpoch && MustReprocess(node, c, keys[i] + 1, keys[i]) then now + [keys[i]] else now
    ensures after == log + Due(node, c, finalizedEpoch, keys, i + 1)
  {
  }

  /** Keys come in ascending order, so at each key everything below it has been looked at. */
  lemma BelowIsDone(node: Node, start: Cache, finalizedEpoch: nat, keys: seq<nat>, i: nat, changed: set<nat>)
    requires i < |keys| && Lists(keys, start.states.Keys) && keys[i] < finalizedEpoch
    requires ChangedSoFar(node, start, finalizedEpoch, keys, i, changed)
    ensures keys[i] in start.states
    ensures forall d: nat :: d < keys[i] ==> (d in changed <==> CachedAndDiffer(node, start, d))
  {
    assert keys[i] in keys;
    forall d: nat | d < keys[i] && d in start.states ensures d in keys[..i] {
      assert d in keys;
      var j :| 0 <= j < |keys| && keys[j] == d;
      assert j < i;
    }
  }

  lemma ChangedStep(node: Node, start: Cache, finalizedEpoch: nat, keys: seq<nat>, i: nat, changed: set<nat>, after: set<nat>)
    requires i < |keys| && ChangedSoFar(node, start, finalizedEpoch, keys, i, changed)
    requires after == if keys[i] < finalizedEpoch && CachedAndDiffer(node, start, keys[i]) then changed + {keys[i]} else changed
    ensures ChangedSoFar(node, start, finalizedEpoch, keys, i + 1, after)
  {
    assert keys[..i + 1] == keys[..i] + [keys[i]];
  }

  /** States from the next key on, or from the finalized epoch on, are as they were. */
  function NextKey(keys: seq<nat>, i: nat, finalizedEpoch: nat): nat {
    if i < |keys| && keys[i] < finalizedEpoch then keys[i] else finalizedEpoch
  }

  lemma AddsFromNext(before: Cache, now: Cache, keys: seq<nat>, i: nat, finalizedEpoch: nat)
    requires i < |keys| && Ascending(keys) && keys[i] < finalizedEpoch
    requires OnlyAdds(before, now, keys[i] + 1)
    ensures OnlyAdds(before, now, NextKey(keys, i + 1, finalizedEpoch))
  {
  }

  /** What is evicted without having been checked: the epoch that the bound cuts through, and only when
      the bound is not on an epoch boundary. */
  lemma UncheckedEviction(c: Cache, maxSlot: nat, epoch: nat)
    requires epoch in c.states
    ensures Evicted(c, maxSlot, epoch) && !(epoch < maxSlot / SLOTS_PER_EPOCH)
            <==> maxSlot % SLOTS_PER_EPOCH != 0 && epoch == maxSlot / SLOTS_PER_EPOCH
  {
  }

  // ------------------------------------------------------------ blocks written again

  /** The cached blocks of [low, high) that are not the finalized ones, ascending. */
  function Differing(node: Node, blocks: map<nat, Block>, low: nat, high: nat): seq<Block>
    decreases high
  {
    if low >= high then []
    else
      var last: nat := high - 1;
      if last in blocks && blocks[last].root != node.block(last).root
      then Differing(node, blocks, low, last) + [blocks[last]]
      else Differing(node, blocks, low, last)
  }

  lemma {:induction false} DifferingExactly(node: Node, blocks: map<nat, Block>, low: nat, high: nat, b: Block)
    ensures b in Differing(node, blocks, low, high)
            <==> (exists slot: nat :: low <= slot < high && slot in blocks && blocks[slot] == b && b.root != node.block(slot).root)
    decreases high
  {
    if low < high {
      DifferingExactly(node, blocks, low, high - 1, b);
      if b in Differing(node, blocks, low, high) && b !in Differing(node, blocks, low, high - 1) {
        assert blocks[high - 1] == b;
      }
    }
  }

  lemma {:induction false} SameDiffering(node: Node, before: map<nat, Block>, now: map<nat, Block>, low: nat, high: nat)
    requires forall slot: nat :: low <= slot < high ==> slot in before && slot in now && before[slot] == now[slot]
    ensures Differing(node, before, low, high) == Differing(node, now, low, high)
    decreases high
  {
    if low < high { SameDiffering(node, before, now, low, high - 1); }
  }

  /** Those of the epochs among the first i keys, in their order. */
  function AllDiffering(node: Node, c: Cache, finalizedEpoch: nat, keys: seq<nat>, i: nat): seq<Block>
    requires i <= |keys|
  {
    if i == 0 then []
    else
      var epoch := keys[i - 1];
      if epoch < finalizedEpoch
      then AllDiffering(node, c, finalizedEpoch, keys, i - 1)
           + Differing(node, c.blocks, epoch * SLOTS_PER_EPOCH, (epoch + 1) * SLOTS_PER_EPOCH)
      else AllDiffering(node, c, finalizedEpoch, keys, i - 1)
  }

  lemma DifferingStep(node: Node, c: Cache, finalizedEpoch: nat, keys: seq<nat>, i: nat, rows: seq<Block>, before: seq<Block>, after: seq<Block>)
    requires i < |keys| && before == rows + AllDiffering(node, c, finalizedEpoch, keys, i)
    requires after == if keys[i] < finalizedEpoch
                      then before + Differing(node, c.blocks, keys[i] * SLOTS_PER_EPOCH, (keys[i] + 1) * SLOTS_PER_EPOCH) else before
    ensures after == rows + AllDiffering(node, c, finalizedEpoch, keys, i + 1)
  {
  }

  /** The epochs among the first i keys whose blocks differ point to the cached blocks. */
  ghost predicate Refreshed(node: Node, start: Cache, now: Cache, finalizedEpoch: nat, keys: seq<nat>, i: nat)
    requires i <= |keys|
  {
    forall e: nat :: e in keys[..i] && e < finalizedEpoch && CachedAndDiffer(node, start, e) ==>
      e in now.states && now.states[e].blockRoots == CurrentRoots(start.blocks, e)
  }

  lemma RefreshedStep(node: Node, start: Cache, before: Cache, now: Cache, finalizedEpoch: nat, keys: seq<nat>, i: nat)
    requires i < |keys| && Refreshed(node, start, before, finalizedEpoch, keys, i)
    requires forall e: nat :: e in before.states && e != keys[i] ==> e in now.states && now.states[e] == before.states[e]
    requires keys[i] !in keys[..i]
    requires keys[i] < finalizedEpoch && CachedAndDiffer(node, start, keys[i]) ==>
               keys[i] in now.states && now.states[keys[i]].blockRoots == CurrentRoots(start.blocks, keys[i])
    ensures Refreshed(node, start, now, finalizedEpoch, keys, i + 1)
  {
    assert keys[..i + 1] == keys[..i] + [keys[i]];
  }

  /** Hence a state whose blocks differ still points to one that is not finalized when its metrics have been
      computed again. */
  lemma RefreshKeepsOldBlock(node: Node, start: Cache, now: Cache, finalizedEpoch: nat, keys: seq<nat>, epoch: nat)
    requires Refreshed(node, start, now, finalizedEpoch, keys, |keys|)
    requires epoch in keys && epoch < finalizedEpoch && CachedAndDiffer(node, start, epoch)
    ensures epoch in now.states && |now.states[epoch].blockRoots| == SLOTS_PER_EPOCH
    ensures exists k: nat :: k < SLOTS_PER_EPOCH
                             && now.states[epoch].blockRoots[k] != node.block(epoch * SLOTS_PER_EPOCH + k).root
  {
    assert keys[..|keys|] == keys;
    var slot :|
      && epoch * SLOTS_PER_EPOCH <= slot < (epoch + 1) * SLOTS_PER_EPOCH
      && slot in start.blocks && start.blocks[slot].root != node.block(slot).root;
    var k := slot - epoch * SLOTS_PER_EPOCH;
    assert epoch * SLOTS_PER_EPOCH + k == slot;
    assert now.states[epoch].blockRoots[k] == start.blocks[slot].root;
  }

  // ------------------------------------------------------------ the check

  /** What looking at one epoch has done to the cache, the set of changed epochs and the two logs. */
  ghost predicate EpochChecked(
      node: Node, start: Cache, before: Cache, now: Cache, epoch: nat, changed: set<nat>, changed': set<nat>,
      reprocessed: seq<nat>, reprocessed': seq<nat>, rewritten: seq<Block>, rewritten': seq<Block>)
  {
    && Valid(now) && OnlyAdds(start, now, epoch + 1) && OtherStatesStay(before, now, epoch)
    && changed' == (if CachedAndDiffer(node, start, epoch) then changed + {epoch} else changed)
    && (CachedAndDiffer(node, start, epoch) ==> epoch in now.states && now.states[epoch].blockRoots == CurrentRoots(start.blocks, epoch))
    && reprocessed' == (if MustReprocess(node, start, epoch + 1, epoch) then reprocessed + [epoch] else reprocessed)
    && rewritten' == rewritten + Differing(node, start.blocks, epoch * SLOTS_PER_EPOCH, (epoch + 1) * SLOTS_PER_EPOCH)
  }

  /** The epoch's blocks have been looked at, and its state given them if one differs. */
  ghost predicate BlocksChecked(node: Node, start: Cache, before: Cache, mid: Cache, epoch: nat) {
    && Valid(mid) && OnlyAdds(start, mid, epoch + 1) && OtherStatesStay(before, mid, epoch)
    && epoch in start.states && epoch in mid.states && mid.states[epoch].root == start.states[epoch].root
    && CurrentRoots(mid.blocks, epoch) == CurrentRoots(start.blocks, epoch)
    && (CachedAndDiffer(node, start, epoch) ==> mid.states[epoch].blockRoots == CurrentRoots(start.blocks, epoch))
  }

  /** What computing the epoch's metrics again has done to the cache. */
  ghost predicate StateReplaced(mid: Cache, now: Cache, epoch: nat, stateRootChanged: bool) {
    && Valid(now) && OnlyAdds(mid, now, epoch + 1) && OtherStatesStay(mid, now, epoch)
    && epoch in mid.states && epoch in now.states
    && (if stateRootChanged then now.states[epoch].blockRoots == CurrentRoots(mid.blocks, epoch)
        else now.states[epoch] == mid.states[epoch])
  }

  lemma ReplacedAfterBlocks(node: Node, start: Cache, before: Cache, mid: Cache, now: Cache, epoch: nat, stateRootChanged: bool)
    requires BlocksChecked(node, start, before, mid, epoch) && StateReplaced(mid, now, epoch, stateRootChanged)
    ensures OnlyAdds(start, now, epoch + 1) && OtherStatesStay(before, now, epoch)
    ensures CachedAndDiffer(node, start, epoch) ==> now.states[epoch].blockRoots == CurrentRoots(start.blocks, epoch)
  {
  }

  /** What the pass has done when it has looked at the first i keys. */
  ghost predicate CheckedSoFar(
      node: Node, start: Cache, now: Cache, finalizedEpoch: nat, keys: seq<nat>, i: nat, changed: set<nat>,
      log: seq<nat>, reprocessed: seq<nat>, rows: seq<Block>, rewritten: seq<Block>)
    requires i <= |keys|
  {
    && Valid(now) && OnlyAdds(start, now, NextKey(keys, i, finalizedEpoch))
    && reprocessed == log + Due(node, start, finalizedEpoch, keys, i)
    && rewritten == rows + AllDiffering(node, start, finalizedEpoch, keys, i)
    && ChangedSoFar(node, start, finalizedEpoch, keys, i, changed)
    && Refreshed(node, start, now, finalizedEpoch, keys, i)
  }

  lemma KeyChecked(
      node: Node, start: Cache, before: Cache, now: Cache, finalizedEpoch: nat, keys: seq<nat>, i: nat,
      changed: set<nat>, changed': set<nat>, log: seq<nat>, reprocessed: seq<nat>, reprocessed': seq<nat>,
      rows: seq<Block>, rewritten: seq<Block>, rewritten': seq<Block>)
    requires i < |keys| && Lists(keys, start.states.Keys) && keys[i] < finalizedEpoch
    requires CheckedSoFar(node, start, before, finalizedEpoch, keys, i, changed, log, reprocessed, rows, rewritten)
    requires EpochChecked(node, start, before, now, keys[i], changed, changed', reprocessed, reprocessed', rewritten, rewritten')
    ensures CheckedSoFar(node, start, now, finalizedEpoch, keys, i + 1, changed', log, reprocessed', rows, rewritten')
  {
    KeyIsNew(keys, start.states.Keys, i);
    AddsFromNext(start, now, keys, i, finalizedEpoch);
    ChangedStep(node, start, finalizedEpoch, keys, i, changed, changed');
    DueStep(node, start, finalizedEpoch, keys, i, log, reprocessed, reprocessed');
    DifferingStep(node, start, finalizedEpoch, keys, i, rows, rewritten, rewritten');
    RefreshedStep(node, start, before, now, finalizedEpoch, keys, i);
  }

  lemma KeySkipped(
      node: Node, start: Cache, now: Cache, finalizedEpoch: nat, keys: seq<nat>, i: nat, changed: set<nat>,
      log: seq<nat>, reprocessed: seq<nat>, rows: seq<Block>, rewritten: seq<Block>)
    requires i < |keys| && Lists(keys, start.states.Keys) && keys[i] >= finalizedEpoch
    requires CheckedSoFar(node, start, now, finalizedEpoch, keys, i, changed, log, reprocessed, rows, rewritten)
    ensures CheckedSoFar(node, start, now, finalizedEpoch, keys, i + 1, changed, log, reprocessed, rows, rewritten)
  {
    KeyIsNew(keys, start.states.Keys, i);
    assert NextKey(keys, i + 1, finalizedEpoch) == finalizedEpoch;
    ChangedStep(node, start, finalizedEpoch, keys, i, changed, changed);
    DueStep(node, start, finalizedEpoch, keys, i, log, reprocessed, reprocessed);
    DifferingStep(node, start, finalizedEpoch, keys, i, rows, rewritten, rewritten);
    RefreshedStep(node, start, now, now, finalizedEpoch, keys, i);
  }

  class ChainAnalyzer {
    const cache: ChainCache
    const initEpoch: nat
    /** The epochs whose metrics were deleted and computed again, in order. */
    ghost var reprocessed: seq<nat>
    /** The blocks whose rows were deleted and written again, in order. */
    ghost var rewritten: seq<Block>

    constructor (cache: ChainCache, initEpoch: nat)
      ensures this.cache == cache && this.initEpoch == initEpoch && reprocessed == [] && rewritten == []
    {
      this.cache, this.initEpoch := cache, initEpoch;
      reprocessed, rewritten := [], [];
    }

    /** One missing state is fetched again, blocks first. */
    method FetchState(dep: nat)
      requires Valid(cache.View()) && dep !in cache.states
      modifies cache
      ensures Valid(cache.View()) && dep in cache.states
      ensures OnlyAdds(old(cache.View()), cache.View(), 0)
    {
      ghost var before := cache.states;
      for slot := dep * SLOTS_PER_EPOCH to (dep + 1) * SLOTS_PER_EPOCH
        invariant forall s: nat :: dep * SLOTS_PER_EPOCH <= s < slot ==> s in cache.blocks
        invariant cache.states == before && OnlyAdds(old(cache.View()), cache.View(), 0)
      {
        if slot !in cache.blocks { cache.DownloadBlock(slot); }
      }
      cache.DownloadState(dep);
    }

    /** Missing states among the epoch and the two before it are fetched again. */
    method EnsureDependencyStates(epoch: nat)
      requires Valid(cache.View())
      modifies cache
      ensures Valid(cache.View())
      ensures epoch >= initEpoch ==> epoch in cache.states
      ensures epoch >= initEpoch + 1 ==> epoch - 1 in cache.states
      ensures epoch >= initEpoch + 2 ==> epoch - 2 in cache.states
      ensures OnlyAdds(old(cache.View()), cache.View(), 0)
    {
      for k := 0 to 3
        invariant Valid(cache.View()) && OnlyAdds(old(cache.View()), cache.View(), 0)
        invariant forall d: nat :: initEpoch <= d <= epoch < d + k ==> d in cache.states
      {
        if k <= epoch {
          var dep := epoch - k;
          if dep >= initEpoch && dep !in cache.states { FetchState(dep); }
        }
      }
    }

    /** The rows of every block of the epoch that is not the finalized one are deleted and written again,
        from the block in the cache. */
    method CheckBlocks(epoch: nat) returns (blocksChanged: bool)
      requires HasBlocks(cache.blocks, epoch)
      modifies this`rewritten
      ensures blocksChanged <==> BlocksDiffer(cache.node, cache.View(), epoch)
      ensures rewritten == old(rewritten) + Differing(cache.node, cache.blocks, epoch * SLOTS_PER_EPOCH, (epoch + 1) * SLOTS_PER_EPOCH)
    {
      blocksChanged := false;
      for slot := epoch * SLOTS_PER_EPOCH to (epoch + 1) * SLOTS_PER_EPOCH
        invariant blocksChanged <==> exists s ::
                    epoch * SLOTS_PER_EPOCH <= s < slot && s in cache.blocks && cache.blocks[s].root != cache.node.block(s).root
        invariant rewritten == old(rewritten) + Differing(cache.node, cache.blocks, epoch * SLOTS_PER_EPOCH, slot)
      {
        if cache.node.block(slot).root != cache.blocks[slot].root {
          rewritten := rewritten + [cache.blocks[slot]];
          blocksChanged := true;
        }
      }
    }

    /** The state is replaced if its root differs, and the metrics are computed again once all the states
        they wait for are there. */
    method Reprocess(epoch: nat, stateRootChanged: bool)
      requires Valid(cache.View()) && epoch in cache.states
      modifies this`reprocessed, cache
      ensures StateReplaced(old(cache.View()), cache.View(), epoch, stateRootChanged)
      ensures reprocessed == old(reprocessed) + [epoch]
    {
      ghost var first := cache.View();
      if stateRootChanged {
        cache.states := cache.states - {epoch};
        cache.DownloadState(epoch);
      }
      ghost var second := cache.View();
      EnsureDependencyStates(epoch);
      AddsAfterReplacing(first, second, cache.View(), epoch);
      reprocessed := reprocessed + [epoch];
    }

    /** The blocks of one epoch, and the blocks its state points to. */
    method CheckAndRefreshBlocks(epoch: nat, ghost start: Cache) returns (blocksChanged: bool)
      requires Valid(cache.View()) && OnlyAdds(start, cache.View(), epoch) && epoch in start.states && Valid(start)
      modifies this`rewritten, cache`states
      ensures blocksChanged <==> CachedAndDiffer(cache.node, start, epoch)
      ensures BlocksChecked(cache.node, start, old(cache.View()), cache.View(), epoch)
      ensures rewritten
              == old(rewritten) + Differing(cache.node, start.blocks, epoch * SLOTS_PER_EPOCH, (epoch + 1) * SLOTS_PER_EPOCH)
    {
      blocksChanged := CheckBlocks(epoch);
      SameBlocks(cache.node, start, cache.View(), epoch, epoch);
      SameRoots(cache.node, start, cache.View(), epoch, epoch);
      if blocksChanged { cache.RefreshStateBlocks(epoch); }
    }

    /** One cached epoch below the finalized one. */
    method CheckEpoch(epoch: nat, changed: set<nat>, ghost start: Cache) returns (changed': set<nat>)
      requires Valid(cache.View()) && OnlyAdds(start, cache.View(), epoch) && epoch in start.states && Valid(start)
      requires forall d: nat :: d < epoch ==> (d in changed <==> CachedAndDiffer(cache.node, start, d))
      modifies this, cache
      ensures EpochChecked(cache.node, start, old(cache.View()), cache.View(), epoch, changed, changed',
                           old(reprocessed), reprocessed, old(rewritten), rewritten)
    {
      ghost var before := cache.View();
      var blocksChanged := CheckAndRefreshBlocks(epoch, start);
      ghost var mid := cache.View();
      changed' := if blocksChanged then changed + {epoch} else changed;
      var stateRootChanged := cache.node.stateRoot(epoch) != cache.states[epoch].root;
      var needsReprocess := stateRootChanged || blocksChanged;
      if epoch >= 1 && epoch - 1 in changed' { needsReprocess := true; }
      if epoch >= 2 && epoch - 2 in changed' { needsReprocess := true; }
      assert needsReprocess <==> MustReprocess(cache.node, start, epoch + 1, epoch);
      if needsReprocess {
        Reprocess(epoch, stateRootChanged);
        ReplacedAfterBlocks(cache.node, start, before, mid, cache.View(), epoch, stateRootChanged);
      }
    }

    /** With no failing request: the blocks written again are exactly the cached ones that differ, and the
        epochs computed again exactly those that must be, in ascending order; states whose blocks differ
        point to those same blocks; what remains is the grown cache without the epochs that start below
        the bound. */
    method AdvanceFinalized(newFinalizedSlot: nat) returns (ghost stateKeys: seq<nat>, ghost grown: Cache)
      requires Valid(cache.View())
      modifies this, cache
      ensures Lists(stateKeys, old(cache.states).Keys)
      ensures reprocessed
              == old(reprocessed) + Due(cache.node, old(cache.View()), newFinalizedSlot / SLOTS_PER_EPOCH, stateKeys, |stateKeys|)
      ensures rewritten
              == old(rewritten) + AllDiffering(cache.node, old(cache.View()), newFinalizedSlot / SLOTS_PER_EPOCH, stateKeys, |stateKeys|)
      ensures OnlyAdds(old(cache.View()), grown, newFinalizedSlot / SLOTS_PER_EPOCH)
      ensures Refreshed(cache.node, old(cache.View()), grown, newFinalizedSlot / SLOTS_PER_EPOCH, stateKeys, |stateKeys|)
      ensures cache.states == KeptStates(grown.states, newFinalizedSlot)
      ensures cache.blocks == KeptBlocks(grown.states, grown.blocks, newFinalizedSlot) && Valid(cache.View())
    {
      var finalizedEpoch := newFinalizedSlot / SLOTS_PER_EPOCH;
      var keys := cache.SortedKeys();
      stateKeys := keys;
      ghost var start, log, rows := cache.View(), reprocessed, rewritten;
      var changed: set<nat> := {};
      for i := 0 to |keys|
        invariant CheckedSoFar(cache.node, start, cache.View(), finalizedEpoch, keys, i, changed, log, reprocessed, rows, rewritten)
      {
        ghost var before, seen, done, again := cache.View(), changed, reprocessed, rewritten;
        if keys[i] < finalizedEpoch {
          BelowIsDone(cache.node, start, finalizedEpoch, keys, i, changed);
          changed := CheckEpoch(keys[i], changed, start);
          KeyChecked(cache.node, start, before, cache.View(), finalizedEpoch, keys, i, seen, changed,
                     log, done, reprocessed, rows, again, rewritten);
        } else {
          KeySkipped(cache.node, start, cache.View(), finalizedEpoch, keys, i, changed, log, reprocessed, rows, rewritten);
        }
      }
      grown := cache.View();
      cache.CleanUpTo(newFinalizedSlot);
      CleanedKeepsValid(grown, cache.View(), newFinalizedSlot);
    }
  }
}
