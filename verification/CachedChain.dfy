/** The cache of blocks and states that the routines share, and its eviction.

    A request to the node always succeeds here; what it answers is given by functions. */
module CachedChain {
  import opened Chain

  datatype Block = Block(slot: nat, root: Bytes, proposed: bool)

  /** A cached state with the roots of the blocks it points to. */
  datatype CachedState = CachedState(root: Bytes, blockRoots: seq<Bytes>)

  datatype Cache = Cache(blocks: map<nat, Block>, states: map<nat, CachedState>)

  /** What the node answers. */
  datatype Node = Node(block: nat -> Block, stateRoot: nat -> Bytes)

  predicate HasBlocks(blocks: map<nat, Block>, epoch: nat) {
    forall slot :: epoch * SLOTS_PER_EPOCH <= slot < (epoch + 1) * SLOTS_PER_EPOCH ==> slot in blocks
  }

  /** A state is cached only once its blocks are. */
  ghost predicate Valid(c: Cache) { forall epoch: nat :: epoch in c.states ==> HasBlocks(c.blocks, epoch) }

  /** The roots of the cached blocks of an epoch. */
  function CurrentRoots(blocks: map<nat, Block>, epoch: nat): seq<Bytes> {
    seq(SLOTS_PER_EPOCH, k requires 0 <= k < SLOTS_PER_EPOCH =>
      var slot := epoch * SLOTS_PER_EPOCH + k;
      if slot in blocks then blocks[slot].root else "")
  }

  ghost predicate Ascending(s: seq<nat>) { forall i, j :: 0 <= i < j < |s| ==> s[i] < s[j] }

  ghost predicate Lists(keys: seq<nat>, s: set<nat>) { Ascending(keys) && forall k: nat :: k in keys <==> k in s }

  // ------------------------------------------------------------ eviction

  /** The epoch's state is cached and starts below the bound. */
  predicate Evicted(c: Cache, maxSlot: nat, epoch: nat) { epoch in c.states && epoch * SLOTS_PER_EPOCH < maxSlot }

  /** Exactly the states that start below the bound are gone, and exactly the blocks of their slots. */
  ghost predicate Cleaned(before: Cache, after: Cache, maxSlot: nat) {
    && (forall epoch: nat :: epoch in after.states <==> epoch in before.states && !Evicted(before, maxSlot, epoch))
    && (forall slot: nat :: slot in after.blocks <==>
          slot in before.blocks && !Evicted(before, maxSlot, slot / SLOTS_PER_EPOCH))
    && Kept(before, after)
  }

  /** What is still there is unchanged. */
  ghost predicate Kept(before: Cache, after: Cache) {
    && (forall epoch: nat :: epoch in after.states ==> epoch in before.states && after.states[epoch] == before.states[epoch])
    && (forall slot: nat :: slot in after.blocks ==> slot in before.blocks && after.blocks[slot] == before.blocks[slot])
  }

  /** The same, with only these epochs considered yet. */
  ghost predicate CleanedSome(before: Cache, after: Cache, maxSlot: nat, done: seq<nat>) {
    && (forall epoch: nat :: epoch in after.states <==>
          epoch in before.states && !(epoch in done && Evicted(before, maxSlot, epoch)))
    && (forall slot: nat :: slot in after.blocks <==>
          slot in before.blocks && !(slot / SLOTS_PER_EPOCH in done && Evicted(before, maxSlot, slot / SLOTS_PER_EPOCH)))
    && Kept(before, after)
  }

  /** One state and the blocks of its slots are gone. */
  ghost predicate Dropped(before: Cache, after: Cache, epoch: nat) {
    && after.states == before.states - {epoch}
    && (forall slot: nat :: slot in after.blocks <==>
          slot in before.blocks && !(epoch * SLOTS_PER_EPOCH <= slot < (epoch + 1) * SLOTS_PER_EPOCH))
    && (forall slot: nat :: slot in after.blocks ==> slot in before.blocks && after.blocks[slot] == before.blocks[slot])
  }

  lemma CleanedStep(before: Cache, now: Cache, after: Cache, maxSlot: nat, done: seq<nat>, epoch: nat)
    requires CleanedSome(before, now, maxSlot, done) && epoch in before.states && epoch !in done
    requires if epoch * SLOTS_PER_EPOCH < maxSlot then Dropped(now, after, epoch) else after == now
    ensures CleanedSome(before, after, maxSlot, done + [epoch])
  {
    forall slot: nat
      ensures slot / SLOTS_PER_EPOCH == epoch <==> epoch * SLOTS_PER_EPOCH <= slot < (epoch + 1) * SLOTS_PER_EPOCH
    {
      SlotsOfEpoch(epoch, slot);
    }
  }

  lemma KeyIsNew(keys: seq<nat>, s: set<nat>, i: nat)
    requires Lists(keys, s) && i < |keys|
    ensures keys[i] in s && keys[i] !in keys[..i] && keys[..i + 1] == keys[..i] + [keys[i]]
  {
    assert keys[i] in keys;
  }

  lemma AllKeysCleaned(before: Cache, after: Cache, maxSlot: nat, keys: seq<nat>)
    requires Lists(keys, before.states.Keys) && CleanedSome(before, after, maxSlot, keys)
    ensures Cleaned(before, after, maxSlot)
  {
  }

  /** The cached states that start at or above the bound. */
  function KeptStates(states: map<nat, CachedState>, maxSlot: nat): map<nat, CachedState> {
    map epoch | epoch in states && epoch * 32 >= maxSlot :: states[epoch]
  }

  /** The cached blocks of epochs whose state is not cached or starts at or above the bound. */
  function KeptBlocks(states: map<nat, CachedState>, blocks: map<nat, Block>, maxSlot: nat): map<nat, Block> {
    map slot | slot in blocks && (slot / 32 !in states || slot / 32 * 32 >= maxSlot) :: blocks[slot]
  }

  /** What is left is exactly that, unchanged. */
  lemma CleanedPlainly(before: Cache, after: Cache, maxSlot: nat)
    requires Cleaned(before, after, maxSlot)
    ensures after.states == KeptStates(before.states, maxSlot) && after.blocks == KeptBlocks(before.states, before.blocks, maxSlot)
  {
  }

  lemma CleanedKeepsValid(before: Cache, after: Cache, maxSlot: nat)
    requires Valid(before) && Cleaned(before, after, maxSlot)
    ensures Valid(after)
  {
    forall epoch: nat | epoch in after.states ensures HasBlocks(after.blocks, epoch) {
      assert HasBlocks(before.blocks, epoch);
      forall slot | epoch * SLOTS_PER_EPOCH <= slot < (epoch + 1) * SLOTS_PER_EPOCH ensures slot in after.blocks {
        SlotsOfEpoch(epoch, slot);
      }
    }
  }

  ghost predicate Least(s: set<nat>, k: nat) { k in s && forall j :: j in s ==> k <= j }

  lemma LeastExists(s: set<nat>) returns (k: nat)
    requires s != {}
    ensures Least(s, k)
  {
    var x :| x in s;
    k := x;
    if s != {x} {
      var j := LeastExists(s - {x});
      assert forall y :: y in s ==> y == x || y in s - {x};
      if j < x { k := j; }
    }
  }

  method SortAscending(s: set<nat>) returns (keys: seq<nat>)
    ensures Lists(keys, s)
  {
    keys := [];
    var rest := s;
    while rest != {}
      invariant rest <= s && Lists(keys, s - rest)
      invariant forall k: nat, j: nat :: k in keys && j in rest ==> k < j
      decreases |rest|
    {
      ghost var least := LeastExists(rest);
      var k :| k in rest && forall j :: j in rest ==> k <= j;
      assert forall i :: 0 <= i < |keys| ==> keys[i] in keys;
      keys := keys + [k];
      rest := rest - {k};
    }
  }

  class ChainCache {
    const node: Node
    var blocks: map<nat, Block>
    var states: map<nat, CachedState>

    ghost function View(): Cache
      reads this
    {
      Cache(blocks, states)
    }

    method DownloadBlock(slot: nat)
      modifies this`blocks
      ensures blocks == old(blocks)[slot := node.block(slot)]
    {
      blocks := blocks[slot := node.block(slot)];
    }

    method CollectRoots(epoch: nat) returns (roots: seq<Bytes>)
      requires HasBlocks(blocks, epoch)
      ensures roots == CurrentRoots(blocks, epoch)
    {
      roots := [];
      for k := 0 to SLOTS_PER_EPOCH
        invariant |roots| == k
        invariant forall j :: 0 <= j < k ==> roots[j] == blocks[epoch * SLOTS_PER_EPOCH + j].root
      {
        roots := roots + [blocks[epoch * SLOTS_PER_EPOCH + k].root];
      }
    }

    /** The state is given the blocks that are in the cache now. */
    method DownloadState(epoch: nat)
      requires HasBlocks(blocks, epoch)
      modifies this`states
      ensures states == old(states)[epoch := CachedState(node.stateRoot(epoch), CurrentRoots(blocks, epoch))]
    {
      var roots := CollectRoots(epoch);
      states := states[epoch := CachedState(node.stateRoot(epoch), roots)];
    }

    /** A cached state is given the blocks that are in the cache now. */
    method RefreshStateBlocks(epoch: nat)
      requires HasBlocks(blocks, epoch) && epoch in states
      modifies this`states
      ensures states == old(states)[epoch := old(states)[epoch].(blockRoots := CurrentRoots(blocks, epoch))]
    {
      var roots := CollectRoots(epoch);
      states := states[epoch := states[epoch].(blockRoots := roots)];
    }

    method SortedKeys() returns (keys: seq<nat>)
      ensures Lists(keys, states.Keys)
    {
      keys := SortAscending(states.Keys);
    }

    /** A state and the blocks of its slots. */
    method DropEpoch(epoch: nat)
      modifies this`states, this`blocks
      ensures Dropped(old(View()), View(), epoch)
    {
      states := states - {epoch};
      ghost var before, left := blocks, states;
      for slot := epoch * SLOTS_PER_EPOCH to (epoch + 1) * SLOTS_PER_EPOCH
        invariant states == left
        invariant forall s: nat :: s in blocks <==> s in before && !(epoch * SLOTS_PER_EPOCH <= s < slot)
        invariant forall s: nat :: s in blocks ==> s in before && blocks[s] == before[s]
      {
        blocks := blocks - {slot};
      }
    }

    /** One cached epoch, kept if it starts at or above the bound. */
    method CleanEpoch(epoch: nat, maxSlot: nat, ghost start: Cache, ghost done: seq<nat>)
      requires CleanedSome(start, View(), maxSlot, done) && epoch in start.states && epoch !in done
      modifies this`states, this`blocks
      ensures CleanedSome(start, View(), maxSlot, done + [epoch])
    {
      ghost var before := View();
      if epoch * SLOTS_PER_EPOCH < maxSlot { DropEpoch(epoch); }
      CleanedStep(start, before, View(), maxSlot, done, epoch);
    }

    /** States that start below the bound, and all blocks of their epochs. */
    method CleanUpTo(maxSlot: nat)
      modifies this`states, this`blocks
      ensures Cleaned(old(View()), View(), maxSlot)
      ensures states == KeptStates(old(states), maxSlot) && blocks == KeptBlocks(old(states), old(blocks), maxSlot)
    {
      var keys := SortedKeys();
      ghost var start := View();
      for i := 0 to |keys|
        invariant CleanedSome(start, View(), maxSlot, keys[..i])
      {
        KeyIsNew(keys, start.states.Keys, i);
        CleanEpoch(keys[i], maxSlot, start, keys[..i]);
      }
      assert keys[..|keys|] == keys;
      AllKeysCleaned(start, View(), maxSlot, keys);
      CleanedPlainly(start, View(), maxSlot);
    }
  }
}
