/** Missed slots of an epoch, read off the ring of block roots of the state at its last slot, and the
    sync committee rewards that depend on how many there are. */
module MissedBlocks {
  import opened Chain

  // ------------------------------------------------------------ the chain behind the ring

  /** Which slots have a block, and the root of each block. The genesis block is at slot 0. */
  datatype Blocks = Blocks(proposed: nat -> bool, root: nat -> Bytes)

  const ZERO_ROOT: Bytes := ""

  /** Roots are distinct, and none is the zero that fills entries never written. */
  ghost predicate DistinctRoots(chain: Blocks) {
    && chain.proposed(0)
    && (forall s: nat, t: nat :: s != t ==> chain.root(s) != chain.root(t))
    && (forall s: nat :: chain.root(s) != ZERO_ROOT)
  }

  /** The slot of the latest block at or before s. */
  function Latest(chain: Blocks, s: nat): (latest: nat)
    ensures latest <= s
  {
    if s == 0 || chain.proposed(s) then s else Latest(chain, s - 1)
  }

  /** What the protocol records for slot s: the root of the latest block; zero before the first slot. */
  function RootAt(chain: Blocks, s: int): Bytes { if s < 0 then ZERO_ROOT else chain.root(Latest(chain, s)) }

  /** The place of a slot in the ring: the slot modulo the ring's size. */
  function Place(s: int): (i: nat)
    ensures i < SLOTS_PER_HISTORICAL_ROOT
    decreases s < 0, if s < 0 then -s else s
  {
    if s < 0 then Place(s + SLOTS_PER_HISTORICAL_ROOT)
    else if s < SLOTS_PER_HISTORICAL_ROOT then s
    else Place(s - SLOTS_PER_HISTORICAL_ROOT)
  }

  lemma {:induction false} PlaceIs(s: int)
    ensures Place(s) == s % SLOTS_PER_HISTORICAL_ROOT
    decreases s < 0, if s < 0 then -s else s
  {
    if s < 0 { PlaceIs(s + SLOTS_PER_HISTORICAL_ROOT); }
    else if s >= SLOTS_PER_HISTORICAL_ROOT { PlaceIs(s - SLOTS_PER_HISTORICAL_ROOT); }
  }

  /** The ring of a state at slot last holds the roots of the slots before it, each at its slot modulo
      the ring's size. */
  ghost predicate RingHolds(chain: Blocks, ring: seq<Bytes>, last: nat) {
    && |ring| == SLOTS_PER_HISTORICAL_ROOT
    && forall s: int :: last - SLOTS_PER_HISTORICAL_ROOT <= s < last ==> ring[Place(s)] == RootAt(chain, s)
  }

  /** The empty slots in [from, until), in order. */
  function EmptySlots(chain: Blocks, from: nat, until: nat): seq<nat>
    requires from <= until
  {
    if from == until then []
    else if chain.proposed(until - 1) then EmptySlots(chain, from, until - 1)
    else EmptySlots(chain, from, until - 1) + [until - 1]
  }

  /** They are ascending, and they are all the empty ones. */
  lemma {:induction false} EmptySlotsExactly(chain: Blocks, from: nat, until: nat)
    requires from <= until
    ensures var slots := EmptySlots(chain, from, until);
            && (forall s :: s in slots <==> from <= s < until && !chain.proposed(s))
            && (forall i, j :: 0 <= i < j < |slots| ==> slots[i] < slots[j])
  {
    if from < until {
      EmptySlotsExactly(chain, from, until - 1);
      var before := EmptySlots(chain, from, until - 1);
      assert forall i :: 0 <= i < |before| ==> before[i] in before;
    }
  }

  /** A repeated root is an empty slot, and the other way round. */
  lemma RepeatsExactlyWhenEmpty(chain: Blocks, s: nat)
    requires DistinctRoots(chain)
    ensures RootAt(chain, s) == RootAt(chain, s - 1) <==> !chain.proposed(s)
  {
    if s > 0 { assert Latest(chain, s - 1) <= s - 1; }
  }

  /** The slots of one epoch are consecutive in the ring; the entry before the first may be at its end. */
  lemma EpochInRing(epoch: nat, first: nat, k: nat)
    requires k < SLOTS_PER_EPOCH && first == epoch * SLOTS_PER_EPOCH
    ensures Place(first + k) == Place(first) + k
    ensures Place(first + k - 1) == if Place(first) + k == 0 then SLOTS_PER_HISTORICAL_ROOT - 1 else Place(first) + k - 1
    decreases epoch
  {
    if epoch >= 256 { EpochInRing(epoch - 256, first - SLOTS_PER_HISTORICAL_ROOT, k); }
  }

  /** The root of the k-th slot of the epoch repeats the one before it in the ring exactly when the slot
      is empty. */
  lemma RepeatsInRing(chain: Blocks, ring: seq<Bytes>, epoch: nat, first: nat, k: nat)
    requires k < SLOTS_PER_EPOCH - 1 && first == epoch * SLOTS_PER_EPOCH
    requires DistinctRoots(chain) && RingHolds(chain, ring, first + SLOTS_PER_EPOCH - 1)
    ensures var i := Place(first) + k;
            && i < |ring| == SLOTS_PER_HISTORICAL_ROOT
            && ((if i == 0 then ring[SLOTS_PER_HISTORICAL_ROOT - 1] else ring[i - 1]) == ring[i] <==> !chain.proposed(first + k))
  {
    EpochInRing(epoch, first, k);
    assert ring[Place(first + k)] == RootAt(chain, first + k);
    assert ring[Place(first + k - 1)] == RootAt(chain, first + k - 1);
    RepeatsExactlyWhenEmpty(chain, first + k);
  }

  lemma EpochPlaces(epoch: nat, first: nat)
    requires first == epoch * SLOTS_PER_EPOCH
    ensures first % SLOTS_PER_HISTORICAL_ROOT == Place(first)
    ensures (first + SLOTS_PER_EPOCH - 1) % SLOTS_PER_HISTORICAL_ROOT == Place(first) + SLOTS_PER_EPOCH - 1
  {
    PlaceIs(first);
    PlaceIs(first + SLOTS_PER_EPOCH - 1);
    EpochInRing(epoch, first, SLOTS_PER_EPOCH - 1);
  }

  /** The list of missed slots is the ascending list of empty slots of the epoch, the last one included,
      wherever in the ring the epoch lies. */
  method TrackMissingBlocks(ghost chain: Blocks, ring: seq<Bytes>, epoch: nat, latestHeaderSlot: nat) returns (missed: seq<nat>)
    requires DistinctRoots(chain) && RingHolds(chain, ring, epoch * SLOTS_PER_EPOCH + SLOTS_PER_EPOCH - 1)
    requires latestHeaderSlot == Latest(chain, epoch * SLOTS_PER_EPOCH + SLOTS_PER_EPOCH - 1)
    ensures missed == EmptySlots(chain, epoch * SLOTS_PER_EPOCH, (epoch + 1) * SLOTS_PER_EPOCH)
  {
    var firstSlot := epoch * SLOTS_PER_EPOCH;
    var lastSlot := firstSlot + SLOTS_PER_EPOCH - 1;
    var firstIndex, lastIndex := firstSlot % SLOTS_PER_HISTORICAL_ROOT, lastSlot % SLOTS_PER_HISTORICAL_ROOT;
    EpochPlaces(epoch, firstSlot);
    missed := [];
    var i := firstIndex;
    while i < lastIndex
      invariant firstIndex <= i <= lastIndex
      invariant missed == EmptySlots(chain, firstSlot, firstSlot + (i - firstIndex))
    {
      ghost var k := i - firstIndex;
      RepeatsInRing(chain, ring, epoch, firstSlot, k);
      var previousItem := if i == 0 then ring[SLOTS_PER_HISTORICAL_ROOT - 1] else ring[i - 1];
      var item := ring[i];
      if previousItem == item { missed := missed + [i - firstIndex + firstSlot]; }
      i := i + 1;
    }
    if latestHeaderSlot != lastSlot { missed := missed + [lastSlot]; }
  }

  // ------------------------------------------------------------ sync committee rewards

  predicate Set(bits: seq<bool>, i: nat) { i < |bits| && bits[i] }

  /** Places of v in the committee, up to the k-th. */
  function Multiplicity(committee: seq<nat>, k: nat, v: nat): nat
    requires k <= |committee|
  {
    if k == 0 then 0 else Multiplicity(committee, k - 1, v) + if committee[k - 1] == v then 1 else 0
  }

  lemma {:induction false} MultiplicityIsSize(committee: seq<nat>, k: nat, v: nat)
    requires k <= |committee|
    ensures Multiplicity(committee, k, v) == |set i | 0 <= i < k && committee[i] == v|
  {
    if k > 0 {
      MultiplicityIsSize(committee, k - 1, v);
      var before, all := set i | 0 <= i < k - 1 && committee[i] == v, set i | 0 <= i < k && committee[i] == v;
      if committee[k - 1] == v { assert all == before + {k - 1}; } else { assert all == before; }
    }
  }

  /** Bits set for v in one block, up to the k-th. */
  function Participations(committee: seq<nat>, bits: seq<bool>, k: nat, v: nat): nat
    requires k <= |committee|
  {
    if k == 0 then 0
    else Participations(committee, bits, k - 1, v) + if Set(bits, k - 1) && committee[k - 1] == v then 1 else 0
  }

  function AllParticipations(committee: seq<nat>, blocks: seq<seq<bool>>, v: nat): nat {
    if blocks == [] then 0
    else AllParticipations(committee, blocks[..|blocks| - 1], v)
         + Participations(committee, blocks[|blocks| - 1], |committee|, v)
  }

  /** Blocks whose aggregate has any bit set. */
  function Participating(blocks: seq<seq<bool>>): nat {
    if blocks == [] then 0
    else Participating(blocks[..|blocks| - 1]) + if true in blocks[|blocks| - 1] then 1 else 0
  }

  function At8(m: map<nat, nat>, v: nat): nat { if v in m then m[v] else 0 }

  /** The map holds these counts modulo the width of its values. */
  ghost predicate Counts8(m: map<nat, nat>, committee: seq<nat>, blocks: seq<seq<bool>>, bits: seq<bool>, k: nat)
    requires k <= |committee|
  {
    forall v: nat :: At8(m, v) == (AllParticipations(committee, blocks, v) + Participations(committee, bits, k, v)) % 256
  }

  lemma CountStep(n: nat)
    ensures (n % 256 + 1) % 256 == (n + 1) % 256
  {
  }

  /** The bits of one block. */
  method CountBlock(participation: map<nat, nat>, committee: seq<nat>, ghost before: seq<seq<bool>>, bits: seq<bool>)
    returns (after: map<nat, nat>)
    requires |bits| <= |committee| && Counts8(participation, committee, before, bits, 0)
    ensures Counts8(after, committee, before, bits, |committee|)
  {
    after := participation;
    for i := 0 to |bits|
      invariant Counts8(after, committee, before, bits, i)
    {
      if bits[i] {
        var v := committee[i];
        CountStep(AllParticipations(committee, before, v) + Participations(committee, bits, i, v));
        after := after[v := (At8(after, v) + 1) % 256];
      }
    }
    forall v: nat ensures Participations(committee, bits, |committee|, v) == Participations(committee, bits, |bits|, v) {
      NoBitsBeyond(committee, bits, |committee|, v);
    }
  }

  /** Participations of each member over the blocks, as uint8. */
  method CountParticipations(committee: seq<nat>, blocks: seq<seq<bool>>) returns (participation: map<nat, nat>)
    requires forall b :: b in blocks ==> |b| <= |committee|
    ensures forall v: nat :: At8(participation, v) == AllParticipations(committee, blocks, v) % 256
  {
    participation := map[];
    for b := 0 to |blocks|
      invariant Counts8(participation, committee, blocks[..b], [], 0)
    {
      assert blocks[b] in blocks && blocks[..b + 1][..b] == blocks[..b];
      participation := CountBlock(participation, committee, blocks[..b], blocks[b]);
    }
    assert blocks[..|blocks|] == blocks;
  }

  /** The maximum reward of each member, once per place in the committee. */
  method MaxSyncRewards(committee: seq<nat>, participantReward: nat, missed: nat) returns (maxRewards: map<nat, nat>)
    requires missed <= SLOTS_PER_EPOCH
    ensures forall v: nat ::
              At8(maxRewards, v) == Multiplicity(committee, |committee|, v) * (participantReward * (SLOTS_PER_EPOCH - missed))
  {
    maxRewards := map[];
    var maxSyncCommitteeReward := participantReward * (SLOTS_PER_EPOCH - missed);
    for k := 0 to |committee|
      invariant forall v: nat :: At8(maxRewards, v) == Multiplicity(committee, k, v) * maxSyncCommitteeReward
    {
      Times(Multiplicity(committee, k, committee[k]), maxSyncCommitteeReward);
      maxRewards := maxRewards[committee[k] := At8(maxRewards, committee[k]) + maxSyncCommitteeReward];
    }
  }

  lemma {:induction false} NoBitsBeyond(committee: seq<nat>, bits: seq<bool>, k: nat, v: nat)
    requires |bits| <= k <= |committee|
    ensures Participations(committee, bits, k, v) == Participations(committee, bits, |bits|, v)
  {
    if k > |bits| { NoBitsBeyond(committee, bits, k - 1, v); }
  }

  lemma {:induction false} BlockParticipationBounded(committee: seq<nat>, bits: seq<bool>, k: nat, v: nat)
    requires k <= |committee|
    ensures Participations(committee, bits, k, v) <= Multiplicity(committee, k, v)
    ensures true !in bits ==> Participations(committee, bits, k, v) == 0
  {
    if k > 0 { BlockParticipationBounded(committee, bits, k - 1, v); }
  }

  lemma OneMoreBlock(all: nat, x: nat, n: nat, m: nat)
    requires all <= n * m && x <= m
    ensures all + x <= (n + 1) * m
  {
  }

  lemma {:induction false} ParticipationBounded(committee: seq<nat>, blocks: seq<seq<bool>>, v: nat, m: nat)
    requires m == Multiplicity(committee, |committee|, v)
    ensures AllParticipations(committee, blocks, v) <= Participating(blocks) * m
  {
    if blocks != [] {
      var rest, bits := blocks[..|blocks| - 1], blocks[|blocks| - 1];
      ParticipationBounded(committee, rest, v, m);
      BlockParticipationBounded(committee, bits, |committee|, v);
      var x := Participations(committee, bits, |committee|, v);
      if true in bits { OneMoreBlock(AllParticipations(committee, rest, v), x, Participating(rest), m); }
    }
  }

  lemma WorthAtMost(all: nat, m: nat, blocks: nat, slots: nat, reward: nat)
    requires all <= blocks * m && blocks <= slots
    ensures all <= m * slots && all % 256 * reward <= m * (reward * slots)
  {
    ProductGrows(blocks, slots, m);
    Reorder(m, slots, 1);
    ProductGrows(all % 256, m * slots, reward);
    Reorder(m, slots, reward);
  }

  lemma ProductGrows(a: nat, b: nat, x: nat)
    requires a <= b
    ensures a * x <= b * x && x * a <= x * b
  {
  }

  lemma Reorder(a: nat, b: nat, c: nat)
    ensures a * b * c == a * (c * b)
  {
  }

  /** No member's counted participations are worth more than its maximum, whether or not the 8-bit
      counter wrapped; it did not if the member could take part fewer than 256 times. */
  lemma CountedWithinMaximum(committee: seq<nat>, blocks: seq<seq<bool>>, participantReward: nat, missed: nat, v: nat)
    requires missed <= SLOTS_PER_EPOCH && Participating(blocks) <= SLOTS_PER_EPOCH - missed
    ensures var counted := AllParticipations(committee, blocks, v) % 256;
            var m := Multiplicity(committee, |committee|, v);
            && counted * participantReward <= m * (participantReward * (SLOTS_PER_EPOCH - missed))
            && (m * (SLOTS_PER_EPOCH - missed) < 256 ==> counted == AllParticipations(committee, blocks, v))
  {
    ParticipationBounded(committee, blocks, v, Multiplicity(committee, |committee|, v));
    WorthAtMost(AllParticipations(committee, blocks, v), Multiplicity(committee, |committee|, v),
                Participating(blocks), SLOTS_PER_EPOCH - missed, participantReward);
  }

  /** Blocks of an epoch's slots, with aggregates only where a block was proposed. */
  ghost predicate AggregatesOf(chain: Blocks, epoch: nat, blocks: seq<seq<bool>>) {
    |blocks| == SLOTS_PER_EPOCH
    && forall i :: 0 <= i < SLOTS_PER_EPOCH && true in blocks[i] ==> chain.proposed(epoch * SLOTS_PER_EPOCH + i)
  }

  lemma {:induction false} ParticipatingAreProposed(chain: Blocks, first: nat, blocks: seq<seq<bool>>)
    requires forall i :: 0 <= i < |blocks| && true in blocks[i] ==> chain.proposed(first + i)
    ensures Participating(blocks) + |EmptySlots(chain, first, first + |blocks|)| <= |blocks|
  {
    if blocks != [] { ParticipatingAreProposed(chain, first, blocks[..|blocks| - 1]); }
  }

  /** With the missed slots found from the ring, every member's participations in the epoch's own blocks
      stay within its maximum reward. */
  lemma ParticipationsWithinMaximum(chain: Blocks, epoch: nat, committee: seq<nat>, blocks: seq<seq<bool>>,
                                    participantReward: nat, missed: seq<nat>, v: nat)
    requires AggregatesOf(chain, epoch, blocks)
    requires missed == EmptySlots(chain, epoch * SLOTS_PER_EPOCH, (epoch + 1) * SLOTS_PER_EPOCH)
    ensures |missed| <= SLOTS_PER_EPOCH
    ensures AllParticipations(committee, blocks, v) % 256 * participantReward
            <= Multiplicity(committee, |committee|, v) * (participantReward * (SLOTS_PER_EPOCH - |missed|))
  {
    ParticipatingAreProposed(chain, epoch * SLOTS_PER_EPOCH, blocks);
    CountedWithinMaximum(committee, blocks, participantReward, |missed|, v);
  }
}
