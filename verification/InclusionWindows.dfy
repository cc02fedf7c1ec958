/** How late the votes of an epoch were included, and which flags a validator could still have earned,
    by the rules in force since Deneb: an attestation may be included until the end of the next
    epoch. */
module InclusionWindows {
  import opened Chain
  import opened Attestations
  import ProposerRewards

  // ------------------------------------------------------------ inclusion delays

  datatype Inclusion = Inclusion(slot: nat, indices: seq<nat>)

  /** A block with the attestations it includes; a missed one includes none. */
  datatype IncludingBlock = IncludingBlock(slot: nat, attestations: seq<Inclusion>)

  /** The last slot in which a vote for the given slot may be included is this many slots later. */
  function MaxInclusionDelay(attSlot: nat): (delay: nat)
    ensures attSlot + delay == (attSlot / SLOTS_PER_EPOCH + 2) * SLOTS_PER_EPOCH - 1
  {
    SLOTS_PER_EPOCH + (SLOTS_PER_EPOCH - attSlot % SLOTS_PER_EPOCH - 1)
  }

  /** Attestation a of block b is a vote of validator v in the previous epoch. */
  predicate Votes(blocks: seq<IncludingBlock>, prevEpoch: nat, v: nat, b: nat, a: nat) {
    && b < |blocks| && a < |blocks[b].attestations|
    && SlotInEpoch(blocks[b].attestations[a].slot, prevEpoch)
    && v in blocks[b].attestations[a].indices
  }

  function DelayOf(blocks: seq<IncludingBlock>, b: nat, a: nat): int
    requires b < |blocks| && a < |blocks[b].attestations|
  {
    blocks[b].slot - blocks[b].attestations[a].slot
  }

  /** Delay of the first vote of v among the first b blocks and the first a attestations of the next. */
  function FirstDelay(blocks: seq<IncludingBlock>, prevEpoch: nat, v: nat, b: nat, a: nat): Option<int>
    requires b <= |blocks| && (a > 0 ==> b < |blocks| && a <= |blocks[b].attestations|)
    decreases b, a
  {
    if a == 0 then
      if b == 0 then None else FirstDelay(blocks, prevEpoch, v, b - 1, |blocks[b - 1].attestations|)
    else
      var before := FirstDelay(blocks, prevEpoch, v, b, a - 1);
      if before.Some? then before
      else if Votes(blocks, prevEpoch, v, b, a - 1) then Some(DelayOf(blocks, b, a - 1))
      else None
  }

  /** The blocks of two consecutive epochs in order, each attestation included after its slot. */
  ghost predicate TwoEpochs(blocks: seq<IncludingBlock>, prevEpoch: nat) {
    && (forall b, c :: 0 <= b < c < |blocks| ==> blocks[b].slot < blocks[c].slot)
    && (forall b :: 0 <= b < |blocks| ==> blocks[b].slot < (prevEpoch + 2) * SLOTS_PER_EPOCH)
    && (forall b, a :: 0 <= b < |blocks| && 0 <= a < |blocks[b].attestations| ==>
          blocks[b].attestations[a].slot < blocks[b].slot)
  }

  ghost predicate KnownIndices(blocks: seq<IncludingBlock>, n: nat) {
    forall b, a, v :: 0 <= b < |blocks| && 0 <= a < |blocks[b].attestations| && v in blocks[b].attestations[a].indices ==> v < n
  }

  lemma {:induction false} FirstDelayPositive(blocks: seq<IncludingBlock>, prevEpoch: nat, v: nat, b: nat, a: nat)
    requires b <= |blocks| && (a > 0 ==> b < |blocks| && a <= |blocks[b].attestations|)
    requires TwoEpochs(blocks, prevEpoch)
    ensures var d := FirstDelay(blocks, prevEpoch, v, b, a); d.Some? ==> d.value > 0
    decreases b, a
  {
    if a > 0 {
      FirstDelayPositive(blocks, prevEpoch, v, b, a - 1);
    } else if b > 0 {
      FirstDelayPositive(blocks, prevEpoch, v, b - 1, |blocks[b - 1].attestations|);
    }
  }

  /** Zero marks a validator whose vote has not been met. */
  ghost predicate Recorded(delays: seq<int>, blocks: seq<IncludingBlock>, prevEpoch: nat, b: nat, a: nat)
    requires b <= |blocks| && (a > 0 ==> b < |blocks| && a <= |blocks[b].attestations|)
  {
    forall v :: 0 <= v < |delays| ==>
      var d := FirstDelay(blocks, prevEpoch, v, b, a);
      delays[v] == if d.Some? then d.value else 0
  }

  /** The votes of one attestation, its first i places done. */
  method RecordVotes(delays: array<int>, indices: seq<nat>, delay: int)
    requires delay > 0 && forall v :: v in indices ==> v < delays.Length
    modifies delays
    ensures forall v :: 0 <= v < delays.Length ==>
              delays[v] == if old(delays[v]) == 0 && v in indices then delay else old(delays[v])
  {
    for i := 0 to |indices|
      invariant forall v :: 0 <= v < delays.Length ==>
                  delays[v] == if old(delays[v]) == 0 && v in indices[..i] then delay else old(delays[v])
    {
      var v := indices[i];
      assert v in indices && indices[..i + 1] == indices[..i] + [v];
      if delays[v] == 0 { delays[v] := delay; }
    }
    assert indices[..|indices|] == indices;
  }

  /** Every validator gets the delay of its first included vote, or one more than the most if none was. */
  method ProcessInclusionDelays(delays: array<int>, blocks: seq<IncludingBlock>, prevEpoch: nat, attSlots: seq<nat>)
    requires |attSlots| == delays.Length && forall v :: 0 <= v < delays.Length ==> delays[v] == 0
    requires TwoEpochs(blocks, prevEpoch) && KnownIndices(blocks, delays.Length)
    modifies delays
    ensures forall v :: 0 <= v < delays.Length ==>
              var d := FirstDelay(blocks, prevEpoch, v, |blocks|, 0);
              delays[v] == if d.Some? then d.value else MaxInclusionDelay(attSlots[v]) + 1
  {
    for b := 0 to |blocks|
      invariant Recorded(delays[..], blocks, prevEpoch, b, 0)
    {
      for a := 0 to |blocks[b].attestations|
        invariant Recorded(delays[..], blocks, prevEpoch, b, a)
      {
        var attestation := blocks[b].attestations[a];
        if SlotInEpoch(attestation.slot, prevEpoch) {
          forall v: nat ensures var d := FirstDelay(blocks, prevEpoch, v, b, a); d.Some? ==> d.value > 0 {
            FirstDelayPositive(blocks, prevEpoch, v, b, a);
          }
          RecordVotes(delays, attestation.indices, blocks[b].slot - attestation.slot);
        }
      }
    }
    forall v: nat ensures var d := FirstDelay(blocks, prevEpoch, v, |blocks|, 0); d.Some? ==> d.value > 0 {
      FirstDelayPositive(blocks, prevEpoch, v, |blocks|, 0);
    }
    ghost var recorded := delays[..];
    for v := 0 to delays.Length
      invariant forall u :: v <= u < delays.Length ==> delays[u] == recorded[u]
      invariant forall u :: 0 <= u < v ==>
                  delays[u] == if recorded[u] == 0 then MaxInclusionDelay(attSlots[u]) + 1 else recorded[u]
    {
      if delays[v] == 0 { delays[v] := MaxInclusionDelay(attSlots[v]) + 1; }
    }
  }

  /** All votes of v in the epoch are for its one attestation slot. */
  ghost predicate OneSlot(blocks: seq<IncludingBlock>, prevEpoch: nat, v: nat, attSlot: nat) {
    forall b: nat, a: nat :: Votes(blocks, prevEpoch, v, b, a) ==> blocks[b].attestations[a].slot == attSlot
  }

  predicate Earlier(c: nat, e: nat, b: nat, a: nat) { c < b || (c == b && e < a) }

  /** The delay d is that of some vote so far, and no vote so far has a smaller one. */
  ghost predicate LeastSoFar(blocks: seq<IncludingBlock>, prevEpoch: nat, v: nat, b: nat, a: nat, d: Option<int>) {
    && (d.Some? ==> exists c: nat, e: nat :: Votes(blocks, prevEpoch, v, c, e) && Earlier(c, e, b, a) && DelayOf(blocks, c, e) == d.value)
    && forall c: nat, e: nat :: Votes(blocks, prevEpoch, v, c, e) && Earlier(c, e, b, a) ==>
         d.Some? && d.value <= DelayOf(blocks, c, e)
  }

  /** The first inclusion is the earliest: its delay is the least of all. */
  lemma {:induction false} FirstIsLeast(blocks: seq<IncludingBlock>, prevEpoch: nat, v: nat, attSlot: nat, b: nat, a: nat)
    requires b <= |blocks| && (a > 0 ==> b < |blocks| && a <= |blocks[b].attestations|)
    requires TwoEpochs(blocks, prevEpoch) && OneSlot(blocks, prevEpoch, v, attSlot)
    ensures LeastSoFar(blocks, prevEpoch, v, b, a, FirstDelay(blocks, prevEpoch, v, b, a))
    decreases b, a
  {
    if a > 0 {
      FirstIsLeast(blocks, prevEpoch, v, attSlot, b, a - 1);
      LeastStep(blocks, prevEpoch, v, attSlot, b, a, FirstDelay(blocks, prevEpoch, v, b, a - 1));
    } else if b > 0 {
      var n := |blocks[b - 1].attestations|;
      FirstIsLeast(blocks, prevEpoch, v, attSlot, b - 1, n);
      var d := FirstDelay(blocks, prevEpoch, v, b - 1, n);
      if d.Some? {
        var c: nat, e: nat :| Votes(blocks, prevEpoch, v, c, e) && Earlier(c, e, b - 1, n) && DelayOf(blocks, c, e) == d.value;
        assert Earlier(c, e, b, 0);
      }
      forall c: nat, e: nat | Votes(blocks, prevEpoch, v, c, e) && Earlier(c, e, b, 0)
        ensures d.Some? && d.value <= DelayOf(blocks, c, e)
      {
        assert Earlier(c, e, b - 1, n);
      }
    }
  }

  lemma LeastStep(blocks: seq<IncludingBlock>, prevEpoch: nat, v: nat, attSlot: nat, b: nat, a: nat, before: Option<int>)
    requires b < |blocks| && 0 < a <= |blocks[b].attestations|
    requires TwoEpochs(blocks, prevEpoch) && OneSlot(blocks, prevEpoch, v, attSlot)
    requires LeastSoFar(blocks, prevEpoch, v, b, a - 1, before)
    ensures LeastSoFar(blocks, prevEpoch, v, b, a,
                       if before.Some? then before
                       else if Votes(blocks, prevEpoch, v, b, a - 1) then Some(DelayOf(blocks, b, a - 1)) else None)
  {
    if before.Some? {
      var c: nat, e: nat :| Votes(blocks, prevEpoch, v, c, e) && Earlier(c, e, b, a - 1) && DelayOf(blocks, c, e) == before.value;
      assert Earlier(c, e, b, a);
      if Votes(blocks, prevEpoch, v, b, a - 1) { assert blocks[c].slot <= blocks[b].slot; }
    } else if Votes(blocks, prevEpoch, v, b, a - 1) {
      assert Earlier(b, a - 1, b, a);
    }
    forall c: nat, e: nat | Votes(blocks, prevEpoch, v, c, e) && Earlier(c, e, b, a)
      ensures Earlier(c, e, b, a - 1) || (c == b && e == a - 1)
    {
    }
  }

  /** What ends up recorded for a validator with one attestation slot: the least delay over all its
      inclusions, and one more than the window allows exactly when it was never included. */
  lemma RecordedIsLeast(blocks: seq<IncludingBlock>, prevEpoch: nat, v: nat, attSlot: nat, recorded: int)
    requires TwoEpochs(blocks, prevEpoch) && OneSlot(blocks, prevEpoch, v, attSlot) && SlotInEpoch(attSlot, prevEpoch)
    requires var d := FirstDelay(blocks, prevEpoch, v, |blocks|, 0);
             recorded == if d.Some? then d.value else MaxInclusionDelay(attSlot) + 1
    ensures recorded == MaxInclusionDelay(attSlot) + 1 <==> forall b: nat, a: nat :: !Votes(blocks, prevEpoch, v, b, a)
    ensures forall b: nat, a: nat :: Votes(blocks, prevEpoch, v, b, a) ==> recorded <= DelayOf(blocks, b, a)
    ensures recorded == MaxInclusionDelay(attSlot) + 1
            || exists b: nat, a: nat :: Votes(blocks, prevEpoch, v, b, a) && DelayOf(blocks, b, a) == recorded
  {
    FirstIsLeast(blocks, prevEpoch, v, attSlot, |blocks|, 0);
    var d := FirstDelay(blocks, prevEpoch, v, |blocks|, 0);
    if d.Some? {
      var b: nat, a: nat :|
        Votes(blocks, prevEpoch, v, b, a) && Earlier(b, a, |blocks|, 0) && DelayOf(blocks, b, a) == d.value;
      assert blocks[b].slot < (prevEpoch + 2) * SLOTS_PER_EPOCH;
      assert attSlot / SLOTS_PER_EPOCH == prevEpoch;
    }
    forall b: nat, a: nat | Votes(blocks, prevEpoch, v, b, a) ensures Earlier(b, a, |blocks|, 0) {
    }
  }

  /** The same in plain terms: with a as an attestation of the validator's slot in block b. */
  lemma RecordedPlainly(blocks: seq<IncludingBlock>, prevEpoch: nat, v: nat, attSlot: nat, recorded: int)
    requires TwoEpochs(blocks, prevEpoch) && OneSlot(blocks, prevEpoch, v, attSlot) && attSlot / 32 == prevEpoch
    requires var d := FirstDelay(blocks, prevEpoch, v, |blocks|, 0);
             recorded == if d.Some? then d.value else MaxInclusionDelay(attSlot) + 1
    ensures recorded <= 64
    ensures forall b: nat, a: nat ::
              b < |blocks| && a < |blocks[b].attestations| && blocks[b].attestations[a].slot / 32 == prevEpoch
              && v in blocks[b].attestations[a].indices ==>
                recorded <= blocks[b].slot - attSlot && blocks[b].attestations[a].slot == attSlot
    ensures recorded == 64 - attSlot % 32
            || exists b: nat, a: nat ::
                 b < |blocks| && a < |blocks[b].attestations| && blocks[b].attestations[a].slot == attSlot
                 && v in blocks[b].attestations[a].indices && recorded == blocks[b].slot - attSlot
  {
    SlotsOfEpoch(prevEpoch, attSlot);
    RecordedIsLeast(blocks, prevEpoch, v, attSlot, recorded);
    forall b: nat, a: nat | b < |blocks| && a < |blocks[b].attestations| && blocks[b].attestations[a].slot / 32 == prevEpoch
                            && v in blocks[b].attestations[a].indices
      ensures recorded <= blocks[b].slot - attSlot && blocks[b].attestations[a].slot == attSlot
    {
      SlotsOfEpoch(prevEpoch, blocks[b].attestations[a].slot);
      assert Votes(blocks, prevEpoch, v, b, a);
    }
    if recorded != MaxInclusionDelay(attSlot) + 1 {
      var b: nat, a: nat :| Votes(blocks, prevEpoch, v, b, a) && DelayOf(blocks, b, a) == recorded;
      assert blocks[b].slot < (prevEpoch + 2) * SLOTS_PER_EPOCH;
    }
  }

  // ------------------------------------------------------------ flags that could have been earned

  /** Whether each slot of the previous and the current epoch has a proposed block. */
  datatype Proposals = Proposals(prev: seq<bool>, current: seq<bool>)

  predicate ValidProposals(p: Proposals) { |p.prev| == |p.current| == SLOTS_PER_EPOCH }

  /** The slot lies in the two epochs and its block was proposed. */
  predicate Proposed(p: Proposals, prevEpoch: nat, slot: nat)
    requires ValidProposals(p)
  {
    var i := slot - prevEpoch * SLOTS_PER_EPOCH;
    if 0 <= i < SLOTS_PER_EPOCH then p.prev[i]
    else if SLOTS_PER_EPOCH <= i < 2 * SLOTS_PER_EPOCH then p.current[i - SLOTS_PER_EPOCH]
    else false
  }

  /** The last slot whose block could still earn the flag. */
  function LastSlot(prevEpoch: nat, attSlot: nat, flag: Flag): nat {
    match flag {
      case Source => attSlot + MAX_SOURCE_DELAY
      case Target => (prevEpoch + 2) * SLOTS_PER_EPOCH - 1
      case Head => attSlot + MIN_INCLUSION_DELAY
    }
  }

  ghost predicate FlagPossible(p: Proposals, prevEpoch: nat, attSlot: nat, flag: Flag)
    requires ValidProposals(p)
  {
    exists slot: nat :: attSlot < slot <= LastSlot(prevEpoch, attSlot, flag) && Proposed(p, prevEpoch, slot)
  }

  /** A flag could have been earned exactly if some proposed block of the two epochs would have given it to an
      attestation of the slot with the right roots, by the standard's own rules. */
  lemma FlagPossibleExactly(p: Proposals, prevEpoch: nat, a: Attestation, roots: Roots, flag: Flag)
    requires ValidProposals(p) && SlotInEpoch(a.slot, prevEpoch)
    requires a.sourceRoot == roots.justified && a.targetRoot == roots.target && a.beaconRoot == roots.head
    ensures FlagPossible(p, prevEpoch, a.slot, flag)
            <==> exists slot: nat :: slot > a.slot && ProposedAt(p, prevEpoch, slot) && flag in ProposerRewards.StandardFlags(a, roots, slot)
  {
    ProposerRewards.RootOfEpoch();
    SlotsOfEpoch(prevEpoch, a.slot);
    forall slot: nat
      ensures Proposed(p, prevEpoch, slot) <==> ProposedAt(p, prevEpoch, slot)
      ensures slot > a.slot && ProposedAt(p, prevEpoch, slot) ==>
                (slot <= LastSlot(prevEpoch, a.slot, flag) <==> flag in ProposerRewards.StandardFlags(a, roots, slot))
    {
      ProposedIsAt(p, prevEpoch, slot);
      match flag { case Source => case Target => case Head => }
    }
  }

  /** The slot is in one of the two epochs, and the place it has there is proposed. */
  predicate ProposedAt(p: Proposals, prevEpoch: nat, slot: nat)
    requires ValidProposals(p)
  {
    || (slot / 32 == prevEpoch && p.prev[slot % 32])
    || (slot / 32 == prevEpoch + 1 && p.current[slot % 32])
  }

  lemma ProposedIsAt(p: Proposals, prevEpoch: nat, slot: nat)
    requires ValidProposals(p)
    ensures Proposed(p, prevEpoch, slot) <==> ProposedAt(p, prevEpoch, slot)
    ensures ProposedAt(p, prevEpoch, slot) ==> prevEpoch <= slot / 32 <= prevEpoch + 1 && slot < (prevEpoch + 2) * 32
  {
  }

  /** The number of slots the search goes through; for the target flag it is one more than the window. */
  function SearchLength(attSlot: nat, flag: Flag): nat {
    match flag {
      case Source => MAX_SOURCE_DELAY
      case Target => SLOTS_PER_EPOCH + (SLOTS_PER_EPOCH - attSlot % SLOTS_PER_EPOCH)
      case Head => 1
    }
  }

  /** The block the search reads for a slot: by its place in the epoch, from the current epoch's blocks
      for every slot at or after its start, however late. */
  function BlockRead(p: Proposals, prevEpoch: nat, slot: nat): bool
    requires ValidProposals(p)
  {
    if slot >= (prevEpoch + 1) * SLOTS_PER_EPOCH then p.current[slot % SLOTS_PER_EPOCH] else p.prev[slot % SLOTS_PER_EPOCH]
  }

  lemma ReadIsProposed(p: Proposals, prevEpoch: nat, slot: nat)
    requires ValidProposals(p) && prevEpoch * SLOTS_PER_EPOCH <= slot < (prevEpoch + 2) * SLOTS_PER_EPOCH
    ensures BlockRead(p, prevEpoch, slot) == Proposed(p, prevEpoch, slot)
  {
    var i := slot - prevEpoch * SLOTS_PER_EPOCH;
    assert slot % SLOTS_PER_EPOCH == if i < SLOTS_PER_EPOCH then i else i - SLOTS_PER_EPOCH;
  }

  /** The slot past the window reads the first block of the current epoch once more. */
  lemma PastWindowRereads(p: Proposals, prevEpoch: nat)
    requires ValidProposals(p)
    ensures BlockRead(p, prevEpoch, (prevEpoch + 2) * SLOTS_PER_EPOCH)
            == Proposed(p, prevEpoch, (prevEpoch + 1) * SLOTS_PER_EPOCH)
  {
  }

  /** The search finds a block if and only if one was proposed inside the window of the flag. */
  method IsFlagPossible(p: Proposals, prevEpoch: nat, attSlot: nat, flag: Flag) returns (possible: bool)
    requires ValidProposals(p) && SlotInEpoch(attSlot, prevEpoch)
    ensures possible <==> FlagPossible(p, prevEpoch, attSlot, flag)
  {
    var slot := attSlot + 1;
    while slot <= attSlot + SearchLength(attSlot, flag)
      invariant attSlot < slot <= attSlot + SearchLength(attSlot, flag) + 1
      invariant forall s: nat :: attSlot < s < slot && s < (prevEpoch + 2) * SLOTS_PER_EPOCH ==> !Proposed(p, prevEpoch, s)
    {
      if slot < (prevEpoch + 2) * SLOTS_PER_EPOCH {
        ReadIsProposed(p, prevEpoch, slot);
      } else {
        assert slot == (prevEpoch + 2) * SLOTS_PER_EPOCH;
        PastWindowRereads(p, prevEpoch);
      }
      if BlockRead(p, prevEpoch, slot) { return true; }
      slot := slot + 1;
    }
    return false;
  }

  /** A possible head vote is a possible source vote, and that a possible target vote. */
  lemma FlagsNest(p: Proposals, prevEpoch: nat, attSlot: nat)
    requires ValidProposals(p) && SlotInEpoch(attSlot, prevEpoch)
    ensures FlagPossible(p, prevEpoch, attSlot, Head) ==> FlagPossible(p, prevEpoch, attSlot, Source)
    ensures FlagPossible(p, prevEpoch, attSlot, Source) ==> FlagPossible(p, prevEpoch, attSlot, Target)
  {
    if FlagPossible(p, prevEpoch, attSlot, Head) {
      var slot: nat :| attSlot < slot <= LastSlot(prevEpoch, attSlot, Head) && Proposed(p, prevEpoch, slot);
      assert slot <= LastSlot(prevEpoch, attSlot, Source);
    }
    if FlagPossible(p, prevEpoch, attSlot, Source) {
      var slot: nat :| attSlot < slot <= LastSlot(prevEpoch, attSlot, Source) && Proposed(p, prevEpoch, slot);
      assert slot <= LastSlot(prevEpoch, attSlot, Target);
    }
  }
}
