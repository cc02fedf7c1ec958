/** What the consensus standard pays the proposers of two epochs of blocks for their attestations: flags in two
    participation lists that rotate between the epochs, and one reward for each attestation (Altair beacon
    chain specification, section "Modified process_attestation"; section "Participation flags updates"). The
    walk over the blocks adds the same to the blocks of the second epoch.

    Flags, weights, delays and attesters are the standard's own here (Deneb, section "Modified
    get_attestation_participation_flag_indices"; Electra, section "Modified get_attesting_indices"). Source,
    target and head are compared with the same roots on both sides. Base rewards are those of the second epoch. */
module ProposerRewards {
  import opened Chain
  import opened Attestations

  /** The standard's two lists of participation flags, for the epoch before the state's and for the state's. */
  datatype Participation = Participation(previous: seq<set<Flag>>, current: seq<set<Flag>>)

  ghost predicate ForRegistry(p: Participation, n: nat) { |p.previous| == n == |p.current| }

  /** integer_squareroot: the greatest number whose square is not above n. */
  function SquareRoot(n: nat): (r: nat)
    ensures r * r <= n < (r + 1) * (r + 1)
  {
    if n == 0 then 0
    else
      var r := SquareRoot(n - 1);
      if (r + 1) * (r + 1) <= n then r + 1 else r
  }

  lemma RootOfEpoch()
    ensures SquareRoot(32) == 5
  {
    MoreSquared(SquareRoot(32) + 1, 5);
    MoreSquared(6, SquareRoot(32));
  }

  lemma MoreSquared(a: nat, b: nat)
    ensures a <= b ==> a * a <= b * b
  {
  }

  /** get_attestation_participation_flag_indices */
  function StandardFlags(a: Attestation, roots: Roots, blockSlot: nat): set<Flag> {
    var source := a.sourceRoot == roots.justified;
    var target := source && a.targetRoot == roots.target;
    var head := target && a.beaconRoot == roots.head;
    var inTime := blockSlot / 32 == a.slot / 32 || blockSlot / 32 == a.slot / 32 + 1;
    (if source && blockSlot <= a.slot + SquareRoot(32) then {Source} else {})
    + (if target && inTime then {Target} else {})
    + (if head && blockSlot <= a.slot + 1 then {Head} else {})
  }

  /** get_attesting_indices: the members of the committees whose bit is set, the committees' bits lying one after
      the other. */
  function StandardIndices(committees: seq<seq<nat>>, bits: seq<bool>, offset: nat): set<nat> {
    if committees == [] then {}
    else
      (set i | 0 <= i < |committees[0]| && offset + i < |bits| && bits[offset + i] :: committees[0][i])
      + StandardIndices(committees[1..], bits, offset + |committees[0]|)
  }

  function StandardWeight(f: Flag): nat { match f { case Source => 14 case Target => 26 case Head => 14 } }

  /** What one attester adds to the numerator for a unit of base reward: the weights of the flags it has not had. */
  function NewWeight(flags: set<Flag>, had: set<Flag>): nat {
    (if Source in flags && Source !in had then StandardWeight(Source) else 0)
    + (if Target in flags && Target !in had then StandardWeight(Target) else 0)
    + (if Head in flags && Head !in had then StandardWeight(Head) else 0)
  }

  /** proposer_reward_numerator over the validators from the first on. */
  function Numerator(list: seq<set<Flag>>, flags: set<Flag>, attesters: set<nat>, base: seq<nat>, n: nat): nat
    requires n <= |list| == |base|
  {
    if n == 0 then 0
    else Numerator(list, flags, attesters, base, n - 1)
         + if n - 1 in attesters then base[n - 1] * NewWeight(flags, list[n - 1]) else 0
  }

  /** Every attester has the flags, too. */
  function WithFlags(list: seq<set<Flag>>, flags: set<Flag>, attesters: set<nat>): (after: seq<set<Flag>>)
    ensures |after| == |list|
  {
    seq(|list|, v requires 0 <= v < |list| => if v in attesters then list[v] + flags else list[v])
  }

  /** The proposer's reward for one attestation, divided once. */
  function StandardReward(list: seq<set<Flag>>, flags: set<Flag>, attesters: set<nat>, base: seq<nat>): nat
    requires |list| == |base|
  {
    Numerator(list, flags, attesters, base, |base|) / ((64 - 8) * 64 / 8)
  }

  /** The part of process_attestation that rewards: the list of the epoch of the attestation's target. */
  function StandardAttest(ctx: Context, p: Participation, a: Attestation, blockSlot: nat): (result: (nat, Participation))
    requires |p.previous| == |p.current| == |ctx.base|
    ensures |result.1.previous| == |result.1.current| == |ctx.base|
  {
    var flags, attesters := StandardFlags(a, ctx.roots(a), blockSlot), StandardIndices(a.committees, a.bits, 0);
    if a.slot / 32 == blockSlot / 32
    then (StandardReward(p.current, flags, attesters, ctx.base), p.(current := WithFlags(p.current, flags, attesters)))
    else (StandardReward(p.previous, flags, attesters, ctx.base), p.(previous := WithFlags(p.previous, flags, attesters)))
  }

  /** What the first k attestations of a block earn its proposer, and the lists they leave. */
  function StandardBlock(ctx: Context, p: Participation, d: BlockData, k: nat): (result: (nat, Participation))
    requires |p.previous| == |p.current| == |ctx.base| && k <= |d.attestations|
    ensures |result.1.previous| == |result.1.current| == |ctx.base|
  {
    if k == 0 then (0, p)
    else
      var (sofar, q) := StandardBlock(ctx, p, d, k - 1);
      var (reward, after) := StandardAttest(ctx, q, d.attestations[k - 1], d.slot);
      (sofar + reward, after)
  }

  /** process_participation_flag_updates, between the epochs. */
  function Rotate(p: Participation): Participation { Participation(p.current, seq(|p.current|, _ => {})) }

  /** The lists when the i-th block comes, the first m blocks being those of the current epoch. */
  function StandardBefore(ctx: Context, p: Participation, data: seq<BlockData>, m: nat, i: nat): (q: Participation)
    requires |p.previous| == |p.current| == |ctx.base| && i <= |data|
    ensures |q.previous| == |q.current| == |ctx.base|
  {
    if i == 0 then if m == 0 then Rotate(p) else p
    else
      var after := StandardBlock(ctx, StandardBefore(ctx, p, data, m, i - 1), data[i - 1], |data[i - 1].attestations|).1;
      if i == m then Rotate(after) else after
  }

  /** Blocks of the current epoch, then blocks of the next, with attestations as the standard admits them: to
      slots of the block's epoch or of the one before it. */
  ghost predicate TwoEpochs(ctx: Context, data: seq<BlockData>, m: nat) {
    && ctx.nextEpoch == ctx.currentEpoch + 1 && m <= |data|
    && forall i :: 0 <= i < |data| ==> Admitted(data[i], if i < m then ctx.currentEpoch else ctx.nextEpoch)
  }

  ghost predicate Admitted(d: BlockData, epoch: nat) {
    && EpochAt(d.slot) == epoch
    && forall k :: 0 <= k < |d.attestations| ==>
         var target := EpochAt(d.attestations[k].slot); target == epoch || target + 1 == epoch
  }

  /** The lists hold what the votes have covered: before the epoch ends that of the current epoch, with no vote
      for the next yet, and afterwards of both. */
  ghost predicate Mirrors(ctx: Context, p: Participation, votes: seq<Vote>, rotated: bool) {
    && ForRegistry(p, |ctx.base|)
    && if rotated then Reflects(p.previous, votes, true) && Reflects(p.current, votes, false)
       else Reflects(p.current, votes, true) && forall k :: 0 <= k < |votes| ==> votes[k].current
  }

  // ------------------------------------------------------------ flags, attesters and weights agree

  /** For admissible attestations, included no earlier than their slot or not, the two sets of flags are one. */
  lemma FlagsAreStandard(a: Attestation, roots: Roots, blockSlot: nat)
    requires a.slot / 32 == blockSlot / 32 || a.slot / 32 + 1 == blockSlot / 32
    ensures ParticipationFlags(a, roots, blockSlot) == StandardFlags(a, roots, blockSlot)
  {
    RootOfEpoch();
    forall f: Flag ensures f in ParticipationFlags(a, roots, blockSlot) <==> f in StandardFlags(a, roots, blockSlot) {
      match f { case Source => case Target => case Head => }
    }
  }

  lemma {:induction false} PickedIsStandard(committees: seq<seq<nat>>, bits: seq<bool>, offset: nat, v: nat)
    ensures v in StandardIndices(committees, bits, offset) <==> v in Picked(Flatten(committees), bits, offset)
  {
    if committees != [] {
      var first, rest := committees[0], Flatten(committees[1..]);
      PickedIsStandard(committees[1..], bits, offset + |first|, v);
      PickedInTwo(first, rest, bits, offset, v);
      PickedExactly(first, bits, offset, v);
      if k: nat :| Marked(first, bits, offset, k, v) { assert bits[offset + k] && first[k] == v; }
      if i :| 0 <= i < |first| && offset + i < |bits| && bits[offset + i] && first[i] == v { assert Marked(first, bits, offset, i, v); }
    }
  }

  lemma {:induction false} PickedInTwo(a: seq<nat>, b: seq<nat>, bits: seq<bool>, offset: nat, v: nat)
    ensures v in Picked(a + b, bits, offset) <==> v in Picked(a, bits, offset) || v in Picked(b, bits, offset + |a|)
  {
    if a == [] {
      assert a + b == b;
    } else {
      assert (a + b)[1..] == a[1..] + b && (a + b)[0] == a[0];
      PickedInTwo(a[1..], b, bits, offset + 1, v);
    }
  }

  /** The vote that the walk counts has the standard's flags and attesters. */
  ghost predicate IsStandard(x: Vote, flags: set<Flag>, attesters: set<nat>) {
    x.flags == flags && forall v :: v in x.indices <==> v in attesters
  }

  lemma VoteIsStandard(ctx: Context, a: Attestation, blockSlot: nat)
    requires a.slot / 32 == blockSlot / 32 || a.slot / 32 + 1 == blockSlot / 32
    ensures IsStandard(VoteOf(ctx, a, blockSlot), StandardFlags(a, ctx.roots(a), blockSlot), StandardIndices(a.committees, a.bits, 0))
  {
    FlagsAreStandard(a, ctx.roots(a), blockSlot);
    var x := VoteOf(ctx, a, blockSlot);
    forall v ensures v in x.indices <==> v in StandardIndices(a.committees, a.bits, 0) {
      if v >= 0 { PickedIsStandard(a.committees, a.bits, 0, v); }
    }
  }

  lemma WeightIsNew(flags: set<Flag>, had: set<Flag>)
    ensures Weight(flags - had) == NewWeight(flags, had)
  {
  }

  function Weights(list: seq<set<Flag>>, flags: set<Flag>, attesters: set<nat>): seq<nat> {
    seq(|list|, v requires 0 <= v < |list| => if v in attesters then NewWeight(flags, list[v]) else 0)
  }

  lemma {:induction false} DotSnoc(base: seq<nat>, weights: seq<nat>)
    requires |base| == |weights| > 0
    ensures Dot(base, weights)
            == Dot(base[..|base| - 1], weights[..|base| - 1]) + base[|base| - 1] * weights[|base| - 1]
  {
    if |base| > 1 {
      DotSnoc(base[1..], weights[1..]);
      var n := |base| - 1;
      assert base[1..][..n - 1] == base[..n][1..] && weights[1..][..n - 1] == weights[..n][1..];
    }
  }

  lemma {:induction false} NumeratorIsDot(list: seq<set<Flag>>, flags: set<Flag>, attesters: set<nat>, base: seq<nat>, n: nat)
    requires n <= |list| == |base|
    ensures Numerator(list, flags, attesters, base, n) == Dot(base[..n], Weights(list, flags, attesters)[..n])
  {
    if n > 0 {
      NumeratorIsDot(list, flags, attesters, base, n - 1);
      var weights := Weights(list, flags, attesters)[..n];
      DotSnoc(base[..n], weights);
      assert base[..n][..n - 1] == base[..n - 1] && weights[..n - 1] == Weights(list, flags, attesters)[..n - 1];
    }
  }

  lemma WithFlagsReflects(list: seq<set<Flag>>, votes: seq<Vote>, x: Vote, flags: set<Flag>, attesters: set<nat>)
    requires Reflects(list, votes, x.current) && IsStandard(x, flags, attesters)
    ensures Reflects(WithFlags(list, flags, attesters), votes + [x], x.current)
  {
    forall v, f | 0 <= v < |list| ensures f in WithFlags(list, flags, attesters)[v] <==> Covered(votes + [x], x.current, v, f) {
      CoveredSnoc(votes, x, x.current, v, f);
    }
  }

  lemma RewardIsCredit(list: seq<set<Flag>>, votes: seq<Vote>, x: Vote, flags: set<Flag>, attesters: set<nat>, base: seq<nat>)
    requires Reflects(list, votes, x.current) && |list| == |base| && IsStandard(x, flags, attesters)
    ensures StandardReward(list, flags, attesters, base) == Credit(votes, x, base) / PROPOSER_DENOMINATOR
  {
    var weights := Weights(list, flags, attesters);
    forall v | 0 <= v < |base| ensures weights[v] == FirstWeights(votes, x, |base|)[v] {
      WeightIsNew(flags, list[v]);
      if v in x.indices {
        assert FirstFlags(votes, x, v) == x.flags - list[v];
      } else {
        assert FirstFlags(votes, x, v) == {};
      }
    }
    assert weights == FirstWeights(votes, x, |base|);
    NumeratorIsDot(list, flags, attesters, base, |base|);
    assert base[..|base|] == base && weights[..|base|] == weights;
  }

  // ------------------------------------------------------------ the lists mirror the votes

  /** One attestation that counts. */
  lemma AttestMirrors(ctx: Context, p: Participation, votes: seq<Vote>, a: Attestation, blockSlot: nat, rotated: bool)
    requires Mirrors(ctx, p, votes, rotated) && Counts(ctx, a) && ctx.nextEpoch == ctx.currentEpoch + 1
    requires EpochAt(blockSlot) == if rotated then ctx.nextEpoch else ctx.currentEpoch
    requires var target := EpochAt(a.slot); target == EpochAt(blockSlot) || target + 1 == EpochAt(blockSlot)
    ensures var x := VoteOf(ctx, a, blockSlot);
            && Mirrors(ctx, StandardAttest(ctx, p, a, blockSlot).1, votes + [x], rotated)
            && StandardAttest(ctx, p, a, blockSlot).0 == Credit(votes, x, ctx.base) / PROPOSER_DENOMINATOR
  {
    var x := VoteOf(ctx, a, blockSlot);
    var flags, attesters := StandardFlags(a, ctx.roots(a), blockSlot), StandardIndices(a.committees, a.bits, 0);
    SlotsOfEpoch(ctx.currentEpoch, a.slot);
    VoteIsStandard(ctx, a, blockSlot);
    var mine := if EpochAt(a.slot) == EpochAt(blockSlot) then p.current else p.previous;
    var other := if EpochAt(a.slot) == EpochAt(blockSlot) then p.previous else p.current;
    WithFlagsReflects(mine, votes, x, flags, attesters);
    RewardIsCredit(mine, votes, x, flags, attesters, ctx.base);
    if rotated { OtherEpochUntouched(other, votes, x, !x.current); }
  }

  /** One that does not: to the epoch before the current one, in a block of the current one. */
  lemma SkippedMirrors(ctx: Context, p: Participation, votes: seq<Vote>, a: Attestation, blockSlot: nat, rotated: bool)
    requires Mirrors(ctx, p, votes, rotated) && !Counts(ctx, a) && ctx.nextEpoch == ctx.currentEpoch + 1
    requires EpochAt(blockSlot) == if rotated then ctx.nextEpoch else ctx.currentEpoch
    requires var target := EpochAt(a.slot); target == EpochAt(blockSlot) || target + 1 == EpochAt(blockSlot)
    ensures !rotated && Mirrors(ctx, StandardAttest(ctx, p, a, blockSlot).1, votes, rotated)
  {
    SlotsOfEpoch(ctx.currentEpoch, a.slot);
  }

  lemma {:induction false} BlockMirrors(ctx: Context, p: Participation, votes: seq<Vote>, d: BlockData, k: nat, rotated: bool)
    requires Mirrors(ctx, p, votes, rotated) && ctx.nextEpoch == ctx.currentEpoch + 1 && k <= |d.attestations|
    requires Admitted(d, if rotated then ctx.nextEpoch else ctx.currentEpoch)
    ensures Mirrors(ctx, StandardBlock(ctx, p, d, k).1, votes + VotesOf(ctx, d, k), rotated)
    ensures rotated ==> BlockTally(ctx, votes, d, k).reward == StandardBlock(ctx, p, d, k).0
  {
    if k == 0 {
      assert votes + [] == votes;
    } else {
      BlockMirrors(ctx, p, votes, d, k - 1, rotated);
      var q, a, sofar := StandardBlock(ctx, p, d, k - 1).1, d.attestations[k - 1], votes + VotesOf(ctx, d, k - 1);
      if Counts(ctx, a) {
        AttestMirrors(ctx, q, sofar, a, d.slot, rotated);
        VotesSnoc(ctx, votes, d, k);
        SlotsOfEpoch(ctx.nextEpoch, d.slot);
      } else {
        SkippedMirrors(ctx, q, sofar, a, d.slot, rotated);
      }
    }
  }

  lemma RotateMirrors(ctx: Context, p: Participation, votes: seq<Vote>)
    requires Mirrors(ctx, p, votes, false)
    ensures Mirrors(ctx, Rotate(p), votes, true)
  {
  }

  lemma {:induction false} ListsMirror(ctx: Context, p: Participation, data: seq<BlockData>, m: nat, i: nat)
    requires TwoEpochs(ctx, data, m) && i <= |data|
    requires ForRegistry(p, |ctx.base|) && p.current == NoFlags(|ctx.base|)
    ensures Mirrors(ctx, StandardBefore(ctx, p, data, m, i), VotesBefore(ctx, data, i), i >= m)
  {
    if i == 0 {
      StartMirrors(ctx, p, m);
    } else {
      ListsMirror(ctx, p, data, m, i - 1);
      NextListsMirror(ctx, p, data, m, i);
    }
  }

  lemma NextListsMirror(ctx: Context, p: Participation, data: seq<BlockData>, m: nat, i: nat)
    requires TwoEpochs(ctx, data, m) && 0 < i <= |data| && ForRegistry(p, |ctx.base|)
    requires Mirrors(ctx, StandardBefore(ctx, p, data, m, i - 1), VotesBefore(ctx, data, i - 1), i - 1 >= m)
    ensures Mirrors(ctx, StandardBefore(ctx, p, data, m, i), VotesBefore(ctx, data, i), i >= m)
  {
    NextBlockMirrors(ctx, StandardBefore(ctx, p, data, m, i - 1), data, m, i);
  }

  lemma StartMirrors(ctx: Context, p: Participation, m: nat)
    requires ForRegistry(p, |ctx.base|) && p.current == NoFlags(|ctx.base|)
    ensures Mirrors(ctx, if m == 0 then Rotate(p) else p, [], m == 0)
  {
    assert Mirrors(ctx, p, [], false);
    if m == 0 { RotateMirrors(ctx, p, []); }
  }

  lemma NextBlockMirrors(ctx: Context, q: Participation, data: seq<BlockData>, m: nat, i: nat)
    requires TwoEpochs(ctx, data, m) && 0 < i <= |data| && Mirrors(ctx, q, VotesBefore(ctx, data, i - 1), i - 1 >= m)
    ensures var after := StandardBlock(ctx, q, data[i - 1], |data[i - 1].attestations|).1;
            Mirrors(ctx, if i == m then Rotate(after) else after, VotesBefore(ctx, data, i), i >= m)
  {
    var d := data[i - 1];
    BlockMirrors(ctx, q, VotesBefore(ctx, data, i - 1), d, |d.attestations|, i - 1 >= m);
    if i == m { RotateMirrors(ctx, StandardBlock(ctx, q, d, |d.attestations|).1, VotesBefore(ctx, data, i)); }
  }

  /** For any blocks of two successive epochs whose attestations the standard admits, whatever the flags of the
      epoch before: what the walk adds to a block of the second epoch is what process_attestation pays its
      proposer for all its attestations, and it adds nothing to a block of the first. */
  lemma ManualRewardIsStandard(ctx: Context, p: Participation, data: seq<BlockData>, m: nat, i: nat)
    requires TwoEpochs(ctx, data, m) && i < |data|
    requires ForRegistry(p, |ctx.base|) && p.current == NoFlags(|ctx.base|)
    ensures TallyAt(ctx, data, i).reward
            == if i < m then 0
               else StandardBlock(ctx, StandardBefore(ctx, p, data, m, i), data[i], |data[i].attestations|).0
  {
    ListsMirror(ctx, p, data, m, i);
    var votes, d := VotesBefore(ctx, data, i), data[i];
    if i < m {
      SlotsOfEpoch(ctx.nextEpoch, d.slot);
      UnrewardedBlock(ctx, votes, d, |d.attestations|);
    } else {
      BlockMirrors(ctx, StandardBefore(ctx, p, data, m, i), votes, d, |d.attestations|, true);
    }
  }

  lemma {:induction false} UnrewardedBlock(ctx: Context, votes: seq<Vote>, d: BlockData, k: nat)
    requires k <= |d.attestations| && d.slot < ctx.nextEpoch * SLOTS_PER_EPOCH
    ensures BlockTally(ctx, votes, d, k).reward == 0
  {
    if k > 0 { UnrewardedBlock(ctx, votes, d, k - 1); }
  }
}
