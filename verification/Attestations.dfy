/** Crediting of attestations to block proposers: the participation bitmaps that the bundle keeps
    while it walks the blocks of two epochs, against a definition without bitmaps (Altair beacon chain
    specification, "Modified process_attestation"; Deneb, "Modified
    get_attestation_participation_flag_indices"; Electra, "Modified get_attesting_indices").

    Rewards are naturals: NoSumWraps says when these are the uint64 sums. */
module Attestations {
  import opened Chain

  datatype Flag = Source | Target | Head

  const TIMELY_SOURCE_WEIGHT: nat := 14
  const TIMELY_TARGET_WEIGHT: nat := 26
  const TIMELY_HEAD_WEIGHT: nat := 14
  const PROPOSER_WEIGHT: nat := 8
  const WEIGHT_DENOMINATOR: nat := 64
  /** The whole square root of SLOTS_PER_EPOCH. */
  const MAX_SOURCE_DELAY: nat := 5
  const MIN_INCLUSION_DELAY: nat := 1
  const PROPOSER_DENOMINATOR: nat := (WEIGHT_DENOMINATOR - PROPOSER_WEIGHT) * WEIGHT_DENOMINATOR / PROPOSER_WEIGHT

  function Weight(flags: set<Flag>): nat {
    (if Source in flags then TIMELY_SOURCE_WEIGHT else 0)
    + (if Target in flags then TIMELY_TARGET_WEIGHT else 0)
    + (if Head in flags then TIMELY_HEAD_WEIGHT else 0)
  }

  // ------------------------------------------------------------ attestations

  datatype Attestation = Attestation(
    slot: nat, sourceRoot: Bytes, targetRoot: Bytes, beaconRoot: Bytes,
    committees: seq<seq<nat>>,   // the committees its committee bits select, in order
    bits: seq<bool>)

  /** The roots an attestation is compared with: the justified root of the attested epoch's state and
      the canonical roots at the target and the attested slot. */
  datatype Roots = Roots(justified: Bytes, target: Bytes, head: Bytes)

  /** The flags an attestation earns when included in a block at the given slot (Deneb and later). */
  function ParticipationFlags(a: Attestation, roots: Roots, blockSlot: nat): set<Flag> {
    var delay := blockSlot - a.slot;
    var matchingSource := a.sourceRoot == roots.justified;
    var matchingTarget := matchingSource && a.targetRoot == roots.target;
    var matchingHead := matchingTarget && a.beaconRoot == roots.head;
    var epochs := blockSlot / SLOTS_PER_EPOCH - a.slot / SLOTS_PER_EPOCH;
    (if matchingSource && delay <= MAX_SOURCE_DELAY then {Source} else {})
    + (if matchingTarget && 0 <= epochs <= 1 then {Target} else {})
    + (if matchingHead && delay <= MIN_INCLUSION_DELAY then {Head} else {})
  }

  function Flatten(committees: seq<seq<nat>>): seq<nat> {
    if committees == [] then [] else committees[0] + Flatten(committees[1..])
  }

  predicate Set(bits: seq<bool>, k: nat) { k < |bits| && bits[k] }

  /** The members of the roster whose bit is set, bits being counted from `offset`. */
  function Picked(roster: seq<nat>, bits: seq<bool>, offset: nat): seq<nat> {
    if roster == [] then []
    else (if Set(bits, offset) then [roster[0]] else []) + Picked(roster[1..], bits, offset + 1)
  }

  /** Validator v sits at place k of the roster and its bit is set. */
  predicate Marked(roster: seq<nat>, bits: seq<bool>, offset: nat, k: nat, v: nat) {
    k < |roster| && roster[k] == v && Set(bits, offset + k)
  }

  /** Attesters are the members with a set bit, and no one else. */
  lemma {:induction false} PickedExactly(roster: seq<nat>, bits: seq<bool>, offset: nat, v: nat)
    ensures v in Picked(roster, bits, offset) <==> exists k: nat :: Marked(roster, bits, offset, k, v)
  {
    if roster != [] {
      var rest := roster[1..];
      PickedExactly(rest, bits, offset + 1, v);
      if v in Picked(rest, bits, offset + 1) {
        var k: nat :| Marked(rest, bits, offset + 1, k, v);
        assert Marked(roster, bits, offset, k + 1, v);
      }
      if roster[0] == v && Set(bits, offset) { assert Marked(roster, bits, offset, 0, v); }
      if k: nat :| Marked(roster, bits, offset, k, v) && k > 0 { assert Marked(rest, bits, offset + 1, k - 1, v); }
    }
  }

  /** With disjoint committees no attester is listed twice. */
  lemma {:induction false} PickedOnce(roster: seq<nat>, bits: seq<bool>, offset: nat)
    requires NoRepeats(roster)
    ensures NoRepeats(Picked(roster, bits, offset))
  {
    if roster != [] {
      PickedOnce(roster[1..], bits, offset + 1);
      PickedExactly(roster[1..], bits, offset + 1, roster[0]);
    }
  }

  ghost predicate Disjoint(committees: seq<seq<nat>>) {
    && (forall i :: 0 <= i < |committees| ==> NoRepeats(committees[i]))
    && (forall i, j, v :: 0 <= i < j < |committees| && v in committees[i] ==> v !in committees[j])
  }

  lemma {:induction false} InFlatten(committees: seq<seq<nat>>, v: nat)
    ensures v in Flatten(committees) <==> exists i :: 0 <= i < |committees| && v in committees[i]
  {
    if committees != [] {
      InFlatten(committees[1..], v);
      if i :| 0 <= i < |committees[1..]| && v in committees[1..][i] { assert v in committees[i + 1]; }
      if i :| 0 < i < |committees| && v in committees[i] { assert v in committees[1..][i - 1]; }
    }
  }

  lemma {:induction false} FlattenDisjoint(committees: seq<seq<nat>>)
    requires Disjoint(committees)
    ensures NoRepeats(Flatten(committees))
  {
    if committees != [] {
      var first, rest := committees[0], committees[1..];
      assert Disjoint(rest) by { assert forall i :: 0 <= i < |rest| ==> rest[i] == committees[i + 1]; }
      FlattenDisjoint(rest);
      forall v | v in first ensures v !in Flatten(rest) {
        forall i | 0 <= i < |rest| ensures v !in rest[i] {
          assert rest[i] == committees[i + 1] && v in committees[0];
        }
        InFlatten(rest, v);
      }
      JoinOnce(first, Flatten(rest));
    }
  }

  lemma JoinOnce(a: seq<nat>, b: seq<nat>)
    requires NoRepeats(a) && NoRepeats(b) && forall v :: v in a ==> v !in b
    ensures NoRepeats(a + b)
  {
    var c := a + b;
    forall i, j | 0 <= i < j < |c| ensures c[i] != c[j] {
      if i < |a| <= j { assert c[i] in a && c[j] in b; }
    }
  }

  /** Electra: the aggregation bits run through the selected committees one after the other. */
  method GetAttestingIndices(a: Attestation) returns (output: seq<nat>)
    ensures output == Picked(Flatten(a.committees), a.bits, 0)
    ensures forall v :: v in output <==> exists k: nat :: Marked(Flatten(a.committees), a.bits, 0, k, v)
    ensures Disjoint(a.committees) ==> NoRepeats(output)
  {
    output := [];
    var committeeOffset: nat := 0;
    ghost var all := Flatten(a.committees);
    assert a.committees[0..] == a.committees;
    for c := 0 to |a.committees|
      invariant PickedSoFar(all, a.bits, output, Flatten(a.committees[c..]), committeeOffset)
    {
      var committee := a.committees[c];
      ghost var rest := Flatten(a.committees[c + 1..]);
      assert a.committees[c..][0] == committee && a.committees[c..][1..] == a.committees[c + 1..];
      assert committee[0..] == committee;
      for i := 0 to |committee|
        invariant PickedSoFar(all, a.bits, output, committee[i..] + rest, committeeOffset + i)
      {
        ghost var left := committee[i..] + rest;
        assert left[0] == committee[i] && left[1..] == committee[i + 1..] + rest;
        if Set(a.bits, committeeOffset + i) {
          output := output + [committee[i]];
        }
      }
      assert committee[|committee|..] + rest == rest;
      committeeOffset := committeeOffset + |committee|;
    }
    PickedEnds(a, output, committeeOffset);
  }

  /** What was picked so far and what the rest of the roster picks make up the whole. */
  ghost predicate PickedSoFar(all: seq<nat>, bits: seq<bool>, output: seq<nat>, left: seq<nat>, offset: nat) {
    output + Picked(left, bits, offset) == Picked(all, bits, 0)
  }

  lemma PickedEnds(a: Attestation, output: seq<nat>, offset: nat)
    requires PickedSoFar(Flatten(a.committees), a.bits, output, [], offset)
    ensures output == Picked(Flatten(a.committees), a.bits, 0)
    ensures forall v :: v in output <==> exists k: nat :: Marked(Flatten(a.committees), a.bits, 0, k, v)
    ensures Disjoint(a.committees) ==> NoRepeats(output)
  {
    var all := Flatten(a.committees);
    assert output + [] == output;
    forall v ensures v in output <==> exists k: nat :: Marked(all, a.bits, 0, k, v) {
      PickedExactly(all, a.bits, 0, v);
    }
    if Disjoint(a.committees) {
      FlattenDisjoint(a.committees);
      PickedOnce(all, a.bits, 0);
    }
  }

  // ------------------------------------------------------------ the definition without bitmaps

  /** An attestation as it counts: for the current or the next epoch, with its flags and attesters. */
  datatype Vote = Vote(current: bool, flags: set<Flag>, indices: seq<nat>)

  predicate Covers(x: Vote, current: bool, v: nat, f: Flag) {
    x.current == current && v in x.indices && f in x.flags
  }

  /** Some vote so far gives validator v the flag for that epoch. */
  predicate Covered(votes: seq<Vote>, current: bool, v: nat, f: Flag) {
    exists i :: 0 <= i < |votes| && Covers(votes[i], current, v, f)
  }

  /** The flags for which x is the first vote that gives them to v. */
  function FirstFlags(before: seq<Vote>, x: Vote, v: nat): set<Flag> {
    set f: Flag | f in x.flags && Covers(x, x.current, v, f) && !Covered(before, x.current, v, f)
  }

  function Dot(base: seq<nat>, weights: seq<nat>): nat
    requires |base| == |weights|
  {
    if base == [] then 0 else base[0] * weights[0] + Dot(base[1..], weights[1..])
  }

  function FirstWeights(before: seq<Vote>, x: Vote, n: nat): seq<nat> {
    seq(n, v requires 0 <= v < n => Weight(FirstFlags(before, x, v)))
  }

  /** The undivided reward of one attestation: for every validator, its base reward times the weights
      of the flags it had from no earlier attestation. */
  function Credit(before: seq<Vote>, x: Vote, base: seq<nat>): nat {
    Dot(base, FirstWeights(before, x, |base|))
  }

  lemma {:induction false} DotUpdate(base: seq<nat>, weights: seq<nat>, i: nat, x: nat)
    requires |base| == |weights| && i < |base|
    ensures Dot(base, weights[i := x]) == Dot(base, weights) - base[i] * weights[i] + base[i] * x
  {
    if i == 0 {
      assert weights[0 := x][1..] == weights[1..];
    } else {
      assert weights[i := x][1..] == weights[1..][i - 1 := x];
      DotUpdate(base[1..], weights[1..], i - 1, x);
    }
  }

  lemma {:induction false} DotZero(base: seq<nat>, weights: seq<nat>)
    requires |base| == |weights| && forall i :: 0 <= i < |weights| ==> weights[i] == 0
    ensures Dot(base, weights) == 0
  {
    if base != [] { DotZero(base[1..], weights[1..]); }
  }

  lemma {:induction false} DotAdds(base: seq<nat>, a: seq<nat>, b: seq<nat>, c: seq<nat>)
    requires |base| == |a| == |b| == |c| && forall i :: 0 <= i < |a| ==> c[i] == a[i] + b[i]
    ensures Dot(base, c) == Dot(base, a) + Dot(base, b)
  {
    if base != [] {
      DotAdds(base[1..], a[1..], b[1..], c[1..]);
      Distributes(base[0], a[0], b[0], c[0]);
    }
  }

  lemma Distributes(x: nat, a: nat, b: nat, c: nat)
    requires c == a + b
    ensures x * c == x * a + x * b
  {
  }

  lemma {:induction false} DotBounded(base: seq<nat>, weights: seq<nat>, bound: nat)
    requires |base| == |weights| && forall i :: 0 <= i < |weights| ==> weights[i] <= bound
    ensures Dot(base, weights) <= bound * Sum(base)
  {
    if base != [] {
      DotBounded(base[1..], weights[1..], bound);
      SumSplits(base);
      ProductBounded(base[0], weights[0], bound);
      Distributes(bound, base[0], Sum(base[1..]), Sum(base));
    }
  }

  lemma ProductBounded(x: nat, w: nat, bound: nat)
    requires w <= bound
    ensures x * w <= bound * x
  {
  }

  // ------------------------------------------------------------ the bitmap of one attestation

  /** The bitmap of an epoch holds exactly the flags covered so far. */
  ghost predicate Reflects(participation: seq<set<Flag>>, votes: seq<Vote>, current: bool) {
    forall v, f :: 0 <= v < |participation| ==> (f in participation[v] <==> Covered(votes, current, v, f))
  }

  lemma OtherEpochUntouched(participation: seq<set<Flag>>, votes: seq<Vote>, x: Vote, current: bool)
    requires Reflects(participation, votes, current) && x.current != current
    ensures Reflects(participation, votes + [x], current)
  {
    forall v, f | 0 <= v < |participation| ensures f in participation[v] <==> Covered(votes + [x], current, v, f) {
      CoveredSnoc(votes, x, current, v, f);
    }
  }

  lemma CoveredSnoc(votes: seq<Vote>, x: Vote, current: bool, v: nat, f: Flag)
    ensures Covered(votes + [x], current, v, f) <==> Covered(votes, current, v, f) || Covers(x, current, v, f)
  {
    var all := votes + [x];
    if i :| 0 <= i < |votes| && Covers(votes[i], current, v, f) { assert Covers(all[i], current, v, f); }
    if Covers(x, current, v, f) { assert Covers(all[|votes|], current, v, f); }
    if i :| 0 <= i < |all| && Covers(all[i], current, v, f) { assert i < |votes| ==> Covers(votes[i], current, v, f); }
  }

  /** While one attestation is being counted: the validators of its first k places have its flags. */
  ghost predicate Counting(start: seq<set<Flag>>, x: Vote, k: nat, now: seq<set<Flag>>, credited: seq<nat>)
    requires k <= |x.indices|
  {
    && |now| == |start| <= |credited|
    && (forall v :: 0 <= v < |start| ==> now[v] == if v in x.indices[..k] then start[v] + x.flags else start[v])
    && (forall v :: 0 <= v < |credited| ==>
          credited[v] == if v in x.indices[..k] && v < |start| then Weight(x.flags - start[v]) else 0)
  }

  /** The three checks on one attester. */
  method CreditFlags(flags: set<Flag>, had: set<Flag>, base: nat) returns (now: set<Flag>, reward: nat, isNew: bool)
    ensures now == had + flags
    ensures reward == base * Weight(flags - had)
    ensures isNew <==> Weight(flags - had) > 0
  {
    now, reward, isNew := had, 0, false;
    if Source in flags && Source !in now {
      reward := reward + base * TIMELY_SOURCE_WEIGHT;
      now := now + {Source};
      isNew := true;
    }
    if Target in flags && Target !in now {
      reward := reward + base * TIMELY_TARGET_WEIGHT;
      now := now + {Target};
      isNew := true;
    }
    if Head in flags && Head !in now {
      reward := reward + base * TIMELY_HEAD_WEIGHT;
      now := now + {Head};
      isNew := true;
    }
    forall f: Flag ensures f in now <==> f in had + flags {
      match f { case Source => case Target => case Head => }
    }
  }

  /** How many validators were credited anything. */
  function NonZero(weights: seq<nat>): nat {
    if weights == [] then 0 else (if weights[0] > 0 then 1 else 0) + NonZero(weights[1..])
  }

  lemma {:induction false} NonZeroUpdate(weights: seq<nat>, i: nat, x: nat)
    requires i < |weights| && weights[i] == 0
    ensures NonZero(weights[i := x]) == NonZero(weights) + if x > 0 then 1 else 0
  {
    if i == 0 {
      assert weights[0 := x][1..] == weights[1..];
    } else {
      assert weights[i := x][1..] == weights[1..][i - 1 := x];
      NonZeroUpdate(weights[1..], i - 1, x);
    }
  }

  lemma {:induction false} NothingYet(weights: seq<nat>)
    requires forall i :: 0 <= i < |weights| ==> weights[i] == 0
    ensures NonZero(weights) == 0
  {
    if weights != [] { NothingYet(weights[1..]); }
  }

  lemma NoNewFlags(flags: set<Flag>, had: set<Flag>)
    requires flags <= had
    ensures Weight(flags - had) == 0
  {
  }

  /** The two sums over what has been credited, when one attester is added or met again. */
  lemma CreditedStep(base: seq<nat>, credited: seq<nat>, v: nat, weight: nat, again: bool, reward: nat, newVotes: nat,
                     added: nat, more: seq<nat>)
    requires |credited| == |base| && v < |base| && reward == Dot(base, credited) && newVotes == NonZero(credited)
    requires if again then weight == 0 && more == credited else credited[v] == 0 && more == credited[v := weight]
    requires added == base[v] * weight
    ensures |more| == |base| && reward + added == Dot(base, more)
    ensures newVotes + (if weight > 0 then 1 else 0) == NonZero(more)
  {
    if !again {
      DotUpdate(base, credited, v, weight);
      NonZeroUpdate(credited, v, weight);
    }
  }

  /** The loop over the attesters of one attestation. */
  method CreditVote(ghost before: seq<Vote>, x: Vote, participation: seq<set<Flag>>, base: seq<nat>)
    returns (after: seq<set<Flag>>, reward: nat, newVotes: nat)
    requires |participation| <= |base| && forall v :: v in x.indices ==> v < |participation|
    requires Reflects(participation, before, x.current)
    ensures |after| == |participation| && Reflects(after, before + [x], x.current)
    ensures reward == Credit(before, x, base)
    ensures newVotes == NonZero(FirstWeights(before, x, |base|))
  {
    after, reward, newVotes := participation, 0, 0;
    ghost var credited: seq<nat> := seq(|base|, _ => 0);
    DotZero(base, credited);
    NothingYet(credited);
    for k := 0 to |x.indices|
      invariant |credited| == |base| && Counting(participation, x, k, after, credited)
      invariant reward == Dot(base, credited) && newVotes == NonZero(credited)
    {
      var v := x.indices[k];
      assert v in x.indices;
      ghost var weight, again := Weight(x.flags - after[v]), v in x.indices[..k];
      CountingStep(participation, x, k, after, credited);
      var now, added, isNew := CreditFlags(x.flags, after[v], base[v]);
      ghost var more := if again then credited else credited[v := weight];
      CreditedStep(base, credited, v, weight, again, reward, newVotes, added, more);
      after := after[v := now];
      reward := reward + added;
      if isNew { newVotes := newVotes + 1; }
      credited := more;
    }
    assert x.indices[..|x.indices|] == x.indices;
    CountedExactly(before, x, participation, after, credited, base);
  }

  /** One more place: a validator met for the first time is credited, a repeated one changes nothing. */
  lemma CountingStep(start: seq<set<Flag>>, x: Vote, k: nat, now: seq<set<Flag>>, credited: seq<nat>)
    requires k < |x.indices| && Counting(start, x, k, now, credited) && x.indices[k] < |start|
    ensures var v := x.indices[k];
            var weight := Weight(x.flags - now[v]);
            && (if v in x.indices[..k] then weight == 0 else credited[v] == 0)
            && Counting(start, x, k + 1, now[v := now[v] + x.flags],
                        if v in x.indices[..k] then credited else credited[v := weight])
  {
    assert x.indices[..k + 1] == x.indices[..k] + [x.indices[k]];
    if x.indices[k] in x.indices[..k] { NoNewFlags(x.flags, now[x.indices[k]]); }
  }

  /** When all places are counted, what was credited is what the definition credits. */
  lemma CountedExactly(before: seq<Vote>, x: Vote, start: seq<set<Flag>>, after: seq<set<Flag>>, credited: seq<nat>, base: seq<nat>)
    requires Reflects(start, before, x.current) && |credited| == |base|
    requires x.indices[..|x.indices|] == x.indices && Counting(start, x, |x.indices|, after, credited)
    requires forall v :: v in x.indices ==> v < |start|
    ensures Reflects(after, before + [x], x.current)
    ensures credited == FirstWeights(before, x, |base|)
  {
    forall v, f | 0 <= v < |after| ensures f in after[v] <==> Covered(before + [x], x.current, v, f) {
      CoveredSnoc(before, x, x.current, v, f);
    }
    forall v | 0 <= v < |base| ensures credited[v] == Weight(FirstFlags(before, x, v)) {
      if v in x.indices {
        assert FirstFlags(before, x, v) == x.flags - start[v];
      } else {
        assert FirstFlags(before, x, v) == {};
      }
    }
  }

  // ------------------------------------------------------------ blocks and their tallies

  /** What is fixed while the blocks of the current and the next epoch are walked: base rewards are
      those of the next state, and the roots of an attestation come from the cached states. */
  datatype Context = Context(currentEpoch: nat, nextEpoch: nat, roots: Attestation -> Roots, currentCount: nat, base: seq<nat>)

  datatype BlockData = BlockData(slot: nat, proposer: nat, attestations: seq<Attestation>)

  /** Attestations to slots before the current epoch are skipped. */
  predicate Counts(ctx: Context, a: Attestation) { ctx.currentEpoch * SLOTS_PER_EPOCH <= a.slot }

  function VoteOf(ctx: Context, a: Attestation, blockSlot: nat): Vote {
    Vote(SlotInEpoch(a.slot, ctx.currentEpoch), ParticipationFlags(a, ctx.roots(a), blockSlot),
         Picked(Flatten(a.committees), a.bits, 0))
  }

  /** The attesters of an attestation that counts are in the registry of the state they are looked up in. */
  ghost predicate ValidAttestation(ctx: Context, a: Attestation, blockSlot: nat) {
    Counts(ctx, a) ==> Known(ctx, VoteOf(ctx, a, blockSlot))
  }

  ghost predicate Known(ctx: Context, x: Vote) {
    forall v :: v in x.indices ==> v < if x.current then ctx.currentCount else |ctx.base|
  }

  ghost predicate ValidBlock(ctx: Context, d: BlockData) {
    forall k :: 0 <= k < |d.attestations| ==> ValidAttestation(ctx, d.attestations[k], d.slot)
  }

  ghost predicate ValidBlocks(ctx: Context, data: seq<BlockData>) {
    if data == [] then ctx.currentCount <= |ctx.base|
    else ValidBlock(ctx, data[0]) && ValidBlocks(ctx, data[1..])
  }

  /** The votes of the first k attestations of a block. */
  function VotesOf(ctx: Context, d: BlockData, k: nat): seq<Vote>
    requires k <= |d.attestations|
  {
    if k == 0 then []
    else if Counts(ctx, d.attestations[k - 1])
    then VotesOf(ctx, d, k - 1) + [VoteOf(ctx, d.attestations[k - 1], d.slot)]
    else VotesOf(ctx, d, k - 1)
  }

  /** All votes of the first i blocks. */
  function VotesBefore(ctx: Context, data: seq<BlockData>, i: nat): seq<Vote>
    requires i <= |data|
  {
    if i == 0 then []
    else VotesBefore(ctx, data, i - 1) + VotesOf(ctx, data[i - 1], |data[i - 1].attestations|)
  }

  datatype Tally = Tally(reward: nat, votes: nat, newVotes: nat)

  function Join(a: Tally, b: Tally): Tally { Tally(a.reward + b.reward, a.votes + b.votes, a.newVotes + b.newVotes) }

  /** What one vote adds to its block; only blocks of the next epoch are rewarded, each attestation's
      reward being divided on its own. */
  function TallyOf(ctx: Context, before: seq<Vote>, x: Vote, blockSlot: nat): Tally {
    Tally(if ctx.nextEpoch * SLOTS_PER_EPOCH <= blockSlot then Credit(before, x, ctx.base) / PROPOSER_DENOMINATOR else 0,
          |x.indices|, NonZero(FirstWeights(before, x, |ctx.base|)))
  }

  /** What the first k attestations of a block add to it. */
  function BlockTally(ctx: Context, before: seq<Vote>, d: BlockData, k: nat): Tally
    requires k <= |d.attestations|
  {
    if k == 0 then Tally(0, 0, 0)
    else if Counts(ctx, d.attestations[k - 1])
    then Join(BlockTally(ctx, before, d, k - 1),
              TallyOf(ctx, before + VotesOf(ctx, d, k - 1), VoteOf(ctx, d.attestations[k - 1], d.slot), d.slot))
    else BlockTally(ctx, before, d, k - 1)
  }

  function TallyAt(ctx: Context, data: seq<BlockData>, i: nat): Tally
    requires i < |data|
  {
    BlockTally(ctx, VotesBefore(ctx, data, i), data[i], |data[i].attestations|)
  }

  /** The rewards of proposer p's blocks among the first k. */
  function ProposerReward(ctx: Context, data: seq<BlockData>, k: nat, p: nat): nat
    requires k <= |data|
  {
    if k == 0 then 0
    else ProposerReward(ctx, data, k - 1, p) + if data[k - 1].proposer == p then TallyAt(ctx, data, k - 1).reward else 0
  }

  function TotalReward(ctx: Context, data: seq<BlockData>, k: nat): nat
    requires k <= |data|
  {
    if k == 0 then 0 else TotalReward(ctx, data, k - 1) + TallyAt(ctx, data, k - 1).reward
  }

  /** The attesters that a vote lists, repetitions included. */
  function Places(votes: seq<Vote>): nat {
    if votes == [] then 0 else Places(votes[..|votes| - 1]) + |votes[|votes| - 1].indices|
  }

  /** The validators to whom a vote gives some flag that no earlier vote gave them. */
  function NewVoters(before: seq<Vote>, x: Vote, n: nat): set<nat> {
    set v: nat | v < n && v in x.indices && FirstFlags(before, x, v) != {}
  }

  function NewVotersOf(before: seq<Vote>, votes: seq<Vote>, n: nat): nat {
    if votes == [] then 0
    else
      var rest := votes[..|votes| - 1];
      NewVotersOf(before, rest, n) + |NewVoters(before + rest, votes[|votes| - 1], n)|
  }

  lemma {:induction false} NonZeroIsSize(weights: seq<nat>)
    ensures NonZero(weights) == |set v: nat | v < |weights| && weights[v] > 0|
  {
    if weights != [] {
      var n := |weights| - 1;
      NonZeroSnoc(weights);
      NonZeroIsSize(weights[..n]);
      var before, all := set v: nat | v < n && weights[..n][v] > 0, set v: nat | v < |weights| && weights[v] > 0;
      if weights[n] > 0 { assert all == before + {n}; } else { assert all == before; }
    }
  }

  lemma NewVotersCounted(before: seq<Vote>, x: Vote, n: nat)
    ensures NonZero(FirstWeights(before, x, n)) == |NewVoters(before, x, n)|
  {
    var weights := FirstWeights(before, x, n);
    NonZeroIsSize(weights);
    forall v: nat | v < n ensures weights[v] > 0 <==> v in NewVoters(before, x, n) {
      SomeFirstFlag(before, x, v);
    }
    assert (set v: nat | v < |weights| && weights[v] > 0) == NewVoters(before, x, n);
  }

  lemma SomeFirstFlag(before: seq<Vote>, x: Vote, v: nat)
    ensures Weight(FirstFlags(before, x, v)) > 0 <==> v in x.indices && FirstFlags(before, x, v) != {}
  {
    WeightOfSome(FirstFlags(before, x, v));
    if f :| f in FirstFlags(before, x, v) { assert v in x.indices; }
  }

  lemma WeightOfSome(flags: set<Flag>)
    ensures Weight(flags) > 0 <==> flags != {}
  {
    if flags != {} {
      var f :| f in flags;
      match f { case Source => case Target => case Head => }
    }
  }

  lemma {:induction false} NonZeroSnoc(weights: seq<nat>)
    requires weights != []
    ensures NonZero(weights) == NonZero(weights[..|weights| - 1]) + if weights[|weights| - 1] > 0 then 1 else 0
  {
    if |weights| > 1 {
      NonZeroSnoc(weights[1..]);
      assert weights[1..][..|weights| - 2] == weights[..|weights| - 1][1..];
    }
  }

  /** The two vote counters of a block: all places its counted attestations list, and for each of these the
      validators who get a flag they had not yet. */
  lemma {:induction false} CountersCount(ctx: Context, before: seq<Vote>, d: BlockData, k: nat)
    requires k <= |d.attestations|
    ensures var tally, votes := BlockTally(ctx, before, d, k), VotesOf(ctx, d, k);
            tally.votes == Places(votes) && tally.newVotes == NewVotersOf(before, votes, |ctx.base|)
  {
    if k > 0 {
      CountersCount(ctx, before, d, k - 1);
      var a, rest := d.attestations[k - 1], VotesOf(ctx, d, k - 1);
      if Counts(ctx, a) {
        var x := VoteOf(ctx, a, d.slot);
        assert VotesOf(ctx, d, k)[..|rest|] == rest && VotesOf(ctx, d, k)[|rest|] == x;
        NewVotersCounted(before + rest, x, |ctx.base|);
      }
    }
  }

  // ------------------------------------------------------------ the walk over the blocks

  class Block {
    const data: BlockData
    var manualReward: nat
    var votesIncluded: nat
    var newVotesIncluded: nat

    function Counters(): Tally
      reads this
    {
      Tally(manualReward, votesIncluded, newVotesIncluded)
    }
  }

  function DataOf(blocks: seq<Block>): (data: seq<BlockData>)
    ensures |data| == |blocks| && forall i :: 0 <= i < |blocks| ==> data[i] == blocks[i].data
  {
    seq(|blocks|, i requires 0 <= i < |blocks| => blocks[i].data)
  }

  ghost predicate DistinctBlocks(blocks: seq<Block>) {
    forall i, j :: 0 <= i < |blocks| && 0 <= j < |blocks| && i != j ==> blocks[i] != blocks[j]
  }

  function Snapshot(blocks: seq<Block>): (counters: seq<Tally>)
    reads blocks
    ensures |counters| == |blocks| && forall i :: 0 <= i < |blocks| ==> counters[i] == blocks[i].Counters()
  {
    seq(|blocks|, i requires 0 <= i < |blocks| reads blocks => blocks[i].Counters())
  }

  /** The counters once the first k blocks are done. */
  function Tallied(ctx: Context, data: seq<BlockData>, start: seq<Tally>, k: nat): (counters: seq<Tally>)
    requires |start| == |data| && k <= |data|
    ensures |counters| == |data|
  {
    seq(|data|, i requires 0 <= i < |data| => if i < k then Join(start[i], TallyAt(ctx, data, i)) else start[i])
  }

  lemma TalliedStep(ctx: Context, data: seq<BlockData>, start: seq<Tally>, k: nat)
    requires |start| == |data| && k < |data|
    ensures Tallied(ctx, data, start, k)[k := Join(start[k], TallyAt(ctx, data, k))] == Tallied(ctx, data, start, k + 1)
    ensures Tallied(ctx, data, start, k)[k] == start[k]
  {
  }

  lemma {:induction false} ValidAt(ctx: Context, data: seq<BlockData>, i: nat)
    requires ValidBlocks(ctx, data) && i < |data|
    ensures ctx.currentCount <= |ctx.base| && ValidBlock(ctx, data[i])
  {
    if i > 0 { ValidAt(ctx, data[1..], i - 1); } else { EnoughBases(ctx, data[1..]); }
  }

  lemma {:induction false} EnoughBases(ctx: Context, data: seq<BlockData>)
    requires ValidBlocks(ctx, data)
    ensures ctx.currentCount <= |ctx.base|
  {
    if data != [] { EnoughBases(ctx, data[1..]); }
  }

  /** Both bitmaps reflect the votes so far. */
  ghost predicate BothReflect(ctx: Context, current: seq<set<Flag>>, next: seq<set<Flag>>, votes: seq<Vote>) {
    && |current| == ctx.currentCount && |next| == |ctx.base|
    && Reflects(current, votes, true) && Reflects(next, votes, false)
  }

  function NoFlags(n: nat): (s: seq<set<Flag>>)
    ensures |s| == n && Reflects(s, [], true) && Reflects(s, [], false)
  {
    seq(n, _ => {})
  }

  function Get(m: map<nat, nat>, p: nat): nat { if p in m then m[p] else 0 }

  /** Reading the map, only the entry of proposer q has grown. */
  ghost predicate Raised(m: map<nat, nat>, after: map<nat, nat>, q: nat, amount: nat) {
    forall p: nat :: Get(after, p) == Get(m, p) + if p == q then amount else 0
  }

  /** Every proposer's entry has grown by the rewards of its blocks among the first k. */
  ghost predicate RaisedByBlocks(ctx: Context, data: seq<BlockData>, k: nat, m: map<nat, nat>, after: map<nat, nat>)
    requires k <= |data|
  {
    forall p: nat :: Get(after, p) == Get(m, p) + ProposerReward(ctx, data, k, p)
  }

  lemma RaiseBlock(ctx: Context, data: seq<BlockData>, k: nat, m: map<nat, nat>, now: map<nat, nat>, after: map<nat, nat>)
    requires k < |data| && RaisedByBlocks(ctx, data, k, m, now)
    requires Raised(now, after, data[k].proposer, TallyAt(ctx, data, k).reward)
    ensures RaisedByBlocks(ctx, data, k + 1, m, after)
  {
  }

  /** Read without a default: in a map that started empty, an entry is what its proposer's blocks earned. */
  lemma EntriesFromNothing(ctx: Context, data: seq<BlockData>, k: nat, after: map<nat, nat>)
    requires k <= |data| && RaisedByBlocks(ctx, data, k, map[], after)
    ensures forall p: nat :: p in after ==> after[p] == ProposerReward(ctx, data, k, p)
  {
    forall p: nat | p in after ensures after[p] == ProposerReward(ctx, data, k, p) {
      assert Get(after, p) == Get(map[], p) + ProposerReward(ctx, data, k, p);
    }
  }

  /** Where the walk stands after k blocks: counters, proposer rewards and bitmaps. */
  ghost predicate Walked(ctx: Context, data: seq<BlockData>, k: nat, start: seq<Tally>, counters: seq<Tally>,
                         rewards: map<nat, nat>, now: map<nat, nat>, current: seq<set<Flag>>, next: seq<set<Flag>>)
    requires |start| == |data|
  {
    && k <= |data|
    && BothReflect(ctx, current, next, VotesBefore(ctx, data, k))
    && counters == Tallied(ctx, data, start, k)
    && RaisedByBlocks(ctx, data, k, rewards, now)
  }

  lemma WalkStarts(ctx: Context, data: seq<BlockData>, start: seq<Tally>, rewards: map<nat, nat>)
    requires |start| == |data|
    ensures Walked(ctx, data, 0, start, start, rewards, rewards, NoFlags(ctx.currentCount), NoFlags(|ctx.base|))
  {
  }

  // ------------------------------------------------------------ whose attestation was included

  /** Some vote for the current epoch lists the validator. */
  predicate IncludedIn(votes: seq<Vote>, v: nat) {
    exists k :: 0 <= k < |votes| && votes[k].current && v in votes[k].indices
  }

  /** What was marked stays, and the votes mark exactly those they list. */
  ghost predicate Inclusions(before: seq<bool>, after: seq<bool>, votes: seq<Vote>) {
    && |after| == |before|
    && forall v :: 0 <= v < |before| ==> (after[v] <==> before[v] || IncludedIn(votes, v))
  }

  lemma IncludedSnoc(votes: seq<Vote>, x: Vote, v: nat)
    ensures IncludedIn(votes + [x], v) <==> IncludedIn(votes, v) || (x.current && v in x.indices)
  {
    var more := votes + [x];
    assert more[|votes|] == x && forall k :: 0 <= k < |votes| ==> more[k] == votes[k];
  }

  lemma InclusionsSnoc(before: seq<bool>, now: seq<bool>, after: seq<bool>, votes: seq<Vote>, x: Vote)
    requires Inclusions(before, now, votes) && |after| == |now|
    requires forall v :: 0 <= v < |now| ==> (after[v] <==> now[v] || (x.current && v in x.indices))
    ensures Inclusions(before, after, votes + [x])
  {
    forall v | 0 <= v < |before| ensures after[v] <==> before[v] || IncludedIn(votes + [x], v) {
      IncludedSnoc(votes, x, v);
    }
  }

  lemma InclusionsJoin(before: seq<bool>, now: seq<bool>, after: seq<bool>, a: seq<Vote>, b: seq<Vote>)
    requires Inclusions(before, now, a) && Inclusions(now, after, b)
    ensures Inclusions(before, after, a + b)
  {
    forall v | 0 <= v < |before| ensures IncludedIn(a + b, v) <==> IncludedIn(a, v) || IncludedIn(b, v) {
      assert forall k :: 0 <= k < |a| ==> (a + b)[k] == a[k];
      assert forall k :: 0 <= k < |b| ==> (a + b)[|a| + k] == b[k];
    }
  }

  class AttestationMetrics {
    const ctx: Context
    var maxBlockRewards: map<nat, nat>
    /** Per validator of the current state. */
    var attestationIncluded: seq<bool>

    constructor (ctx: Context)
      ensures this.ctx == ctx && maxBlockRewards == map[] && attestationIncluded == seq(ctx.currentCount, _ => false)
    {
      this.ctx, maxBlockRewards, attestationIncluded := ctx, map[], seq(ctx.currentCount, _ => false);
    }

    /** The attesters of a vote for the current epoch are marked. */
    method MarkIncluded(x: Vote)
      requires Known(ctx, x) && |attestationIncluded| == ctx.currentCount
      modifies this`attestationIncluded
      ensures |attestationIncluded| == ctx.currentCount
      ensures forall v :: 0 <= v < ctx.currentCount ==>
                (attestationIncluded[v] <==> old(attestationIncluded[v]) || (x.current && v in x.indices))
    {
      if x.current {
        for k := 0 to |x.indices|
          invariant |attestationIncluded| == ctx.currentCount
          invariant forall v :: 0 <= v < ctx.currentCount ==>
                      (attestationIncluded[v] <==> old(attestationIncluded[v]) || v in x.indices[..k])
        {
          assert x.indices[k] in x.indices && x.indices[..k + 1] == x.indices[..k] + [x.indices[k]];
          attestationIncluded := attestationIncluded[x.indices[k] := true];
        }
        assert x.indices[..|x.indices|] == x.indices;
      }
    }

    /** The bitmap of the vote's own epoch is updated. */
    method CountVote(x: Vote, ghost before: seq<Vote>, current: seq<set<Flag>>, next: seq<set<Flag>>)
      returns (current': seq<set<Flag>>, next': seq<set<Flag>>, attReward: nat, newVotes: nat)
      requires ctx.currentCount <= |ctx.base| && BothReflect(ctx, current, next, before)
      requires Known(ctx, x)
      ensures BothReflect(ctx, current', next', before + [x])
      ensures attReward == Credit(before, x, ctx.base) && newVotes == NonZero(FirstWeights(before, x, |ctx.base|))
    {
      current', next' := current, next;
      if x.current {
        current', attReward, newVotes := CreditVote(before, x, current, ctx.base);
        OtherEpochUntouched(next, before, x, false);
      } else {
        next', attReward, newVotes := CreditVote(before, x, next, ctx.base);
        OtherEpochUntouched(current, before, x, true);
      }
    }

    /** Only blocks of the next state are rewarded. */
    method PostReward(block: Block, credit: nat, votes: nat, newVotes: nat)
      modifies block, this`maxBlockRewards
      ensures var reward := if ctx.nextEpoch * SLOTS_PER_EPOCH <= block.data.slot then credit / PROPOSER_DENOMINATOR else 0;
              && block.Counters() == Join(old(block.Counters()), Tally(reward, votes, newVotes))
              && Raised(old(maxBlockRewards), maxBlockRewards, block.data.proposer, reward)
    {
      block.votesIncluded := block.votesIncluded + votes;
      block.newVotesIncluded := block.newVotesIncluded + newVotes;
      if ctx.nextEpoch * SLOTS_PER_EPOCH <= block.data.slot {
        var attReward := credit / PROPOSER_DENOMINATOR;
        maxBlockRewards := maxBlockRewards[block.data.proposer := Get(maxBlockRewards, block.data.proposer) + attReward];
        block.manualReward := block.manualReward + attReward;
      }
    }

    /** One attestation, seen as a vote. */
    method ProcessVote(block: Block, x: Vote, ghost before: seq<Vote>, current: seq<set<Flag>>, next: seq<set<Flag>>)
      returns (current': seq<set<Flag>>, next': seq<set<Flag>>)
      requires ctx.currentCount <= |ctx.base| && BothReflect(ctx, current, next, before)
      requires Known(ctx, x) && |attestationIncluded| == ctx.currentCount
      modifies block, this
      ensures BothReflect(ctx, current', next', before + [x])
      ensures block.Counters() == Join(old(block.Counters()), TallyOf(ctx, before, x, block.data.slot))
      ensures Raised(old(maxBlockRewards), maxBlockRewards, block.data.proposer, TallyOf(ctx, before, x, block.data.slot).reward)
      ensures |attestationIncluded| == ctx.currentCount
      ensures forall v :: 0 <= v < ctx.currentCount ==>
                (attestationIncluded[v] <==> old(attestationIncluded[v]) || (x.current && v in x.indices))
    {
      MarkIncluded(x);
      var credit, newVotes;
      current', next', credit, newVotes := CountVote(x, before, current, next);
      PostReward(block, credit, |x.indices|, newVotes);
    }

    /** All attestations of one block. */
    method ProcessBlock(block: Block, ghost before: seq<Vote>, current: seq<set<Flag>>, next: seq<set<Flag>>)
      returns (current': seq<set<Flag>>, next': seq<set<Flag>>)
      requires ctx.currentCount <= |ctx.base| && ValidBlock(ctx, block.data) && BothReflect(ctx, current, next, before)
      requires |attestationIncluded| == ctx.currentCount
      modifies block, this
      ensures Inclusions(old(attestationIncluded), attestationIncluded, VotesOf(ctx, block.data, |block.data.attestations|))
      ensures BothReflect(ctx, current', next', before + VotesOf(ctx, block.data, |block.data.attestations|))
      ensures var tally := BlockTally(ctx, before, block.data, |block.data.attestations|);
              && block.Counters() == Join(old(block.Counters()), tally)
              && Raised(old(maxBlockRewards), maxBlockRewards, block.data.proposer, tally.reward)
    {
      current', next' := current, next;
      ghost var d := block.data;
      assert before + [] == before;
      for k := 0 to |block.data.attestations|
        invariant |attestationIncluded| == ctx.currentCount
        invariant Inclusions(old(attestationIncluded), attestationIncluded, VotesOf(ctx, d, k))
        invariant BothReflect(ctx, current', next', before + VotesOf(ctx, d, k))
        invariant block.Counters() == Join(old(block.Counters()), BlockTally(ctx, before, d, k))
        invariant Raised(old(maxBlockRewards), maxBlockRewards, d.proposer, BlockTally(ctx, before, d, k).reward)
      {
        var a := block.data.attestations[k];
        if a.slot < ctx.currentEpoch * SLOTS_PER_EPOCH { continue; }
        ghost var sofar := before + VotesOf(ctx, d, k);
        var flags := ParticipationFlags(a, ctx.roots(a), block.data.slot);
        var indices := GetAttestingIndices(a);
        var x := Vote(SlotInEpoch(a.slot, ctx.currentEpoch), flags, indices);
        assert x == VoteOf(ctx, a, d.slot);
        assert ValidAttestation(ctx, a, d.slot) && sofar + [x] == before + VotesOf(ctx, d, k + 1);
        ghost var marked := attestationIncluded;
        current', next' := ProcessVote(block, x, sofar, current', next');
        InclusionsSnoc(old(attestationIncluded), marked, attestationIncluded, VotesOf(ctx, d, k), x);
      }
    }

    /** Where the walk stands after k blocks, marks included. */
    ghost predicate Standing(blocks: seq<Block>, k: nat, start: seq<Tally>, rewards: map<nat, nat>, included: seq<bool>,
                             current: seq<set<Flag>>, next: seq<set<Flag>>)
      requires k <= |blocks| == |start|
      reads this, blocks
    {
      && |attestationIncluded| == ctx.currentCount
      && Walked(ctx, DataOf(blocks), k, start, Snapshot(blocks), rewards, maxBlockRewards, current, next)
      && Inclusions(included, attestationIncluded, VotesBefore(ctx, DataOf(blocks), k))
    }

    /** The i-th block of the walk; the others are left alone. */
    method ProcessNext(blocks: seq<Block>, i: nat, ghost start: seq<Tally>, ghost rewards: map<nat, nat>, ghost included: seq<bool>,
                       current: seq<set<Flag>>, next: seq<set<Flag>>)
      returns (current': seq<set<Flag>>, next': seq<set<Flag>>)
      requires ValidBlocks(ctx, DataOf(blocks)) && DistinctBlocks(blocks) && i < |blocks| == |start|
      requires Standing(blocks, i, start, rewards, included, current, next)
      modifies blocks[i], this
      ensures Standing(blocks, i + 1, start, rewards, included, current', next')
    {
      ghost var marked := attestationIncluded;
      ghost var data, counters, before := DataOf(blocks), Snapshot(blocks), maxBlockRewards;
      ValidAt(ctx, data, i);
      current', next' := ProcessBlock(blocks[i], VotesBefore(ctx, data, i), current, next);
      assert Snapshot(blocks) == counters[i := Join(counters[i], TallyAt(ctx, data, i))];
      TalliedStep(ctx, data, start, i);
      RaiseBlock(ctx, data, i, rewards, before, maxBlockRewards);
      InclusionsJoin(included, marked, attestationIncluded, VotesBefore(ctx, data, i),
                     VotesOf(ctx, data[i], |data[i].attestations|));
    }

    /** The blocks of the current state, then those of the next. Counters of a block are added to, never
        reset; the map of the bundle starts empty. */
    method ProcessAttestations(blocks: seq<Block>)
      requires ValidBlocks(ctx, DataOf(blocks)) && DistinctBlocks(blocks) && |attestationIncluded| == ctx.currentCount
      modifies blocks, this
      ensures Inclusions(old(attestationIncluded), attestationIncluded, VotesBefore(ctx, DataOf(blocks), |blocks|))
      ensures Snapshot(blocks) == Tallied(ctx, DataOf(blocks), old(Snapshot(blocks)), |blocks|)
      ensures RaisedByBlocks(ctx, DataOf(blocks), |blocks|, old(maxBlockRewards), maxBlockRewards)
      ensures old(maxBlockRewards) == map[] ==>
                forall p: nat :: p in maxBlockRewards ==> maxBlockRewards[p] == ProposerReward(ctx, DataOf(blocks), |blocks|, p)
    {
      var current, next := NoFlags(ctx.currentCount), NoFlags(|ctx.base|);
      ghost var start, rewards, included := Snapshot(blocks), maxBlockRewards, attestationIncluded;
      WalkStarts(ctx, DataOf(blocks), start, rewards);
      for i := 0 to |blocks|
        invariant Standing(blocks, i, start, rewards, included, current, next)
      {
        current, next := ProcessNext(blocks, i, start, rewards, included, current, next);
      }
      if rewards == map[] { EntriesFromNothing(ctx, DataOf(blocks), |blocks|, maxBlockRewards); }
    }
  }

  // ------------------------------------------------------------ what the credits add up to

  /** All credits, each vote against the votes before it. */
  function CreditSum(votes: seq<Vote>, base: seq<nat>): nat {
    if votes == [] then 0
    else CreditSum(votes[..|votes| - 1], base) + Credit(votes[..|votes| - 1], votes[|votes| - 1], base)
  }

  function CoveredFlags(votes: seq<Vote>, current: bool, v: nat): set<Flag> {
    set f: Flag | f in {Source, Target, Head} && Covered(votes, current, v, f)
  }

  function CoveredWeights(votes: seq<Vote>, current: bool, n: nat): seq<nat> {
    seq(n, v requires 0 <= v < n => Weight(CoveredFlags(votes, current, v)))
  }

  lemma WeightAdds(a: set<Flag>, b: set<Flag>)
    requires a !! b
    ensures Weight(a + b) == Weight(a) + Weight(b)
  {
  }

  lemma CoveredGrows(votes: seq<Vote>, x: Vote, v: nat)
    ensures Weight(CoveredFlags(votes + [x], x.current, v))
            == Weight(CoveredFlags(votes, x.current, v)) + Weight(FirstFlags(votes, x, v))
    ensures CoveredFlags(votes + [x], !x.current, v) == CoveredFlags(votes, !x.current, v)
  {
    var was, first, now := CoveredFlags(votes, x.current, v), FirstFlags(votes, x, v), CoveredFlags(votes + [x], x.current, v);
    forall f: Flag
      ensures f in now <==> f in was + first
      ensures f in CoveredFlags(votes + [x], !x.current, v) <==> f in CoveredFlags(votes, !x.current, v)
    {
      CoveredSnoc(votes, x, x.current, v, f);
      CoveredSnoc(votes, x, !x.current, v, f);
      match f { case Source => case Target => case Head => }
    }
    assert now == was + first;
    WeightAdds(was, first);
  }

  lemma OneMoreVote(rest: seq<Vote>, x: Vote, base: seq<nat>)
    ensures Dot(base, CoveredWeights(rest + [x], x.current, |base|))
            == Dot(base, CoveredWeights(rest, x.current, |base|)) + Credit(rest, x, base)
    ensures CoveredWeights(rest + [x], !x.current, |base|) == CoveredWeights(rest, !x.current, |base|)
  {
    var n := |base|;
    var before, after := CoveredWeights(rest, !x.current, n), CoveredWeights(rest + [x], !x.current, n);
    forall v | 0 <= v < n
      ensures CoveredWeights(rest + [x], x.current, n)[v] == CoveredWeights(rest, x.current, n)[v] + FirstWeights(rest, x, n)[v]
      ensures before[v] == after[v]
    {
      CoveredGrows(rest, x, v);
    }
    assert |before| == |after| == n && before == after;
    DotAdds(base, CoveredWeights(rest, x.current, n), FirstWeights(rest, x, n), CoveredWeights(rest + [x], x.current, n));
  }

  /** Every validator, epoch and flag is credited exactly once, by the first attestation that covers it:
      the credits of all attestations add up to what is covered at the end. */
  lemma {:induction false} EachFlagOnce(votes: seq<Vote>, base: seq<nat>)
    ensures CreditSum(votes, base)
            == Dot(base, CoveredWeights(votes, true, |base|)) + Dot(base, CoveredWeights(votes, false, |base|))
  {
    if votes == [] {
      DotZero(base, CoveredWeights(votes, true, |base|));
      DotZero(base, CoveredWeights(votes, false, |base|));
    } else {
      var rest, x := votes[..|votes| - 1], votes[|votes| - 1];
      assert rest + [x] == votes;
      EachFlagOnce(rest, base);
      OneMoreVote(rest, x, base);
    }
  }

  /** Two epochs, all flags: at most twice 54 per unit of base reward. */
  lemma CreditsBounded(votes: seq<Vote>, base: seq<nat>)
    ensures CreditSum(votes, base) <= 108 * Sum(base)
  {
    EachFlagOnce(votes, base);
    DotBounded(base, CoveredWeights(votes, true, |base|), 54);
    DotBounded(base, CoveredWeights(votes, false, |base|), 54);
  }

  lemma DividingLoses(credit: nat)
    ensures 448 * (credit / PROPOSER_DENOMINATOR) <= credit
  {
    assert PROPOSER_DENOMINATOR == 448;
  }

  lemma VoteRewardWithinCredit(ctx: Context, before: seq<Vote>, x: Vote, blockSlot: nat)
    ensures 448 * TallyOf(ctx, before, x, blockSlot).reward + CreditSum(before, ctx.base) <= CreditSum(before + [x], ctx.base)
  {
    assert (before + [x])[..|before|] == before;
    DividingLoses(Credit(before, x, ctx.base));
  }

  lemma VotesSnoc(ctx: Context, before: seq<Vote>, d: BlockData, k: nat)
    requires 0 < k <= |d.attestations| && Counts(ctx, d.attestations[k - 1])
    ensures before + VotesOf(ctx, d, k) == before + VotesOf(ctx, d, k - 1) + [VoteOf(ctx, d.attestations[k - 1], d.slot)]
  {
  }

  lemma {:induction false} BlockRewardWithinCredits(ctx: Context, before: seq<Vote>, d: BlockData, k: nat)
    requires k <= |d.attestations|
    ensures 448 * BlockTally(ctx, before, d, k).reward + CreditSum(before, ctx.base)
            <= CreditSum(before + VotesOf(ctx, d, k), ctx.base)
  {
    if k == 0 {
      assert before + [] == before;
    } else {
      BlockRewardWithinCredits(ctx, before, d, k - 1);
      var a := d.attestations[k - 1];
      if Counts(ctx, a) {
        var sofar, x := before + VotesOf(ctx, d, k - 1), VoteOf(ctx, a, d.slot);
        VoteRewardWithinCredit(ctx, sofar, x, d.slot);
        VotesSnoc(ctx, before, d, k);
      }
    }
  }

  lemma {:induction false} RewardsWithinCredits(ctx: Context, data: seq<BlockData>, k: nat)
    requires k <= |data|
    ensures 448 * TotalReward(ctx, data, k) <= CreditSum(VotesBefore(ctx, data, k), ctx.base)
  {
    if k > 0 {
      RewardsWithinCredits(ctx, data, k - 1);
      BlockRewardWithinCredits(ctx, VotesBefore(ctx, data, k - 1), data[k - 1], |data[k - 1].attestations|);
    }
  }

  /** For any blocks whatsoever, the rewards of one bundle stay within 108/448 of the sum of base
      rewards. */
  lemma ProposersShareBounded(ctx: Context, data: seq<BlockData>)
    ensures TotalReward(ctx, data, |data|) <= 108 * Sum(ctx.base) / 448
  {
    RewardsWithinCredits(ctx, data, |data|);
    CreditsBounded(VotesBefore(ctx, data, |data|), ctx.base);
  }

  lemma {:induction false} CreditWithinSum(votes: seq<Vote>, base: seq<nat>, i: nat)
    requires i < |votes|
    ensures Credit(votes[..i], votes[i], base) <= CreditSum(votes, base)
  {
    var rest := votes[..|votes| - 1];
    if i < |rest| {
      CreditWithinSum(rest, base, i);
      assert rest[..i] == votes[..i];
    }
  }

  lemma {:induction false} BlockWithinTotal(ctx: Context, data: seq<BlockData>, i: nat, k: nat)
    requires i < k <= |data|
    ensures TallyAt(ctx, data, i).reward <= TotalReward(ctx, data, k)
  {
    if i < k - 1 { BlockWithinTotal(ctx, data, i, k - 1); }
  }

  lemma {:induction false} ProposerWithinTotal(ctx: Context, data: seq<BlockData>, k: nat, p: nat)
    requires k <= |data|
    ensures ProposerReward(ctx, data, k, p) <= TotalReward(ctx, data, k)
  {
    if k > 0 { ProposerWithinTotal(ctx, data, k - 1, p); }
  }

  /** If 108 times the sum of base rewards fits uint64, so does every sum that a bundle forms from cleared
      counters: an attestation's credit, a block's reward and a proposer's. Natural sums are the uint64 ones. */
  lemma NoSumWraps(ctx: Context, data: seq<BlockData>, i: nat, p: nat, votes: seq<Vote>, j: nat)
    requires 108 * Sum(ctx.base) < U64 && i < |data| && j < |votes|
    ensures Wrap(TallyAt(ctx, data, i).reward) == TallyAt(ctx, data, i).reward
    ensures Wrap(ProposerReward(ctx, data, |data|, p)) == ProposerReward(ctx, data, |data|, p)
    ensures Wrap(Credit(votes[..j], votes[j], ctx.base)) == Credit(votes[..j], votes[j], ctx.base)
  {
    BlockWithinTotal(ctx, data, i, |data|);
    ProposerWithinTotal(ctx, data, |data|, p);
    ProposersShareBounded(ctx, data);
    CreditWithinSum(votes, ctx.base, j);
    CreditsBounded(votes, ctx.base);
  }

  /** What is entered for proposers is what is added to blocks. */
  lemma {:induction false} ProposersGetAllRewards(ctx: Context, data: seq<BlockData>, k: nat, n: nat)
    requires k <= |data| && forall i :: 0 <= i < |data| ==> data[i].proposer < n
    ensures SumUpTo(ctx, data, k, n) == TotalReward(ctx, data, k)
  {
    if k == 0 {
      NoRewards(ctx, data, n);
    } else {
      ProposersGetAllRewards(ctx, data, k - 1, n);
      OneMoreBlock(ctx, data, k, n);
    }
  }

  /** The entries of the first n proposers, over the first k blocks. */
  function SumUpTo(ctx: Context, data: seq<BlockData>, k: nat, n: nat): nat
    requires k <= |data|
  {
    if n == 0 then 0 else SumUpTo(ctx, data, k, n - 1) + ProposerReward(ctx, data, k, n - 1)
  }

  lemma {:induction false} NoRewards(ctx: Context, data: seq<BlockData>, n: nat)
    ensures SumUpTo(ctx, data, 0, n) == 0
  {
    if n > 0 { NoRewards(ctx, data, n - 1); }
  }

  lemma {:induction false} OneMoreBlock(ctx: Context, data: seq<BlockData>, k: nat, n: nat)
    requires 0 < k <= |data|
    ensures SumUpTo(ctx, data, k, n)
            == SumUpTo(ctx, data, k - 1, n) + if data[k - 1].proposer < n then TallyAt(ctx, data, k - 1).reward else 0
  {
    if n > 0 { OneMoreBlock(ctx, data, k, n - 1); }
  }
}
