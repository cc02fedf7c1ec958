/** Aggregation of validator rewards over windows of consecutive epochs, while epochs are delivered in
    any order, more than once, late or early. */
module RewardsWindow {
  import opened Chain

  // ------------------------------------------------------------ rows and machine-width totals

  /** The row of one validator for one epoch. */
  datatype ValidatorRewards = ValidatorRewards(
    validator: nat, reward: int, maxReward: Uint64, attestationReward: Uint64, syncCommitteeReward: Uint64, baseReward: Uint64,
    inSyncCommittee: bool, participationsIncluded: nat, attestationIncluded: bool,
    missingSource: bool, missingTarget: bool, missingHead: bool,
    proposerApiReward: Uint64, proposerManualReward: Uint64, inclusionDelay: int)

  /** The stored sums of one validator. */
  datatype Totals = Totals(
    reward: int, maxReward: int, attestationReward: int, syncCommitteeReward: int, baseReward: int,
    inSyncCommittee: int, participationsIncluded: int, attestationsIncluded: int,
    missingSource: int, missingTarget: int, missingHead: int,
    proposerApiReward: int, proposerManualReward: int, inclusionDelay: int)

  const NOTHING: Totals := Totals(0, 0, 0, 0, 0, 0, 0, 0, 0, 0, 0, 0, 0, 0)

  datatype Field =
    | Reward | MaxReward | AttestationReward | SyncCommitteeReward | BaseReward
    | InSyncCommittee | ParticipationsIncluded | AttestationsIncluded
    | MissingSource | MissingTarget | MissingHead
    | ProposerApiReward | ProposerManualReward | InclusionDelay

  predicate IsCounter(f: Field) {
    f in {InSyncCommittee, ParticipationsIncluded, AttestationsIncluded, MissingSource, MissingTarget, MissingHead}
  }

  const U16: nat := 0x1_0000
  const U32: nat := 0x1_0000_0000

  function One(b: bool): int { if b then 1 else 0 }

  function Get(t: Totals, f: Field): int {
    match f {
      case Reward => t.reward
      case MaxReward => t.maxReward
      case AttestationReward => t.attestationReward
      case SyncCommitteeReward => t.syncCommitteeReward
      case BaseReward => t.baseReward
      case InSyncCommittee => t.inSyncCommittee
      case ParticipationsIncluded => t.participationsIncluded
      case AttestationsIncluded => t.attestationsIncluded
      case MissingSource => t.missingSource
      case MissingTarget => t.missingTarget
      case MissingHead => t.missingHead
      case ProposerApiReward => t.proposerApiReward
      case ProposerManualReward => t.proposerManualReward
      case InclusionDelay => t.inclusionDelay
    }
  }

  /** What one row contributes to each sum. */
  function Contribution(r: ValidatorRewards, f: Field): int {
    match f {
      case Reward => r.reward
      case MaxReward => r.maxReward
      case AttestationReward => r.attestationReward
      case SyncCommitteeReward => r.syncCommitteeReward
      case BaseReward => r.baseReward
      case InSyncCommittee => One(r.inSyncCommittee)
      case ParticipationsIncluded => r.participationsIncluded
      case AttestationsIncluded => One(r.attestationIncluded)
      case MissingSource => One(r.missingSource)
      case MissingTarget => One(r.missingTarget)
      case MissingHead => One(r.missingHead)
      case ProposerApiReward => r.proposerApiReward
      case ProposerManualReward => r.proposerManualReward
      case InclusionDelay => r.inclusionDelay
    }
  }

  /** What is left of a true sum in a field of the program's width. */
  function Narrow(f: Field, x: int): int {
    match f {
      case Reward => WrapSigned(x)
      case InSyncCommittee | ParticipationsIncluded | AttestationsIncluded => x % U16
      case MissingSource | MissingTarget | MissingHead => x % U16
      case InclusionDelay => x % U32
      case _ => Wrap(x)
    }
  }

  /** Narrowing at every addition is narrowing once at the end. */
  lemma NarrowAdd(f: Field, x: int, y: int)
    ensures Narrow(f, Narrow(f, x) + y) == Narrow(f, x + y)
  {
    match f {
      case Reward => SignedStep(x, y);
      case InSyncCommittee | ParticipationsIncluded | AttestationsIncluded => ModAdd16(x, y);
      case MissingSource | MissingTarget | MissingHead => ModAdd16(x, y);
      case InclusionDelay => ModAdd32(x, y);
      case _ => WrapAdd(x, y);
    }
  }

  lemma ModAdd16(x: int, y: int)
    ensures (x % U16 + y) % U16 == (x + y) % U16
  {
  }

  lemma ModAdd32(x: int, y: int)
    ensures (x % U32 + y) % U32 == (x + y) % U32
  {
  }

  lemma NarrowZero(f: Field)
    ensures Narrow(f, 0) == 0 && Get(NOTHING, f) == 0
  {
  }

  /** The statements f.X += row.X, each in its field's width. */
  function Aggregate(t: Totals, r: ValidatorRewards): (after: Totals)
    ensures forall f :: Get(after, f) == Narrow(f, Get(t, f) + Contribution(r, f))
  {
    Totals(
      WrapSigned(t.reward + r.reward),
      Wrap(t.maxReward + r.maxReward),
      Wrap(t.attestationReward + r.attestationReward),
      Wrap(t.syncCommitteeReward + r.syncCommitteeReward),
      Wrap(t.baseReward + r.baseReward),
      (if r.inSyncCommittee then t.inSyncCommittee + 1 else t.inSyncCommittee) % U16,
      (t.participationsIncluded + r.participationsIncluded) % U16,
      (if r.attestationIncluded then t.attestationsIncluded + 1 else t.attestationsIncluded) % U16,
      (if r.missingSource then t.missingSource + 1 else t.missingSource) % U16,
      (if r.missingTarget then t.missingTarget + 1 else t.missingTarget) % U16,
      (if r.missingHead then t.missingHead + 1 else t.missingHead) % U16,
      Wrap(t.proposerApiReward + r.proposerApiReward),
      Wrap(t.proposerManualReward + r.proposerManualReward),
      (t.inclusionDelay + r.inclusionDelay) % U32)
  }

  /** A row that is alone in its window, with numbers in the ranges of their types, comes back field by field. */
  lemma OneRowComesBack(r: ValidatorRewards)
    requires -0x8000_0000_0000_0000 <= r.reward < 0x8000_0000_0000_0000
    requires r.participationsIncluded < 65_536 && 0 <= r.inclusionDelay < 4_294_967_296
    ensures var t := Aggregate(NOTHING, r);
      && t.reward == r.reward && t.maxReward == r.maxReward && t.attestationReward == r.attestationReward
      && t.syncCommitteeReward == r.syncCommitteeReward && t.baseReward == r.baseReward
      && (t.inSyncCommittee == if r.inSyncCommittee then 1 else 0)
      && t.participationsIncluded == r.participationsIncluded
      && (t.attestationsIncluded == if r.attestationIncluded then 1 else 0)
      && (t.missingSource == if r.missingSource then 1 else 0)
      && (t.missingTarget == if r.missingTarget then 1 else 0)
      && (t.missingHead == if r.missingHead then 1 else 0)
      && t.proposerApiReward == r.proposerApiReward && t.proposerManualReward == r.proposerManualReward
      && t.inclusionDelay == r.inclusionDelay
  {
    SignedExact(r.reward);
  }

  /** Every field keeps the true sum up to multiples of its own width: 64 bits signed for the reward, 16 bits for
      counters, 32 for the inclusion delay, 64 for the other amounts. */
  lemma NarrowIsResidue(f: Field, x: int) returns (k: int)
    ensures var n := Narrow(f, x);
      match f {
        case Reward => -0x8000_0000_0000_0000 <= n < 0x8000_0000_0000_0000 && x == n + k * 0x1_0000_0000_0000_0000
        case InSyncCommittee | ParticipationsIncluded | AttestationsIncluded => 0 <= n < 65_536 && x == n + k * 65_536
        case MissingSource | MissingTarget | MissingHead => 0 <= n < 65_536 && x == n + k * 65_536
        case InclusionDelay => 0 <= n < 4_294_967_296 && x == n + k * 4_294_967_296
        case _ => 0 <= n < 0x1_0000_0000_0000_0000 && x == n + k * 0x1_0000_0000_0000_0000
      }
  {
    match f {
      case Reward =>
        k := WrapQuotient(x);
        if Wrap(x) >= HALF_U64 { k := k + 1; }
      case InSyncCommittee | ParticipationsIncluded | AttestationsIncluded => k := x / 65_536;
      case MissingSource | MissingTarget | MissingHead => k := x / 65_536;
      case InclusionDelay => k := x / 4_294_967_296;
      case _ => k := WrapQuotient(x);
    }
  }

  // ------------------------------------------------------------ what a window is, by definition

  datatype Delivery = Delivery(epoch: nat, rows: seq<ValidatorRewards>)

  /** The deliveries that count: the closed windows in order, and the open one. */
  datatype Windows = Windows(closed: seq<seq<Delivery>>, open: seq<Delivery>)

  /** The first epoch of window k: n epochs after that of the window before. */
  function StartOf(first: nat, n: nat, k: nat): nat {
    if k == 0 then first else StartOf(first, n, k - 1) + n
  }

  lemma {:induction false} StartOfWindow(first: nat, n: nat, k: nat)
    ensures StartOf(first, n, k) == first + k * n
  {
    if k > 0 {
      StartOfWindow(first, n, k - 1);
      assert k * n == (k - 1) * n + n;
    }
  }

  predicate InWindow(first: nat, n: nat, k: nat, epoch: nat) {
    StartOf(first, n, k) <= epoch < StartOf(first, n, k) + n
  }

  predicate Has(deliveries: seq<Delivery>, epoch: nat) {
    exists i :: 0 <= i < |deliveries| && deliveries[i].epoch == epoch
  }

  /** A delivery counts if its epoch is in the open window and was not delivered to it yet; a window
      with n deliveries closes. */
  function Deliver(first: nat, n: nat, w: Windows, d: Delivery): Windows {
    if !InWindow(first, n, |w.closed|, d.epoch) || Has(w.open, d.epoch) then w
    else if |w.open| + 1 >= n then Windows(w.closed + [w.open + [d]], [])
    else Windows(w.closed, w.open + [d])
  }

  function After(first: nat, n: nat, all: seq<Delivery>): Windows {
    if all == [] then Windows([], [])
    else Deliver(first, n, After(first, n, all[..|all| - 1]), all[|all| - 1])
  }

  function SumRows(rows: seq<ValidatorRewards>, v: nat, f: Field): int {
    if rows == [] then 0
    else
      var r := rows[|rows| - 1];
      SumRows(rows[..|rows| - 1], v, f) + if r.validator == v then Contribution(r, f) else 0
  }

  /** The true sum of a field for validator v over the deliveries. */
  function SumOf(deliveries: seq<Delivery>, v: nat, f: Field): int {
    if deliveries == [] then 0
    else SumOf(deliveries[..|deliveries| - 1], v, f) + SumRows(deliveries[|deliveries| - 1].rows, v, f)
  }

  predicate InRows(rows: seq<ValidatorRewards>, v: nat) {
    exists i :: 0 <= i < |rows| && rows[i].validator == v
  }

  predicate Mentioned(deliveries: seq<Delivery>, v: nat) {
    exists i :: 0 <= i < |deliveries| && InRows(deliveries[i].rows, v)
  }

  // ------------------------------------------------------------ the running aggregation

  datatype Aggregation = Aggregation(startEpoch: nat, endEpoch: nat, totals: Totals)

  /** The stored rows of a window are the narrowed true sums of every validator it mentions. */
  ghost predicate Holds(rows: map<nat, Aggregation>, start: nat, end: nat, deliveries: seq<Delivery>) {
    forall v: nat :: HoldsFor(rows, start, end, v, Mentioned(deliveries, v), (f: Field) => SumOf(deliveries, v, f))
  }

  /** The same, with the first rows of one more delivery counted in. */
  ghost predicate HoldsPartly(rows: map<nat, Aggregation>, start: nat, end: nat, deliveries: seq<Delivery>, more: seq<ValidatorRewards>) {
    forall v: nat ::
      HoldsFor(rows, start, end, v, Mentioned(deliveries, v) || InRows(more, v),
               (f: Field) => SumOf(deliveries, v, f) + SumRows(more, v, f))
  }

  ghost predicate HoldsFor(rows: map<nat, Aggregation>, start: nat, end: nat, v: nat, present: bool, sum: Field -> int) {
    && (v in rows <==> present)
    && (present ==>
          && rows[v].startEpoch == start && rows[v].endEpoch == end
          && forall f :: Get(rows[v].totals, f) == Narrow(f, sum(f)))
  }

  lemma InRowsSnoc(more: seq<ValidatorRewards>, r: ValidatorRewards, v: nat)
    ensures InRows(more + [r], v) <==> InRows(more, v) || r.validator == v
    ensures forall f :: SumRows(more + [r], v, f) == SumRows(more, v, f) + if r.validator == v then Contribution(r, f) else 0
  {
    var all := more + [r];
    assert all[..|more|] == more;
    if i :| 0 <= i < |more| && more[i].validator == v { assert all[i].validator == v; }
    if r.validator == v { assert all[|more|].validator == v; }
  }

  lemma {:induction false} NoRowsNothing(rows: seq<ValidatorRewards>, v: nat, f: Field)
    requires !InRows(rows, v)
    ensures SumRows(rows, v, f) == 0
  {
    if rows != [] {
      var rest := rows[..|rows| - 1];
      assert forall i :: 0 <= i < |rest| ==> rest[i] == rows[i];
      NoRowsNothing(rest, v, f);
    }
  }

  lemma {:induction false} NotMentionedNothing(deliveries: seq<Delivery>, v: nat, f: Field)
    requires !Mentioned(deliveries, v)
    ensures SumOf(deliveries, v, f) == 0
  {
    if deliveries != [] {
      var rest := deliveries[..|deliveries| - 1];
      assert forall i :: 0 <= i < |rest| ==> rest[i] == deliveries[i];
      NotMentionedNothing(rest, v, f);
      NoRowsNothing(deliveries[|deliveries| - 1].rows, v, f);
    }
  }

  /** One row added to the stored sums of its validator, which start at zero when it is new. */
  lemma PartlyStep(rows: map<nat, Aggregation>, start: nat, end: nat, deliveries: seq<Delivery>,
                   more: seq<ValidatorRewards>, r: ValidatorRewards, after: map<nat, Aggregation>)
    requires HoldsPartly(rows, start, end, deliveries, more)
    requires var stored := if r.validator in rows then rows[r.validator].totals else NOTHING;
             after == rows[r.validator := Aggregation(start, end, Aggregate(stored, r))]
    ensures HoldsPartly(after, start, end, deliveries, more + [r])
  {
    var v0 := r.validator;
    var was := (f: Field) => SumOf(deliveries, v0, f) + SumRows(more, v0, f);
    assert HoldsFor(rows, start, end, v0, Mentioned(deliveries, v0) || InRows(more, v0), was);
    forall f ensures Get(after[v0].totals, f) == Narrow(f, was(f) + Contribution(r, f)) {
      if v0 !in rows {
        NotMentionedNothing(deliveries, v0, f);
        NoRowsNothing(more, v0, f);
        NarrowZero(f);
      }
      NarrowAdd(f, was(f), Contribution(r, f));
    }
    forall v: nat
      ensures HoldsFor(after, start, end, v, Mentioned(deliveries, v) || InRows(more + [r], v),
                       (f: Field) => SumOf(deliveries, v, f) + SumRows(more + [r], v, f))
    {
      InRowsSnoc(more, r, v);
      assert HoldsFor(rows, start, end, v, Mentioned(deliveries, v) || InRows(more, v),
                      (f: Field) => SumOf(deliveries, v, f) + SumRows(more, v, f));
    }
  }

  lemma PartlyEnds(rows: map<nat, Aggregation>, start: nat, end: nat, deliveries: seq<Delivery>, d: Delivery)
    requires HoldsPartly(rows, start, end, deliveries, d.rows)
    ensures Holds(rows, start, end, deliveries + [d])
  {
    var all := deliveries + [d];
    assert all[..|deliveries|] == deliveries;
    forall v: nat
      ensures HoldsFor(rows, start, end, v, Mentioned(all, v), (f: Field) => SumOf(all, v, f))
    {
      if i :| 0 <= i < |deliveries| && InRows(deliveries[i].rows, v) { assert InRows(all[i].rows, v); }
      if InRows(d.rows, v) { assert InRows(all[|deliveries|].rows, v); }
      if i :| 0 <= i < |all| && InRows(all[i].rows, v) { assert i < |deliveries| ==> InRows(deliveries[i].rows, v); }
      assert HoldsFor(rows, start, end, v, Mentioned(deliveries, v) || InRows(d.rows, v),
                      (f: Field) => SumOf(deliveries, v, f) + SumRows(d.rows, v, f));
    }
  }

  lemma PartlyStarts(rows: map<nat, Aggregation>, start: nat, end: nat, deliveries: seq<Delivery>)
    requires Holds(rows, start, end, deliveries)
    ensures HoldsPartly(rows, start, end, deliveries, [])
  {
    forall v: nat
      ensures HoldsFor(rows, start, end, v, Mentioned(deliveries, v) || InRows([], v),
                       (f: Field) => SumOf(deliveries, v, f) + SumRows([], v, f))
    {
      assert HoldsFor(rows, start, end, v, Mentioned(deliveries, v), (f: Field) => SumOf(deliveries, v, f));
    }
  }

  function Epochs(deliveries: seq<Delivery>): set<nat> {
    set i | 0 <= i < |deliveries| :: deliveries[i].epoch
  }

  ghost predicate DistinctEpochs(deliveries: seq<Delivery>) {
    forall i, j :: 0 <= i < j < |deliveries| ==> deliveries[i].epoch != deliveries[j].epoch
  }

  lemma EpochsSnoc(deliveries: seq<Delivery>, d: Delivery)
    ensures Epochs(deliveries + [d]) == Epochs(deliveries) + {d.epoch}
    ensures d.epoch in Epochs(deliveries) <==> Has(deliveries, d.epoch)
  {
    var all := deliveries + [d];
    forall x ensures x in Epochs(all) <==> x in Epochs(deliveries) + {d.epoch} {
      if x in Epochs(deliveries) {
        var i :| 0 <= i < |deliveries| && deliveries[i].epoch == x;
        assert all[i].epoch == x;
      }
      if x == d.epoch { assert all[|deliveries|].epoch == x; }
      if x in Epochs(all) {
        var i :| 0 <= i < |all| && all[i].epoch == x;
        assert i < |deliveries| ==> deliveries[i].epoch == x;
      }
    }
  }

  lemma {:induction false} DistinctEpochsCount(deliveries: seq<Delivery>)
    requires DistinctEpochs(deliveries)
    ensures |Epochs(deliveries)| == |deliveries|
  {
    if deliveries == [] {
      assert Epochs(deliveries) == {};
    } else {
      var rest, d := deliveries[..|deliveries| - 1], deliveries[|deliveries| - 1];
      assert rest + [d] == deliveries;
      DistinctEpochsCount(rest);
      EpochsSnoc(rest, d);
      assert !Has(rest, d.epoch);
    }
  }

  /** Deliveries of one window: distinct epochs, all inside it. */
  ghost predicate Within(first: nat, n: nat, k: nat, deliveries: seq<Delivery>) {
    DistinctEpochs(deliveries) && forall i :: 0 <= i < |deliveries| ==> InWindow(first, n, k, deliveries[i].epoch)
  }

  ghost predicate Regular(first: nat, n: nat, w: Windows) {
    && |w.open| < n && Within(first, n, |w.closed|, w.open)
    && forall k :: 0 <= k < |w.closed| ==> |w.closed[k]| == n && Within(first, n, k, w.closed[k])
  }

  lemma DeliverRegular(first: nat, n: nat, w: Windows, d: Delivery)
    requires n > 1 && Regular(first, n, w)
    ensures Regular(first, n, Deliver(first, n, w, d))
  {
    if InWindow(first, n, |w.closed|, d.epoch) && !Has(w.open, d.epoch) {
      assert Within(first, n, |w.closed|, w.open + [d]);
    }
  }

  lemma {:induction false} AlwaysRegular(first: nat, n: nat, all: seq<Delivery>)
    requires n > 1
    ensures Regular(first, n, After(first, n, all))
  {
    if all != [] {
      AlwaysRegular(first, n, all[..|all| - 1]);
      DeliverRegular(first, n, After(first, n, all[..|all| - 1]), all[|all| - 1]);
    }
  }

  lemma AfterSnoc(first: nat, n: nat, all: seq<Delivery>, d: Delivery)
    ensures After(first, n, all + [d]) == Deliver(first, n, After(first, n, all), d)
  {
    assert (all + [d])[..|all|] == all;
  }

  /** A counted delivery makes the set of seen epochs one larger. */
  lemma OpenCount(first: nat, n: nat, w: Windows, d: Delivery)
    requires Regular(first, n, w) && !Has(w.open, d.epoch)
    ensures |Epochs(w.open + [d])| == |w.open| + 1
  {
    assert DistinctEpochs(w.open + [d]);
    DistinctEpochsCount(w.open + [d]);
  }

  /** Only windows with some row are written to the database. */
  function Written(flushed: seq<map<nat, Aggregation>>): seq<map<nat, Aggregation>> {
    if flushed == [] then []
    else if |flushed[|flushed| - 1]| > 0 then Written(flushed[..|flushed| - 1]) + [flushed[|flushed| - 1]]
    else Written(flushed[..|flushed| - 1])
  }

  /** Exactly the windows with some row, in their order. */
  lemma {:induction false} WrittenExactly(flushed: seq<map<nat, Aggregation>>)
    ensures forall rows :: rows in Written(flushed) <==> rows in flushed && rows != map[]
    ensures |Written(flushed)| == |set k | 0 <= k < |flushed| && flushed[k] != map[]|
  {
    if flushed != [] {
      var rest, n := flushed[..|flushed| - 1], |flushed| - 1;
      WrittenExactly(rest);
      assert flushed == rest + [flushed[n]];
      var before, all := set k | 0 <= k < |rest| && rest[k] != map[], set k | 0 <= k < |flushed| && flushed[k] != map[];
      if flushed[n] != map[] { assert all == before + {n}; } else { assert all == before; }
      assert |flushed[n]| > 0 <==> flushed[n] != map[];
    }
  }

  class RewardsAggregator {
    const rewardsAggregationEpochs: nat
    ghost const first: nat
    var validatorsRewardsAggregations: map<nat, Aggregation>
    var aggregatedEpochsInWindow: set<nat>
    var startEpoch: nat
    var endEpoch: nat
    var persisted: seq<map<nat, Aggregation>>
    /** All deliveries so far, and the rows of every closed window. */
    ghost var history: seq<Delivery>
    ghost var flushed: seq<map<nat, Aggregation>>

    ghost predicate Valid()
      reads this
    {
      var n := rewardsAggregationEpochs;
      n > 1 && Matches(After(first, n, history))
    }

    /** The fields stand for these windows. */
    ghost predicate Matches(w: Windows)
      requires rewardsAggregationEpochs > 1
      reads this
    {
      Stand(first, rewardsAggregationEpochs, w, startEpoch, endEpoch, aggregatedEpochsInWindow,
            validatorsRewardsAggregations, flushed, persisted)
    }

    constructor (initEpoch: nat, n: nat)
      requires n > 1
      ensures Valid() && history == [] && rewardsAggregationEpochs == n && first == initEpoch + 2
    {
      // rewards can be computed from the third epoch of a run
      rewardsAggregationEpochs, first := n, initEpoch + 2;
      validatorsRewardsAggregations, aggregatedEpochsInWindow := map[], {};
      startEpoch, endEpoch := initEpoch + 2, initEpoch + 2 + (n - 1);
      persisted, history, flushed := [], [], [];
    }

    /** What the fields say in plain terms, at any time between calls: of the k-th closed window, which
        validators have a row, its bounds, and each of its sums; and what has been written. */
    ghost predicate Plainly(k: nat, v: nat)
      reads this
    {
      var n, w := rewardsAggregationEpochs, After(first, rewardsAggregationEpochs, history);
      && |flushed| == |w.closed|
      && (k < |flushed| ==>
            && (v in flushed[k] <==> exists i, j ::
                  0 <= i < |w.closed[k]| && 0 <= j < |w.closed[k][i].rows| && w.closed[k][i].rows[j].validator == v)
            && (v in flushed[k] ==>
                  && flushed[k][v].startEpoch == first + k * n && flushed[k][v].endEpoch == first + k * n + n - 1
                  && forall f :: Get(flushed[k][v].totals, f) == Narrow(f, SumOf(w.closed[k], v, f))))
      && persisted == Written(flushed)
      && startEpoch == first + |w.closed| * n && endEpoch == startEpoch + n - 1
      && forall e :: e in aggregatedEpochsInWindow <==> exists i :: 0 <= i < |w.open| && w.open[i].epoch == e
    }

    lemma ValidPlainly(k: nat, v: nat)
      requires Valid()
      ensures Plainly(k, v)
    {
      var n, w := rewardsAggregationEpochs, After(first, rewardsAggregationEpochs, history);
      StartOfWindow(first, n, k);
      StartOfWindow(first, n, |w.closed|);
      if k < |flushed| {
        assert Holds(flushed[k], StartOf(first, n, k), StartOf(first, n, k) + n - 1, w.closed[k]);
        assert HoldsFor(flushed[k], StartOf(first, n, k), StartOf(first, n, k) + n - 1, v,
                        Mentioned(w.closed[k], v), (f: Field) => SumOf(w.closed[k], v, f));
        if Mentioned(w.closed[k], v) {
          var i :| 0 <= i < |w.closed[k]| && InRows(w.closed[k][i].rows, v);
          var j :| 0 <= j < |w.closed[k][i].rows| && w.closed[k][i].rows[j].validator == v;
        }
        if i, j :| 0 <= i < |w.closed[k]| && 0 <= j < |w.closed[k][i].rows| && w.closed[k][i].rows[j].validator == v {
          assert InRows(w.closed[k][i].rows, v);
        }
      }
    }

    method ProcessEpochValRewards(epoch: nat, rows: seq<ValidatorRewards>)
      requires Valid()
      modifies this
      ensures Valid() && history == old(history) + [Delivery(epoch, rows)]
    {
      ghost var d := Delivery(epoch, rows);
      ghost var w := After(first, rewardsAggregationEpochs, history);
      AlwaysRegular(first, rewardsAggregationEpochs, history);
      AfterSnoc(first, rewardsAggregationEpochs, history, d);
      EpochsSnoc(w.open, d);
      history := history + [d];
      if !(startEpoch <= epoch <= endEpoch) || epoch in aggregatedEpochsInWindow { return; }
      Count(w, epoch, rows);
    }

    /** A delivery for an epoch of the open window that was not there yet. */
    method Count(ghost w: Windows, epoch: nat, rows: seq<ValidatorRewards>)
      requires rewardsAggregationEpochs > 1 && Matches(w) && Regular(first, rewardsAggregationEpochs, w)
      requires startEpoch <= epoch <= endEpoch && epoch !in aggregatedEpochsInWindow
      modifies `validatorsRewardsAggregations, `aggregatedEpochsInWindow, `startEpoch, `endEpoch, `persisted, `flushed
      ensures Matches(Deliver(first, rewardsAggregationEpochs, w, Delivery(epoch, rows)))
    {
      ghost var d := Delivery(epoch, rows);
      EpochsSnoc(w.open, d);
      OpenCount(first, rewardsAggregationEpochs, w, d);
      AggregateRows(w.open, rows);
      PartlyEnds(validatorsRewardsAggregations, startEpoch, endEpoch, w.open, d);
      aggregatedEpochsInWindow := aggregatedEpochsInWindow + {epoch};
      if |aggregatedEpochsInWindow| >= rewardsAggregationEpochs { Flush(w.closed, w.open + [d]); }
    }

    /** The complete window is written and the next one opened. */
    method Flush(ghost closed: seq<seq<Delivery>>, ghost full: seq<Delivery>)
      requires rewardsAggregationEpochs > 1 && Matches(Windows(closed, full))
      modifies `validatorsRewardsAggregations, `aggregatedEpochsInWindow, `startEpoch, `endEpoch, `persisted, `flushed
      ensures Matches(Windows(closed + [full], []))
    {
      NextStands(first, rewardsAggregationEpochs, closed, full, startEpoch, endEpoch, aggregatedEpochsInWindow,
                 validatorsRewardsAggregations, flushed, persisted);
      flushed := flushed + [validatorsRewardsAggregations];
      if |validatorsRewardsAggregations| > 0 {
        persisted := persisted + [validatorsRewardsAggregations];
      }
      validatorsRewardsAggregations := map[];
      startEpoch := endEpoch + 1;
      endEpoch := endEpoch + rewardsAggregationEpochs;
      aggregatedEpochsInWindow := {};
    }

    /** The rows of one delivery, each added to its validator's totals in the fields' widths. */
    method AggregateRows(ghost open: seq<Delivery>, rows: seq<ValidatorRewards>)
      requires Holds(validatorsRewardsAggregations, startEpoch, endEpoch, open)
      modifies this`validatorsRewardsAggregations
      ensures HoldsPartly(validatorsRewardsAggregations, startEpoch, endEpoch, open, rows)
    {
      PartlyStarts(validatorsRewardsAggregations, startEpoch, endEpoch, open);
      assert rows[..0] == [];
      for i := 0 to |rows|
        invariant HoldsPartly(validatorsRewardsAggregations, startEpoch, endEpoch, open, rows[..i])
      {
        var r := rows[i];
        assert rows[..i + 1] == rows[..i] + [r];
        ghost var before := validatorsRewardsAggregations;
        var stored := if r.validator in validatorsRewardsAggregations
                      then validatorsRewardsAggregations[r.validator].totals else NOTHING;
        validatorsRewardsAggregations := validatorsRewardsAggregations[
          r.validator := Aggregation(startEpoch, endEpoch, Aggregate(stored, r))];
        PartlyStep(before, startEpoch, endEpoch, open, rows[..i], r, validatorsRewardsAggregations);
      }
      assert rows[..|rows|] == rows;
    }
  }

  /** Each closed window holds its totals under its own bounds. */
  ghost predicate FlushedAre(first: nat, n: nat, flushed: seq<map<nat, Aggregation>>, closed: seq<seq<Delivery>>)
    requires n > 1
  {
    |flushed| == |closed|
    && forall k :: 0 <= k < |closed| ==> Holds(flushed[k], StartOf(first, n, k), StartOf(first, n, k) + n - 1, closed[k])
  }

  lemma FlushedSnoc(n: nat, first: nat, flushed: seq<map<nat, Aggregation>>, closed: seq<seq<Delivery>>,
                    rows: map<nat, Aggregation>, full: seq<Delivery>)
    requires n > 1 && FlushedAre(first, n, flushed, closed)
    requires Holds(rows, StartOf(first, n, |closed|), StartOf(first, n, |closed|) + n - 1, full)
    ensures FlushedAre(first, n, flushed + [rows], closed + [full])
    ensures Written(flushed + [rows]) == if |rows| > 0 then Written(flushed) + [rows] else Written(flushed)
  {
    assert (flushed + [rows])[..|flushed|] == flushed;
  }

  /** The aggregator's fields stand for these windows. */
  ghost predicate Stand(first: nat, n: nat, w: Windows, start: nat, end: nat, seen: set<nat>, rows: map<nat, Aggregation>,
                        flushed: seq<map<nat, Aggregation>>, persisted: seq<map<nat, Aggregation>>)
    requires n > 1
  {
    && start == StartOf(first, n, |w.closed|) && end + 1 == start + n
    && seen == Epochs(w.open)
    && Holds(rows, start, end, w.open)
    && FlushedAre(first, n, flushed, w.closed)
    && persisted == Written(flushed)
  }

  lemma NextStands(first: nat, n: nat, closed: seq<seq<Delivery>>, full: seq<Delivery>, start: nat, end: nat, seen: set<nat>,
                   rows: map<nat, Aggregation>, flushed: seq<map<nat, Aggregation>>, persisted: seq<map<nat, Aggregation>>)
    requires n > 1 && Stand(first, n, Windows(closed, full), start, end, seen, rows, flushed, persisted)
    ensures Stand(first, n, Windows(closed + [full], []), end + 1, end + n, {}, map[], flushed + [rows],
                  if |rows| > 0 then persisted + [rows] else persisted)
  {
    FlushedSnoc(n, first, flushed, closed, rows, full);
    EmptyHolds(end + 1, end + n);
  }

  lemma EmptyHolds(start: nat, end: nat)
    ensures Holds(map[], start, end, [])
  {
  }

  // ------------------------------------------------------------ what the windows are

  function Range(start: nat, n: nat): (s: set<nat>)
    ensures forall e :: e in s <==> start <= e < start + n
    ensures |s| == n
  {
    if n == 0 then {} else Range(start, n - 1) + {start + n - 1}
  }

  lemma FullSubset(a: set<nat>, b: set<nat>)
    requires a <= b && |a| == |b|
    ensures a == b
  {
    assert b == a + (b - a);
    assert |b| == |a| + |b - a|;
  }

  lemma WithinRange(first: nat, n: nat, k: nat, deliveries: seq<Delivery>)
    requires Within(first, n, k, deliveries)
    ensures Epochs(deliveries) <= Range(StartOf(first, n, k), n)
    ensures |Epochs(deliveries)| == |deliveries|
  {
    DistinctEpochsCount(deliveries);
  }

  /** Whatever is delivered: the k-th closed window holds one delivery of each epoch of
      [first + k*n, first + (k+1)*n - 1], and of no other epoch. */
  lemma ClosedWindowIsExact(first: nat, n: nat, all: seq<Delivery>, k: nat)
    requires n > 1 && k < |After(first, n, all).closed|
    ensures var window := After(first, n, all).closed[k];
            |window| == n && DistinctEpochs(window) && Epochs(window) == Range(first + k * n, n)
  {
    AlwaysRegular(first, n, all);
    WithinRange(first, n, k, After(first, n, all).closed[k]);
    FullSubset(Epochs(After(first, n, all).closed[k]), Range(StartOf(first, n, k), n));
    StartOfWindow(first, n, k);
  }

  /** A delivery flushes if and only if it completes the set of seen epochs to the whole window. */
  lemma FlushesExactlyWhenComplete(first: nat, n: nat, all: seq<Delivery>, d: Delivery)
    requires n > 1
    ensures var w := After(first, n, all);
            |After(first, n, all + [d]).closed| > |w.closed|
            <==> Epochs(w.open) + {d.epoch} == Range(StartOf(first, n, |w.closed|), n)
  {
    var w := After(first, n, all);
    AlwaysRegular(first, n, all);
    AfterSnoc(first, n, all, d);
    EpochsSnoc(w.open, d);
    var range := Range(StartOf(first, n, |w.closed|), n);
    WithinRange(first, n, |w.closed|, w.open);
    if InWindow(first, n, |w.closed|, d.epoch) && !Has(w.open, d.epoch) {
      OpenCount(first, n, w, d);
      if |w.open| + 1 >= n { FullSubset(Epochs(w.open + [d]), range); }
    } else if Has(w.open, d.epoch) {
      assert Epochs(w.open) + {d.epoch} == Epochs(w.open);
    } else {
      assert d.epoch !in range;
    }
  }

  /** The number of windows closed before position p. */
  function ClosedBefore(first: nat, n: nat, all: seq<Delivery>, p: nat): nat
    requires p <= |all|
  {
    |After(first, n, all[..p]).closed|
  }

  /** all[p] is the first delivery of its epoch while window k is open. */
  ghost predicate FirstWhileOpen(first: nat, n: nat, all: seq<Delivery>, p: nat, k: nat) {
    && p < |all| && ClosedBefore(first, n, all, p) == k
    && forall q :: 0 <= q < p && ClosedBefore(first, n, all, q) == k ==> all[q].epoch != all[p].epoch
  }

  /** Over the whole history: a window never changes once it is closed, and keeps its place. */
  lemma {:induction false} ClosedStays(first: nat, n: nat, all: seq<Delivery>, q: nat, p: nat)
    requires q <= p <= |all|
    ensures After(first, n, all[..q]).closed <= After(first, n, all[..p]).closed
    decreases p
  {
    if q < p {
      ClosedStays(first, n, all, q, p - 1);
      assert all[..p] == all[..p - 1] + [all[p - 1]];
      AfterSnoc(first, n, all[..p - 1], all[p - 1]);
    }
  }

  /** The deliveries counted for a window, closed or still open. */
  function Counted(w: Windows, k: nat): seq<Delivery> {
    if k < |w.closed| then w.closed[k] else if k == |w.closed| then w.open else []
  }

  lemma FirstExtends(first: nat, n: nat, rest: seq<Delivery>, d: Delivery, p: nat, k: nat)
    requires p < |rest|
    ensures FirstWhileOpen(first, n, rest + [d], p, k) <==> FirstWhileOpen(first, n, rest, p, k)
  {
    var all := rest + [d];
    forall q: nat | q <= p ensures ClosedBefore(first, n, all, q) == ClosedBefore(first, n, rest, q) {
      assert all[..q] == rest[..q];
    }
  }

  /** What counts for a window is, for each of its epochs, the first delivery made while it was open. */
  lemma {:induction false} CountsFirstDelivery(first: nat, n: nat, all: seq<Delivery>, k: nat, i: nat) returns (p: nat)
    requires n > 1
    requires i < |Counted(After(first, n, all), k)|
    ensures FirstWhileOpen(first, n, all, p, k) && all[p] == Counted(After(first, n, all), k)[i]
    decreases |all|
  {
    assert all != [];
    var rest, d := all[..|all| - 1], all[|all| - 1];
    assert rest + [d] == all;
    AfterSnoc(first, n, rest, d);
    var w := After(first, n, rest);
    var mine := Counted(w, k);
    if i < |mine| {
      p := CountsFirstDelivery(first, n, rest, k, i);
      FirstExtends(first, n, rest, d, p, k);
    } else {
      p := |rest|;
      assert all[..p] == rest && k == |w.closed| && i == |w.open|;
      forall q | 0 <= q < p && ClosedBefore(first, n, all, q) == k ensures all[q].epoch != d.epoch {
        assert all[..q] == rest[..q];
        DeliveredWhileOpen(first, n, rest, q);
      }
    }
  }

  /** Every epoch of the open window that was delivered since it opened has been counted. */
  lemma {:induction false} DeliveredWhileOpen(first: nat, n: nat, all: seq<Delivery>, q: nat)
    requires n > 1 && q < |all|
    requires ClosedBefore(first, n, all, q) == |After(first, n, all).closed|
    ensures InWindow(first, n, |After(first, n, all).closed|, all[q].epoch) ==> Has(After(first, n, all).open, all[q].epoch)
    decreases |all|
  {
    var rest, d := all[..|all| - 1], all[|all| - 1];
    assert rest + [d] == all;
    AfterSnoc(first, n, rest, d);
    var w, now := After(first, n, rest), After(first, n, all);
    ClosedStays(first, n, all, q, |rest|);
    ClosedStays(first, n, all, |rest|, |all|);
    assert all[..|rest|] == rest && all[..|all|] == all;
    EpochsSnoc(w.open, d);
    if q < |rest| {
      assert all[..q] == rest[..q];
      DeliveredWhileOpen(first, n, rest, q);
      if Has(w.open, all[q].epoch) {
        var i :| 0 <= i < |w.open| && w.open[i].epoch == all[q].epoch;
        assert now.open[i].epoch == all[q].epoch;
      }
    } else if InWindow(first, n, |w.closed|, d.epoch) && !Has(w.open, d.epoch) {
      assert now.open[|w.open|].epoch == d.epoch;
    }
  }

  // ------------------------------------------------------------ counters of 16 bits

  /** A validator has at most one row in a delivery, and a row at most a uint8 of participations. */
  ghost predicate ProperRows(rows: seq<ValidatorRewards>) {
    && (forall i, j :: 0 <= i < j < |rows| ==> rows[i].validator != rows[j].validator)
    && (forall i :: 0 <= i < |rows| ==> rows[i].participationsIncluded <= 255)
  }

  lemma {:induction false} RowsCountAtMost(rows: seq<ValidatorRewards>, v: nat, f: Field)
    requires ProperRows(rows) && IsCounter(f)
    ensures 0 <= SumRows(rows, v, f) <= 255
  {
    if rows != [] {
      var rest, r := rows[..|rows| - 1], rows[|rows| - 1];
      if r.validator == v {
        assert !InRows(rest, v);
        NoRowsNothing(rest, v, f);
      } else {
        RowsCountAtMost(rest, v, f);
      }
    }
  }

  lemma {:induction false} SumCountsAtMost(deliveries: seq<Delivery>, v: nat, f: Field)
    requires IsCounter(f) && forall i :: 0 <= i < |deliveries| ==> ProperRows(deliveries[i].rows)
    ensures 0 <= SumOf(deliveries, v, f) <= 255 * |deliveries|
  {
    if deliveries != [] {
      SumCountsAtMost(deliveries[..|deliveries| - 1], v, f);
      RowsCountAtMost(deliveries[|deliveries| - 1].rows, v, f);
    }
  }

  ghost predicate CountersExact(deliveries: seq<Delivery>) {
    forall v, f :: IsCounter(f) ==> Narrow(f, SumOf(deliveries, v, f)) == SumOf(deliveries, v, f)
  }

  ghost predicate AllProper(deliveries: seq<Delivery>) {
    forall i :: 0 <= i < |deliveries| ==> ProperRows(deliveries[i].rows)
  }

  function FullParticipation(n: nat): seq<Delivery> {
    seq(n, e requires 0 <= e < n =>
      Delivery(e, [ValidatorRewards(0, 0, 0, 0, 0, 0, true, 255, true, false, false, false, 0, 0, 1)]))
  }

  lemma {:induction false} FullParticipationSum(n: nat)
    ensures SumOf(FullParticipation(n), 0, ParticipationsIncluded) == 255 * n
  {
    if n > 0 {
      FullParticipationSum(n - 1);
      assert FullParticipation(n)[..n - 1] == FullParticipation(n - 1);
      var r := FullParticipation(n)[n - 1].rows[0];
      assert [r][..0] == [];
      assert SumRows([r], 0, ParticipationsIncluded) == SumRows([], 0, ParticipationsIncluded) + 255;
    }
  }

  /** No 16-bit counter of a window can wrap, whatever rows it gets, if and only if windows have at most
      257 epochs. */
  lemma CountersFitExactly(n: nat)
    ensures (forall deliveries :: |deliveries| == n && AllProper(deliveries) ==> CountersExact(deliveries)) <==> n <= 257
  {
    if n <= 257 {
      forall deliveries: seq<Delivery> | |deliveries| == n && AllProper(deliveries) ensures CountersExact(deliveries) {
        forall v, f | IsCounter(f) ensures Narrow(f, SumOf(deliveries, v, f)) == SumOf(deliveries, v, f) {
          SumCountsAtMost(deliveries, v, f);
        }
      }
    } else {
      var deliveries := FullParticipation(n);
      FullParticipationSum(n);
      assert |deliveries| == n && AllProper(deliveries);
      assert IsCounter(ParticipationsIncluded);
      assert Narrow(ParticipationsIncluded, SumOf(deliveries, 0, ParticipationsIncluded)) < U16 <= 255 * n;
      assert !CountersExact(deliveries);
    }
  }
}
