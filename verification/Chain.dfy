/** Constants, machine integers and the chain records that every other module uses. */
module Chain {

  const SLOTS_PER_EPOCH: nat := 32
  const SLOTS_PER_HISTORICAL_ROOT: nat := 8192
  const EFFECTIVE_BALANCE_INCREMENT: nat := 1_000_000_000
  const MIN_ACTIVATION_BALANCE: nat := 32_000_000_000
  const SHARD_COMMITTEE_PERIOD: nat := 256
  const FAR_FUTURE_EPOCH: nat := 0xFFFF_FFFF_FFFF_FFFF
  const ETH1_PREFIX: nat := 1
  const COMPOUNDING_PREFIX: nat := 2

  /** The range of uint64, the type of every amount in the program. */
  const U64: nat := 0x1_0000_0000_0000_0000
  const HALF_U64: int := 0x8000_0000_0000_0000

  function EpochAt(slot: nat): nat { slot / SLOTS_PER_EPOCH }

  function LastSlotOf(epoch: nat): nat { epoch * SLOTS_PER_EPOCH + SLOTS_PER_EPOCH - 1 }

  predicate SlotInEpoch(slot: nat, epoch: nat) { epoch * SLOTS_PER_EPOCH <= slot < (epoch + 1) * SLOTS_PER_EPOCH }

  lemma SlotsOfEpoch(epoch: nat, slot: nat)
    ensures SlotInEpoch(slot, epoch) <==> EpochAt(slot) == epoch
    ensures epoch * SLOTS_PER_EPOCH <= slot <==> epoch <= EpochAt(slot)
  {
  }

  type Uint64 = x: int | 0 <= x < U64

  /** uint64 arithmetic: the value left after wrap-around, the remainder modulo 2^64. It is written
      without the remainder operator so that the verifier does not reason about division everywhere. */
  function Wrap(x: int): Uint64
    decreases x < 0, if x < 0 then -x else x
  {
    if x < 0 then Wrap(x + U64)
    else if x < U64 then x
    else Wrap(x - U64)
  }

  /** The conversion int64(x) of a uint64. */
  function AsInt64(x: Uint64): int { if x < HALF_U64 then x else x - U64 }

  /** int64 arithmetic: the value left after two's complement wrap-around. */
  function WrapSigned(x: int): int { AsInt64(Wrap(x)) }

  predicate FitsInt64(x: int) { -HALF_U64 <= x < HALF_U64 }

  /** Keys, addresses and roots are only ever compared, so their bytes stay abstract strings. */
  type Bytes = string

  datatype Option<+T> = None | Some(value: T)

  datatype Validator = Validator(
    pubkey: Bytes,
    prefix: nat,          // first byte of the withdrawal credentials
    address: Bytes,       // last twenty bytes of the withdrawal credentials
    effectiveBalance: Uint64,
    slashed: bool,
    activationEpoch: nat,
    exitEpoch: nat,
    withdrawableEpoch: nat)

  predicate IsActive(v: Validator, epoch: nat) {
    v.activationEpoch <= epoch < v.exitEpoch
  }

  predicate HasCompounding(v: Validator) { v.prefix == COMPOUNDING_PREFIX }

  predicate HasExecution(v: Validator) { v.prefix == COMPOUNDING_PREFIX || v.prefix == ETH1_PREFIX }

  ghost predicate NoRepeats(s: seq<nat>) { forall i, j :: 0 <= i < j < |s| ==> s[i] != s[j] }

  lemma Times(n: nat, x: nat)
    ensures (n + 1) * x == n * x + x
  {
  }

  function Sum(s: seq<nat>): nat { if s == [] then 0 else Sum(s[..|s| - 1]) + s[|s| - 1] }

  lemma {:induction false} SumSplits(s: seq<nat>)
    requires s != []
    ensures Sum(s) == s[0] + Sum(s[1..])
  {
    if |s| > 1 {
      SumSplits(s[..|s| - 1]);
      assert s[..|s| - 1][1..] == s[1..][..|s| - 2];
    }
  }

  ghost predicate DistinctKeys(registry: seq<Validator>) {
    forall i, j :: 0 <= i < j < |registry| ==> registry[i].pubkey != registry[j].pubkey
  }

  /** The index a Go map holds after one pass over the registry: the last holder of the key. */
  function LastIndex(registry: seq<Validator>, key: Bytes): (r: Option<nat>)
    ensures r.Some? ==> r.value < |registry| && registry[r.value].pubkey == key
    ensures r.Some? ==> forall i :: r.value < i < |registry| ==> registry[i].pubkey != key
    ensures r.None? ==> forall i :: 0 <= i < |registry| ==> registry[i].pubkey != key
  {
    if registry == [] then None
    else if registry[|registry| - 1].pubkey == key then Some(|registry| - 1)
    else LastIndex(registry[..|registry| - 1], key)
  }

  /** The index that a search from the front finds, as the consensus standard searches. */
  function FirstIndex(registry: seq<Validator>, key: Bytes): (r: Option<nat>)
    ensures r.Some? ==> r.value < |registry| && registry[r.value].pubkey == key
    ensures r.Some? ==> forall i :: 0 <= i < r.value ==> registry[i].pubkey != key
    ensures r.None? ==> forall i :: 0 <= i < |registry| ==> registry[i].pubkey != key
  {
    if registry == [] then None
    else if registry[0].pubkey == key then Some(0)
    else match FirstIndex(registry[1..], key) {
      case None => None
      case Some(i) => Some(i + 1)
    }
  }

  lemma IndexesAgree(registry: seq<Validator>, key: Bytes)
    requires DistinctKeys(registry)
    ensures FirstIndex(registry, key) == LastIndex(registry, key)
  {
  }

  /** Reading a Go map: an absent key reads as zero. */
  function At(m: map<nat, Uint64>, k: nat): Uint64 {
    if k in m then m[k] else 0
  }

  /** The Go statement m[k] += amount. */
  function Plus(m: map<nat, Uint64>, k: nat, amount: Uint64): map<nat, Uint64> {
    m[k := Wrap(At(m, k) + amount)]
  }

  lemma {:induction false} WrapPeriodic(x: int, k: int)
    ensures Wrap(x + k * 0x1_0000_0000_0000_0000) == Wrap(x)
    decreases if k < 0 then -k else k
  {
    if k > 0 {
      WrapPeriodic(x, k - 1);
      WrapOnce(x + (k - 1) * 0x1_0000_0000_0000_0000);
    } else if k < 0 {
      WrapPeriodic(x, k + 1);
      WrapOnce(x + k * 0x1_0000_0000_0000_0000);
    }
  }

  lemma {:induction false} WrapOnce(x: int)
    ensures Wrap(x + U64) == Wrap(x)
  {
    if x < 0 { assert Wrap(x) == Wrap(x + U64); }
  }

  lemma WrapUnique(x: int, k: int, r: Uint64)
    requires x == k * 0x1_0000_0000_0000_0000 + r
    ensures Wrap(x) == r
  {
    WrapPeriodic(r, k);
  }

  lemma WrapQuotient(x: int) returns (k: int)
    ensures x == k * 0x1_0000_0000_0000_0000 + Wrap(x)
  {
    k := x / U64;
    WrapUnique(x, k, x % U64);
  }

  /** Adding before or after wrap-around is the same. */
  lemma WrapAdd(a: int, b: int)
    ensures Wrap(Wrap(a) + b) == Wrap(a + b)
  {
    var k := WrapQuotient(a);
    WrapPeriodic(Wrap(a) + b, k);
  }

  /** int64 arithmetic may wrap at every step: the result only depends on the value modulo 2^64. */
  lemma SignedStep(a: int, b: int)
    ensures WrapSigned(WrapSigned(a) + b) == WrapSigned(a + b)
  {
    WrapAdd(a, b);
    WrapPeriodic(Wrap(a) + b, if Wrap(a) < HALF_U64 then 0 else -1);
  }

  lemma AsInt64Congruent(a: int, b: Uint64)
    ensures WrapSigned(a + AsInt64(b)) == WrapSigned(a + b)
    ensures WrapSigned(a - AsInt64(b)) == WrapSigned(a - b)
  {
    if b >= HALF_U64 {
      WrapPeriodic(a + b, -1);
      WrapPeriodic(a - b, 1);
    }
  }

  /** A true value that fits int64 survives any wrapped computation congruent to it. */
  lemma SignedExact(x: int)
    requires FitsInt64(x)
    ensures WrapSigned(x) == x
  {
    if x < 0 { WrapUnique(x, -1, x + U64); }
  }
}
