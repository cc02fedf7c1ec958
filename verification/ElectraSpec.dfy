/** Helpers of the consensus standard with its mainnet values, written out here on their own: nothing in this
    module is shared with the model of the program (Electra beacon chain specification, sections "Configuration",
    "Preset", "Predicates" and "Beacon state accessors"; Phase 0 for is_active_validator). */
module ElectraSpec {
  import opened Chain

  /** is_active_validator */
  predicate IsActiveValidator(v: Validator, epoch: nat) { v.activationEpoch <= epoch && epoch < v.exitEpoch }

  /** v.exit_epoch == FAR_FUTURE_EPOCH */
  predicate IsStaying(v: Validator) { v.exitEpoch == 18_446_744_073_709_551_615 }

  predicate HasEth1Credential(v: Validator) { v.prefix == 0x01 }

  predicate HasCompoundingCredential(v: Validator) { v.prefix == 0x02 }

  predicate HasExecutionCredential(v: Validator) { HasCompoundingCredential(v) || HasEth1Credential(v) }

  /** The validator has been active for SHARD_COMMITTEE_PERIOD. */
  predicate IsOldEnough(v: Validator, epoch: nat) { epoch >= v.activationEpoch + 256 }

  /** get_balance_churn_limit */
  function BalanceChurnLimit(total: nat): nat {
    var churn := if total / 65_536 > 128_000_000_000 then total / 65_536 else 128_000_000_000;
    churn - churn % 1_000_000_000
  }

  /** get_activation_exit_churn_limit */
  function ActivationExitChurnLimit(total: nat): nat {
    if BalanceChurnLimit(total) < 256_000_000_000 then BalanceChurnLimit(total) else 256_000_000_000
  }

  /** get_consolidation_churn_limit */
  function ConsolidationChurnLimit(total: nat): nat { BalanceChurnLimit(total) - ActivationExitChurnLimit(total) }

  /** is_valid_switch_to_compounding_request */
  predicate IsValidSwitch(registry: seq<Validator>, epoch: nat, address: Bytes, sourceKey: Bytes, targetKey: Bytes) {
    var found := FirstIndex(registry, sourceKey);
    && sourceKey == targetKey
    && found.Some?
    && registry[found.value].address == address
    && HasEth1Credential(registry[found.value])
    && IsActiveValidator(registry[found.value], epoch)
    && IsStaying(registry[found.value])
  }

  /** compute_start_slot_at_epoch */
  function StartSlot(epoch: nat): nat { epoch * 32 }
}
