/**
 * The staking contract as an object: its storage is the fields of `Ledger`,
 * and each external function is a method that checks its guards, settles
 * the caller (before `stake`, `unstake` and `claimRewards`), and then updates
 * the fields in place.  Every method is proved to do exactly what the matching
 * transition of `LedgerSpec` says, so all properties proved there (the
 * invariant, exact payouts, accrual bounds) hold of the object.
 */
module StakingLedger {
  import opened RewardMath
  import opened LedgerSpec

  /**
   * A call either took effect as the transition `spec` says and reports its
   * event, or reverted with the transition's error and changed nothing.
   */
  ghost predicate Applied(before: State, spec: Result<Step>, after: State, r: Result<Event>)
  {
    match spec
    case Ok(step) => after == step.next && r == Ok(step.event)
    case Err(e) => after == before && r == Err(e)
  }

  class Ledger {
    var owner: Address
    var paused: bool
    var rewardRate: nat
    var totalStaked: nat
    var rewardPerTokenStored: nat
    var lastUpdateTime: nat
    var contractBalance: nat
    var stakes: map<Address, StakeInfo>
    var rewards: map<Address, nat>

    /** The contract's storage as a value. */
    function Snapshot(): State
      reads this
    {
      State(owner, paused, rewardRate, totalStaked, rewardPerTokenStored, lastUpdateTime,
            contractBalance, stakes, rewards)
    }

    ghost predicate Valid()
      reads this
    {
      LedgerSpec.Valid(Snapshot())
    }

    /** Deployment by `deployer` at block time `now`. */
    constructor (deployer: Address, now: nat)
      ensures Snapshot() == Deploy(deployer, now) && Valid()
    {
      owner, paused, rewardRate, totalStaked := deployer, false, INITIAL_REWARD_RATE, 0;
      rewardPerTokenStored, lastUpdateTime, contractBalance := 0, now, 0;
      stakes, rewards := map[], map[];
    }

    /** `getStakedAmount(who)`. */
    function GetStakedAmount(who: Address): nat
      reads this
    {
      StakedAmount(Snapshot(), who)
    }

    /** `getRewards(who)` at block time `now`. */
    function GetRewards(who: Address, now: nat): nat
      reads this
      requires CheckpointsSettled(Snapshot()) && lastUpdateTime <= now
    {
      Rewards(Snapshot(), who, now)
    }

    /**
     * Settlement of `account`, the model's own step: the accumulator is
     * brought forward and what `account` has earned is moved into their
     * settled rewards, so that later changes to their stake or to the rate
     * only affect accrual from `now` on.
     */
    method SettleAccount(account: Address, now: nat)
      requires Valid() && lastUpdateTime <= now
      modifies this
      ensures Snapshot() == Settle(old(Snapshot()), account, now)
      ensures Valid()
    {
      SettleKeepsInvariant(Snapshot(), account, now);
      var earned := GetRewards(account, now);
      rewardPerTokenStored := rewardPerTokenStored + AccrualPerToken(rewardRate, now - lastUpdateTime);
      lastUpdateTime := now;
      rewards := rewards[account := earned];
      if account in stakes {
        stakes := stakes[account := stakes[account].(rewardPerTokenPaid := rewardPerTokenStored)];
      }
    }

    /** `stake()` with `amount` as the call's value. */
    method Stake(caller: Address, amount: nat, now: nat) returns (r: Result<Event>)
      requires Valid() && lastUpdateTime <= now
      modifies this
      ensures Valid()
      ensures Applied(old(Snapshot()), LedgerSpec.Stake(old(Snapshot()), caller, amount, now), Snapshot(), r)
    {
      if paused {
        return Err(EnforcedPause);
      }
      if amount == 0 {
        return Err(ZeroStakeAmount);
      }
      ghost var spec := LedgerSpec.Stake(Snapshot(), caller, amount, now);
      SettleAccount(caller, now);
      var info := if caller in stakes then stakes[caller] else StakeInfo(0, now, rewardPerTokenStored);
      assert spec.value.next.stakes == stakes[caller := info.(amount := info.amount + amount, timestamp := now)];
      stakes := stakes[caller := info.(amount := info.amount + amount, timestamp := now)];
      totalStaked := totalStaked + amount;
      contractBalance := contractBalance + amount;
      r := Ok(Staked(caller, amount));
      assert Snapshot() == spec.value.next;
    }

    /** `unstake(amount)`: the principal goes back to the caller. */
    method Unstake(caller: Address, amount: nat, now: nat) returns (r: Result<Event>)
      requires Valid() && lastUpdateTime <= now
      modifies this
      ensures Valid()
      ensures Applied(old(Snapshot()), LedgerSpec.Unstake(old(Snapshot()), caller, amount, now), Snapshot(), r)
    {
      if amount == 0 {
        return Err(ZeroUnstakeAmount);
      }
      if amount > GetStakedAmount(caller) {
        return Err(InsufficientStakedAmount);
      }
      ghost var spec := LedgerSpec.Unstake(Snapshot(), caller, amount, now);
      SettleAccount(caller, now);
      assert spec.value.next.stakes == (if stakes[caller].amount == amount then stakes - {caller}
        else stakes[caller := stakes[caller].(amount := stakes[caller].amount - amount)]);
      var info := stakes[caller];
      if info.amount == amount {
        stakes := stakes - {caller};
      } else {
        stakes := stakes[caller := info.(amount := info.amount - amount)];
      }
      totalStaked := totalStaked - amount;
      contractBalance := contractBalance - amount;
      r := Ok(Unstaked(caller, amount));
      assert Snapshot() == spec.value.next;
    }

    /** `claimRewards()`: everything owed goes to the caller. */
    method ClaimRewards(caller: Address, now: nat) returns (r: Result<Event>)
      requires Valid() && lastUpdateTime <= now
      modifies this
      ensures Valid()
      ensures Applied(old(Snapshot()), LedgerSpec.ClaimRewards(old(Snapshot()), caller, now), Snapshot(), r)
    {
      var reward := GetRewards(caller, now);
      if reward == 0 {
        return Err(NoRewardsAvailable);
      }
      if reward > contractBalance - totalStaked {
        return Err(InsufficientPoolFunds);
      }
      SettleAccount(caller, now);
      rewards := rewards[caller := 0];
      contractBalance := contractBalance - reward;
      r := Ok(RewardsClaimed(caller, reward));
    }

    /** `setRewardRate(newRate)`: the accumulator is brought forward at the old rate before the switch. */
    method SetRewardRate(caller: Address, newRate: nat, now: nat) returns (r: Result<Event>)
      requires Valid() && lastUpdateTime <= now
      modifies this
      ensures Valid()
      ensures Applied(old(Snapshot()), LedgerSpec.SetRewardRate(old(Snapshot()), caller, newRate, now), Snapshot(), r)
    {
      if caller != owner {
        return Err(OwnableUnauthorizedAccount(caller));
      }
      if newRate > MAX_REWARD_RATE {
        return Err(RewardRateTooHigh);
      }
      rewardPerTokenStored := rewardPerTokenStored + AccrualPerToken(rewardRate, now - lastUpdateTime);
      lastUpdateTime := now;
      rewardRate := newRate;
      r := Ok(RewardRateUpdated(newRate));
    }

    /** `pause()`. */
    method Pause(caller: Address) returns (r: Result<Event>)
      requires Valid()
      modifies this
      ensures Valid()
      ensures Applied(old(Snapshot()), LedgerSpec.Pause(old(Snapshot()), caller), Snapshot(), r)
    {
      if caller != owner {
        return Err(OwnableUnauthorizedAccount(caller));
      }
      if paused {
        return Err(EnforcedPause);
      }
      paused := true;
      r := Ok(ContractPaused(true));
    }

    /** `unpause()`. */
    method Unpause(caller: Address) returns (r: Result<Event>)
      requires Valid()
      modifies this
      ensures Valid()
      ensures Applied(old(Snapshot()), LedgerSpec.Unpause(old(Snapshot()), caller), Snapshot(), r)
    {
      if caller != owner {
        return Err(OwnableUnauthorizedAccount(caller));
      }
      if !paused {
        return Err(ExpectedPause);
      }
      paused := false;
      r := Ok(ContractPaused(false));
    }

    /** `depositRewards()` with `amount` as the call's value. */
    method DepositRewards(amount: nat) returns (r: Result<Event>)
      requires Valid()
      modifies this
      ensures Valid()
      ensures Applied(old(Snapshot()), LedgerSpec.DepositRewards(old(Snapshot()), amount), Snapshot(), r)
    {
      if amount == 0 {
        return Err(ZeroDepositAmount);
      }
      contractBalance := contractBalance + amount;
      r := Ok(RewardsDeposited(amount));
    }

    /** `emergencyWithdraw(amount)`: the owner takes `amount` out of the reward pool. */
    method EmergencyWithdraw(caller: Address, amount: nat) returns (r: Result<Event>)
      requires Valid()
      modifies this
      ensures Valid()
      ensures Applied(old(Snapshot()), LedgerSpec.EmergencyWithdraw(old(Snapshot()), caller, amount), Snapshot(), r)
    {
      if caller != owner {
        return Err(OwnableUnauthorizedAccount(caller));
      }
      if contractBalance < totalStaked + amount {
        return Err(WouldBreachPrincipal);
      }
      contractBalance := contractBalance - amount;
      r := Ok(EmergencyWithdrawn(owner, amount));
    }
  }
}
