/**
 * What each ledger operation does, one lemma per operation: exactly when it
 * succeeds, which error it reverts with otherwise, that it keeps the ledger
 * invariant (`totalStaked` is the sum of the stakes and stays covered by the
 * balance), and how it changes stakes, balance, rate and rewards.
 */
module LedgerEffects {
  import opened RewardMath
  import opened LedgerSpec

  /** A fresh ledger is valid, owned by the deployer, holds nothing and pays 12 percent. */
  lemma DeployEffect(deployer: Address, now: nat, who: Address)
    ensures Valid(Deploy(deployer, now))
    ensures Deploy(deployer, now).owner == deployer && !Deploy(deployer, now).paused
    ensures Deploy(deployer, now).totalStaked == 0 && Deploy(deployer, now).rewardRate == 12
    ensures StakedAmount(Deploy(deployer, now), who) == 0 && Rewards(Deploy(deployer, now), who, now) == 0
  {
  }

  /** `stake` succeeds exactly when the ledger is not paused and the amount is positive. */
  lemma StakeOutcome(st: State, caller: Address, amount: nat, now: nat)
    requires Valid(st) && st.lastUpdateTime <= now
    ensures Stake(st, caller, amount, now).Ok? <==> !st.paused && amount > 0
    ensures st.paused ==> Stake(st, caller, amount, now) == Err(EnforcedPause)
    ensures !st.paused && amount == 0 ==> Stake(st, caller, amount, now) == Err(ZeroStakeAmount)
  {
  }

  /**
   * A successful `stake` adds exactly `amount` to the caller's principal, to
   * `totalStaked` and to the balance, and leaves every other principal alone.
   */
  lemma StakeEffect(st: State, caller: Address, amount: nat, now: nat)
    requires Valid(st) && st.lastUpdateTime <= now && !st.paused && amount > 0
    ensures
      var n := Stake(st, caller, amount, now).value.next;
      && Stake(st, caller, amount, now).value.event == Staked(caller, amount)
      && StakedAmount(n, caller) == StakedAmount(st, caller) + amount
      && (forall u :: u != caller ==> StakedAmount(n, u) == StakedAmount(st, u))
      && n.totalStaked == st.totalStaked + amount
      && n.contractBalance == st.contractBalance + amount
      && n.owner == st.owner && n.paused == st.paused && n.rewardRate == st.rewardRate
  {
    SettleKeepsInvariant(st, caller, now);
    var s := Settle(st, caller, now);
    var n := Stake(st, caller, amount, now).value.next;
    assert n.stakes == s.stakes[caller := n.stakes[caller]];
    assert n.stakes[caller].amount == StakedAmount(s, caller) + amount;
    forall u | u != caller
      ensures StakedAmount(n, u) == StakedAmount(st, u)
    {
      assert StakedAmount(n, u) == StakedAmount(s, u);
    }
  }

  /** Staking more does not change what the caller is owed at the time of the stake. */
  lemma StakeKeepsRewards(st: State, caller: Address, amount: nat, now: nat)
    requires Valid(st) && st.lastUpdateTime <= now && !st.paused && amount > 0
    ensures Rewards(Stake(st, caller, amount, now).value.next, caller, now) == Rewards(st, caller, now)
  {
    SettleKeepsInvariant(st, caller, now);
    var s := Settle(st, caller, now);
    var n := Stake(st, caller, amount, now).value.next;
    assert RewardPerToken(n, now) == n.rewardPerTokenStored == n.stakes[caller].rewardPerTokenPaid;
    assert Claimable(n, caller) == Claimable(s, caller);
  }

  /** `unstake` succeeds exactly when `0 < amount <= ` the caller's principal. */
  lemma UnstakeOutcome(st: State, caller: Address, amount: nat, now: nat)
    requires Valid(st) && st.lastUpdateTime <= now
    ensures Unstake(st, caller, amount, now).Ok? <==> 0 < amount <= StakedAmount(st, caller)
    ensures amount == 0 ==> Unstake(st, caller, amount, now) == Err(ZeroUnstakeAmount)
    ensures amount > StakedAmount(st, caller) ==> Unstake(st, caller, amount, now) == Err(InsufficientStakedAmount)
  {
  }

  /**
   * A successful `unstake` takes exactly `amount` off the caller's principal,
   * off `totalStaked` and off the balance (the caller is paid exactly
   * `amount`), deletes an entry that reaches zero and leaves every other
   * principal alone.
   */
  lemma UnstakeEffect(st: State, caller: Address, amount: nat, now: nat)
    requires Valid(st) && st.lastUpdateTime <= now && 0 < amount <= StakedAmount(st, caller)
    ensures
      var n := Unstake(st, caller, amount, now).value.next;
      && Unstake(st, caller, amount, now).value.event == Unstaked(caller, amount)
      && StakedAmount(n, caller) == StakedAmount(st, caller) - amount
      && (StakedAmount(n, caller) == 0 ==> caller !in n.stakes)
      && (forall u :: u != caller ==> StakedAmount(n, u) == StakedAmount(st, u))
      && n.totalStaked == st.totalStaked - amount
      && n.contractBalance == st.contractBalance - amount
      && n.owner == st.owner && n.paused == st.paused && n.rewardRate == st.rewardRate
  {
    SettleKeepsInvariant(st, caller, now);
    var s := Settle(st, caller, now);
    var info := s.stakes[caller];
    var n := Unstake(st, caller, amount, now).value.next;
    assert n.totalStaked == s.totalStaked - amount && n.contractBalance == s.contractBalance - amount;
    if info.amount == amount {
      assert n.stakes == s.stakes - {caller};
    } else {
      assert n.stakes == s.stakes[caller := info.(amount := info.amount - amount)];
    }
    forall u | u != caller
      ensures StakedAmount(n, u) == StakedAmount(st, u)
    {
      assert StakedAmount(n, u) == StakedAmount(s, u);
    }
  }

  /** Unstaking does not change what the caller is owed at the time of the call. */
  lemma UnstakeKeepsRewards(st: State, caller: Address, amount: nat, now: nat)
    requires Valid(st) && st.lastUpdateTime <= now && 0 < amount <= StakedAmount(st, caller)
    ensures Rewards(Unstake(st, caller, amount, now).value.next, caller, now) == Rewards(st, caller, now)
  {
    SettleKeepsInvariant(st, caller, now);
    var s := Settle(st, caller, now);
    var info := s.stakes[caller];
    var n := Unstake(st, caller, amount, now).value.next;
    assert n.rewards == s.rewards && n.rewardPerTokenStored == s.rewardPerTokenStored && n.lastUpdateTime == now;
    if info.amount == amount {
      assert caller !in n.stakes;
    } else {
      assert n.stakes[caller] == info.(amount := info.amount - amount);
    }
    SettledOwesClaimable(n, caller, now);
  }

  /** An account whose checkpoint is the accumulator at `now` is owed exactly its settled rewards. */
  lemma SettledOwesClaimable(n: State, who: Address, now: nat)
    requires CheckpointsSettled(n) && n.lastUpdateTime == now
    requires who in n.stakes ==> n.stakes[who].rewardPerTokenPaid == n.rewardPerTokenStored
    ensures Rewards(n, who, now) == Claimable(n, who)
  {
    assert RewardPerToken(n, now) == n.rewardPerTokenStored;
  }

  /** `claimRewards` succeeds exactly when something is owed and the pool above the principal covers it. */
  lemma ClaimRewardsOutcome(st: State, caller: Address, now: nat)
    requires Valid(st) && st.lastUpdateTime <= now
    ensures ClaimRewards(st, caller, now).Ok? <==>
      0 < Rewards(st, caller, now) <= st.contractBalance - st.totalStaked
    ensures Rewards(st, caller, now) == 0 ==> ClaimRewards(st, caller, now) == Err(NoRewardsAvailable)
    ensures 0 < Rewards(st, caller, now) && st.contractBalance - st.totalStaked < Rewards(st, caller, now) ==>
      ClaimRewards(st, caller, now) == Err(InsufficientPoolFunds)
  {
  }

  /**
   * A successful `claimRewards` pays exactly what `getRewards` reported, out of
   * the balance, after which nothing is owed; principals are untouched.
   */
  lemma ClaimRewardsEffect(st: State, caller: Address, now: nat)
    requires Valid(st) && st.lastUpdateTime <= now
    requires 0 < Rewards(st, caller, now) <= st.contractBalance - st.totalStaked
    ensures
      var n := ClaimRewards(st, caller, now).value.next;
      && ClaimRewards(st, caller, now).value.event == RewardsClaimed(caller, Rewards(st, caller, now))
      && n.contractBalance == st.contractBalance - Rewards(st, caller, now)
      && Rewards(n, caller, now) == 0
      && (forall u :: StakedAmount(n, u) == StakedAmount(st, u))
      && n.totalStaked == st.totalStaked
      && n.owner == st.owner && n.paused == st.paused && n.rewardRate == st.rewardRate
  {
    SettleKeepsInvariant(st, caller, now);
    var n := ClaimRewards(st, caller, now).value.next;
    assert RewardPerToken(n, now) == n.rewardPerTokenStored;
  }

  /**
   * `setRewardRate`: owner only, at most MAX_REWARD_RATE.  Nothing accrued up
   * to the switch changes, and from the switch on the accumulator grows at the
   * new rate on top of what it had reached at the old one.
   */
  lemma SetRewardRateEffect(st: State, caller: Address, newRate: nat, now: nat)
    requires Valid(st) && st.lastUpdateTime <= now
    ensures SetRewardRate(st, caller, newRate, now).Ok? <==> caller == st.owner && newRate <= MAX_REWARD_RATE
    ensures caller != st.owner ==> SetRewardRate(st, caller, newRate, now) == Err(OwnableUnauthorizedAccount(caller))
    ensures caller == st.owner && newRate > MAX_REWARD_RATE ==> SetRewardRate(st, caller, newRate, now) == Err(RewardRateTooHigh)
    ensures SetRewardRate(st, caller, newRate, now).Ok? ==>
      var n := SetRewardRate(st, caller, newRate, now).value.next;
      && SetRewardRate(st, caller, newRate, now).value.event == RewardRateUpdated(newRate)
      && n.rewardRate == newRate
      && (forall u :: Rewards(n, u, now) == Rewards(st, u, now))
      && (forall later: nat | now <= later ::
            RewardPerToken(n, later) == RewardPerToken(st, now) + AccrualPerToken(newRate, later - now))
      && (forall u :: StakedAmount(n, u) == StakedAmount(st, u))
      && n.totalStaked == st.totalStaked && n.contractBalance == st.contractBalance
      && n.owner == st.owner && n.paused == st.paused
  {
  }

  /** `pause` and `unpause`: owner only; they flip the flag that gates staking and nothing else. */
  lemma PauseEffect(st: State, caller: Address)
    requires Valid(st)
    ensures Pause(st, caller).Ok? <==> caller == st.owner && !st.paused
    ensures Unpause(st, caller).Ok? <==> caller == st.owner && st.paused
    ensures caller != st.owner ==> Pause(st, caller) == Unpause(st, caller) == Err(OwnableUnauthorizedAccount(caller))
    ensures caller == st.owner && st.paused ==> Pause(st, caller) == Err(EnforcedPause)
    ensures caller == st.owner && !st.paused ==> Unpause(st, caller) == Err(ExpectedPause)
    ensures Pause(st, caller).Ok? ==>
      Pause(st, caller).value == Step(st.(paused := true), ContractPaused(true))
    ensures Unpause(st, caller).Ok? ==>
      Unpause(st, caller).value == Step(st.(paused := false), ContractPaused(false))
  {
  }

  /** `depositRewards(v)` raises the balance by exactly `v` and changes nothing else. */
  lemma DepositRewardsEffect(st: State, amount: nat)
    requires Valid(st)
    ensures DepositRewards(st, amount).Ok? <==> amount > 0
    ensures amount == 0 ==> DepositRewards(st, amount) == Err(ZeroDepositAmount)
    ensures DepositRewards(st, amount).Ok? ==>
      && DepositRewards(st, amount).value.event == RewardsDeposited(amount)
      && DepositRewards(st, amount).value.next == st.(contractBalance := st.contractBalance + amount)
  {
  }

  /** `emergencyWithdraw(x)`: owner only; sends exactly `x` to the owner and never touches principal. */
  lemma EmergencyWithdrawEffect(st: State, caller: Address, amount: nat)
    requires Valid(st)
    ensures EmergencyWithdraw(st, caller, amount).Ok? <==>
      caller == st.owner && st.totalStaked + amount <= st.contractBalance
    ensures caller != st.owner ==> EmergencyWithdraw(st, caller, amount) == Err(OwnableUnauthorizedAccount(caller))
    ensures caller == st.owner && st.contractBalance < st.totalStaked + amount ==>
      EmergencyWithdraw(st, caller, amount) == Err(WouldBreachPrincipal)
    ensures EmergencyWithdraw(st, caller, amount).Ok? ==>
      && EmergencyWithdraw(st, caller, amount).value.event == EmergencyWithdrawn(caller, amount)
      && EmergencyWithdraw(st, caller, amount).value.next == st.(contractBalance := st.contractBalance - amount)
  {
  }
}
