/**
 * The staking ledger as state transitions.
 *
 * Every operation of the contract is a function from the ledger state (and
 * the caller, the arguments and the block time `now`) to either the next
 * state with the event the call emits, or the error it reverts with.  A
 * failed call therefore has no effect on the state.  Rewards accrue through
 * a reward-per-token accumulator: `rewardPerTokenStored` grows by
 * `rate * elapsed * PRECISION / (100 * YEAR)` at each checkpoint, and a
 * participant is owed `amount * (accumulator - their checkpoint) / PRECISION`
 * on top of the rewards already settled for them.
 */
module LedgerSpec {
  import opened RewardMath

  type Address = nat

  /** Annual percentage a fresh ledger pays. */
  const INITIAL_REWARD_RATE: nat := 12

  /** Largest annual percentage `setRewardRate` accepts. */
  const MAX_REWARD_RATE: nat := 50

  /** A participant's position: principal, time of the last deposit, accumulator value last settled. */
  datatype StakeInfo = StakeInfo(amount: nat, timestamp: nat, rewardPerTokenPaid: nat)

  datatype State = State(
    owner: Address,
    paused: bool,
    rewardRate: nat,
    totalStaked: nat,
    rewardPerTokenStored: nat,
    lastUpdateTime: nat,
    contractBalance: nat,
    stakes: map<Address, StakeInfo>,   // an entry exists while its amount is positive
    rewards: map<Address, nat>)        // settled, not yet claimed rewards

  datatype Event =
    | Staked(user: Address, amount: nat)
    | Unstaked(user: Address, amount: nat)
    | RewardsClaimed(user: Address, amount: nat)
    | RewardRateUpdated(newRate: nat)
    | RewardsDeposited(amount: nat)
    | ContractPaused(paused: bool)
    | EmergencyWithdrawn(to: Address, amount: nat)

  datatype Error =
    | EnforcedPause                            // staking, or pausing, while paused
    | ExpectedPause                            // unpausing while not paused
    | OwnableUnauthorizedAccount(account: Address)
    | ZeroStakeAmount                          // "Stake amount must be greater than 0"
    | ZeroUnstakeAmount                        // "Unstake amount must be greater than 0"
    | InsufficientStakedAmount                 // "Insufficient staked amount"
    | NoRewardsAvailable                       // "No rewards available"
    | RewardRateTooHigh                        // "Reward rate cannot exceed 50%"
    | ZeroDepositAmount
    | InsufficientPoolFunds                    // the payout would touch staked principal
    | WouldBreachPrincipal                     // the withdrawal would touch staked principal

  /** What a successful call leaves behind. */
  datatype Step = Step(next: State, event: Event)

  datatype Result<T> = Ok(value: T) | Err(error: Error)

  /** The ledger right after deployment by `deployer` at time `now`. */
  function Deploy(deployer: Address, now: nat): State
  {
    State(deployer, false, INITIAL_REWARD_RATE, 0, 0, now, 0, map[], map[])
  }

  // ---------------------------------------------------------------------
  // Views

  /** The principal recorded for `who` in `m`, zero when there is no entry. */
  function AmountIn(m: map<Address, StakeInfo>, who: Address): nat
  {
    if who in m then m[who].amount else 0
  }

  /** `getStakedAmount`. */
  function StakedAmount(st: State, who: Address): nat
  {
    AmountIn(st.stakes, who)
  }

  /** Rewards already settled for `who`. */
  function Claimable(st: State, who: Address): nat
  {
    if who in st.rewards then st.rewards[who] else 0
  }

  /** The accumulator brought forward to `now` at the current rate. */
  function RewardPerToken(st: State, now: nat): nat
    requires st.lastUpdateTime <= now
  {
    st.rewardPerTokenStored + AccrualPerToken(st.rewardRate, now - st.lastUpdateTime)
  }

  /** No participant's checkpoint lies ahead of the accumulator. */
  predicate CheckpointsSettled(st: State)
  {
    forall a :: a in st.stakes ==> st.stakes[a].rewardPerTokenPaid <= st.rewardPerTokenStored
  }

  /** `getRewards`: settled rewards plus what the stake has earned since its checkpoint. */
  function Rewards(st: State, who: Address, now: nat): nat
    requires CheckpointsSettled(st) && st.lastUpdateTime <= now
  {
    Claimable(st, who) +
      if who in st.stakes
      then RewardFromGrowth(st.stakes[who].amount, RewardPerToken(st, now) - st.stakes[who].rewardPerTokenPaid)
      else 0
  }

  // ---------------------------------------------------------------------
  // The ledger invariant

  /** The sum of all principals. */
  ghost function SumStaked(m: map<Address, StakeInfo>): nat
    decreases |m|
  {
    if m == map[] then 0
    else
      var k :| k in m;
      m[k].amount + SumStaked(m - {k})
  }

  ghost predicate Valid(st: State)
  {
    && CheckpointsSettled(st)
    && st.rewardRate <= MAX_REWARD_RATE
    && (forall a :: a in st.stakes ==> st.stakes[a].amount > 0)
    && st.totalStaked == SumStaked(st.stakes)
    && st.totalStaked <= st.contractBalance
  }

  /** Neither the accumulator nor its clock ever moves backwards. */
  ghost predicate Advances(st: State, n: State)
  {
    st.rewardPerTokenStored <= n.rewardPerTokenStored && st.lastUpdateTime <= n.lastUpdateTime
  }

  lemma {:induction false} SumStakedRemove(m: map<Address, StakeInfo>, k: Address)
    requires k in m
    ensures SumStaked(m) == m[k].amount + SumStaked(m - {k})
    decreases |m|
  {
    var j :| j in m && SumStaked(m) == m[j].amount + SumStaked(m - {j});
    if j != k {
      SumStakedRemove(m - {j}, k);
      SumStakedRemove(m - {k}, j);
      assert m - {j} - {k} == m - {k} - {j};
    }
  }

  /** Replacing one entry changes the sum by the difference of the two amounts. */
  lemma SumStakedUpdate(m: map<Address, StakeInfo>, k: Address, v: StakeInfo)
    ensures SumStaked(m[k := v]) + AmountIn(m, k) == SumStaked(m) + v.amount
  {
    SumStakedRemove(m[k := v], k);
    assert m[k := v] - {k} == m - {k};
    if k in m {
      SumStakedRemove(m, k);
    } else {
      assert m - {k} == m;
    }
  }

  // ---------------------------------------------------------------------
  // Settlement

  /** Brings the accumulator forward to `now` at the current rate. */
  function Checkpoint(st: State, now: nat): State
    requires st.lastUpdateTime <= now
  {
    st.(rewardPerTokenStored := RewardPerToken(st, now), lastUpdateTime := now)
  }

  /**
   * The model's settlement step: checkpoint, then move what `who` has earned
   * into their settled rewards.  It runs before every change to `who`'s stake
   * or rewards, so that each participant accrues on their own amount and
   * exposure and a rate change splits accrual at the switch.
   */
  function Settle(st: State, who: Address, now: nat): State
    requires CheckpointsSettled(st) && st.lastUpdateTime <= now
  {
    var rpt := RewardPerToken(st, now);
    st.(rewardPerTokenStored := rpt,
        lastUpdateTime := now,
        rewards := st.rewards[who := Rewards(st, who, now)],
        stakes := if who in st.stakes then st.stakes[who := st.stakes[who].(rewardPerTokenPaid := rpt)] else st.stakes)
  }

  lemma SettleKeepsInvariant(st: State, who: Address, now: nat)
    requires Valid(st) && st.lastUpdateTime <= now
    ensures Valid(Settle(st, who, now))
    ensures Settle(st, who, now).rewardPerTokenStored == RewardPerToken(st, now)
    ensures forall u :: StakedAmount(Settle(st, who, now), u) == StakedAmount(st, u)
    ensures Claimable(Settle(st, who, now), who) == Rewards(st, who, now)
    ensures Rewards(Settle(st, who, now), who, now) == Rewards(st, who, now)
  {
    var s := Settle(st, who, now);
    if who in st.stakes {
      SumStakedUpdate(st.stakes, who, s.stakes[who]);
    }
    assert RewardPerToken(s, now) == s.rewardPerTokenStored;
  }

  // ---------------------------------------------------------------------
  // Operations

  /** `stake()`, carrying `amount` as the call's value. */
  function Stake(st: State, caller: Address, amount: nat, now: nat): (r: Result<Step>)
    requires Valid(st) && st.lastUpdateTime <= now
    ensures r.Ok? ==> Valid(r.value.next) && Advances(st, r.value.next)
  {
    if st.paused then Err(EnforcedPause)
    else if amount == 0 then Err(ZeroStakeAmount)
    else
      SettleKeepsInvariant(st, caller, now);
      var s := Settle(st, caller, now);
      var info := if caller in s.stakes then s.stakes[caller] else StakeInfo(0, now, s.rewardPerTokenStored);
      var info' := info.(amount := info.amount + amount, timestamp := now);
      SumStakedUpdate(s.stakes, caller, info');
      Ok(Step(
        s.(stakes := s.stakes[caller := info'],
           totalStaked := s.totalStaked + amount,
           contractBalance := s.contractBalance + amount),
        Staked(caller, amount)))
  }

  /** `unstake(amount)`: pays `amount` of principal back; an entry that reaches zero is deleted. */
  function Unstake(st: State, caller: Address, amount: nat, now: nat): (r: Result<Step>)
    requires Valid(st) && st.lastUpdateTime <= now
    ensures r.Ok? ==> Valid(r.value.next) && Advances(st, r.value.next)
  {
    if amount == 0 then Err(ZeroUnstakeAmount)
    else if amount > StakedAmount(st, caller) then Err(InsufficientStakedAmount)
    else
      SumStakedRemove(st.stakes, caller);
      SettleKeepsInvariant(st, caller, now);
      var s := Settle(st, caller, now);
      var info := s.stakes[caller];
      SumStakedRemove(s.stakes, caller);
      SumStakedUpdate(s.stakes, caller, info.(amount := info.amount - amount));
      Ok(Step(
        s.(stakes := if info.amount == amount then s.stakes - {caller}
                     else s.stakes[caller := info.(amount := info.amount - amount)],
           totalStaked := s.totalStaked - amount,
           contractBalance := s.contractBalance - amount),
        Unstaked(caller, amount)))
  }

  /** `claimRewards()`: pays everything `getRewards` reports, out of the funds above the principal. */
  function ClaimRewards(st: State, caller: Address, now: nat): (r: Result<Step>)
    requires Valid(st) && st.lastUpdateTime <= now
    ensures r.Ok? ==> Valid(r.value.next) && Advances(st, r.value.next)
  {
    var reward := Rewards(st, caller, now);
    if reward == 0 then Err(NoRewardsAvailable)
    else if reward > st.contractBalance - st.totalStaked then Err(InsufficientPoolFunds)
    else
      SettleKeepsInvariant(st, caller, now);
      var s := Settle(st, caller, now);
      Ok(Step(
        s.(rewards := s.rewards[caller := 0], contractBalance := s.contractBalance - reward),
        RewardsClaimed(caller, reward)))
  }

  /** `setRewardRate(newRate)`: owner only; accrual up to `now` is settled at the old rate first. */
  function SetRewardRate(st: State, caller: Address, newRate: nat, now: nat): (r: Result<Step>)
    requires Valid(st) && st.lastUpdateTime <= now
    ensures r.Ok? ==> Valid(r.value.next) && Advances(st, r.value.next)
  {
    if caller != st.owner then Err(OwnableUnauthorizedAccount(caller))
    else if newRate > MAX_REWARD_RATE then Err(RewardRateTooHigh)
    else Ok(Step(Checkpoint(st, now).(rewardRate := newRate), RewardRateUpdated(newRate)))
  }

  /** `pause()`: owner only. */
  function Pause(st: State, caller: Address): (r: Result<Step>)
    requires Valid(st)
    ensures r.Ok? ==> Valid(r.value.next)
  {
    if caller != st.owner then Err(OwnableUnauthorizedAccount(caller))
    else if st.paused then Err(EnforcedPause)
    else Ok(Step(st.(paused := true), ContractPaused(true)))
  }

  /** `unpause()`: owner only. */
  function Unpause(st: State, caller: Address): (r: Result<Step>)
    requires Valid(st)
    ensures r.Ok? ==> Valid(r.value.next)
  {
    if caller != st.owner then Err(OwnableUnauthorizedAccount(caller))
    else if !st.paused then Err(ExpectedPause)
    else Ok(Step(st.(paused := false), ContractPaused(false)))
  }

  /** `depositRewards()`, carrying `amount` as the call's value: funds the reward pool. */
  function DepositRewards(st: State, amount: nat): (r: Result<Step>)
    requires Valid(st)
    ensures r.Ok? ==> Valid(r.value.next)
  {
    if amount == 0 then Err(ZeroDepositAmount)
    else Ok(Step(st.(contractBalance := st.contractBalance + amount), RewardsDeposited(amount)))
  }

  /** `emergencyWithdraw(amount)`: owner only; sends `amount` of the reward pool to the owner. */
  function EmergencyWithdraw(st: State, caller: Address, amount: nat): (r: Result<Step>)
    requires Valid(st)
    ensures r.Ok? ==> Valid(r.value.next)
  {
    if caller != st.owner then Err(OwnableUnauthorizedAccount(caller))
    else if st.contractBalance < st.totalStaked + amount then Err(WouldBreachPrincipal)
    else Ok(Step(st.(contractBalance := st.contractBalance - amount), EmergencyWithdrawn(st.owner, amount)))
  }
}
