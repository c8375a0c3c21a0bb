/**
 * How rewards accrue across calls: what one participant's calls do to
 * another participant's rewards, how a rate change splits accrual, and the
 * scenarios of the test suites (a fresh stake, two participants staking at
 * different times, a rate change mid-way, one year at 12 percent, a stake
 * undone at once, a second claim).
 */
module LedgerAccrual {
  import opened RewardMath
  import opened LedgerSpec
  import opened LedgerEffects

  /** Bringing the accumulator forward never raises anyone's rewards, and lowers them by at most the truncation of one split. */
  lemma CheckpointTruncation(st: State, u: Address, now: nat, later: nat)
    requires CheckpointsSettled(st) && st.lastUpdateTime <= now <= later
    ensures Rewards(Checkpoint(st, now), u, later) <= Rewards(st, u, later)
    ensures Rewards(st, u, later) <= Rewards(Checkpoint(st, now), u, later) + StakedAmount(st, u) / PRECISION + 1
  {
    var c := Checkpoint(st, now);
    AccrualSplit(st.rewardRate, now - st.lastUpdateTime, later - now);
    assert RewardPerToken(c, later) <= RewardPerToken(st, later) <= RewardPerToken(c, later) + 1;
    if u in st.stakes {
      var paid := st.stakes[u].rewardPerTokenPaid;
      RewardFromGrowthStep(st.stakes[u].amount, RewardPerToken(c, later) - paid, RewardPerToken(st, later) - paid);
    }
  }

  /**
   * Another participant's stake, unstake or claim reaches `u` only as a bare
   * accumulator checkpoint: `u`'s rewards at any later time are those of the
   * checkpointed ledger, whatever amount the other participant moved.
   */
  lemma OthersActAsCheckpoint(st: State, caller: Address, u: Address, amount: nat, now: nat, later: nat)
    requires Valid(st) && st.lastUpdateTime <= now <= later && u != caller
    ensures Stake(st, caller, amount, now).Ok? ==>
      Rewards(Stake(st, caller, amount, now).value.next, u, later) == Rewards(Checkpoint(st, now), u, later)
    ensures Unstake(st, caller, amount, now).Ok? ==>
      Rewards(Unstake(st, caller, amount, now).value.next, u, later) == Rewards(Checkpoint(st, now), u, later)
    ensures ClaimRewards(st, caller, now).Ok? ==>
      Rewards(ClaimRewards(st, caller, now).value.next, u, later) == Rewards(Checkpoint(st, now), u, later)
  {
    var c := Checkpoint(st, now);
    if Stake(st, caller, amount, now).Ok? {
      var n := Stake(st, caller, amount, now).value.next;
      assert SameFor(n, c, u);
      SameForRewards(n, c, u, later);
    }
    if Unstake(st, caller, amount, now).Ok? {
      var n := Unstake(st, caller, amount, now).value.next;
      assert SameFor(n, c, u);
      SameForRewards(n, c, u, later);
    }
    if ClaimRewards(st, caller, now).Ok? {
      var n := ClaimRewards(st, caller, now).value.next;
      assert SameFor(n, c, u);
      SameForRewards(n, c, u, later);
    }
  }

  /**
   * No cross-contamination: another participant's stake, unstake or claim
   * leaves what `u` is owed at that instant exactly unchanged.
   */
  lemma OthersLeaveRewardsUnchanged(st: State, caller: Address, u: Address, amount: nat, now: nat)
    requires Valid(st) && st.lastUpdateTime <= now && u != caller
    ensures Stake(st, caller, amount, now).Ok? ==>
      Rewards(Stake(st, caller, amount, now).value.next, u, now) == Rewards(st, u, now)
    ensures Unstake(st, caller, amount, now).Ok? ==>
      Rewards(Unstake(st, caller, amount, now).value.next, u, now) == Rewards(st, u, now)
    ensures ClaimRewards(st, caller, now).Ok? ==>
      Rewards(ClaimRewards(st, caller, now).value.next, u, now) == Rewards(st, u, now)
  {
    OthersActAsCheckpoint(st, caller, u, amount, now, now);
    var c := Checkpoint(st, now);
    assert RewardPerToken(c, now) == RewardPerToken(st, now);
    assert Rewards(c, u, now) == Rewards(st, u, now);
  }

  /** Two ledgers that agree on the accumulator and on everything recorded for `u`. */
  ghost predicate SameFor(a: State, b: State, u: Address)
  {
    && a.rewardPerTokenStored == b.rewardPerTokenStored
    && a.lastUpdateTime == b.lastUpdateTime
    && a.rewardRate == b.rewardRate
    && (u in a.stakes <==> u in b.stakes)
    && (u in a.stakes ==> a.stakes[u] == b.stakes[u])
    && Claimable(a, u) == Claimable(b, u)
  }

  lemma SameForRewards(a: State, b: State, u: Address, later: nat)
    requires CheckpointsSettled(a) && CheckpointsSettled(b) && a.lastUpdateTime <= later
    requires SameFor(a, b, u)
    ensures Rewards(a, u, later) == Rewards(b, u, later)
  {
  }

  /**
   * A participant who had nothing staked and nothing owed, and stakes `amount`
   * at `t0`, is owed exactly the accumulator payout for `d` seconds at `t0 + d`:
   * zero when `d` is zero, never more than the reference reward, and short of
   * it by at most `amount / PRECISION + 1`.
   */
  lemma FreshStakeAccrues(st: State, user: Address, amount: nat, t0: nat, d: nat)
    requires Valid(st) && st.lastUpdateTime <= t0 && !st.paused && amount > 0
    requires StakedAmount(st, user) == 0 && Claimable(st, user) == 0
    ensures Stake(st, user, amount, t0).Ok?
    ensures Rewards(Stake(st, user, amount, t0).value.next, user, t0 + d)
            == RewardFromGrowth(amount, AccrualPerToken(st.rewardRate, d))
    ensures Rewards(Stake(st, user, amount, t0).value.next, user, t0) == 0
    ensures Rewards(Stake(st, user, amount, t0).value.next, user, t0 + d) <= ExpectedRewards(amount, d, st.rewardRate)
    ensures ExpectedRewards(amount, d, st.rewardRate)
            <= Rewards(Stake(st, user, amount, t0).value.next, user, t0 + d) + amount / PRECISION + 1
  {
    StakeEffect(st, user, amount, t0);
    StakeKeepsRewards(st, user, amount, t0);
    var n := Stake(st, user, amount, t0).value.next;
    assert user !in st.stakes;
    assert RewardPerToken(n, t0 + d) - n.stakes[user].rewardPerTokenPaid == AccrualPerToken(st.rewardRate, d);
    var ps := [Period(st.rewardRate, d)];
    assert Growth(ps) == AccrualPerToken(st.rewardRate, d);
    assert Interest(amount, ps) == ExpectedRewards(amount, d, st.rewardRate);
    AccrualWithinTruncation(amount, ps);
  }

  /**
   * The rate-change scenario: a fresh participant stakes at `t0`, the owner
   * switches the rate at `t1`, and at `t2` the participant is owed the payout
   * of the old rate over `[t0, t1]` plus the new rate over `[t1, t2]`, within
   * truncation of the two reference rewards added up.
   */
  lemma RateChangeSplitsAccrual(st: State, user: Address, amount: nat, newRate: nat, t0: nat, t1: nat, t2: nat)
    requires Valid(st) && st.lastUpdateTime <= t0 <= t1 <= t2 && !st.paused && amount > 0
    requires StakedAmount(st, user) == 0 && Claimable(st, user) == 0
    requires newRate <= MAX_REWARD_RATE
    ensures Stake(st, user, amount, t0).Ok?
    ensures SetRewardRate(Stake(st, user, amount, t0).value.next, st.owner, newRate, t1).Ok?
    ensures
      var n := SetRewardRate(Stake(st, user, amount, t0).value.next, st.owner, newRate, t1).value.next;
      && Rewards(n, user, t2) == RewardFromGrowth(amount, Growth([Period(st.rewardRate, t1 - t0), Period(newRate, t2 - t1)]))
      && Rewards(n, user, t2) < ExpectedRewards(amount, t1 - t0, st.rewardRate) + ExpectedRewards(amount, t2 - t1, newRate) + 2
      && ExpectedRewards(amount, t1 - t0, st.rewardRate) + ExpectedRewards(amount, t2 - t1, newRate)
         <= Rewards(n, user, t2) + 1 + 2 * amount / PRECISION
  {
    StakeEffect(st, user, amount, t0);
    var n1 := Stake(st, user, amount, t0).value.next;
    SetRewardRateEffect(n1, st.owner, newRate, t1);
    var n := SetRewardRate(n1, st.owner, newRate, t1).value.next;
    assert user !in st.stakes;
    var ps := [Period(st.rewardRate, t1 - t0), Period(newRate, t2 - t1)];
    TwoPeriods(amount, ps[0], ps[1]);
    assert RewardPerToken(n, t2) - n.stakes[user].rewardPerTokenPaid == Growth(ps);
    AccrualWithinTruncation(amount, ps);
  }

  /**
   * The two-participant scenario, first participant: `u1` stakes `a1` at
   * `t0`, `u2` stakes `a2` at `t1`; at `t2`, `u1` is owed exactly the
   * accumulator payout over the two checkpointed periods, an amount that does
   * not mention `a2` at all.
   */
  lemma TwoStakersAccrueIndependently(st: State, u1: Address, u2: Address, a1: nat, a2: nat, t0: nat, t1: nat, t2: nat)
    requires Valid(st) && st.lastUpdateTime <= t0 <= t1 <= t2 && !st.paused && a1 > 0 && a2 > 0 && u1 != u2
    requires StakedAmount(st, u1) == 0 && Claimable(st, u1) == 0
    ensures Stake(st, u1, a1, t0).Ok?
    ensures Stake(Stake(st, u1, a1, t0).value.next, u2, a2, t1).Ok?
    ensures
      Rewards(Stake(Stake(st, u1, a1, t0).value.next, u2, a2, t1).value.next, u1, t2)
      == RewardFromGrowth(a1, Growth([Period(st.rewardRate, t1 - t0), Period(st.rewardRate, t2 - t1)]))
  {
    var r := st.rewardRate;
    StakeEffect(st, u1, a1, t0);
    var n1 := Stake(st, u1, a1, t0).value.next;
    assert u1 !in st.stakes;
    OthersActAsCheckpoint(n1, u2, u1, a2, t1, t2);
    var c := Checkpoint(n1, t1);
    var ps := [Period(r, t1 - t0), Period(r, t2 - t1)];
    TwoPeriods(a1, ps[0], ps[1]);
    assert Claimable(c, u1) == 0;
    assert RewardPerToken(c, t2) - c.stakes[u1].rewardPerTokenPaid == Growth(ps);
  }

  /**
   * In the same scenario, `u1`'s rewards at `t2` are at most the reference
   * reward for `a1` over the whole span `t2 - t0`, and fall short of it only
   * by truncation: at most `1 + 2 * a1 / PRECISION`.
   */
  lemma TwoStakersEarlierStakerWithinReference(st: State, u1: Address, u2: Address, a1: nat, a2: nat, t0: nat, t1: nat, t2: nat)
    requires Valid(st) && st.lastUpdateTime <= t0 <= t1 <= t2 && !st.paused && a1 > 0 && a2 > 0 && u1 != u2
    requires StakedAmount(st, u1) == 0 && Claimable(st, u1) == 0
    ensures Stake(st, u1, a1, t0).Ok?
    ensures Stake(Stake(st, u1, a1, t0).value.next, u2, a2, t1).Ok?
    ensures
      var n := Stake(Stake(st, u1, a1, t0).value.next, u2, a2, t1).value.next;
      && Rewards(n, u1, t2) <= ExpectedRewards(a1, t2 - t0, st.rewardRate)
      && ExpectedRewards(a1, t2 - t0, st.rewardRate) <= Rewards(n, u1, t2) + 1 + 2 * a1 / PRECISION
  {
    TwoStakersAccrueIndependently(st, u1, u2, a1, a2, t0, t1, t2);
    assert t2 - t0 == (t1 - t0) + (t2 - t1);
    CheckpointedSpanWithinTruncation(a1, st.rewardRate, t1 - t0, t2 - t1);
  }

  /**
   * The two-participant scenario, second participant: `u2`, joining at `t1`
   * after `u1` staked at `t0`, is owed at `t2` exactly what a fresh stake
   * of `a2` earns over `t2 - t1`, whatever `u1` staked.
   */
  lemma TwoStakersLaterJoinerAccrues(st: State, u1: Address, u2: Address, a1: nat, a2: nat, t0: nat, t1: nat, t2: nat)
    requires Valid(st) && st.lastUpdateTime <= t0 <= t1 <= t2 && !st.paused && a1 > 0 && a2 > 0 && u1 != u2
    requires StakedAmount(st, u2) == 0 && Claimable(st, u2) == 0
    ensures Stake(st, u1, a1, t0).Ok?
    ensures Stake(Stake(st, u1, a1, t0).value.next, u2, a2, t1).Ok?
    ensures
      var n := Stake(Stake(st, u1, a1, t0).value.next, u2, a2, t1).value.next;
      && Rewards(n, u2, t2) == RewardFromGrowth(a2, AccrualPerToken(st.rewardRate, t2 - t1))
      && Rewards(n, u2, t2) <= ExpectedRewards(a2, t2 - t1, st.rewardRate)
      && ExpectedRewards(a2, t2 - t1, st.rewardRate) <= Rewards(n, u2, t2) + a2 / PRECISION + 1
  {
    StakeEffect(st, u1, a1, t0);
    var n1 := Stake(st, u1, a1, t0).value.next;
    assert u2 !in n1.stakes && Claimable(n1, u2) == 0;
    FreshStakeAccrues(n1, u2, a2, t1, t2 - t1);
  }

  /** One whole token staked for one year at 12 percent earns exactly 0.12 token. */
  lemma OneTokenOneYearAtTwelvePercent(deployer: Address, user: Address, t0: nat)
    ensures Stake(Deploy(deployer, t0), user, PRECISION, t0).Ok?
    ensures Rewards(Stake(Deploy(deployer, t0), user, PRECISION, t0).value.next, user, t0 + SECONDS_PER_YEAR)
            == 120_000_000_000_000_000
  {
    DeployEffect(deployer, t0, user);
    FreshStakeAccrues(Deploy(deployer, t0), user, PRECISION, t0, SECONDS_PER_YEAR);
    assert AccrualPerToken(12, SECONDS_PER_YEAR) == 120_000_000_000_000_000;
  }

  /** Two participants staking one and two tokens on a fresh ledger: totalStaked is three tokens and each sees only their own stake. */
  lemma TwoStakersTotal(deployer: Address, u1: Address, u2: Address, t: nat)
    requires u1 != u2
    ensures Stake(Deploy(deployer, t), u1, PRECISION, t).Ok?
    ensures Stake(Stake(Deploy(deployer, t), u1, PRECISION, t).value.next, u2, 2 * PRECISION, t).Ok?
    ensures
      var n := Stake(Stake(Deploy(deployer, t), u1, PRECISION, t).value.next, u2, 2 * PRECISION, t).value.next;
      && n.totalStaked == 3 * PRECISION
      && StakedAmount(n, u1) == PRECISION && StakedAmount(n, u2) == 2 * PRECISION
      && Valid(n)
  {
    var st := Deploy(deployer, t);
    DeployEffect(deployer, t, u1);
    StakeOutcome(st, u1, PRECISION, t);
    StakeEffect(st, u1, PRECISION, t);
    var n1 := Stake(st, u1, PRECISION, t).value.next;
    StakeOutcome(n1, u2, 2 * PRECISION, t);
    StakeEffect(n1, u2, 2 * PRECISION, t);
  }

  /** Staking and at once unstaking the same amount restores principal, totals and balance, and pays no reward. */
  lemma StakeThenUnstakeRestores(st: State, user: Address, amount: nat, now: nat)
    requires Valid(st) && st.lastUpdateTime <= now && !st.paused && amount > 0
    ensures Stake(st, user, amount, now).Ok?
    ensures Unstake(Stake(st, user, amount, now).value.next, user, amount, now).Ok?
    ensures
      var n := Unstake(Stake(st, user, amount, now).value.next, user, amount, now).value.next;
      && (forall u :: StakedAmount(n, u) == StakedAmount(st, u))
      && n.totalStaked == st.totalStaked && n.contractBalance == st.contractBalance
      && Rewards(n, user, now) == Rewards(st, user, now)
  {
    StakeOutcome(st, user, amount, now);
    StakeEffect(st, user, amount, now);
    StakeKeepsRewards(st, user, amount, now);
    var n1 := Stake(st, user, amount, now).value.next;
    UnstakeOutcome(n1, user, amount, now);
    UnstakeEffect(n1, user, amount, now);
    UnstakeKeepsRewards(n1, user, amount, now);
  }

  /** A claim pays out everything owed, so a second claim at the same time is refused with "No rewards available". */
  lemma SecondClaimRefused(st: State, user: Address, now: nat)
    requires Valid(st) && st.lastUpdateTime <= now
    ensures ClaimRewards(st, user, now).Ok? ==>
      ClaimRewards(ClaimRewards(st, user, now).value.next, user, now) == Err(NoRewardsAvailable)
  {
    ClaimRewardsOutcome(st, user, now);
    if ClaimRewards(st, user, now).Ok? {
      ClaimRewardsEffect(st, user, now);
      ClaimRewardsOutcome(ClaimRewards(st, user, now).value.next, user, now);
    }
  }

  /** The pause scenario: once paused, staking reverts with EnforcedPause; after unpausing it succeeds again. */
  lemma PauseGatesStaking(st: State, user: Address, amount: nat, now: nat)
    requires Valid(st) && st.lastUpdateTime <= now && !st.paused && amount > 0
    ensures Pause(st, st.owner).Ok?
    ensures Stake(Pause(st, st.owner).value.next, user, amount, now) == Err(EnforcedPause)
    ensures Unpause(Pause(st, st.owner).value.next, st.owner).Ok?
    ensures Stake(Unpause(Pause(st, st.owner).value.next, st.owner).value.next, user, amount, now).Ok?
  {
    PauseEffect(st, st.owner);
    var p := Pause(st, st.owner).value.next;
    PauseEffect(p, st.owner);
    var q := Unpause(p, st.owner).value.next;
    StakeOutcome(q, user, amount, now);
  }
}
