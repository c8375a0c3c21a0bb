# Staking ledger of stake-dapp, in Dafny

stake-dapp is a small ETH staking application. Participants `stake` ETH into
a `StakingContract`, earn a yearly percentage on it (12 percent by default),
`claimRewards` from a pool the owner funds with `depositRewards`, and
`unstake` their principal. The owner can change the rate (capped at
50 percent), `pause` and `unpause` staking, and `emergencyWithdraw` pool
funds. The contract's Solidity source is not part of this model. Its
behaviour is taken from what the two Hardhat suites assert:
`test/StakingContract.js` and `test/StakingContract.test.js`. The ABI list
in `app/page.tsx` names `stake`, `unstake`, `getStakedAmount`, `getRewards`,
`claimRewards`, `totalStaked` and `rewardRate` with three events.
`setRewardRate`, `pause`, `unpause`, `depositRewards` and
`emergencyWithdraw`, and their events, come from the suites. The web front end
shortens addresses with `formatAddress`, which is modelled as well.

The project has these modules:

- `RewardMath` (`reward_math.dfy`) holds the integer arithmetic.
  - `ExpectedRewards` is the suites' reference formula
    `amount * rate * duration * P / (100 * YEAR * P)`.
  - `AccrualPerToken` and `RewardFromGrowth` are the two roundings of a
    reward-per-token accumulator.
  - Lemmas bound how far the accumulator's payout lies from the reference:
    over one constant-rate period, and over a sequence of `Period`s
    separated by checkpoints.
- `LedgerSpec` (`ledger_spec.dfy`) holds the ledger as values.
  - The `State` record and the `Event` and `Error` values are defined here.
  - Each external function is a transition `State -> Result<Step>`. A
    failed call is an `Err` and has no next state.
  - The ledger invariant is `Valid`: `totalStaked` is the sum of the
    stakes and is covered by the balance, every checkpoint is settled, and
    the rate is at most the cap.
- `LedgerEffects` (`ledger_effects.dfy`) says, per operation, exactly when
  the operation succeeds and with which error it reverts otherwise. It also
  gives what a success changes and what it leaves alone.
- `LedgerAccrual` (`ledger_accrual.dfy`) holds how rewards accrue across
  calls, and the suites' scenarios as lemmas:
  - one year at 12 percent;
  - two participants staking at different times;
  - a mid-stake rate change;
  - stake-then-unstake;
  - a second claim;
  - pause and unpause.
- `StakingLedger` (`staking_ledger.dfy`) is the contract as a `class Ledger`.
  - Its fields are the contract storage.
  - Each method updates those fields in place.
  - Each method is proved to do exactly what the matching `LedgerSpec`
    transition says, and to keep `Valid()`.
- `AddressFormat` (`address_format.dfy`) models `formatAddress`: JavaScript
  `slice` semantics, negative positions and clamping included.

Rewards accrue as follows. The accumulator `rewardPerTokenStored` grows by
`rate * elapsed * 10^18 / (100 * 31536000)` at each checkpoint. This growth
is not divided by `totalStaked`: every staked wei earns the yearly rate on
its own, as both suites expect. A participant is owed their settled rewards
plus `amount * (accumulator - their checkpoint) / 10^18`. Settlement is
the model's own step, chosen so that the two-participant scenario
(`test/StakingContract.js:158-189`) and the rate-change scenario
(`test/StakingContract.js:274-298`) hold. The accumulator is brought
forward, and the caller settled, before every `stake`, `unstake` and
`claimRewards`. It is also brought forward before `setRewardRate` switches
the rate. The accumulator grows even while nothing is staked, where a
contract might skip the growth when `totalStaked` is 0. That difference is
invisible: `Valid` with a zero total forces an empty stakes map, and a new
stake starts its checkpoint at the current accumulator. Block time is the explicit parameter `now`. Callers must
pass a `now` that is not before the last checkpoint, because chain time
never runs backwards.

Two facts follow from the integer roundings.

1. The accumulator never pays more than the exact linear interest.
2. Each checkpoint can cost a participant at most
   `amount / 10^18 + 1` wei against the reference formula.

So "a user's reward depends only on their own amount and exposure"
(`test/StakingContract.js:158-189`) holds up to that truncation. It is
stated two ways:

- another participant's call acts on you exactly as a bare checkpoint would;
- a checkpoint costs at most the bound above.

## Model

| member | source | states |
|---|---|---|
| RewardMath.ExpectedRewards | test/StakingContract.js:23-25 | The suites' reference formula; no contract of its own. Its value is stated by ExpectedRewardsClosedForm, ExpectedRewardsMonotone and ExpectedRewardsBounds |
| RewardMath.ExpectedRewardsClosedForm | test/StakingContract.js:23-25 | The PRECISION factor cancels: the reference reward is `floor(amount * rate * duration / (100 * YEAR))` |
| RewardMath.ExpectedRewardsMonotone | test/StakingContract.js:23-25 | The reference reward is 0 when the amount, the duration or the rate is 0, and it is monotone in each argument |
| RewardMath.ExpectedRewardsBounds | test/StakingContract.js:23-25 | The reference reward is the exact interest `amount * rate * duration / (100 * YEAR)` rounded down |
| RewardMath.AccrualSplit | test/StakingContract.js:178-180 | Splitting an accrual interval at a checkpoint loses at most one unit of accumulator and never gains |
| RewardMath.AccrualWithinTruncation | test/StakingContract.js:291-297 | Over any sequence of constant-rate periods, the accumulator payout is at most the exact interest and below the summed reference plus one per period. It falls short of the summed reference by at most `1 + periods * amount / P` |
| RewardMath.CheckpointedSpanWithinTruncation | test/StakingContract.js:182-187 | Two checkpointed periods at one rate pay at most the reference reward for the whole span, and at most `1 + 2 * amount / P` less |
| LedgerSpec.Deploy | test/StakingContract.test.js:21-30 | The freshly deployed storage; no contract of its own. Its value is stated by LedgerEffects.DeployEffect |
| LedgerSpec.StakedAmount | test/StakingContract.test.js:190-191 | `getStakedAmount`; no contract of its own. Its value is stated by LedgerEffects.StakeEffect, LedgerEffects.UnstakeEffect and LedgerAccrual.TwoStakersTotal |
| LedgerSpec.Rewards | test/StakingContract.js:128 | `getRewards`; no contract of its own. Its value is stated by LedgerAccrual.FreshStakeAccrues, LedgerAccrual.RateChangeSplitsAccrual, LedgerEffects.ClaimRewardsEffect and LedgerAccrual.OneTokenOneYearAtTwelvePercent |
| LedgerSpec.SumStakedUpdate | test/StakingContract.test.js:185-192 | Replacing one participant's entry changes the sum of stakes by exactly the difference of the two amounts |
| LedgerSpec.SumStakedRemove | test/StakingContract.test.js:194-202 | Deleting a participant's entry lowers the sum of stakes by exactly that participant's amount |
| LedgerSpec.SettleKeepsInvariant | test/StakingContract.test.js:113-131 | Settling a participant keeps the invariant and every stake amount. It moves what they are owed into their settled rewards without changing the amount owed |
| LedgerSpec.Stake | test/StakingContract.js:40-71 | A successful stake leaves a valid ledger (totalStaked = sum of stakes <= balance, checkpoints settled, rate <= 50), and the accumulator and its clock do not move back |
| LedgerSpec.Unstake | test/StakingContract.js:75-115 | As for Stake, after principal is paid out and a fully emptied entry is deleted |
| LedgerSpec.ClaimRewards | test/StakingContract.test.js:113-137 | As for Stake, after the reward is paid out of the balance |
| LedgerSpec.SetRewardRate | test/StakingContract.js:193-220 | As for Stake, after the rate switch |
| LedgerSpec.Pause | test/StakingContract.js:222-233 | A successful pause leaves a valid ledger |
| LedgerSpec.Unpause | test/StakingContract.js:235-241 | A successful unpause leaves a valid ledger |
| LedgerSpec.DepositRewards | test/StakingContract.test.js:161-169 | A successful deposit leaves a valid ledger |
| LedgerSpec.EmergencyWithdraw | test/StakingContract.test.js:171-181 | A successful withdrawal leaves a valid ledger; staked principal stays covered by the balance |
| LedgerEffects.DeployEffect | test/StakingContract.test.js:21-30 | A fresh ledger is valid, is owned by the deployer, is not paused, has totalStaked 0 and rate 12, and everyone has stake 0 and rewards 0 |
| LedgerEffects.StakeOutcome | test/StakingContract.js:53-58 | Stake succeeds exactly when not paused and the amount is positive. Otherwise it fails with EnforcedPause, or with ZeroStakeAmount ("Stake amount must be greater than 0") |
| LedgerEffects.StakeEffect | test/StakingContract.js:40-71 | A successful stake emits `Staked(caller, amount)`. It adds exactly `amount` to the caller's stake (so repeated stakes accumulate), to totalStaked and to the balance. Every other stake, the owner, the pause flag and the rate are unchanged |
| LedgerEffects.StakeKeepsRewards | test/StakingContract.js:60-71 | Staking more does not change what the caller is owed at that moment |
| LedgerEffects.UnstakeOutcome | test/StakingContract.test.js:81-93 | Unstake succeeds exactly when `0 < amount <= stake`. Otherwise it fails with ZeroUnstakeAmount or InsufficientStakedAmount |
| LedgerEffects.UnstakeEffect | test/StakingContract.test.js:66-79 | A successful unstake emits `Unstaked(caller, amount)`. It lowers the stake, totalStaked and the balance by exactly `amount`, so the caller receives exactly `amount`. An emptied entry is deleted. Other stakes, the owner, the pause flag and the rate are unchanged |
| LedgerEffects.UnstakeKeepsRewards | test/StakingContract.test.js:66-79 | Unstaking, partly or fully, does not change what the caller is owed at that moment |
| LedgerEffects.ClaimRewardsOutcome | test/StakingContract.test.js:134-137 | Claim succeeds exactly when something is owed and the pool above the principal covers it. Otherwise it fails with NoRewardsAvailable or InsufficientPoolFunds |
| LedgerEffects.ClaimRewardsEffect | test/StakingContract.test.js:113-131 | A successful claim pays exactly the current `getRewards` value out of the balance, after which `getRewards` is 0. No stake changes |
| LedgerEffects.SetRewardRateEffect | test/StakingContract.js:193-220 | The call is owner-only (OwnableUnauthorizedAccount) and the rate must be at most 50 (RewardRateTooHigh). On success the rate is the new one and no one's rewards at the switch change. The accumulator then grows at the new rate from its value at the switch. Stakes, totals, balance and owner are unchanged |
| LedgerEffects.PauseEffect | test/StakingContract.js:222-242 | On success only the flag changes, and `ContractPaused(flag)` is emitted. The model also makes both calls owner-only, fails pausing while paused with EnforcedPause, and fails unpausing while unpaused with ExpectedPause; these three are chosen (see "Left out") |
| LedgerEffects.DepositRewardsEffect | test/StakingContract.test.js:161-169 | A deposit of `v > 0` raises the balance by exactly `v` and changes nothing else. A deposit of 0 fails |
| LedgerEffects.EmergencyWithdrawEffect | test/StakingContract.test.js:171-181 | On success it sends exactly `x` to the owner out of the balance and changes nothing else. The chosen owner-only rule and principal guard give its two errors |
| LedgerAccrual.CheckpointTruncation | test/StakingContract.js:178-180 | A bare checkpoint never raises anyone's later rewards, and lowers them by at most `stake / P + 1` |
| LedgerAccrual.OthersActAsCheckpoint | test/StakingContract.js:178-188 | Another participant's stake, unstake or claim changes your later rewards exactly as a bare checkpoint would, whatever amount they moved |
| LedgerAccrual.OthersLeaveRewardsUnchanged | test/StakingContract.js:178-188 | Another participant's stake, unstake or claim leaves what you are owed at that instant exactly unchanged |
| LedgerAccrual.FreshStakeAccrues | test/StakingContract.js:119-132 | A fresh stake of `amount` is owed exactly the accumulator payout for `d` seconds. That is 0 when `d` is 0 (lines 264-272), never more than the reference reward, and short of it by at most `amount / P + 1` |
| LedgerAccrual.RateChangeSplitsAccrual | test/StakingContract.js:274-298 | After a rate change at `t1`, the stake is owed the old-rate payout over `[t0, t1]` plus the new-rate payout over `[t1, t2]`. That payout is at most the two reference rewards added up plus 1, and at most `1 + 2 * amount / P` below that sum |
| LedgerAccrual.TwoStakersAccrueIndependently | test/StakingContract.js:158-189 | If u1 stakes `a1` at t0 and u2 stakes at t1, both calls succeed and u1 is owed at t2 exactly the accumulator payout on `a1` over the two periods `[t0, t1]` and `[t1, t2]` at the rate. The formula does not mention u2 or u2's amount |
| LedgerAccrual.TwoStakersEarlierStakerWithinReference | test/StakingContract.js:182-187 | In the same scenario, u1's rewards at t2 are at most u1's reference reward over `t2 - t0`, and at most `1 + 2 * a1 / P` below it |
| LedgerAccrual.TwoStakersLaterJoinerAccrues | test/StakingContract.js:178-188 | In the same scenario, u2 is owed exactly what a fresh stake of `a2` earns over `t2 - t1`, whatever u1 staked |
| LedgerAccrual.OneTokenOneYearAtTwelvePercent | test/StakingContract.test.js:101-111 | One token staked for one year on a fresh ledger at 12 percent is owed exactly 0.12 token |
| LedgerAccrual.TwoStakersTotal | test/StakingContract.test.js:185-192 | When two participants stake one and two tokens (`10^18` and `2 * 10^18` wei) on a fresh ledger, totalStaked is three tokens, each `getStakedAmount` returns only its own amount, and the ledger is valid |
| LedgerAccrual.StakeThenUnstakeRestores | test/StakingContract.test.js:194-202 | Staking and then unstaking the whole amount at once restores every stake, totalStaked, the balance and the rewards owed |
| LedgerAccrual.SecondClaimRefused | test/StakingContract.test.js:129-137 | After a successful claim, a second claim at the same time fails with NoRewardsAvailable |
| LedgerAccrual.PauseGatesStaking | test/StakingContract.js:222-242 | Once paused, stake fails with EnforcedPause. After the owner unpauses, the same stake succeeds |
| StakingLedger.Ledger.constructor | test/StakingContract.test.js:21-30 | The new object's storage is the fresh ledger of `Deploy`, and it is valid |
| StakingLedger.Ledger.GetStakedAmount | test/StakingContract.test.js:40 | `getStakedAmount` on the object; no contract of its own. It is `LedgerSpec.StakedAmount` of the storage, whose value the lemmas named there state |
| StakingLedger.Ledger.GetRewards | test/StakingContract.test.js:106 | `getRewards` on the object; no contract of its own. It is `LedgerSpec.Rewards` of the storage, whose value the lemmas named there state |
| StakingLedger.Ledger.SettleAccount | test/StakingContract.js:274-298 | The model's settlement step, done in place, leaves exactly the `Settle` state and the object stays valid. The accrual scenarios at test/StakingContract.js lines 158-189 and 274-298 rest on it |
| StakingLedger.Ledger.Stake | test/StakingContract.js:40-71 | The in-place update is exactly the `LedgerSpec.Stake` transition; on an error nothing changes; the object stays valid |
| StakingLedger.Ledger.Unstake | test/StakingContract.js:75-115 | The same, for `LedgerSpec.Unstake` |
| StakingLedger.Ledger.ClaimRewards | test/StakingContract.test.js:113-137 | The same, for `LedgerSpec.ClaimRewards` |
| StakingLedger.Ledger.SetRewardRate | test/StakingContract.js:193-220 | The same, for `LedgerSpec.SetRewardRate` |
| StakingLedger.Ledger.Pause | test/StakingContract.js:222-233 | The same, for `LedgerSpec.Pause` |
| StakingLedger.Ledger.Unpause | test/StakingContract.js:235-241 | The same, for `LedgerSpec.Unpause` |
| StakingLedger.Ledger.DepositRewards | test/StakingContract.test.js:161-169 | The same, for `LedgerSpec.DepositRewards` |
| StakingLedger.Ledger.EmergencyWithdraw | test/StakingContract.test.js:171-181 | The same, for `LedgerSpec.EmergencyWithdraw` |
| AddressFormat.SlicePosition | components/wallet-connect-button.tsx:31 | A `slice` position always lands in `[0, n]`. In-range positions are kept, and negative ones count back from the end. A position past the end clamps to `n`, and a negative position before the start clamps to 0 |
| AddressFormat.Slice | components/wallet-connect-button.tsx:31 | `s.slice(begin, end)` is the run of `s` that starts at the normalised begin position and ends at the normalised end position. It is empty exactly when the normalised end is not after the normalised begin |
| AddressFormat.SliceFrom | components/wallet-connect-button.tsx:31 | `s.slice(begin)` is the suffix of `s` from the normalised begin position. It is the whole string when `begin` is at or before `-n` |
| AddressFormat.FormatAddress | components/wallet-connect-button.tsx:30-32 | The result is the first `min(6, n)` characters, then "...", then the last `min(4, n)` characters. Its length is `min(6, n) + 3 + min(4, n)`, which is 13 for any address of six characters or more. The same expression is inlined at app/page.tsx lines 61 and 228 |

## Left out

- The contract's Solidity source is not part of this model. Behaviour the suites leave open was chosen as follows:
  - `claimRewards` and `emergencyWithdraw` may spend only `balance - totalStaked`. Otherwise they fail with InsufficientPoolFunds or WouldBreachPrincipal. These are chosen guards, not behaviour either suite asserts.
  - `depositRewards` is open to any caller and refuses 0.
  - The rate has no lower bound.
  - `pause` gates only `stake`; `unstake` and `claimRewards` stay open.
  - Settled rewards live in a map separate from the stakes, so a fully unstaked participant keeps what they had earned.
  - `pause`, `unpause` and `emergencyWithdraw` are owner-only. The suites call them only as the owner and never assert a refusal.
  - Pausing while paused fails with EnforcedPause, and unpausing while unpaused fails with ExpectedPause. The suites run one pause and one unpause and assert neither.
  - `emergencyWithdraw` emits `EmergencyWithdrawn(owner, amount)`, and `depositRewards` emits `RewardsDeposited(amount)`. Neither suite nor the ABI list names an event for them.
- The rate cap is 50, as `test/StakingContract.js:213-220` asserts. `test/StakingContract.test.js:151-153` asserts a cap of 100 instead. The two suites cannot both hold, and only one value is modelled.
- Owner checks fail with the custom error `OwnableUnauthorizedAccount(caller)`, as `test/StakingContract.js:209` expects. The string "Ownable: caller is not the owner" at `test/StakingContract.test.js:157` is the same failure under an older library.
- The scenario at `test/StakingContract.js:158-189` refers at lines 170 and 172 to names it never defines. It is modelled by its stated intent, lines 178-188.
- LedgerAccrual.TwoStakersEarlierStakerWithinReference: independence holds only up to truncation. The first participant's reward is the payout over two checkpointed periods, not one. It can differ from a single uninterrupted period by up to `1 + 2 * a1 / P` wei, so an exact "does not depend on others' timing" is not claimed.
- Integer width: amounts, the accumulator and the balance are unbounded naturals, so uint256 overflow is not modelled. With ETH amounts and rates of at most 50 percent, no value comes near 2^256.
- Time is the parameter `now`. The Hardhat clock (`time.increase`, `evm_increaseTime`, `evm_mine`) and block timestamps are not modelled. Two scenarios depend on every transaction being mined in its own block, one second later:
  - `test/StakingContract.test.js:134-137` expects "No rewards available" from a claim sent in the block after the stake. The model refuses that claim only at the stake's own `now`: there LedgerAccrual.FreshStakeAccrues gives 0 owed, and LedgerEffects.ClaimRewardsOutcome then gives NoRewardsAvailable. One second after a fresh 1-ETH stake, 3,805,175,038 wei are owed, so the claim is no longer refused for lack of rewards.
  - `test/StakingContract.test.js:119-127` compares the claim's payout with a `getRewards` value read one block earlier.
  - Both scenarios are modelled at a single instant, matching their stated intent ("no waiting").
- Gas and the gas-cost arithmetic in the balance checks are not modelled. Transfers are exact.
- Events are returned as values. Logs and their indexing are not modelled.
- Reentrancy, external-call ordering and the native ETH transfer call are not modelled. Each call runs to completion alone.
- `transferOwnership` and `renounceOwnership` are not modelled; no code shown uses them.
- The `timestamp` field of a stake is recorded on each deposit and is not read by any operation.
- AddressFormat.FormatAddress: positions count Unicode characters, where JavaScript's `slice` counts UTF-16 code units. The two differ only for characters outside the Basic Multilingual Plane, which a hexadecimal address never contains.
- The user interface is not modelled: React rendering, wallet and provider calls, toasts and the floating-point display of amounts in `app/page.tsx`, plus `app/providers.tsx`, `app/layout.tsx` and `scripts/deploy.js`.
