/**
 * Integer reward arithmetic of the staking ledger.
 *
 * The reference formula is the test helper `calculateExpectedRewards`:
 * `amount * rate * duration * PRECISION / (100 * YEAR * PRECISION)`, an
 * annual percentage paid linearly over time.  The ledger itself does not
 * evaluate that formula per user: it keeps a reward-per-token accumulator
 * that grows by `rate * elapsed * PRECISION / (100 * YEAR)` and pays a user
 * `amount * growth / PRECISION`.  This module proves how far the two can be
 * apart: never above the exact linear interest, and short of the reference
 * by at most one unit per accrual period plus one unit per whole token.
 */
module RewardMath {

  /** Seconds in a 365-day year. */
  const SECONDS_PER_YEAR: nat := 365 * 24 * 60 * 60

  /** Fixed-point scale of the accumulator: 10^18. */
  const PRECISION: nat := 1_000_000_000_000_000_000

  /** Divisor that turns `rate * seconds` (percent-seconds) into a fraction of the principal. */
  const RATE_SCALE: nat := 100 * SECONDS_PER_YEAR

  /** The reference reward of `amount` staked for `duration` seconds at `rate` percent a year. */
  function ExpectedRewards(amount: nat, duration: nat, rate: nat): nat
  {
    (amount * rate * duration * PRECISION) / (100 * SECONDS_PER_YEAR * PRECISION)
  }

  /** What the accumulator gains per staked unit (scaled by PRECISION) over `elapsed` seconds. */
  function AccrualPerToken(rate: nat, elapsed: nat): nat
  {
    rate * elapsed * PRECISION / RATE_SCALE
  }

  /** What a stake of `amount` earns from an accumulator gain of `growth`. */
  function RewardFromGrowth(amount: nat, growth: nat): nat
  {
    amount * growth / PRECISION
  }

  // ---------------------------------------------------------------------
  // Arithmetic helpers

  lemma DivUnique(n: int, d: int, q: int, r: int)
    requires d > 0 && 0 <= r < d && n == q * d + r
    ensures n / d == q && n % d == r
  {
    var q', r' := n / d, n % d;
    assert n == q' * d + r';
    if q' < q {
      assert (q - q') * d == r' - r;
      MulLeftMono(1, q - q', d);
    } else if q' > q {
      assert (q' - q) * d == r - r';
      MulLeftMono(1, q' - q, d);
    }
  }

  lemma MulLeftMono(x: int, y: int, z: int)
    requires x <= y && z >= 0
    ensures x * z <= y * z
  {
  }

  lemma MulStrictMono(x: int, y: int, z: int)
    requires x < y && z > 0
    ensures x * z < y * z
  {
  }

  lemma MulCancelLt(x: int, y: int, z: int)
    requires z > 0 && x * z < y * z
    ensures x < y
  {
    if y <= x { MulLeftMono(y, x, z); }
  }

  lemma MulCancelLe(x: int, y: int, z: int)
    requires z > 0 && x * z <= y * z
    ensures x <= y
  {
    if y < x { MulStrictMono(y, x, z); }
  }

  lemma DivMono(x: nat, y: nat, d: nat)
    requires x <= y && d > 0
    ensures x / d <= y / d
  {
    if y / d < x / d {
      MulLeftMono(y / d + 1, x / d, d);
    }
  }

  /** `q == x / d` exactly when `q * d <= x < (q + 1) * d`. */
  lemma DivBetween(x: nat, d: nat, q: nat)
    requires d > 0 && q * d <= x < (q + 1) * d
    ensures x / d == q
  {
    DivUnique(x, d, q, x - q * d);
  }

  lemma DivBelow(x: nat, d: nat, m: nat)
    requires d > 0 && x < (m + 1) * d
    ensures x / d <= m
  {
    if x / d > m {
      MulLeftMono(m + 1, x / d, d);
    }
  }

  lemma DivBounds(x: nat, d: nat)
    requires d > 0
    ensures (x / d) * d <= x < (x / d + 1) * d
  {
  }

  /** A common positive factor cancels from a quotient. */
  lemma DivCancel(x: nat, y: nat, p: nat)
    requires y > 0 && p > 0
    ensures (x * p) / (y * p) == x / y
  {
    var q := x / y;
    DivBounds(x, y);
    MulLeftMono(q * y, x, p);
    MulStrictMono(x, (q + 1) * y, p);
    assert q * (y * p) <= x * p < (q + 1) * (y * p);
    DivBetween(x * p, y * p, q);
  }

  // ---------------------------------------------------------------------
  // The reference formula

  /** PRECISION cancels: the reference reward is `floor(amount * rate * duration / (100 * YEAR))`. */
  lemma ExpectedRewardsClosedForm(amount: nat, duration: nat, rate: nat)
    ensures ExpectedRewards(amount, duration, rate) == amount * rate * duration / RATE_SCALE
  {
    DivCancel(amount * rate * duration, 100 * SECONDS_PER_YEAR, PRECISION);
  }

  /** The reference reward is zero when any argument is zero, and monotone in each argument. */
  lemma ExpectedRewardsMonotone(a: nat, d: nat, r: nat, a': nat, d': nat, r': nat)
    requires a <= a' && d <= d' && r <= r'
    ensures ExpectedRewards(a, d, r) <= ExpectedRewards(a', d', r')
    ensures a == 0 || d == 0 || r == 0 ==> ExpectedRewards(a, d, r) == 0
  {
    ExpectedRewardsClosedForm(a, d, r);
    ExpectedRewardsClosedForm(a', d', r');
    MulLeftMono(a, a', r);
    MulLeftMono(r, r', a');
    assert a * r <= a' * r';
    MulLeftMono(a * r, a' * r', d);
    MulLeftMono(d, d', a' * r');
    assert a * r * d <= a' * r' * d';
    DivMono(a * r * d, a' * r' * d', RATE_SCALE);
  }

  /** The reference reward is the exact interest rounded down. */
  lemma ExpectedRewardsBounds(amount: nat, duration: nat, rate: nat)
    ensures ExpectedRewards(amount, duration, rate) * RATE_SCALE <= amount * rate * duration
    ensures amount * rate * duration < (ExpectedRewards(amount, duration, rate) + 1) * RATE_SCALE
  {
    ExpectedRewardsClosedForm(amount, duration, rate);
    DivBounds(amount * rate * duration, RATE_SCALE);
  }

  /** The accumulator gain is the exact scaled gain rounded down. */
  lemma AccrualPerTokenBounds(rate: nat, elapsed: nat)
    ensures AccrualPerToken(rate, elapsed) * RATE_SCALE <= PRECISION * (rate * elapsed)
    ensures PRECISION * (rate * elapsed) < (AccrualPerToken(rate, elapsed) + 1) * RATE_SCALE
  {
    DivBounds(rate * elapsed * PRECISION, RATE_SCALE);
  }

  /**
   * Splitting an accrual interval at a checkpoint loses at most one unit of
   * accumulator: `floor(x) + floor(y)` is `floor(x + y)` or one less.
   */
  lemma AccrualSplit(rate: nat, d1: nat, d2: nat)
    ensures AccrualPerToken(rate, d1) + AccrualPerToken(rate, d2) <= AccrualPerToken(rate, d1 + d2)
    ensures AccrualPerToken(rate, d1 + d2) <= AccrualPerToken(rate, d1) + AccrualPerToken(rate, d2) + 1
  {
    var g1, g2, g := AccrualPerToken(rate, d1), AccrualPerToken(rate, d2), AccrualPerToken(rate, d1 + d2);
    AccrualPerTokenBounds(rate, d1);
    AccrualPerTokenBounds(rate, d2);
    AccrualPerTokenBounds(rate, d1 + d2);
    assert rate * (d1 + d2) == rate * d1 + rate * d2;
    assert (g1 + g2) * RATE_SCALE <= PRECISION * (rate * (d1 + d2));
    assert PRECISION * (rate * (d1 + d2)) < (g1 + g2 + 2) * RATE_SCALE;
    MulCancelLt(g1 + g2, g + 1, RATE_SCALE);
    MulCancelLt(g, g1 + g2 + 2, RATE_SCALE);
  }

  /** The payout from a gain is monotone in the gain, and one unit less gain costs at most `amount / PRECISION + 1`. */
  lemma RewardFromGrowthStep(amount: nat, g: nat, g': nat)
    requires g <= g' <= g + 1
    ensures RewardFromGrowth(amount, g) <= RewardFromGrowth(amount, g')
    ensures RewardFromGrowth(amount, g') <= RewardFromGrowth(amount, g) + amount / PRECISION + 1
  {
    MulLeftMono(g, g', amount);
    assert amount * g <= amount * g';
    DivMono(amount * g, amount * g', PRECISION);
    assert amount * g' <= amount * g + amount;
    var q, qa := amount * g / PRECISION, amount / PRECISION;
    DivBounds(amount * g, PRECISION);
    DivBounds(amount, PRECISION);
    assert amount * g + amount < (q + qa + 2) * PRECISION;
    DivMono(amount * g', amount * g + amount, PRECISION);
    DivBelow(amount * g + amount, PRECISION, q + qa + 1);
  }

  // ---------------------------------------------------------------------
  // Accrual over a sequence of constant-rate periods

  /** An interval during which the rate did not change. */
  datatype Period = Period(rate: nat, duration: nat)

  /** Total accumulator gain over the periods (one checkpoint between consecutive periods). */
  function Growth(ps: seq<Period>): nat
  {
    if ps == [] then 0 else AccrualPerToken(ps[0].rate, ps[0].duration) + Growth(ps[1..])
  }

  /** Exposure in percent-seconds: the sum of `rate * duration`. */
  function RateTime(ps: seq<Period>): nat
  {
    if ps == [] then 0 else ps[0].rate * ps[0].duration + RateTime(ps[1..])
  }

  /** The reference reward summed per period, as the rate-change test sums it. */
  function Interest(amount: nat, ps: seq<Period>): nat
  {
    if ps == [] then 0 else ExpectedRewards(amount, ps[0].duration, ps[0].rate) + Interest(amount, ps[1..])
  }

  lemma {:induction false} GrowthBounds(ps: seq<Period>)
    ensures Growth(ps) * RATE_SCALE <= PRECISION * RateTime(ps)
    ensures PRECISION * RateTime(ps) + |ps| <= (Growth(ps) + |ps|) * RATE_SCALE
  {
    if ps != [] {
      var p, rest := ps[0], ps[1..];
      GrowthBounds(rest);
      AccrualPerTokenBounds(p.rate, p.duration);
      assert RateTime(ps) == p.rate * p.duration + RateTime(rest);
      MulAddAssoc(PRECISION, p.rate, p.duration, RateTime(rest));
      ScaledSumBounds(AccrualPerToken(p.rate, p.duration), PRECISION * (p.rate * p.duration),
                      Growth(rest), PRECISION * RateTime(rest), |rest|, RATE_SCALE);
    }
  }

  /** The summed reference is the exact interest rounded down period by period. */
  lemma {:induction false} InterestBounds(amount: nat, ps: seq<Period>)
    ensures Interest(amount, ps) * RATE_SCALE <= amount * RateTime(ps)
    ensures amount * RateTime(ps) + |ps| <= (Interest(amount, ps) + |ps|) * RATE_SCALE
  {
    if ps != [] {
      var p, rest := ps[0], ps[1..];
      InterestBounds(amount, rest);
      ExpectedRewardsBounds(amount, p.duration, p.rate);
      var x := p.rate * p.duration;
      assert RateTime(ps) == x + RateTime(rest);
      MulAddAssoc(amount, p.rate, p.duration, RateTime(rest));
      ScaledSumBounds(ExpectedRewards(amount, p.duration, p.rate), amount * p.rate * p.duration,
                      Interest(amount, rest), amount * RateTime(rest), |rest|, RATE_SCALE);
    }
  }

  lemma MulAddAssoc(a: nat, b: nat, c: nat, d: nat)
    ensures a * (b * c + d) == a * b * c + a * d
    ensures a * (b * c) == a * b * c
  {
  }

  /** Adding one floored term to a sum of `k` floored terms adds one unit of slack. */
  lemma ScaledSumBounds(e: nat, x: nat, i: nat, y: nat, k: nat, s: nat)
    requires e * s <= x < (e + 1) * s
    requires i * s <= y && y + k <= (i + k) * s
    ensures (e + i) * s <= x + y
    ensures x + y + k + 1 <= (e + i + k + 1) * s
  {
    assert (e + i) * s == e * s + i * s;
    assert (e + i + k + 1) * s == (e + 1) * s + (i + k) * s;
  }

  /** Rounding the payout down keeps it within the exact interest. */
  lemma TruncationUpper(amount: nat, g: nat, rt: nat)
    requires g * RATE_SCALE <= PRECISION * rt
    ensures RewardFromGrowth(amount, g) * RATE_SCALE <= amount * rt
  {
    var r := RewardFromGrowth(amount, g);
    DivBounds(amount * g, PRECISION);
    MulLeftMono(r * PRECISION, amount * g, RATE_SCALE);
    MulLeftMono(g * RATE_SCALE, PRECISION * rt, amount);
    assert r * RATE_SCALE * PRECISION <= amount * rt * PRECISION;
    MulCancelLe(r * RATE_SCALE, amount * rt, PRECISION);
  }

  /** The payout falls short of any lower estimate `i` of the exact interest by the truncation slack only. */
  lemma TruncationLower(amount: nat, g: nat, rt: nat, i: nat, k: nat)
    requires PRECISION * rt <= (g + k) * RATE_SCALE
    requires i * RATE_SCALE <= amount * rt
    ensures i <= RewardFromGrowth(amount, g) + 1 + k * amount / PRECISION
  {
    var r := RewardFromGrowth(amount, g);
    DivBounds(amount * g, PRECISION);
    MulLeftMono(PRECISION * rt, (g + k) * RATE_SCALE, amount);
    MulStrictMono(amount * g, (r + 1) * PRECISION, RATE_SCALE);
    assert amount * (PRECISION * rt) < (r + 1) * PRECISION * RATE_SCALE + k * amount * RATE_SCALE;
    MulLeftMono(i * RATE_SCALE, amount * rt, PRECISION);
    assert i * PRECISION * RATE_SCALE < ((r + 1) * PRECISION + k * amount) * RATE_SCALE;
    MulCancelLt(i * PRECISION, (r + 1) * PRECISION + k * amount, RATE_SCALE);
    var q := k * amount / PRECISION;
    DivBounds(k * amount, PRECISION);
    assert i * PRECISION < (r + 1 + q + 1) * PRECISION;
    MulCancelLt(i, r + q + 2, PRECISION);
  }

  /**
   * What the accumulator pays a constant stake over the periods never exceeds
   * the exact linear interest, is below the summed reference plus one unit per
   * period, and falls short of the summed reference by at most
   * `1 + |ps| * amount / PRECISION`.
   */
  lemma AccrualWithinTruncation(amount: nat, ps: seq<Period>)
    ensures RewardFromGrowth(amount, Growth(ps)) * RATE_SCALE <= amount * RateTime(ps)
    ensures ps == [] ==> RewardFromGrowth(amount, Growth(ps)) == 0
    ensures ps != [] ==> RewardFromGrowth(amount, Growth(ps)) < Interest(amount, ps) + |ps|
    ensures Interest(amount, ps) <= RewardFromGrowth(amount, Growth(ps)) + 1 + |ps| * amount / PRECISION
  {
    var g, rt, i, k := Growth(ps), RateTime(ps), Interest(amount, ps), |ps|;
    var r := RewardFromGrowth(amount, g);
    GrowthBounds(ps);
    InterestBounds(amount, ps);
    TruncationUpper(amount, g, rt);
    if ps != [] {
      assert amount * rt < (i + k) * RATE_SCALE;
      MulCancelLt(r, i + k, RATE_SCALE);
    }
    TruncationLower(amount, g, rt, i, k);
  }

  lemma TwoPeriods(amount: nat, p: Period, q: Period)
    ensures Growth([p, q]) == AccrualPerToken(p.rate, p.duration) + AccrualPerToken(q.rate, q.duration)
    ensures Interest(amount, [p, q]) == ExpectedRewards(amount, p.duration, p.rate) + ExpectedRewards(amount, q.duration, q.rate)
    ensures RateTime([p, q]) == p.rate * p.duration + q.rate * q.duration
  {
    assert [p, q][1..] == [q] && [q][1..] == [];
    assert Growth([q]) == AccrualPerToken(q.rate, q.duration);
    assert Interest(amount, [q]) == ExpectedRewards(amount, q.duration, q.rate);
    assert RateTime([q]) == q.rate * q.duration;
  }

  /**
   * Two consecutive periods at the same rate (a checkpoint in between, as when
   * another participant acts) pay at most the reference reward for the whole
   * span, and at most `1 + 2 * amount / PRECISION` less.
   */
  lemma CheckpointedSpanWithinTruncation(amount: nat, rate: nat, d1: nat, d2: nat)
    ensures RewardFromGrowth(amount, Growth([Period(rate, d1), Period(rate, d2)])) <= ExpectedRewards(amount, d1 + d2, rate)
    ensures ExpectedRewards(amount, d1 + d2, rate)
            <= RewardFromGrowth(amount, Growth([Period(rate, d1), Period(rate, d2)])) + 1 + 2 * amount / PRECISION
  {
    var ps := [Period(rate, d1), Period(rate, d2)];
    var e := ExpectedRewards(amount, d1 + d2, rate);
    TwoPeriods(amount, ps[0], ps[1]);
    GrowthBounds(ps);
    assert RateTime(ps) == rate * (d1 + d2);
    ExpectedRewardsBounds(amount, d1 + d2, rate);
    assert amount * rate * (d1 + d2) == amount * RateTime(ps);
    TruncationUpper(amount, Growth(ps), RateTime(ps));
    MulCancelLt(RewardFromGrowth(amount, Growth(ps)), e + 1, RATE_SCALE);
    TruncationLower(amount, Growth(ps), RateTime(ps), e, 2);
  }
}
