/** The emission schedule: forty coins a block, cut to four fifths every half million blocks, each
    cut rounded down to whole atoms. */
module Emission {
  import opened Types

  const ATOMS_PER_OUR := 100_000_000
  const MAX_SUPPLY_ATOMS := 100_000_000 * ATOMS_PER_OUR
  const INITIAL_REWARD_ATOMS := 40 * ATOMS_PER_OUR
  // The reward interval (500_000 blocks) and the ratio 4/5 are written as literals below, which
  // keeps the verifier's arithmetic linear.

  /** The reward of an era: an iterated floor, not one floor of a power. */
  function EraReward(era: nat): (reward: nat)
    ensures reward <= INITIAL_REWARD_ATOMS
  {
    if era == 0 then INITIAL_REWARD_ATOMS
    else EraReward(era - 1) * 4 / 5
  }

  /** The scheduled subsidy of a height, before the supply cap. */
  function Scheduled(height: nat): nat {
    if height == 0 then 0 else EraReward(height / 500_000)
  }

  /** Everything the schedule has issued up to and including a height. */
  function Issued(height: nat): nat {
    if height == 0 then 0 else Issued(height - 1) + Scheduled(height)
  }

  predicate SupplyInRange(supply: int) {
    0 <= supply <= MAX_SUPPLY_ATOMS
  }

  /** The subsidy of a block on top of a branch that has issued `supply` atoms. */
  function BlockSubsidy(height: int, supply: int): Result<int> {
    if !InU64(height) then Err(HeightOutOfRange)
    else if !SupplyInRange(supply) then Err(SupplyOutOfRange)
    else if height == 0 || supply == MAX_SUPPLY_ATOMS then Ok(0)
    else Ok(Min(Scheduled(height), MAX_SUPPLY_ATOMS - supply))
  }

  function Min(a: int, b: int): int {
    if a < b then a else b
  }

  lemma {:induction false} ZeroRewardStays(era: nat, later: nat)
    requires era <= later && EraReward(era) == 0
    ensures EraReward(later) == 0
    decreases later
  {
    if era < later {
      ZeroRewardStays(era, later - 1);
    }
  }

  /** The decay loop of the node, which also stops as soon as the reward has reached zero. */
  method ComputeBlockSubsidy(height: int, supply: int) returns (r: Result<int>)
    ensures r == BlockSubsidy(height, supply)
  {
    if !InU64(height) { return Err(HeightOutOfRange); }
    if !SupplyInRange(supply) { return Err(SupplyOutOfRange); }
    if height == 0 || supply == MAX_SUPPLY_ATOMS { return Ok(0); }
    var era := height / 500_000;
    var reward: nat := INITIAL_REWARD_ATOMS;
    var elapsed: nat := 0;
    while elapsed < era && reward > 0
      invariant elapsed <= era
      invariant reward == EraReward(elapsed)
    {
      reward := reward * 4 / 5;
      elapsed := elapsed + 1;
    }
    if reward == 0 {
      ZeroRewardStays(elapsed, era);
    }
    r := Ok(Min(reward, MAX_SUPPLY_ATOMS - supply));
  }

  // ---------------------------------------------------------------------------------------------
  // The supply bound
  // ---------------------------------------------------------------------------------------------

  /** One block's reward in every era before `era`. */
  function EraSum(era: nat): nat {
    if era == 0 then 0 else EraSum(era - 1) + EraReward(era - 1)
  }

  /** The geometric series over integers: what has been paid plus five times what is paid now
      never exceeds five times the first reward. */
  lemma {:induction false} GeometricBound(era: nat)
    ensures EraSum(era) + 5 * EraReward(era) <= 5 * INITIAL_REWARD_ATOMS
  {
    if era > 0 {
      GeometricBound(era - 1);
    }
  }

  lemma OneMore(k: nat, reward: nat)
    ensures (k + 1) * reward == k * reward + reward
  {
  }

  lemma AtMostAnInterval(k: nat, reward: nat)
    requires k <= 500_000
    ensures k * reward <= 500_000 * reward
  {
  }

  lemma ScheduledInEra(era: nat, k: nat)
    requires k < 500_000 && 0 < 500_000 * era + k
    ensures Scheduled(500_000 * era + k) == EraReward(era)
  {
    assert (500_000 * era + k) / 500_000 == era;
  }

  /** Issuance in closed form, `k` blocks into an era; the missing reward is the one genesis
      does not pay. */
  lemma {:induction false} IssuedInClosedForm(era: nat, k: nat)
    requires k < 500_000
    ensures Issued(500_000 * era + k)
         == 500_000 * EraSum(era) + (k + 1) * EraReward(era) - INITIAL_REWARD_ATOMS
    decreases era, k
  {
    if k > 0 {
      IssuedInClosedForm(era, k - 1);
      OneMore(k, EraReward(era));
      ScheduledInEra(era, k);
    } else if era > 0 {
      IssuedInClosedForm(era - 1, 500_000 - 1);
      ScheduledInEra(era, k);
      assert 500_000 * era - 1 == 500_000 * (era - 1) + 499_999;
    }
  }

  /** However long the chain grows, issuance stays strictly below the maximum supply. */
  lemma IssuedStaysBelowMaximum(height: nat)
    ensures Issued(height) < MAX_SUPPLY_ATOMS
  {
    var era, k := height / 500_000, height % 500_000;
    IssuedInClosedForm(era, k);
    GeometricBound(era);
    AtMostAnInterval(k + 1, EraReward(era));
    assert height == 500_000 * era + k;
  }

  /** So the cap never binds on a branch that follows the schedule. */
  lemma CapNeverBinds(height: nat)
    requires 0 < height <= U64_MAX
    ensures BlockSubsidy(height, Issued(height - 1)) == Ok(Scheduled(height))
  {
    IssuedStaysBelowMaximum(height - 1);
    IssuedStaysBelowMaximum(height);
  }

  /** The reward with no rounding at all. */
  function ExactReward(era: nat): real {
    if era == 0 then INITIAL_REWARD_ATOMS as real else ExactReward(era - 1) * 4.0 / 5.0
  }

  /** Rounding down once per era never loses four atoms. */
  lemma {:induction false} RoundingLosesLessThanFourAtoms(era: nat)
    ensures EraReward(era) as real <= ExactReward(era) < EraReward(era) as real + 4.0
  {
    if era > 0 {
      RoundingLosesLessThanFourAtoms(era - 1);
      var r := EraReward(era - 1);
      assert 5 * EraReward(era) <= 4 * r <= 5 * EraReward(era) + 4;
      assert 5.0 * EraReward(era) as real <= 4.0 * r as real <= 5.0 * EraReward(era) as real + 4.0;
    }
  }
}
