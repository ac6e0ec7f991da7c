/**
 * Gas estimation for single operations and batches. Quantities are `u64` and checked: an addition or a
 * multiplication that leaves the range aborts. Percentages are exact rationals, cut down to whole gas.
 */
module GasLimits {
  import opened Foundations

  datatype GasLimitConfig = GasLimitConfig(
    simpleOperationLimit: nat,
    complexOperationLimit: nat,
    batchOperationLimit: nat,
    safetyMarginPercentage: real)

  datatype Complexity = Simple | Complex | Batch

  datatype GasRiskLevel = Low | Medium | High | Critical

  datatype GasFactor = GasFactor(name: string, gasPerUnit: nat, maxUnits: Option<nat>)

  datatype GasProfile = GasProfile(baseGasCost: nat, factors: seq<GasFactor>, complexity: Complexity)

  datatype GasEstimation = GasEstimation(
    estimatedGas: nat,
    complexity: Complexity,
    recommendedLimit: nat,
    safetyMargin: nat,
    riskLevel: GasRiskLevel)

  datatype GasError = UnknownOperation | Overflow

  const ESCROW_RELEASE_PROFILE :=
    GasProfile(50_000, [GasFactor("recipients", 10_000, Some(100)), GasFactor("amount_transfers", 5_000, None)], Complex)

  const REWARD_DISTRIBUTION_PROFILE :=
    GasProfile(75_000,
               [GasFactor("researchers", 15_000, Some(500)), GasFactor("reward_calculations", 2_000, None),
                GasFactor("severity_checks", 1_000, None)], Complex)

  const EMERGENCY_PROFILE :=
    GasProfile(100_000,
               [GasFactor("emergency_claims", 20_000, Some(1000)), GasFactor("priority_calculations", 5_000, None),
                GasFactor("bypass_checks", 3_000, None)], Complex)

  const DEFAULT_PROFILES: map<string, GasProfile> :=
    map["escrow_release" := ESCROW_RELEASE_PROFILE,
        "reward_distribution" := REWARD_DISTRIBUTION_PROFILE,
        "emergency_reward_distribution" := EMERGENCY_PROFILE]

  /** A non-negative or negative real cast to `u64`, which saturates. */
  function CastToU64(x: real): nat {
    if x < 0.0 then 0
    else if x.Floor > U64_MAX then U64_MAX
    else x.Floor
  }

  function Percent(amount: nat, percentage: real): nat {
    CastToU64(amount as real * percentage / 100.0)
  }

  /** Usage bands at 60, 80 and 95 percent; a limit of zero is infinite or undefined usage. */
  function RiskOf(estimatedGas: nat, limit: nat): GasRiskLevel {
    if limit == 0 then (if estimatedGas > 0 then Critical else Low)
    else if 100 * estimatedGas >= 95 * limit then Critical
    else if 100 * estimatedGas >= 80 * limit then High
    else if 100 * estimatedGas >= 60 * limit then Medium
    else Low
  }

  /** A limit of zero means infinite usage, which is critical, or no number at all, which falls into no band. */
  lemma ZeroLimitRisk(estimatedGas: nat)
    ensures RiskOf(estimatedGas, 0) == match estimatedGas case 0 => Low case _ => Critical
  {
  }

  /** The bands of usage in percent. */
  lemma RiskBands(estimatedGas: nat, limit: nat)
    requires limit > 0
    ensures var usage := estimatedGas as real / limit as real * 100.0;
            RiskOf(estimatedGas, limit) == if usage >= 95.0 then Critical
                                           else if usage >= 80.0 then High
                                           else if usage >= 60.0 then Medium else Low
  {
    UsageAtLeast(estimatedGas, limit, 95);
    UsageAtLeast(estimatedGas, limit, 80);
    UsageAtLeast(estimatedGas, limit, 60);
  }

  lemma UsageAtLeast(estimatedGas: nat, limit: nat, percent: nat)
    requires limit > 0
    ensures estimatedGas as real / limit as real * 100.0 >= percent as real <==> 100 * estimatedGas >= percent * limit
  {
    var u, l, p := estimatedGas as real / limit as real * 100.0, limit as real, percent as real;
    UsageTimesLimit(estimatedGas as real, l);
    CancelLimit(u, p, l);
    var left, right := 100 * estimatedGas, percent * limit;
    assert left as real == 100.0 * estimatedGas as real;
    WholeProduct(percent, limit);
    assert u * l == left as real && p * l == right as real;
  }

  lemma WholeProduct(a: nat, b: nat)
    ensures (a * b) as real == a as real * b as real
  {
  }

  lemma UsageTimesLimit(g: real, l: real)
    requires l > 0.0
    ensures (g / l * 100.0) * l == 100.0 * g
  {
    var q := g / l;
    assert q * l == g;
    assert (q * 100.0) * l == 100.0 * (q * l);
  }

  lemma CancelLimit(u: real, p: real, l: real)
    requires l > 0.0
    ensures u >= p <==> u * l >= p * l
  {
    if u >= p {
      RealProductMonotone(p, u, l);
    } else {
      RealProductIncreases(u, p, l);
    }
  }

  lemma RealProductIncreases(a: real, b: real, c: real)
    requires a < b && c > 0.0
    ensures a * c < b * c
  {
    assert (b - a) * c > 0.0;
  }

  lemma RealProductMonotone(a: real, b: real, c: real)
    requires a <= b && c >= 0.0
    ensures a * c <= b * c
  {
    assert (b - a) * c >= 0.0;
  }

  /** Percentages are cut down to whole gas and saturate: a negative one is nothing. */
  lemma PercentMeans(amount: nat, percentage: real, gas: nat)
    ensures percentage < 0.0 && amount > 0 ==> Percent(amount, percentage) == 0
    ensures gas <= U64_MAX && gas as real <= amount as real * percentage / 100.0 < gas as real + 1.0 ==> Percent(amount, percentage) == gas
    ensures amount as real * percentage / 100.0 >= U64_MAX as real ==> Percent(amount, percentage) == U64_MAX
  {
    var x := amount as real * percentage / 100.0;
    if percentage < 0.0 && amount > 0 {
      assert amount as real * percentage < 0.0;
    }
  }

  // ---------------------------------------------------------------- one operation

  function UnitsCharged(f: GasFactor, parameters: map<string, nat>): nat {
    if f.name !in parameters then 0
    else if f.maxUnits.Some? then Min(parameters[f.name], f.maxUnits.value)
    else parameters[f.name]
  }

  ghost function VariableGas(factors: seq<GasFactor>, parameters: map<string, nat>): nat {
    if factors == [] then 0
    else
      var f := factors[|factors| - 1];
      VariableGas(factors[..|factors| - 1], parameters) + UnitsCharged(f, parameters) * f.gasPerUnit
  }

  /** What the operation costs in unbounded arithmetic. */
  ghost function TrueGas(profile: GasProfile, parameters: map<string, nat>): nat {
    profile.baseGasCost + VariableGas(profile.factors, parameters)
  }

  lemma {:induction false} VariableGasGrows(factors: seq<GasFactor>, parameters: map<string, nat>, n: nat)
    requires n <= |factors|
    ensures VariableGas(factors[..n], parameters) <= VariableGas(factors, parameters)
  {
    if n < |factors| {
      assert factors[..|factors| - 1][..n] == factors[..n];
      VariableGasGrows(factors[..|factors| - 1], parameters, n);
    } else {
      assert factors[..n] == factors;
    }
  }

  /** Raising parameters never lowers the estimate, and capped factors stop growing at their cap. */
  lemma {:induction false} VariableGasMonotone(factors: seq<GasFactor>, p: map<string, nat>, q: map<string, nat>)
    requires forall k :: k in p ==> k in q && p[k] <= q[k]
    ensures VariableGas(factors, p) <= VariableGas(factors, q)
    ensures (forall f :: f in factors ==> f.maxUnits.Some? && f.name in p && f.maxUnits.value <= p[f.name]) ==>
              VariableGas(factors, p) == VariableGas(factors, q)
  {
    if factors != [] {
      var n := |factors| - 1;
      var f := factors[n];
      VariableGasMonotone(factors[..n], p, q);
      assert f in factors && forall g :: g in factors[..n] ==> g in factors;
      ProductMonotone(UnitsCharged(f, p), UnitsCharged(f, q), f.gasPerUnit);
    }
  }

  lemma ProductMonotone(a: nat, b: nat, c: nat)
    requires a <= b
    ensures a * c <= b * c
  {
    assert (b - a) * c >= 0;
  }

  /** What a parameter costs: so much a unit, up to so many units; nothing if it is not given. */
  function Charge(parameters: map<string, nat>, name: string, gasPerUnit: nat, cap: nat): nat {
    if name in parameters then gasPerUnit * (if parameters[name] <= cap then parameters[name] else cap) else 0
  }

  function UncappedCharge(parameters: map<string, nat>, name: string, gasPerUnit: nat): nat {
    if name in parameters then gasPerUnit * parameters[name] else 0
  }

  /** The costs of the three default operations, for all parameters. */
  lemma DefaultCosts(p: map<string, nat>)
    ensures TrueGas(DEFAULT_PROFILES["escrow_release"], p) ==
            50_000 + Charge(p, "recipients", 10_000, 100) + UncappedCharge(p, "amount_transfers", 5_000)
    ensures TrueGas(DEFAULT_PROFILES["reward_distribution"], p) ==
            75_000 + Charge(p, "researchers", 15_000, 500) + UncappedCharge(p, "reward_calculations", 2_000)
            + UncappedCharge(p, "severity_checks", 1_000)
    ensures TrueGas(DEFAULT_PROFILES["emergency_reward_distribution"], p) ==
            100_000 + Charge(p, "emergency_claims", 20_000, 1000) + UncappedCharge(p, "priority_calculations", 5_000)
            + UncappedCharge(p, "bypass_checks", 3_000)
    ensures DEFAULT_PROFILES.Keys == {"escrow_release", "reward_distribution", "emergency_reward_distribution"}
    ensures forall name :: name in DEFAULT_PROFILES ==> DEFAULT_PROFILES[name].complexity == Complex
  {
    var e, r, m := ESCROW_RELEASE_PROFILE, REWARD_DISTRIBUTION_PROFILE, EMERGENCY_PROFILE;
    TwoFactors(e.factors, p);
    GasOfThree(r.factors, p);
    GasOfThree(m.factors, p);
  }

  lemma TwoFactors(f: seq<GasFactor>, p: map<string, nat>)
    requires |f| == 2
    ensures VariableGas(f, p) == UnitsCharged(f[0], p) * f[0].gasPerUnit + UnitsCharged(f[1], p) * f[1].gasPerUnit
  {
    assert f[..1][..0] == [];
    assert VariableGas(f[..1], p) == UnitsCharged(f[0], p) * f[0].gasPerUnit;
  }

  lemma GasOfThree(f: seq<GasFactor>, p: map<string, nat>)
    requires |f| == 3
    ensures VariableGas(f, p) == UnitsCharged(f[0], p) * f[0].gasPerUnit + UnitsCharged(f[1], p) * f[1].gasPerUnit
                                 + UnitsCharged(f[2], p) * f[2].gasPerUnit
  {
    TwoFactors(f[..2], p);
  }

  class GasLimitManager {
    const config: GasLimitConfig
    var operationProfiles: map<string, GasProfile>

    constructor (config: GasLimitConfig)
      ensures this.config == config && operationProfiles == DEFAULT_PROFILES
    {
      this.config := config;
      operationProfiles := DEFAULT_PROFILES;
    }

    /** Base cost plus charged units, or an overflow exactly when the sum or the limit with its margin leaves the range. */
    method EstimateGas(operation: string, parameters: map<string, nat>) returns (r: Result<GasEstimation, GasError>)
      ensures operation !in operationProfiles <==> r == Err(UnknownOperation)
      ensures operation in operationProfiles ==>
                var profile := operationProfiles[operation];
                var gas := TrueGas(profile, parameters);
                var margin := Percent(gas, config.safetyMarginPercentage);
                var base := match profile.complexity
                            case Simple => config.simpleOperationLimit
                            case Complex => config.complexOperationLimit
                            case Batch => config.batchOperationLimit;
                r == if gas > U64_MAX || gas + margin > U64_MAX then Err(Overflow)
                     else Ok(GasEstimation(gas, profile.complexity, Min(gas + margin, base), margin,
                                           RiskOf(gas, Min(gas + margin, base))))
    {
      if operation !in operationProfiles {
        return Err(UnknownOperation);
      }
      var profile := operationProfiles[operation];
      var estimatedGas := profile.baseGasCost;
      if estimatedGas > U64_MAX {
        return Err(Overflow);
      }
      for i := 0 to |profile.factors|
        invariant estimatedGas == profile.baseGasCost + VariableGas(profile.factors[..i], parameters)
        invariant estimatedGas <= U64_MAX
      {
        var factor := profile.factors[i];
        assert profile.factors[..i + 1][..i] == profile.factors[..i];
        VariableGasGrows(profile.factors, parameters, i + 1);
        if factor.name in parameters {
          var value := parameters[factor.name];
          var units := if factor.maxUnits.Some? then Min(value, factor.maxUnits.value) else value;
          if units * factor.gasPerUnit > U64_MAX {
            return Err(Overflow);
          }
          if estimatedGas + units * factor.gasPerUnit > U64_MAX {
            return Err(Overflow);
          }
          estimatedGas := estimatedGas + units * factor.gasPerUnit;
        }
      }
      assert profile.factors[..|profile.factors|] == profile.factors;
      var baseLimit := match profile.complexity
                       case Simple => config.simpleOperationLimit
                       case Complex => config.complexOperationLimit
                       case Batch => config.batchOperationLimit;
      var safetyMargin := Percent(estimatedGas, config.safetyMarginPercentage);
      if estimatedGas + safetyMargin > U64_MAX {
        return Err(Overflow);
      }
      var recommended := estimatedGas + safetyMargin;
      var finalLimit := if recommended > baseLimit then baseLimit else recommended;
      r := Ok(GasEstimation(estimatedGas, profile.complexity, finalLimit, safetyMargin, RiskOf(estimatedGas, finalLimit)));
    }
  }

  // ---------------------------------------------------------------- batches

  const BATCH_OVERHEAD: nat := 10_000
  const PER_ITEM_OVERHEAD: nat := 2_000

  datatype ItemKind = EscrowItem | VerificationItem

  datatype ItemGasEstimate = ItemGasEstimate(itemIndex: nat, kind: ItemKind, estimatedGas: nat, baseCost: nat, variableCost: nat)

  datatype BatchGasEstimate = BatchGasEstimate(
    totalItems: nat,
    escrowReleases: nat,
    verifications: nat,
    itemEstimates: seq<ItemGasEstimate>,
    totalEstimatedGas: nat,
    recommendedLimit: nat,
    safetyMargin: nat,
    exceedsThreshold: bool,
    riskLevel: GasRiskLevel,
    suggestedSplits: nat,
    estimatedGasPerSplit: nat)

  ghost function ItemGas(items: seq<ItemGasEstimate>): nat {
    if items == [] then 0 else ItemGas(items[..|items| - 1]) + items[|items| - 1].estimatedGas
  }

  lemma {:induction false} ItemGasGrows(items: seq<ItemGasEstimate>, n: nat)
    requires n <= |items|
    ensures ItemGas(items[..n]) <= ItemGas(items)
  {
    if n < |items| {
      assert items[..|items| - 1][..n] == items[..n];
      ItemGasGrows(items[..|items| - 1], n);
    } else {
      assert items[..n] == items;
    }
  }

  lemma {:induction false} ItemGasUniform(items: seq<ItemGasEstimate>, gas: nat)
    requires forall i :: 0 <= i < |items| ==> items[i].estimatedGas == gas
    ensures ItemGas(items) == gas * |items|
  {
    if items != [] {
      var n := |items| - 1;
      ItemGasUniform(items[..n], gas);
      assert gas * |items| == gas * n + gas;
    }
  }

  lemma {:induction false} ItemGasConcat(a: seq<ItemGasEstimate>, b: seq<ItemGasEstimate>)
    ensures ItemGas(a + b) == ItemGas(a) + ItemGas(b)
  {
    if b == [] {
      assert a + b == a;
    } else {
      var n := |b| - 1;
      assert (a + b)[..|a + b| - 1] == a + b[..n];
      ItemGasConcat(a, b[..n]);
    }
  }

  /** Items that fit into one split at the average cost per item. */
  function MaxItemsPerSplit(total: nat, items: nat, threshold: nat): nat {
    threshold / Max(total / Max(items, 1), 1)
  }

  /** The rounding term of the split count does not underflow. */
  predicate CanRound(total: nat, items: nat, threshold: nat) {
    items + MaxItemsPerSplit(total, items, threshold) >= 1
  }

  function SuggestedSplits(total: nat, items: nat, threshold: nat): (r: nat)
    requires CanRound(total, items, threshold)
    ensures r >= 1
  {
    var perSplit := MaxItemsPerSplit(total, items, threshold);
    Max((items + perSplit - 1) / Max(perSplit, 1), 1)
  }

  lemma CeilingDivision(items: nat, perSplit: nat)
    requires perSplit >= 1
    ensures ((items + perSplit - 1) / perSplit) * perSplit >= items
    ensures items >= 1 ==> (items + perSplit - 1) / perSplit >= 1
    ensures ((items + perSplit - 1) / perSplit - 1) * perSplit < items || items == 0
  {
    var q := (items + perSplit - 1) / perSplit;
    assert items + perSplit - 1 == q * perSplit + (items + perSplit - 1) % perSplit;
    assert (q - 1) * perSplit == q * perSplit - perSplit;
  }

  /**
   * When at least one item fits into a split, the suggested number of splits is the least that holds the batch,
   * and the gas advised per split stays below the threshold plus one gas for each item of a split.
   */
  lemma SplitAdviceBound(total: nat, items: nat, threshold: nat)
    requires items >= 1 && total >= items && MaxItemsPerSplit(total, items, threshold) >= 1
    ensures var perSplit, splits := MaxItemsPerSplit(total, items, threshold), SuggestedSplits(total, items, threshold);
            && splits * perSplit >= items
            && (splits - 1) * perSplit < items
            && total / splits < threshold + perSplit
  {
    var perItem := total / items;
    var perSplit := MaxItemsPerSplit(total, items, threshold);
    var splits := SuggestedSplits(total, items, threshold);
    CeilingDivision(items, perSplit);
    assert perItem >= 1;
    AverageBound(total, items, threshold, perItem, perSplit, splits);
  }

  lemma AverageBound(total: nat, items: nat, threshold: nat, perItem: nat, perSplit: nat, splits: nat)
    requires items >= 1 && perItem >= 1 && perSplit >= 1 && splits >= 1
    requires perItem == total / items && perSplit == threshold / perItem && splits * perSplit >= items
    ensures total / splits < threshold + perSplit
  {
    // total < (perItem + 1) * items <= (perItem + 1) * perSplit * splits
    assert total < (perItem + 1) * items by {
      assert total == perItem * items + total % items;
      assert (perItem + 1) * items == perItem * items + items;
    }
    var bound := (perItem + 1) * perSplit;
    assert bound == perItem * perSplit + perSplit;
    assert perItem * perSplit <= threshold by {
      assert threshold == perSplit * perItem + threshold % perItem;
      assert perSplit * perItem == perItem * perSplit;
    }
    assert (perItem + 1) * items <= bound * splits by {
      ProductMonotone(items, splits * perSplit, perItem + 1);
      assert (splits * perSplit) * (perItem + 1) == bound * splits by {
        ThreeFactors(splits, perSplit, perItem + 1);
      }
    }
    QuotientBelow(total, splits, bound);
  }

  lemma ThreeFactors(a: nat, b: nat, c: nat)
    ensures (a * b) * c == (c * b) * a
  {
    assert (a * b) * c == a * (b * c);
    assert b * c == c * b;
  }

  lemma QuotientBelow(total: nat, splits: nat, bound: nat)
    requires splits >= 1 && total < bound * splits
    ensures total / splits < bound
  {
    var q := total / splits;
    assert total == q * splits + total % splits;
    if q >= bound {
      ProductMonotone(bound, q, splits);
    }
  }

  /** Ten percent on top of an estimate of at least 10,000 always reads as between 80 and 95 percent usage. */
  lemma MarginMeansHighRisk(total: nat)
    requires 10_000 <= total <= U64_MAX
    ensures Percent(total, 10.0) == total / 10
    ensures RiskOf(total, total + Percent(total, 10.0)) == High
  {
    var tenth := total / 10;
    assert total as real * 10.0 / 100.0 == total as real / 10.0;
    assert tenth as real <= total as real / 10.0 < (tenth + 1) as real;
    assert (total as real / 10.0).Floor == tenth;
  }

  /** Everything a batch estimate says, for a batch whose arithmetic stays in range. */
  ghost predicate BatchEstimateOk(e: BatchGasEstimate, escrows: nat, verifications: nat, items: seq<ItemGasEstimate>, threshold: nat) {
    && e.escrowReleases == escrows && e.verifications == verifications && e.totalItems == escrows + verifications
    && e.itemEstimates == items
    && e.totalEstimatedGas == ItemGas(items) + BATCH_OVERHEAD + PER_ITEM_OVERHEAD * e.totalItems
    && e.safetyMargin == e.totalEstimatedGas / 10 && e.recommendedLimit == e.totalEstimatedGas + e.safetyMargin
    && (e.exceedsThreshold <==> e.recommendedLimit > threshold)
    && e.riskLevel == High
    && (!e.exceedsThreshold ==> e.suggestedSplits == 1 && e.estimatedGasPerSplit == e.totalEstimatedGas)
    && (e.exceedsThreshold ==>
          SoundSplits(e.suggestedSplits, e.estimatedGasPerSplit, e.totalEstimatedGas, e.totalItems, threshold))
  }

  /** The advice on splitting: least number of splits, bounded gas each; of no use when not one item fits. */
  ghost predicate SoundSplits(splits: nat, gasPerSplit: nat, total: nat, items: nat, threshold: nat) {
    var perSplit := MaxItemsPerSplit(total, items, threshold);
    && splits >= 1 && gasPerSplit == total / splits
    && (items >= 1 && perSplit >= 1 ==>
          splits * perSplit >= items && (splits - 1) * perSplit < items && gasPerSplit < threshold + perSplit)
    && (perSplit == 0 ==> splits == Max(items - 1, 1))
  }

  lemma SplitsAreSound(total: nat, items: nat, threshold: nat)
    requires total >= items && CanRound(total, items, threshold)
    ensures var splits := SuggestedSplits(total, items, threshold);
            SoundSplits(splits, total / splits, total, items, threshold)
  {
    var perSplit := MaxItemsPerSplit(total, items, threshold);
    if perSplit >= 1 {
      if items >= 1 {
        SplitAdviceBound(total, items, threshold);
      }
    } else {
      assert (items - 1) / 1 == items - 1;
    }
  }

  /** The advised splits have room for the whole batch exactly if at least one item fits into a split. */
  lemma AdviceCoversIff(total: nat, items: nat, threshold: nat)
    requires items >= 1 && total >= items
    ensures SuggestedSplits(total, items, threshold) * MaxItemsPerSplit(total, items, threshold) >= items <==>
            MaxItemsPerSplit(total, items, threshold) >= 1
  {
    var perSplit, splits := MaxItemsPerSplit(total, items, threshold), SuggestedSplits(total, items, threshold);
    if perSplit >= 1 {
      SplitAdviceBound(total, items, threshold);
    } else {
      assert splits * perSplit == 0;
    }
  }

  /** Two releases under a threshold below the cost of one: the advice is one split, which holds none. */
  lemma AdviceMayNotCover()
    ensures var total, threshold := BatchTotal(2, 0), 50_000;
            SuggestedSplits(total, 2, threshold) == 1 && MaxItemsPerSplit(total, 2, threshold) == 0
  {
  }

  /** The advice is not to split exactly if the average says that the whole batch fits, margin or no margin. */
  lemma OneSplitIff(total: nat, items: nat, threshold: nat)
    requires items >= 1 && total >= items && MaxItemsPerSplit(total, items, threshold) >= 1
    ensures SuggestedSplits(total, items, threshold) == 1 <==> MaxItemsPerSplit(total, items, threshold) >= items
  {
    var perSplit, splits := MaxItemsPerSplit(total, items, threshold), SuggestedSplits(total, items, threshold);
    SplitAdviceBound(total, items, threshold);
    if splits >= 2 {
      ProductMonotone(1, splits - 1, perSplit);
    }
  }

  /**
   * A batch over the threshold because of its margin only is advised not to split, so the advice keeps the warning:
   * the threshold test includes the margin and the split count does not.
   */
  lemma MarginAloneSplitsNothing(total: nat, items: nat, threshold: nat)
    requires 1 <= items <= total <= threshold
    ensures MaxItemsPerSplit(total, items, threshold) >= items && SuggestedSplits(total, items, threshold) == 1
  {
    var perItem := total / items;
    assert perItem >= 1 && perItem * items <= total by {
      assert total == perItem * items + total % items;
    }
    FitsIn(items, perItem, threshold);
    OneSplitIff(total, items, threshold);
  }

  lemma FitsIn(items: nat, perItem: nat, threshold: nat)
    requires perItem >= 1 && perItem * items <= threshold
    ensures threshold / perItem >= items
  {
    var q := threshold / perItem;
    assert threshold == q * perItem + threshold % perItem;
    assert (q + 1) * perItem == q * perItem + perItem;
    SmallerFactor(items, q + 1, perItem);
  }

  lemma SmallerFactor(a: nat, b: nat, c: nat)
    requires c * a < b * c
    ensures a < b
  {
    if a >= b {
      ProductMonotone(b, a, c);
    }
  }

  /** Under the default limits 1300 releases exceed the threshold of 90,000,000, and the advice is one split. */
  lemma ExceedingBatchIsNotSplit()
    ensures var total, threshold := BatchTotal(1300, 0), Percent(100_000_000, 90.0);
            && total == 87_110_000 && threshold == 90_000_000 && total + total / 10 > threshold
            && 1300 + MaxItemsPerSplit(total, 1300, threshold) >= 1
            && SuggestedSplits(total, 1300, threshold) == 1
  {
    var total, threshold := BatchTotal(1300, 0), Percent(100_000_000, 90.0);
    assert 100_000_000 as real * 90.0 / 100.0 == 90_000_000.0;
    assert threshold == 90_000_000;
    MarginAloneSplitsNothing(total, 1300, threshold);
  }

  /** The recommended limit leaves the range, or the rounding term of the split count does. */
  predicate OutOfRange(total: nat, items: nat, threshold: nat) {
    || total + total / 10 > U64_MAX
    || (total + total / 10 > threshold && !(1 <= items + MaxItemsPerSplit(total, items, threshold) <= U64_MAX))
  }

  /** One item's estimate with the configured margin leaves the range. */
  predicate ItemOutOfRange(kind: ItemKind, marginPercentage: real) {
    var gas := if kind == EscrowItem then ESCROW_ITEM_GAS else VERIFICATION_ITEM_GAS;
    gas + Percent(gas, marginPercentage) > U64_MAX
  }

  function EscrowParameters(): map<string, nat> {
    map["recipients" := 1, "amount_transfers" := 1]
  }

  function VerificationParameters(): map<string, nat> {
    map["recipients" := 1, "amount_transfers" := 1, "reward_calculations" := 1, "severity_checks" := 1]
  }

  const ESCROW_ITEM_GAS: nat := 65_000
  const VERIFICATION_ITEM_GAS: nat := 78_000

  lemma ItemCosts()
    ensures TrueGas(ESCROW_RELEASE_PROFILE, EscrowParameters()) == ESCROW_ITEM_GAS
    ensures TrueGas(REWARD_DISTRIBUTION_PROFILE, VerificationParameters()) == VERIFICATION_ITEM_GAS
  {
    var escrow := ESCROW_RELEASE_PROFILE.factors;
    assert escrow[..1][..0] == [];
    assert VariableGas(escrow[..1], EscrowParameters()) == 10_000;
    var reward := REWARD_DISTRIBUTION_PROFILE.factors;
    assert reward[..2][..1] == reward[..1] && reward[..1][..0] == [];
    assert VariableGas(reward[..1], VerificationParameters()) == 0;
    assert VariableGas(reward[..2], VerificationParameters()) == 2_000;
  }

  /** The estimates of `count` items of one kind, indexed from `first`. */
  ghost predicate UniformItems(items: seq<ItemGasEstimate>, count: nat, first: nat, kind: ItemKind) {
    && |items| == count
    && forall i :: 0 <= i < count ==>
         items[i] == if kind == EscrowItem
                     then ItemGasEstimate(first + i, kind, ESCROW_ITEM_GAS, 50_000, 15_000)
                     else ItemGasEstimate(first + i, kind, VERIFICATION_ITEM_GAS, 75_000, 3_000)
  }

  /** The total of a batch of `e` releases and `v` verifications. */
  function BatchTotal(e: nat, v: nat): nat {
    BATCH_OVERHEAD + (ESCROW_ITEM_GAS + PER_ITEM_OVERHEAD) * e + (VERIFICATION_ITEM_GAS + PER_ITEM_OVERHEAD) * v
  }

  lemma BatchTotalOfItems(es: seq<ItemGasEstimate>, vs: seq<ItemGasEstimate>, e: nat, v: nat)
    requires UniformItems(es, e, 0, EscrowItem) && UniformItems(vs, v, e, VerificationItem)
    ensures ItemGas(es + vs) + BATCH_OVERHEAD + PER_ITEM_OVERHEAD * (e + v) == BatchTotal(e, v)
  {
    ItemGasConcat(es, vs);
    ItemGasUniform(es, ESCROW_ITEM_GAS);
    ItemGasUniform(vs, VERIFICATION_ITEM_GAS);
  }

  /** Batching a mixed load once instead of each kind by itself saves exactly one dispatch overhead. */
  lemma MixedBatchSavesOneOverhead(mixed: BatchGasEstimate, escrow: BatchGasEstimate, verification: BatchGasEstimate,
                                   e: nat, v: nat, threshold: nat)
    requires BatchEstimateOk(mixed, e, v, mixed.itemEstimates, threshold) && |mixed.itemEstimates| == e + v
    requires UniformItems(mixed.itemEstimates[..e], e, 0, EscrowItem)
    requires UniformItems(mixed.itemEstimates[e..], v, e, VerificationItem)
    requires BatchEstimateOk(escrow, e, 0, escrow.itemEstimates, threshold)
    requires UniformItems(escrow.itemEstimates, e, 0, EscrowItem)
    requires BatchEstimateOk(verification, 0, v, verification.itemEstimates, threshold)
    requires UniformItems(verification.itemEstimates, v, 0, VerificationItem)
    ensures mixed.totalEstimatedGas + BATCH_OVERHEAD == escrow.totalEstimatedGas + verification.totalEstimatedGas
  {
    hide ItemGas, UniformItems;
    BatchTotalOfItems(mixed.itemEstimates[..e], mixed.itemEstimates[e..], e, v);
    assert mixed.itemEstimates == mixed.itemEstimates[..e] + mixed.itemEstimates[e..];
    assert UniformItems([], 0, e, VerificationItem) && UniformItems([], 0, 0, EscrowItem) by {
      NoItems(e);
    }
    BatchTotalOfItems(escrow.itemEstimates, [], e, 0);
    assert escrow.itemEstimates + [] == escrow.itemEstimates;
    BatchTotalOfItems([], verification.itemEstimates, 0, v);
    assert [] + verification.itemEstimates == verification.itemEstimates;
  }

  lemma NoItems(first: nat)
    ensures UniformItems([], 0, first, VerificationItem) && UniformItems([], 0, 0, EscrowItem)
  {
  }

  class BatchGasEstimator {
    const manager: GasLimitManager
    const stellarTransactionMaxGas: nat
    const thresholdPercentage: real

    ghost predicate Valid()
      reads manager
    {
      manager.operationProfiles == DEFAULT_PROFILES
    }

    function Threshold(): nat {
      Percent(stellarTransactionMaxGas, thresholdPercentage)
    }

    constructor (config: GasLimitConfig, stellarMaxGas: nat, thresholdPct: real)
      ensures Valid() && fresh(manager) && manager.config == config
      ensures stellarTransactionMaxGas == stellarMaxGas && thresholdPercentage == thresholdPct
    {
      manager := new GasLimitManager(config);
      stellarTransactionMaxGas, thresholdPercentage := stellarMaxGas, thresholdPct;
    }

    /** One estimate after another; the limit's margin on a single item can leave the range already. */
    method EstimateItems(kind: ItemKind, count: nat, first: nat) returns (r: Result<seq<ItemGasEstimate>, GasError>)
      requires Valid()
      ensures r.Ok? ==> UniformItems(r.value, count, first, kind)
      ensures r.Err? <==> count > 0 && ItemOutOfRange(kind, manager.config.safetyMarginPercentage)
      ensures r.Err? ==> r.error == Overflow
    {
      ItemCosts();
      hide TrueGas, Percent;
      var items := [];
      for i := 0 to count
        invariant UniformItems(items, i, first, kind)
        invariant i > 0 ==> !ItemOutOfRange(kind, manager.config.safetyMarginPercentage)
      {
        var operation := if kind == EscrowItem then "escrow_release" else "reward_distribution";
        var parameters := if kind == EscrowItem then EscrowParameters() else VerificationParameters();
        assert manager.operationProfiles[operation] ==
               if kind == EscrowItem then ESCROW_RELEASE_PROFILE else REWARD_DISTRIBUTION_PROFILE;
        var estimation := manager.EstimateGas(operation, parameters);
        if estimation.Err? {
          return Err(estimation.error);
        }
        var gas := estimation.value.estimatedGas;
        var baseCost := if kind == EscrowItem then 50_000 else 75_000;
        items := items + [ItemGasEstimate(first + i, kind, gas, baseCost, gas - Min(baseCost, gas))];
      }
      r := Ok(items);
    }

    method EstimateEscrowReleaseBatch(count: nat) returns (r: Result<BatchGasEstimate, GasError>)
      requires Valid()
      ensures r.Ok? ==>
                && UniformItems(r.value.itemEstimates, count, 0, EscrowItem)
                && BatchEstimateOk(r.value, count, 0, r.value.itemEstimates, Threshold())
                && r.value.totalEstimatedGas == BatchTotal(count, 0)
      ensures r.Err? <==>
                || (count > 0 && ItemOutOfRange(EscrowItem, manager.config.safetyMarginPercentage))
                || OutOfRange(BatchTotal(count, 0), count, Threshold())
    {
      var items := EstimateItems(EscrowItem, count, 0);
      if items.Err? {
        return Err(items.error);
      }
      BatchTotalOfItems(items.value, [], count, 0);
      assert items.value + [] == items.value;
      r := BuildBatchEstimate(count, items.value, 0);
    }

    method EstimateVerificationBatch(count: nat) returns (r: Result<BatchGasEstimate, GasError>)
      requires Valid()
      ensures r.Ok? ==>
                && UniformItems(r.value.itemEstimates, count, 0, VerificationItem)
                && BatchEstimateOk(r.value, 0, count, r.value.itemEstimates, Threshold())
                && r.value.totalEstimatedGas == BatchTotal(0, count)
      ensures r.Err? <==>
                || (count > 0 && ItemOutOfRange(VerificationItem, manager.config.safetyMarginPercentage))
                || OutOfRange(BatchTotal(0, count), count, Threshold())
    {
      var items := EstimateItems(VerificationItem, count, 0);
      if items.Err? {
        return Err(items.error);
      }
      BatchTotalOfItems([], items.value, 0, count);
      assert [] + items.value == items.value;
      r := BuildBatchEstimate(0, items.value, count);
    }

    method EstimateMixedBatch(escrowCount: nat, verificationCount: nat) returns (r: Result<BatchGasEstimate, GasError>)
      requires Valid()
      ensures r.Ok? ==>
                && |r.value.itemEstimates| == escrowCount + verificationCount
                && UniformItems(r.value.itemEstimates[..escrowCount], escrowCount, 0, EscrowItem)
                && UniformItems(r.value.itemEstimates[escrowCount..], verificationCount, escrowCount, VerificationItem)
                && BatchEstimateOk(r.value, escrowCount, verificationCount, r.value.itemEstimates, Threshold())
                && r.value.totalEstimatedGas == BatchTotal(escrowCount, verificationCount)
      ensures r.Err? <==>
                || (escrowCount > 0 && ItemOutOfRange(EscrowItem, manager.config.safetyMarginPercentage))
                || (verificationCount > 0 && ItemOutOfRange(VerificationItem, manager.config.safetyMarginPercentage))
                || OutOfRange(BatchTotal(escrowCount, verificationCount), escrowCount + verificationCount, Threshold())
    {
      hide ItemGas, ItemOutOfRange, OutOfRange, SoundSplits, BatchTotal;
      var releases := EstimateItems(EscrowItem, escrowCount, 0);
      if releases.Err? {
        return Err(releases.error);
      }
      var checks := EstimateItems(VerificationItem, verificationCount, escrowCount);
      if checks.Err? {
        return Err(checks.error);
      }
      assert |releases.value| == escrowCount && |checks.value| == verificationCount;
      hide UniformItems;
      BatchTotalOfItems(releases.value, checks.value, escrowCount, verificationCount);
      var items := releases.value + checks.value;
      assert items[..escrowCount] == releases.value && items[escrowCount..] == checks.value;
      r := BuildBatchEstimate(escrowCount, items, verificationCount);
    }

    method SumItems(items: seq<ItemGasEstimate>) returns (r: Result<nat, GasError>)
      ensures r == if ItemGas(items) > U64_MAX then Err(Overflow) else Ok(ItemGas(items))
    {
      var total := 0;
      for i := 0 to |items|
        invariant total == ItemGas(items[..i]) <= U64_MAX
      {
        assert items[..i + 1][..i] == items[..i];
        ItemGasGrows(items, i + 1);
        if total + items[i].estimatedGas > U64_MAX {
          return Err(Overflow);
        }
        total := total + items[i].estimatedGas;
      }
      assert items[..|items|] == items;
      r := Ok(total);
    }

    static method AdviseSplits(total: nat, items: nat, threshold: nat) returns (r: Result<(nat, nat), GasError>)
      requires total >= items
      ensures r.Err? <==> !(1 <= items + MaxItemsPerSplit(total, items, threshold) <= U64_MAX)
      ensures r.Ok? ==> SoundSplits(r.value.0, r.value.1, total, items, threshold)
    {
      hide SoundSplits, SuggestedSplits, MaxItemsPerSplit;
      var perSplit := MaxItemsPerSplit(total, items, threshold);
      if items + perSplit > U64_MAX || items + perSplit < 1 {
        return Err(Overflow);
      }
      SplitsAreSound(total, items, threshold);
      var splits := SuggestedSplits(total, items, threshold);
      r := Ok((splits, total / splits));
    }

    /** Fails exactly if a figure leaves the range: the recommended limit, or the rounding term of the split count. */
    method BuildBatchEstimate(escrowCount: nat, items: seq<ItemGasEstimate>, verificationCount: nat)
      returns (r: Result<BatchGasEstimate, GasError>)
      ensures var count := escrowCount + verificationCount;
              r.Err? <==> OutOfRange(ItemGas(items) + BATCH_OVERHEAD + PER_ITEM_OVERHEAD * count, count, Threshold())
      ensures r.Ok? ==> BatchEstimateOk(r.value, escrowCount, verificationCount, items, Threshold())
    {
      hide Percent, MaxItemsPerSplit, RiskOf, SoundSplits, ItemGas;
      var totalItems := escrowCount + verificationCount;
      if totalItems > U64_MAX || PER_ITEM_OVERHEAD * totalItems > U64_MAX {
        return Err(Overflow);
      }
      var itemsTotal := SumItems(items);
      if itemsTotal.Err? {
        return Err(itemsTotal.error);
      }
      var total := itemsTotal.value + BATCH_OVERHEAD + PER_ITEM_OVERHEAD * totalItems;
      if total > U64_MAX {
        return Err(Overflow);
      }
      MarginMeansHighRisk(total);
      var margin := Percent(total, 10.0);
      if total + margin > U64_MAX {
        return Err(Overflow);
      }
      var recommended := total + margin;
      var threshold := Percent(stellarTransactionMaxGas, thresholdPercentage);
      var exceeds := recommended > threshold;
      var splits, perSplitGas := 1, total;
      if exceeds {
        var advice := AdviseSplits(total, totalItems, threshold);
        if advice.Err? {
          return Err(advice.error);
        }
        splits, perSplitGas := advice.value.0, advice.value.1;
      }
      r := Ok(BatchGasEstimate(totalItems, escrowCount, verificationCount, items, total, recommended, margin, exceeds,
                               RiskOf(total, recommended), splits, perSplitGas));
    }
  }
}
