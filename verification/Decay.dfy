/** Retrieval strength: how much a record's use and age weigh in ranking and eviction. */
module Decay {
  import opened Options
  import opened Numbers

  datatype DecayConfig = DecayConfig(enabled: bool, halfLifeDays: real, floor: real, accessBoost: real)

  const DEFAULT_CONFIG := DecayConfig(true, 30.0, 0.2, 1.5)

  /** Times count seconds. */
  datatype Usage = Usage(lastAccess: Option<int>, accessCount: nat, usefulCount: nat)

  /** What is used of the exponential function: positive, at most 1 up to 0, increasing. */
  ghost predicate IsExp(exp: real -> real) {
    && (forall x :: exp(x) > 0.0)
    && (forall x :: x <= 0.0 ==> exp(x) <= 1.0)
    && (forall x, y :: x <= y ==> exp(x) <= exp(y))
  }

  const LN_2: real := 0.693147180559945

  function Clamp(x: real, lo: real, hi: real): real
    requires lo <= hi
  {
    if x < lo then lo else if x > hi then hi else x
  }

  function Days(seconds: int): real {
    (if seconds < 0 then 0.0 else seconds as real) / 86400.0
  }

  /** The exponent per day. */
  function Slope(cfg: DecayConfig): real {
    -(LN_2 / MaxReal(cfg.halfLifeDays, 1.0))
  }

  /** The weight of age at a given number of seconds, before the floor. */
  function Fading(exp: real -> real, cfg: DecayConfig, seconds: int): real {
    exp(Slope(cfg) * Days(seconds))
  }

  function AgeScore(exp: real -> real, u: Usage, cfg: DecayConfig, now: int): real {
    match u.lastAccess
    case None => 1.0
    case Some(last) => MaxReal(Fading(exp, cfg, now - last), cfg.floor)
  }

  /** Use on a scale from 0 to 1: ten confirmed uses, or fifty retrievals counting for less. */
  function UtilitySignal(u: Usage): real {
    var access := MinReal(u.accessCount as real / 50.0, 1.0);
    var useful := MinReal(u.usefulCount as real / 10.0, 1.0);
    MinReal(MaxReal(MaxReal(useful, access * 0.80), 0.70 * useful + 0.30 * access), 1.0)
  }

  /** `retrieval_strength`; clamping needs its bounds in order. */
  function Strength(exp: real -> real, u: Usage, cfg: DecayConfig, now: int): real
    requires cfg.floor <= cfg.accessBoost
  {
    if !cfg.enabled then 1.0
    else if u.lastAccess.None? && u.accessCount == 0 && u.usefulCount == 0 then 1.0
    else Blend(AgeScore(exp, u, cfg, now), UtilitySignal(u), cfg)
  }

  /** Age alone without use; with use, age only dampens the boost. */
  function Blend(age: real, utility: real, cfg: DecayConfig): real
    requires cfg.floor <= cfg.accessBoost
  {
    if utility == 0.0 then Clamp(age, cfg.floor, cfg.accessBoost)
    else Clamp(Boost(utility, cfg) * (0.70 + 0.30 * age), cfg.floor, cfg.accessBoost)
  }

  function Boost(utility: real, cfg: DecayConfig): real {
    1.0 + (cfg.accessBoost - 1.0) * utility
  }

  ghost predicate SaneConfig(cfg: DecayConfig) {
    0.0 <= cfg.floor <= 1.0 <= cfg.accessBoost
  }

  lemma AgeBounds(exp: real -> real, u: Usage, cfg: DecayConfig, now: int)
    requires IsExp(exp) && 0.0 <= cfg.floor <= 1.0
    ensures cfg.floor <= AgeScore(exp, u, cfg, now) <= 1.0
  {
    if u.lastAccess.Some? {
      SlopeFalls(cfg, now - u.lastAccess.value, now - u.lastAccess.value);
    }
  }

  lemma SlopeFalls(cfg: DecayConfig, seconds: int, later: int)
    requires seconds <= later
    ensures Slope(cfg) * Days(later) <= Slope(cfg) * Days(seconds) <= 0.0
  {
    var rate := -Slope(cfg);
    assert rate >= 0.0;
    ProductGrows(0.0, 0.0, rate, Days(seconds));
    ProductGrows(rate, Days(seconds), rate, Days(later));
    assert Slope(cfg) * Days(later) == -(rate * Days(later));
    assert Slope(cfg) * Days(seconds) == -(rate * Days(seconds));
  }

  lemma SignalBounds(u: Usage)
    ensures 0.0 <= UtilitySignal(u) <= 1.0
    ensures UtilitySignal(u) == 0.0 <==> u.accessCount == 0 && u.usefulCount == 0
    ensures u.usefulCount >= 10 ==> UtilitySignal(u) == 1.0
    ensures u.accessCount == 0 && u.usefulCount <= 10 ==> UtilitySignal(u) == u.usefulCount as real / 10.0
  {
  }

  /** The strength stays between the floor and the largest boost. */
  lemma StrengthBounds(exp: real -> real, u: Usage, cfg: DecayConfig, now: int)
    requires SaneConfig(cfg)
    ensures cfg.floor <= Strength(exp, u, cfg, now) <= cfg.accessBoost
  {
  }

  lemma SignalGrows(u: Usage, v: Usage)
    requires u.accessCount <= v.accessCount && u.usefulCount <= v.usefulCount
    ensures UtilitySignal(u) <= UtilitySignal(v)
  {
  }

  lemma ProductGrows(a: real, b: real, c: real, d: real)
    requires 0.0 <= a <= c && 0.0 <= b <= d
    ensures a * b <= c * d
  {
    assert a * b <= c * b;
    assert c * b <= c * d;
  }

  lemma BoostGrows(u: real, v: real, cfg: DecayConfig)
    requires SaneConfig(cfg) && 0.0 <= u <= v
    ensures 1.0 <= Boost(u, cfg) <= Boost(v, cfg)
  {
    ProductGrows(0.0, 0.0, cfg.accessBoost - 1.0, u);
    ProductGrows(cfg.accessBoost - 1.0, u, cfg.accessBoost - 1.0, v);
  }

  lemma BlendGrowsWithUse(age: real, u: real, v: real, cfg: DecayConfig)
    requires SaneConfig(cfg) && 0.0 <= age <= 1.0 && 0.0 <= u <= v
    ensures Blend(age, u, cfg) <= Blend(age, v, cfg)
  {
    hide Boost;
    BoostGrows(u, v, cfg);
    if u == 0.0 {
      DampAtLeast(age, Boost(v, cfg));
    } else {
      ProductGrows(Boost(u, cfg), 0.70 + 0.30 * age, Boost(v, cfg), 0.70 + 0.30 * age);
    }
  }

  lemma DampAtLeast(age: real, boost: real)
    requires 0.0 <= age <= 1.0 <= boost
    ensures age <= boost * (0.70 + 0.30 * age)
  {
    ProductGrows(1.0, 0.70 + 0.30 * age, boost, 0.70 + 0.30 * age);
  }

  lemma BlendGrowsWithAgeScore(age: real, older: real, u: real, cfg: DecayConfig)
    requires SaneConfig(cfg) && 0.0 <= older <= age && 0.0 <= u
    ensures Blend(older, u, cfg) <= Blend(age, u, cfg)
  {
    BoostGrows(u, u, cfg);
    ProductGrows(Boost(u, cfg), 0.70 + 0.30 * older, Boost(u, cfg), 0.70 + 0.30 * age);
  }

  /** A record that has been used is at least as strong as one without any signal. */
  lemma SignalBeatsNone(u: real, cfg: DecayConfig)
    requires SaneConfig(cfg) && 0.0 <= u
    ensures Blend(1.0, u, cfg) >= 1.0
  {
    BoostGrows(u, u, cfg);
    assert 0.70 + 0.30 * 1.0 == 1.0;
  }

  /**
   More retrievals or confirmed uses, with the last access unchanged, never weaken a record:
   not within a formula, and not from the branch without signal to the others.
   */
  lemma StrengthGrowsWithUse(exp: real -> real, u: Usage, v: Usage, cfg: DecayConfig, now: int)
    requires IsExp(exp) && SaneConfig(cfg)
    requires u.lastAccess == v.lastAccess && u.accessCount <= v.accessCount && u.usefulCount <= v.usefulCount
    ensures Strength(exp, u, cfg, now) <= Strength(exp, v, cfg, now)
  {
    SignalBounds(u);
    SignalBounds(v);
    SignalGrows(u, v);
    AgeBounds(exp, u, cfg, now);
    hide UtilitySignal, Blend;
    BlendGrowsWithUse(AgeScore(exp, u, cfg, now), UtilitySignal(u), UtilitySignal(v), cfg);
    SignalBeatsNone(UtilitySignal(v), cfg);
  }

  /** A record never gets stronger by waiting. */
  lemma StrengthFallsWithAge(exp: real -> real, u: Usage, cfg: DecayConfig, now: int, later: int)
    requires IsExp(exp) && SaneConfig(cfg) && now <= later
    ensures Strength(exp, u, cfg, later) <= Strength(exp, u, cfg, now)
  {
    SignalBounds(u);
    AgeBounds(exp, u, cfg, now);
    AgeBounds(exp, u, cfg, later);
    AgeScoreFalls(exp, u, cfg, now, later);
    hide UtilitySignal, Blend, AgeScore;
    BlendGrowsWithAgeScore(AgeScore(exp, u, cfg, now), AgeScore(exp, u, cfg, later), UtilitySignal(u), cfg);
  }

  lemma AgeScoreFalls(exp: real -> real, u: Usage, cfg: DecayConfig, now: int, later: int)
    requires IsExp(exp) && now <= later
    ensures AgeScore(exp, u, cfg, later) <= AgeScore(exp, u, cfg, now)
  {
    if u.lastAccess.Some? {
      SlopeFalls(cfg, now - u.lastAccess.value, later - u.lastAccess.value);
    }
  }

  ghost predicate UseHelps(exp: real -> real, cfg: DecayConfig)
    requires cfg.floor <= cfg.accessBoost
  {
    forall u, v, now | MoreUsed(u, v) :: Strength(exp, u, cfg, now) <= Strength(exp, v, cfg, now)
  }

  predicate MoreUsed(u: Usage, v: Usage) {
    u.lastAccess == v.lastAccess && u.accessCount <= v.accessCount && u.usefulCount <= v.usefulCount
  }

  /** Use never hurts exactly when the configured boost is at least 1. */
  lemma UseHelpsIffBoost(exp: real -> real, cfg: DecayConfig)
    requires IsExp(exp) && cfg.enabled && 0.0 <= cfg.floor <= 1.0 && cfg.floor <= cfg.accessBoost
    ensures UseHelps(exp, cfg) <==> cfg.accessBoost >= 1.0
  {
    if cfg.accessBoost >= 1.0 {
      forall u, v, now | MoreUsed(u, v) ensures Strength(exp, u, cfg, now) <= Strength(exp, v, cfg, now) {
        StrengthGrowsWithUse(exp, u, v, cfg, now);
      }
    } else {
      var unused, used := Usage(None, 0, 0), Usage(None, 0, 10);
      assert MoreUsed(unused, used);
      assert Strength(exp, unused, cfg, 0) == 1.0;
      SignalBounds(used);
      assert Strength(exp, used, cfg, 0) <= cfg.accessBoost;
    }
  }

  // ----- protection by use

  /** Strong enough at every age. */
  ghost predicate AlwaysStrong(exp: real -> real, accessCount: nat, usefulCount: nat, cfg: DecayConfig)
    requires cfg.floor <= cfg.accessBoost
  {
    forall last, now :: Strength(exp, Usage(Some(last), accessCount, usefulCount), cfg, now) >= 1.0
  }

  /** For an exponential, some age in whole seconds brings the age score down to the floor. */
  ghost predicate ReachesFloor(exp: real -> real, cfg: DecayConfig) {
    exists seconds: nat :: Fading(exp, cfg, seconds) <= cfg.floor
  }

  /** The boost makes up for the oldest age there is. */
  predicate OutweighsAge(utility: real, cfg: DecayConfig) {
    cfg.floor >= 1.0 || (utility > 0.0 && Boost(utility, cfg) * (0.70 + 0.30 * cfg.floor) >= 1.0)
  }

  lemma OldestBlend(utility: real, cfg: DecayConfig)
    requires SaneConfig(cfg) && utility >= 0.0
    ensures Blend(cfg.floor, utility, cfg) >= 1.0 <==> OutweighsAge(utility, cfg)
  {
    BoostGrows(utility, utility, cfg);
    if cfg.floor >= 1.0 {
      assert 0.70 + 0.30 * cfg.floor == 1.0;
    }
  }

  /** A record is at its weakest when its age score is down at the floor. */
  lemma AtLeastOldest(exp: real -> real, u: Usage, cfg: DecayConfig, now: int)
    requires IsExp(exp) && SaneConfig(cfg) && cfg.enabled && u.lastAccess.Some?
    ensures Strength(exp, u, cfg, now) >= Blend(cfg.floor, UtilitySignal(u), cfg)
  {
    SignalBounds(u);
    AgeBounds(exp, u, cfg, now);
    hide UtilitySignal, Blend;
    BlendGrowsWithAgeScore(AgeScore(exp, u, cfg, now), cfg.floor, UtilitySignal(u), cfg);
  }

  lemma AtOldest(exp: real -> real, u: Usage, cfg: DecayConfig, now: int)
    requires cfg.floor <= cfg.accessBoost && cfg.enabled && u.lastAccess.Some?
    requires Fading(exp, cfg, now - u.lastAccess.value) <= cfg.floor
    ensures Strength(exp, u, cfg, now) == Blend(cfg.floor, UtilitySignal(u), cfg)
  {
    hide UtilitySignal, Blend;
  }

  /** A record stays at full strength at every age exactly if its boost makes up for the oldest age. */
  lemma AlwaysStrongIff(exp: real -> real, accessCount: nat, usefulCount: nat, cfg: DecayConfig)
    requires IsExp(exp) && SaneConfig(cfg) && cfg.enabled && ReachesFloor(exp, cfg)
    ensures AlwaysStrong(exp, accessCount, usefulCount, cfg)
       <==> OutweighsAge(UtilitySignal(Usage(None, accessCount, usefulCount)), cfg)
  {
    var utility := UtilitySignal(Usage(None, accessCount, usefulCount));
    SignalBounds(Usage(None, accessCount, usefulCount));
    OldestBlend(utility, cfg);
    if OutweighsAge(utility, cfg) {
      forall last, now ensures Strength(exp, Usage(Some(last), accessCount, usefulCount), cfg, now) >= 1.0 {
        AtLeastOldest(exp, Usage(Some(last), accessCount, usefulCount), cfg, now);
      }
    } else {
      var seconds: nat :| Fading(exp, cfg, seconds) <= cfg.floor;
      assert seconds - 0 == seconds;
      AtOldest(exp, Usage(Some(0), accessCount, usefulCount), cfg, seconds);
    }
  }

  /** Enough use to be protected for ever under the default configuration. */
  predicate EnoughUse(accessCount: nat, usefulCount: nat) {
    usefulCount >= 7 || accessCount >= 40 || 70 * usefulCount + 6 * accessCount >= 632
  }

  /** The signal it takes is 12/19. */
  lemma EnoughIsSignal(accessCount: nat, usefulCount: nat)
    ensures OutweighsAge(UtilitySignal(Usage(None, accessCount, usefulCount)), DEFAULT_CONFIG)
       <==> UtilitySignal(Usage(None, accessCount, usefulCount)) >= 12.0 / 19.0
    ensures UtilitySignal(Usage(None, accessCount, usefulCount)) >= 12.0 / 19.0
       <==> EnoughUse(accessCount, usefulCount)
  {
    SignalThreshold(accessCount, usefulCount);
    hide UtilitySignal;
  }

  lemma SignalThreshold(accessCount: nat, usefulCount: nat)
    ensures UtilitySignal(Usage(None, accessCount, usefulCount)) >= 12.0 / 19.0
       <==> EnoughUse(accessCount, usefulCount)
  {
    var mixed := 0.07 * usefulCount as real + 0.006 * accessCount as real;
    assert mixed * 1000.0 == (70 * usefulCount + 6 * accessCount) as real;
  }

  /**
   By default a record stays at full strength for ever exactly with seven confirmed uses, forty
   retrievals, or enough of both.
   */
  lemma DefaultProtectionIff(exp: real -> real, accessCount: nat, usefulCount: nat)
    requires IsExp(exp) && ReachesFloor(exp, DEFAULT_CONFIG)
    ensures AlwaysStrong(exp, accessCount, usefulCount, DEFAULT_CONFIG) <==> EnoughUse(accessCount, usefulCount)
  {
    AlwaysStrongIff(exp, accessCount, usefulCount, DEFAULT_CONFIG);
    EnoughIsSignal(accessCount, usefulCount);
  }

  /** A record that was never retrieved needs seven confirmed uses. */
  lemma SevenUsesSuffice(exp: real -> real, usefulCount: nat)
    requires IsExp(exp) && ReachesFloor(exp, DEFAULT_CONFIG)
    ensures AlwaysStrong(exp, 0, usefulCount, DEFAULT_CONFIG) <==> usefulCount >= 7
  {
    DefaultProtectionIff(exp, 0, usefulCount);
  }

  lemma DefaultStrengthAtLeast(exp: real -> real, u: Usage, now: int)
    requires IsExp(exp) && (u.lastAccess.None? || EnoughUse(u.accessCount, u.usefulCount))
    ensures Strength(exp, u, DEFAULT_CONFIG, now) >= 1.0
  {
    SignalBounds(u);
    if u.lastAccess.None? {
      SignalBeatsNone(UtilitySignal(u), DEFAULT_CONFIG);
    } else {
      EnoughIsSignal(u.accessCount, u.usefulCount);
      OldestBlend(UtilitySignal(u), DEFAULT_CONFIG);
      AtLeastOldest(exp, u, DEFAULT_CONFIG, now);
    }
  }

  /** Once the age score is down at the floor it stays there. */
  lemma FadesOn(exp: real -> real, cfg: DecayConfig, seconds: int, later: int)
    requires IsExp(exp) && Fading(exp, cfg, seconds) <= cfg.floor && seconds <= later
    ensures Fading(exp, cfg, later) <= cfg.floor
  {
    hide Slope, Days;
    SlopeFalls(cfg, seconds, later);
    assert exp(Slope(cfg) * Days(later)) <= exp(Slope(cfg) * Days(seconds));
  }

  lemma DefaultWeakness(exp: real -> real, u: Usage, now: int)
    requires IsExp(exp) && u.lastAccess.Some? && !EnoughUse(u.accessCount, u.usefulCount)
    requires Fading(exp, DEFAULT_CONFIG, now - u.lastAccess.value) <= DEFAULT_CONFIG.floor
    ensures Strength(exp, u, DEFAULT_CONFIG, now) < 1.0
  {
    SignalBounds(u);
    EnoughIsSignal(u.accessCount, u.usefulCount);
    OldestBlend(UtilitySignal(u), DEFAULT_CONFIG);
    AtOldest(exp, u, DEFAULT_CONFIG, now);
  }

  // ----- the numbers behind it

  /** Days are seconds by the day; a time to come counts as now. */
  lemma DaysCount(seconds: int)
    ensures seconds >= 0 ==> Days(seconds) * 86400.0 == seconds as real
    ensures seconds < 0 ==> Days(seconds) == 0.0
  {
  }

  /** The signal in thousandths: a confirmed use counts 100, a retrieval 16, or both 70 and 6, up to their limits. */
  lemma SignalIs(u: Usage)
    ensures var useful, access := Min(u.usefulCount, 10), Min(u.accessCount, 50);
            UtilitySignal(u) * 1000.0 == Max(Max(100 * useful, 16 * access), 70 * useful + 6 * access) as real
  {
    var useful, access := Min(u.usefulCount, 10), Min(u.accessCount, 50);
    assert MinReal(u.usefulCount as real / 10.0, 1.0) == useful as real / 10.0;
    assert MinReal(u.accessCount as real / 50.0, 1.0) == access as real / 50.0;
    var a, b, c := 100 * useful, 16 * access, 70 * useful + 6 * access;
    assert a as real == useful as real / 10.0 * 1000.0;
    assert b as real == access as real / 50.0 * 0.80 * 1000.0;
    assert c as real == (0.70 * (useful as real / 10.0) + 0.30 * (access as real / 50.0)) * 1000.0;
  }

  /** Ten confirmed uses reach the full boost while fresh; retrievals alone, however many, four fifths of it. */
  lemma FreshStrength(exp: real -> real, u: Usage, cfg: DecayConfig, now: int)
    requires SaneConfig(cfg) && cfg.enabled && u.lastAccess.None?
    ensures u.usefulCount >= 10 ==> Strength(exp, u, cfg, now) == cfg.accessBoost
    ensures u.usefulCount == 0 && u.accessCount >= 50 ==>
      Strength(exp, u, cfg, now) == 1.0 + (cfg.accessBoost - 1.0) * 0.8
    ensures u.usefulCount == 0 ==> Strength(exp, u, cfg, now) <= 1.0 + (cfg.accessBoost - 1.0) * 0.8
  {
    SignalIs(u);
    SignalBounds(u);
    var signal := UtilitySignal(u);
    hide UtilitySignal;
    assert 0.70 + 0.30 * 1.0 == 1.0;
    BoostGrows(signal, signal, cfg);
    if u.usefulCount == 0 { BoostGrows(signal, 0.8, cfg); }
    BoostGrows(signal, 1.0, cfg);
  }

  /** What makes the exponential halve over `ln 2`. */
  ghost predicate Halves(exp: real -> real) {
    && (forall x, y :: exp(x + y) == exp(x) * exp(y))
    && exp(-0.693147180559945) == 0.5
  }

  /** Every half-life of waiting, but at least a day, halves the weight of age. */
  lemma HalfLifeHalves(exp: real -> real, cfg: DecayConfig, seconds: nat, later: nat)
    requires Halves(exp) && cfg.halfLifeDays >= 1.0 && Days(later) == Days(seconds) + cfg.halfLifeDays
    ensures Fading(exp, cfg, later) == Fading(exp, cfg, seconds) / 2.0
  {
    hide *;
    SlopeIs(cfg);
    OneHalfLife(Slope(cfg), cfg.halfLifeDays, Days(seconds));
    Halving(exp, Slope(cfg) * Days(seconds), Slope(cfg) * Days(later));
    FadingIs(exp, cfg, seconds);
    FadingIs(exp, cfg, later);
  }

  lemma SlopeIs(cfg: DecayConfig)
    requires cfg.halfLifeDays >= 1.0
    ensures Slope(cfg) == -(LN_2 / cfg.halfLifeDays)
  {
    assert MaxReal(cfg.halfLifeDays, 1.0) == cfg.halfLifeDays;
  }

  lemma FadingIs(exp: real -> real, cfg: DecayConfig, seconds: int)
    ensures Fading(exp, cfg, seconds) == exp(Slope(cfg) * Days(seconds))
  {
  }

  lemma Halving(exp: real -> real, x: real, y: real)
    requires Halves(exp) && y == x + -LN_2
    ensures exp(y) == exp(x) / 2.0
  {
    assert exp(x + -LN_2) == exp(x) * exp(-LN_2);
  }

  lemma OneHalfLife(slope: real, h: real, d: real)
    requires h >= 1.0 && slope == -(LN_2 / h)
    ensures slope * (d + h) == slope * d + -LN_2
  {
    assert LN_2 / h * h == LN_2;
    assert slope * h == -LN_2;
  }

  /** By default that is thirty days. */
  lemma ThirtyDays(exp: real -> real, seconds: nat)
    requires Halves(exp)
    ensures Fading(exp, DEFAULT_CONFIG, seconds + 30 * 86400) == Fading(exp, DEFAULT_CONFIG, seconds) / 2.0
  {
    HalfLifeHalves(exp, DEFAULT_CONFIG, seconds, seconds + 30 * 86400);
  }
}
