/**
 Frozen proposer weights: normalised stake, boosted within a bound by the damped
 propagation score. Proved: the weight share of every coalition stays inside the
 envelope determined by its stake and score mass, hence within (1 + eta * cap)
 times its stake; and splitting an identity never gains weight.
 */
module Weights {
  import opened RealMath
  import opened PathCredit
  import opened Ledger
  import opened Config

  // ----- the formulas

  function PropagationBonus(scoreToStake: real, bonusCap: real, zeta: real): real {
    if scoreToStake <= 0.0 || bonusCap <= 0.0 || zeta <= 0.0 then 0.0
    else bonusCap * scoreToStake / (zeta + scoreToStake)
  }

  function Bonus(cfg: ValidatedConfig, s: real, c: real): real {
    if s > 0.0 then PropagationBonus(c / s, cfg.bonusCap, cfg.bonusZeta) else 0.0
  }

  /** The unnormalised weight of normalised stake s with damped score c. */
  function Weight(cfg: ValidatedConfig, s: real, c: real): real {
    s * (1.0 + cfg.eta * Bonus(cfg, s, c))
  }

  function Addresses(validators: seq<Validator>): set<string> {
    if validators == [] then {}
    else Addresses(validators[..|validators| - 1]) + {validators[|validators| - 1].address}
  }

  /** Stakes by address; a later entry with the same address overwrites an earlier one. */
  function RawStakes(validators: seq<Validator>): (m: map<string, real>)
    ensures m.Keys == Addresses(validators)
    ensures forall a :: a in m ==> m[a] >= 0.0
  {
    if validators == [] then map[]
    else
      var v := validators[|validators| - 1];
      RawStakes(validators[..|validators| - 1])[v.address := Max(v.stake, 0.0)]
  }

  ghost function NormalizeMap(m: map<string, real>): (r: map<string, real>)
    ensures r.Keys == m.Keys
  {
    var sum := MapSum(m);
    if sum <= 0.0 then map k | k in m :: 0.0 else map k | k in m :: m[k] / sum
  }

  ghost function NormalizedStake(validators: seq<Validator>): map<string, real> {
    NormalizeMap(RawStakes(validators))
  }

  /** A validator's active score, negative ones counted as zero. */
  function ScoreOf(scores: map<string, real>, address: string): (r: real)
    ensures r >= 0.0
  {
    Max(Get(scores, address), 0.0)
  }

  function ScoreSum(scores: map<string, real>, validators: seq<Validator>): (r: real)
    ensures r >= 0.0
  {
    if validators == [] then 0.0
    else ScoreSum(scores, validators[..|validators| - 1]) + ScoreOf(scores, validators[|validators| - 1].address)
  }

  /** Damped score mass: kappa in the denominator keeps small absolute scores small. */
  function DampedScore(scores: map<string, real>, validators: seq<Validator>, kappa: real): map<string, real>
    requires kappa > 0.0
  {
    map a | a in Addresses(validators) :: ScoreOf(scores, a) / (kappa + ScoreSum(scores, validators))
  }

  ghost function Unnormalized(cfg: ValidatedConfig, scores: map<string, real>,
                              validators: seq<Validator>): (r: map<string, real>)
    ensures r.Keys == Addresses(validators)
  {
    var stake, damped := NormalizedStake(validators), DampedScore(scores, validators, cfg.scoreFloorKappa);
    map a | a in Addresses(validators) :: Weight(cfg, Get(stake, a), Get(damped, a))
  }

  ghost function FrozenWeights(cfg: ValidatedConfig, scores: map<string, real>,
                               validators: seq<Validator>): map<string, real>
  {
    NormalizeMap(Unnormalized(cfg, scores, validators))
  }

  // ----- the boost

  /** The weighted harmonic combination of stake and score behind the bonus. */
  function Blend(zeta: real, s: real, c: real): real {
    if zeta * s + c > 0.0 then s * c / (zeta * s + c) else 0.0
  }

  function Boost(cfg: ValidatedConfig, s: real, c: real): real {
    cfg.eta * cfg.bonusCap * Blend(cfg.bonusZeta, s, c)
  }

  /** weight = stake + eta * cap * blend(stake, score) */
  lemma WeightForm(cfg: ValidatedConfig, s: real, c: real)
    requires s >= 0.0 && c >= 0.0
    ensures Weight(cfg, s, c) == s + Boost(cfg, s, c)
  {
    var z, cap := cfg.bonusZeta, cfg.bonusCap;
    if s > 0.0 && c > 0.0 {
      MulPositive(z, s);
      QuotientPositive(c, s);
      if cap > 0.0 {
        BonusTimesStake(cap, z, s, c);
        ScaleBonus(s, cfg.eta, PropagationBonus(c / s, cap, z), cap, Blend(z, s, c));
      } else {
        ZeroProducts(s, cfg.eta, cap, Blend(z, s, c));
      }
    } else {
      BlendZero(z, s, c);
      if s > 0.0 {
        assert c / s == 0.0;
      }
    }
  }

  lemma ZeroProducts(s: real, eta: real, cap: real, g: real)
    requires cap == 0.0
    ensures s * (1.0 + eta * 0.0) == s + eta * cap * g
  {
    assert eta * cap == 0.0;
  }

  lemma BlendZero(zeta: real, s: real, c: real)
    requires zeta > 0.0 && s >= 0.0 && c >= 0.0 && (s == 0.0 || c == 0.0)
    ensures Blend(zeta, s, c) == 0.0
  {
    assert s * c == 0.0;
  }

  lemma BonusTimesStake(cap: real, z: real, s: real, c: real)
    requires z > 0.0 && s > 0.0 && c > 0.0
    ensures z * s + c > 0.0 && z + c / s > 0.0
    ensures s * (cap * (c / s) / (z + c / s)) == cap * (s * c / (z * s + c))
  {
    var x := c / s;
    assert x * s == c;
    QuotientPositive(c, s);
    var d, e := z + x, z * s + c;
    assert d * s == e;
    assert e > 0.0 by { MulPositive(d, s); }
    var y := cap * x / d;
    assert y * d == cap * x;
    // y * e == y * d * s == cap * x * s == cap * c
    assert y * e == cap * c by {
      MulAssoc(y, d, s);
      MulAssoc(cap, x, s);
    }
    assert y == cap * c / e;
    MoveDivisor(cap, c, e);
    MoveDivisor(s, c, e);
    var q := c / e;
    assert y == cap * q;
    MulAssoc(s, cap, q);
    MulAssoc(cap, s, q);
  }

  lemma ScaleBonus(s: real, eta: real, bonus: real, cap: real, g: real)
    requires s * bonus == cap * g
    ensures s * (1.0 + eta * bonus) == s + eta * cap * g
  {
    assert s * (1.0 + eta * bonus) == s + s * (eta * bonus);
    MulAssoc(s, eta, bonus);
    MulAssoc(eta, s, bonus);
    MulAssoc(eta, cap, g);
  }

  lemma BlendRange(zeta: real, s: real, c: real)
    requires zeta > 0.0 && s >= 0.0 && c >= 0.0
    ensures 0.0 <= Blend(zeta, s, c) <= s
  {
    MulNonNegative(zeta, s);
    if zeta * s + c > 0.0 {
      MulNonNegative(s, c);
      QuotientNonNegative(s * c, zeta * s + c);
      MulMono(s, c, zeta * s + c);
      DivMonoNumerator(s * c, s * (zeta * s + c), zeta * s + c);
      assert s * (zeta * s + c) / (zeta * s + c) == s;
    }
  }

  /** Concavity: pooling stake and score never loses. */
  lemma BlendSuperadditive(z: real, s1: real, c1: real, s2: real, c2: real)
    requires z > 0.0 && s1 >= 0.0 && c1 >= 0.0 && s2 >= 0.0 && c2 >= 0.0
    ensures Blend(z, s1, c1) + Blend(z, s2, c2) <= Blend(z, s1 + s2, c1 + c2)
  {
    MulNonNegative(z, s1);
    MulNonNegative(z, s2);
    assert z * (s1 + s2) == z * s1 + z * s2;
    var d1, d2 := z * s1 + c1, z * s2 + c2;
    if d1 == 0.0 {
      ZeroParts(z, s1, c1);
    } else if d2 == 0.0 {
      ZeroParts(z, s2, c2);
    } else {
      PooledQuotients(z, s1, c1, d1, s2, c2, d2);
    }
  }

  lemma ZeroParts(z: real, s: real, c: real)
    requires z > 0.0 && s >= 0.0 && c >= 0.0 && z * s + c == 0.0
    ensures s == 0.0 && c == 0.0 && Blend(z, s, c) == 0.0
  {
    if s > 0.0 {
      MulPositive(z, s);
    }
  }

  /**
   s1*c1/d1 + s2*c2/d2 <= (s1+s2)*(c1+c2)/(d1+d2); the difference is zeta*(s1*c2 - s2*c1)^2 over a
   positive product.
   */
  lemma PooledQuotients(z: real, s1: real, c1: real, d1: real, s2: real, c2: real, d2: real)
    requires z > 0.0 && d1 > 0.0 && d2 > 0.0 && d1 == z * s1 + c1 && d2 == z * s2 + c2
    ensures s1 * c1 / d1 + s2 * c2 / d2 <= (s1 + s2) * (c1 + c2) / (d1 + d2)
  {
    GapIsSquare(z, s1, c1, s2, c2);
    PooledFromGap(s1, c1, d1, s2, c2, d2);
  }

  lemma PooledFromGap(s1: real, c1: real, d1: real, s2: real, c2: real, d2: real)
    requires d1 > 0.0 && d2 > 0.0 && SquareGap(s1, c1, d1, s2, c2, d2) >= 0.0
    ensures s1 * c1 / d1 + s2 * c2 / d2 <= (s1 + s2) * (c1 + c2) / (d1 + d2)
  {
    hide SquareGap;
    AddQuotients(s1 * c1, d1, s2 * c2, d2);
    MulPositive(d1, d2);
    CrossedSums(s1, c1, d1, s2, c2, d2);
    DivLeqDiv(s1 * c1 * d2 + s2 * c2 * d1, d1 * d2, (s1 + s2) * (c1 + c2), d1 + d2);
  }

  function SquareGap(s1: real, c1: real, d1: real, s2: real, c2: real, d2: real): real {
    (s1 * d2 - s2 * d1) * (c2 * d1 - c1 * d2)
  }

  lemma GapIsSquare(z: real, s1: real, c1: real, s2: real, c2: real)
    requires z > 0.0
    ensures SquareGap(s1, c1, z * s1 + c1, s2, c2, z * s2 + c2) >= 0.0
  {
    var t := s1 * c2 - s2 * c1;
    var d1, d2 := z * s1 + c1, z * s2 + c2;
    assert s1 * d2 - s2 * d1 == t;
    assert c2 * d1 - c1 * d2 == z * t;
    assert t * t >= 0.0;
    MulNonNegative(z, t * t);
    assert t * (z * t) == z * (t * t);
  }

  lemma AddQuotients(a: real, x: real, b: real, y: real)
    requires x > 0.0 && y > 0.0
    ensures x * y > 0.0
    ensures a / x + b / y == (a * y + b * x) / (x * y)
  {
    MulPositive(x, y);
    var p, q := a / x, b / y;
    assert a == p * x && b == q * y;
    assert a * y == p * (x * y) && b * x == q * (x * y);
    assert (p + q) * (x * y) == a * y + b * x;
  }

  lemma CrossedSums(s1: real, c1: real, d1: real, s2: real, c2: real, d2: real)
    requires SquareGap(s1, c1, d1, s2, c2, d2) >= 0.0
    ensures (s1 * c1 * d2 + s2 * c2 * d1) * (d1 + d2) <= (s1 + s2) * (c1 + c2) * (d1 * d2)
  {
    assert (s1 + s2) * (c1 + c2) * (d1 * d2) - (s1 * c1 * d2 + s2 * c2 * d1) * (d1 + d2)
        == SquareGap(s1, c1, d1, s2, c2, d2);
  }

  /** Pooling two holdings never lowers the weight, and the weight lies between s and (1 + eta * cap) * s. */
  lemma WeightSuperadditive(cfg: ValidatedConfig, s1: real, c1: real, s2: real, c2: real)
    requires s1 >= 0.0 && c1 >= 0.0 && s2 >= 0.0 && c2 >= 0.0
    ensures Weight(cfg, s1, c1) + Weight(cfg, s2, c2) <= Weight(cfg, s1 + s2, c1 + c2)
  {
    hide Weight, Boost;
    WeightForm(cfg, s1, c1);
    WeightForm(cfg, s2, c2);
    WeightForm(cfg, s1 + s2, c1 + c2);
    BoostSuperadditive(cfg, s1, c1, s2, c2);
  }

  lemma BoostSuperadditive(cfg: ValidatedConfig, s1: real, c1: real, s2: real, c2: real)
    requires s1 >= 0.0 && c1 >= 0.0 && s2 >= 0.0 && c2 >= 0.0
    ensures Boost(cfg, s1, c1) + Boost(cfg, s2, c2) <= Boost(cfg, s1 + s2, c1 + c2)
  {
    hide Blend;
    var z, k := cfg.bonusZeta, cfg.eta * cfg.bonusCap;
    var x, y, t := Blend(z, s1, c1), Blend(z, s2, c2), Blend(z, s1 + s2, c1 + c2);
    BlendSuperadditive(z, s1, c1, s2, c2);
    MulNonNegative(cfg.eta, cfg.bonusCap);
    assert Boost(cfg, s1, c1) == k * x;
    assert Boost(cfg, s2, c2) == k * y;
    assert Boost(cfg, s1 + s2, c1 + c2) == k * t;
    ScaledSum(k, x, y, t);
  }

  lemma ScaledSum(k: real, a: real, b: real, c: real)
    requires k >= 0.0 && a + b <= c
    ensures k * a + k * b <= k * c
  {
    MulMono(k, a + b, c);
  }

  /** (1 + eta * cap) * s: what the boost can make of stake s at most. */
  function StakeBound(cfg: ValidatedConfig, s: real): real {
    (1.0 + cfg.eta * cfg.bonusCap) * s
  }

  lemma WeightRange(cfg: ValidatedConfig, s: real, c: real)
    requires s >= 0.0 && c >= 0.0
    ensures s <= Weight(cfg, s, c) <= StakeBound(cfg, s)
  {
    hide Weight, Blend;
    assert Weight(cfg, s, c) == s + cfg.eta * cfg.bonusCap * Blend(cfg.bonusZeta, s, c) by { WeightForm(cfg, s, c); }
    BlendRange(cfg.bonusZeta, s, c);
    BoostRange(cfg.eta, cfg.bonusCap, Blend(cfg.bonusZeta, s, c), s);
  }

  lemma BoostRange(eta: real, cap: real, g: real, s: real)
    requires eta >= 0.0 && cap >= 0.0 && 0.0 <= g <= s
    ensures 0.0 <= eta * cap * g
    ensures s + eta * cap * g <= (1.0 + eta * cap) * s
  {
    var k := eta * cap;
    MulNonNegative(eta, cap);
    MulNonNegative(k, g);
    MulMono(k, g, s);
    assert (1.0 + k) * s == s + k * s;
  }

  // ----- coalitions

  /** A coalition's weights add up to at most the weight of its pooled stake and score, and to at least its stake. */
  lemma {:induction false} CoalitionWeight(cfg: ValidatedConfig, weights: map<string, real>, stake: map<string, real>,
                                           damped: map<string, real>, a: set<string>)
    requires forall k :: k in a ==> Get(stake, k) >= 0.0 && Get(damped, k) >= 0.0
    requires forall k :: k in a ==> Get(weights, k) == Weight(cfg, Get(stake, k), Get(damped, k))
    ensures SumOver(stake, a) >= 0.0 && SumOver(damped, a) >= 0.0
    ensures SumOver(stake, a) <= SumOver(weights, a) <= Weight(cfg, SumOver(stake, a), SumOver(damped, a))
    decreases |a|
  {
    hide Weight;
    if a == {} {
      WeightRange(cfg, 0.0, 0.0);
    } else {
      var k :| k in a;
      var rest := a - {k};
      CoalitionWeight(cfg, weights, stake, damped, rest);
      SumOverRemove(weights, a, k);
      SumOverRemove(stake, a, k);
      SumOverRemove(damped, a, k);
      WeightRange(cfg, Get(stake, k), Get(damped, k));
      WeightSuperadditive(cfg, Get(stake, k), Get(damped, k), SumOver(stake, rest), SumOver(damped, rest));
    }
  }

  /** Normalising non-negative entries with a positive total yields shares that add up to one. */
  lemma NormalizedShares(m: map<string, real>)
    requires MapSum(m) > 0.0 && forall k :: k in m ==> m[k] >= 0.0
    ensures forall k :: k in m ==> NormalizeMap(m)[k] == m[k] / MapSum(m) && NormalizeMap(m)[k] >= 0.0
    ensures MapSum(NormalizeMap(m)) == 1.0
    ensures forall a :: a <= m.Keys ==> SumOver(NormalizeMap(m), a) == SumOver(m, a) / MapSum(m)
  {
    var n, d := NormalizeMap(m), MapSum(m);
    forall k | k in m
      ensures n[k] == m[k] / d && n[k] >= 0.0
    {
      QuotientNonNegative(m[k], d);
    }
    forall a | a <= m.Keys
      ensures SumOver(n, a) == SumOver(m, a) / d
    {
      SumOverDivide(m, n, a, d);
    }
    assert SumOver(n, m.Keys) == d / d;
    DivSelf(d);
  }

  lemma DampedNonNegative(scores: map<string, real>, validators: seq<Validator>, kappa: real)
    requires kappa > 0.0
    ensures forall a :: Get(DampedScore(scores, validators, kappa), a) >= 0.0
  {
    forall a
      ensures Get(DampedScore(scores, validators, kappa), a) >= 0.0
    {
      QuotientNonNegative(ScoreOf(scores, a), kappa + ScoreSum(scores, validators));
    }
  }

  /** The weight a coalition with normalised stake s and damped mass c can reach at most. */
  function Envelope(cfg: ValidatedConfig, s: real, c: real): real
    requires 0.0 <= s <= 1.0 && c >= 0.0
  {
    WeightRange(cfg, s, c);
    var x := Weight(cfg, s, c);
    if x + 1.0 - s > 0.0 then x / (x + 1.0 - s) else 0.0
  }

  /**
   Coalition envelope: with positive total stake, any set of validators with stake share s and
   damped score mass c holds a frozen weight share of at most X / (X + 1 - s) for
   X = weight(s, c), and that is at most (1 + eta * cap) * s.
   */
  lemma CoalitionEnvelope(cfg: ValidatedConfig, scores: map<string, real>, validators: seq<Validator>, a: set<string>)
    requires MapSum(RawStakes(validators)) > 0.0 && a <= Addresses(validators)
    ensures var s := SumOver(NormalizedStake(validators), a);
            var c := SumOver(DampedScore(scores, validators, cfg.scoreFloorKappa), a);
            && 0.0 <= s <= 1.0 && c >= 0.0
            && Weight(cfg, s, c) + 1.0 - s > 0.0
            && SumOver(FrozenWeights(cfg, scores, validators), a) <= Envelope(cfg, s, c) <= StakeBound(cfg, s)
  {
    hide StakeBound, Weight, DampedScore, NormalizeMap, RawStakes, SumOver, Envelope;
    var stake, damped := NormalizedStake(validators), DampedScore(scores, validators, cfg.scoreFloorKappa);
    var u := Unnormalized(cfg, scores, validators);
    NormalizedShares(RawStakes(validators));
    DampedNonNegative(scores, validators, cfg.scoreFloorKappa);
    SharesOfWhole(cfg, u, stake, damped, Addresses(validators), a);
    UnnormalizedNonNegative(cfg, scores, validators);
    NormalizedShares(u);
    WithinEnvelope(cfg, SumOver(u, a), MapSum(u), SumOver(stake, a), SumOver(damped, a));
  }

  lemma WithinEnvelope(cfg: ValidatedConfig, part: real, whole: real, s: real, c: real)
    requires 0.0 <= s <= 1.0 && c >= 0.0 && s <= part <= Weight(cfg, s, c)
    requires whole >= part + 1.0 - s && whole > 0.0
    ensures Weight(cfg, s, c) + 1.0 - s > 0.0
    ensures part / whole <= Envelope(cfg, s, c) <= StakeBound(cfg, s)
  {
    hide Weight, StakeBound;
    WeightRange(cfg, s, c);
    EnvelopeBound(part, whole, s, Weight(cfg, s, c));
  }

  /** The coalition's part of the total, before normalisation. */
  lemma SharesOfWhole(cfg: ValidatedConfig, u: map<string, real>, stake: map<string, real>, damped: map<string, real>,
                      all: set<string>, a: set<string>)
    requires a <= all && SumOver(stake, all) == 1.0
    requires forall k :: k in all ==> Get(stake, k) >= 0.0 && Get(damped, k) >= 0.0
    requires forall k :: k in all ==> Get(u, k) == Weight(cfg, Get(stake, k), Get(damped, k))
    ensures 0.0 <= SumOver(stake, a) <= 1.0 && SumOver(damped, a) >= 0.0
    ensures SumOver(stake, a) <= SumOver(u, a) <= Weight(cfg, SumOver(stake, a), SumOver(damped, a))
    ensures SumOver(u, all) >= SumOver(u, a) + 1.0 - SumOver(stake, a) && SumOver(u, all) >= 1.0
  {
    hide Weight, SumOver;
    var rest := all - a;
    CoalitionWeight(cfg, u, stake, damped, a);
    CoalitionWeight(cfg, u, stake, damped, rest);
    assert a + rest == all;
    SumOverUnion(stake, a, rest);
    SumOverUnion(u, a, rest);
  }

  lemma UnnormalizedNonNegative(cfg: ValidatedConfig, scores: map<string, real>, validators: seq<Validator>)
    requires MapSum(RawStakes(validators)) > 0.0
    ensures forall k :: k in Unnormalized(cfg, scores, validators) ==> Unnormalized(cfg, scores, validators)[k] >= 0.0
  {
    hide Weight, DampedScore, NormalizeMap, RawStakes;
    NormalizedShares(RawStakes(validators));
    DampedNonNegative(scores, validators, cfg.scoreFloorKappa);
    forall k | k in Unnormalized(cfg, scores, validators)
      ensures Unnormalized(cfg, scores, validators)[k] >= 0.0
    {
      WeightRange(cfg, Get(NormalizedStake(validators), k),
                  Get(DampedScore(scores, validators, cfg.scoreFloorKappa), k));
    }
  }

  lemma EnvelopeBound(part: real, whole: real, s: real, x: real)
    requires 0.0 <= s <= 1.0 && s <= part <= x && whole >= part + 1.0 - s && whole > 0.0
    ensures x + 1.0 - s > 0.0
    ensures part / whole <= x / (x + 1.0 - s) <= x
  {
    var r := 1.0 - s;
    QuotientMono(part, whole, part, part + r);
    GrowingShare(part, x, r);
    QuotientAtMostNumerator(x, x + 1.0 - s);
    assert x + r == x + 1.0 - s;
  }

  /** y / (y + r) grows with y. */
  lemma GrowingShare(y: real, x: real, r: real)
    requires 0.0 <= y <= x && r >= 0.0 && y + r > 0.0
    ensures y / (y + r) <= x / (x + r)
  {
    MulMono(r, y, x);
    CrossedShare(y, x, r);
    DivLeqDiv(y, y + r, x, x + r);
  }

  lemma CrossedShare(y: real, x: real, r: real)
    requires r * y <= r * x
    ensures y * (x + r) <= x * (y + r)
  {
    assert y * (x + r) == y * x + r * y;
    assert x * (y + r) == y * x + r * x;
  }

  lemma QuotientAtMostNumerator(x: real, d: real)
    requires x >= 0.0 && d >= 1.0
    ensures x / d <= x
  {
    MulAtLeastSelf(x, d);
    assert x / d * d == x;
    assert x * d / d == x;
    DivMonoNumerator(x, x * d, d);
  }

  // ----- splitting an identity

  predicate DistinctAddresses(validators: seq<Validator>) {
    forall i, j :: 0 <= i < j < |validators| ==> validators[i].address != validators[j].address
  }

  function StakeSum(validators: seq<Validator>): (r: real)
    ensures r >= 0.0
  {
    if validators == [] then 0.0
    else StakeSum(validators[..|validators| - 1]) + Max(validators[|validators| - 1].stake, 0.0)
  }

  lemma {:induction false} AddressIn(validators: seq<Validator>, x: string)
    ensures x in Addresses(validators) <==> exists i :: 0 <= i < |validators| && validators[i].address == x
  {
    if validators != [] {
      var n := |validators| - 1;
      AddressIn(validators[..n], x);
      if i :| 0 <= i < n && validators[..n][i].address == x {
        assert validators[i].address == x;
      }
      if i :| 0 <= i < |validators| && validators[i].address == x {
        if i < n {
          assert validators[..n][i].address == x;
        }
      }
    }
  }

  lemma {:induction false} StakeSums(m: map<string, real>, validators: seq<Validator>)
    requires DistinctAddresses(validators)
    requires forall i :: 0 <= i < |validators| ==> Get(m, validators[i].address) == Max(validators[i].stake, 0.0)
    ensures SumOver(m, Addresses(validators)) == StakeSum(validators)
  {
    if validators != [] {
      var n := |validators| - 1;
      StakeSums(m, validators[..n]);
      LastAddressNew(validators);
      SumOverRemove(m, Addresses(validators), validators[n].address);
      assert Addresses(validators) - {validators[n].address} == Addresses(validators[..n]);
    }
  }

  lemma {:induction false} ScoreSums(m: map<string, real>, scores: map<string, real>, validators: seq<Validator>)
    requires DistinctAddresses(validators)
    requires forall i :: 0 <= i < |validators| ==>
               Get(m, validators[i].address) == ScoreOf(scores, validators[i].address)
    ensures SumOver(m, Addresses(validators)) == ScoreSum(scores, validators)
  {
    if validators != [] {
      var n := |validators| - 1;
      ScoreSums(m, scores, validators[..n]);
      LastAddressNew(validators);
      SumOverRemove(m, Addresses(validators), validators[n].address);
      assert Addresses(validators) - {validators[n].address} == Addresses(validators[..n]);
    }
  }

  /** The floor keeps the whole damped mass below one, and small while the scores are small. */
  lemma DampedMass(scores: map<string, real>, validators: seq<Validator>, kappa: real)
    requires kappa > 0.0 && DistinctAddresses(validators)
    ensures MapSum(DampedScore(scores, validators, kappa))
            == ScoreSum(scores, validators) / (kappa + ScoreSum(scores, validators))
    ensures MapSum(DampedScore(scores, validators, kappa)) < 1.0
  {
    hide SumOver, DampedScore, ScoreSum, MapSum;
    var members, d := Addresses(validators), kappa + ScoreSum(scores, validators);
    var plain := map a | a in members :: ScoreOf(scores, a);
    forall i | 0 <= i < |validators|
      ensures validators[i].address in members
    {
      AddressIn(validators, validators[i].address);
    }
    ScoreSums(plain, scores, validators);
    DampedIsDivided(plain, scores, validators, kappa);
    BelowDenominator(ScoreSum(scores, validators), d);
  }

  lemma DampedIsDivided(plain: map<string, real>, scores: map<string, real>, validators: seq<Validator>, kappa: real)
    requires kappa > 0.0 && plain == map a | a in Addresses(validators) :: ScoreOf(scores, a)
    ensures MapSum(DampedScore(scores, validators, kappa))
         == SumOver(plain, Addresses(validators)) / (kappa + ScoreSum(scores, validators))
  {
    hide SumOver, ScoreOf, ScoreSum;
    var damped, d := DampedScore(scores, validators, kappa), kappa + ScoreSum(scores, validators);
    SumOverDivide(plain, damped, Addresses(validators), d);
    assert damped.Keys == Addresses(validators);
  }

  lemma BelowDenominator(x: real, d: real)
    requires 0.0 <= x < d
    ensures x / d < 1.0
  {
    if x / d >= 1.0 {
      MulAtLeastSelf(d, x / d);
    }
  }

  lemma LastAddressNew(validators: seq<Validator>)
    requires validators != [] && DistinctAddresses(validators)
    ensures validators[|validators| - 1].address !in Addresses(validators[..|validators| - 1])
  {
    AddressIn(validators[..|validators| - 1], validators[|validators| - 1].address);
  }

  lemma {:induction false} RawStakeOf(validators: seq<Validator>, i: nat)
    requires DistinctAddresses(validators) && i < |validators|
    ensures validators[i].address in Addresses(validators)
    ensures Get(RawStakes(validators), validators[i].address) == Max(validators[i].stake, 0.0)
  {
    var n := |validators| - 1;
    if i < n {
      RawStakeOf(validators[..n], i);
      assert validators[i].address != validators[n].address;
    }
  }

  lemma RawStakesSum(validators: seq<Validator>)
    requires DistinctAddresses(validators)
    ensures MapSum(RawStakes(validators)) == StakeSum(validators)
  {
    forall i | 0 <= i < |validators|
      ensures Get(RawStakes(validators), validators[i].address) == Max(validators[i].stake, 0.0)
    {
      RawStakeOf(validators, i);
    }
    StakeSums(RawStakes(validators), validators);
  }

  lemma {:induction false} StakeSumConcat(a: seq<Validator>, b: seq<Validator>)
    ensures StakeSum(a + b) == StakeSum(a) + StakeSum(b)
    decreases |b|
  {
    if b == [] {
      assert a + b == a;
    } else {
      assert (a + b)[..|a + b| - 1] == a + b[..|b| - 1];
      StakeSumConcat(a, b[..|b| - 1]);
    }
  }

  lemma {:induction false} ScoreSumConcat(scores: map<string, real>, a: seq<Validator>, b: seq<Validator>)
    ensures ScoreSum(scores, a + b) == ScoreSum(scores, a) + ScoreSum(scores, b)
    decreases |b|
  {
    if b == [] {
      assert a + b == a;
    } else {
      assert (a + b)[..|a + b| - 1] == a + b[..|b| - 1];
      ScoreSumConcat(scores, a, b[..|b| - 1]);
    }
  }

  lemma {:induction false} ScoreSumAgrees(scores: map<string, real>, scores': map<string, real>, a: seq<Validator>)
    requires forall i :: 0 <= i < |a| ==> ScoreOf(scores, a[i].address) == ScoreOf(scores', a[i].address)
    ensures ScoreSum(scores, a) == ScoreSum(scores', a)
  {
    if a != [] {
      ScoreSumAgrees(scores, scores', a[..|a| - 1]);
    }
  }

  /** The unnormalised weight of a listed validator in terms of the list alone. */
  lemma WeightOfListed(cfg: ValidatedConfig, scores: map<string, real>, validators: seq<Validator>, i: nat)
    requires DistinctAddresses(validators) && i < |validators| && StakeSum(validators) > 0.0
    ensures validators[i].address in Addresses(validators)
    ensures Unnormalized(cfg, scores, validators)[validators[i].address]
         == ListedWeight(cfg, scores, validators[i], StakeSum(validators), ScoreSum(scores, validators))
  {
    hide Weight, SumOver, NormalizeMap, RawStakes, StakeSum, ScoreSum, MapSum;
    var x := validators[i].address;
    RawStakeOf(validators, i);
    RawStakesSum(validators);
    NormalizedShares(RawStakes(validators));
    assert Get(NormalizedStake(validators), x) == Max(validators[i].stake, 0.0) / StakeSum(validators);
  }

  function ListedWeight(cfg: ValidatedConfig, scores: map<string, real>, v: Validator, stakes: real,
                        scoreSum: real): real
    requires stakes > 0.0 && scoreSum >= 0.0
  {
    Weight(cfg, Max(v.stake, 0.0) / stakes, ScoreOf(scores, v.address) / (cfg.scoreFloorKappa + scoreSum))
  }

  /** The pooled stake and score of a sublist. */
  lemma PooledHoldings(cfg: ValidatedConfig, scores: map<string, real>, validators: seq<Validator>,
                       parts: seq<Validator>)
    requires DistinctAddresses(validators) && DistinctAddresses(parts) && StakeSum(validators) > 0.0
    requires forall i :: 0 <= i < |parts| ==> parts[i] in validators
    ensures Addresses(parts) <= Addresses(validators)
    ensures SumOver(NormalizedStake(validators), Addresses(parts)) == StakeSum(parts) / StakeSum(validators)
    ensures SumOver(DampedScore(scores, validators, cfg.scoreFloorKappa), Addresses(parts))
         == ScoreSum(scores, parts) / (cfg.scoreFloorKappa + ScoreSum(scores, validators))
  {
    hide SumOver, ValidConfig;
    var a := Addresses(parts);
    forall x | x in a
      ensures x in Addresses(validators)
    {
      AddressIn(parts, x);
      AddressIn(validators, x);
      var i :| 0 <= i < |parts| && parts[i].address == x;
      var j :| 0 <= j < |validators| && validators[j] == parts[i];
      assert validators[j].address == x;
    }
    PooledStake(validators, parts);
    PooledScore(cfg, scores, validators, parts);
  }

  lemma PooledStake(validators: seq<Validator>, parts: seq<Validator>)
    requires DistinctAddresses(validators) && DistinctAddresses(parts) && StakeSum(validators) > 0.0
    requires forall i :: 0 <= i < |parts| ==> parts[i] in validators
    requires Addresses(parts) <= Addresses(validators)
    ensures SumOver(NormalizedStake(validators), Addresses(parts)) == StakeSum(parts) / StakeSum(validators)
  {
    hide SumOver;
    var raw := RawStakes(validators);
    RawStakesSum(validators);
    forall i | 0 <= i < |parts|
      ensures Get(raw, parts[i].address) == Max(parts[i].stake, 0.0)
    {
      var j :| 0 <= j < |validators| && validators[j] == parts[i];
      RawStakeOf(validators, j);
    }
    StakeSums(raw, parts);
    NormalizedShares(raw);
  }

  lemma PooledScore(cfg: ValidatedConfig, scores: map<string, real>, validators: seq<Validator>, parts: seq<Validator>)
    requires DistinctAddresses(parts) && Addresses(parts) <= Addresses(validators)
    ensures SumOver(DampedScore(scores, validators, cfg.scoreFloorKappa), Addresses(parts))
         == ScoreSum(scores, parts) / (cfg.scoreFloorKappa + ScoreSum(scores, validators))
  {
    hide SumOver;
    var m := map x | x in Addresses(parts) :: ScoreOf(scores, x);
    forall i | 0 <= i < |parts|
      ensures parts[i].address in Addresses(parts)
    {
      AddressIn(parts, parts[i].address);
    }
    ScoreSums(m, scores, parts);
    SumOverDivide(m, DampedScore(scores, validators, cfg.scoreFloorKappa), Addresses(parts),
                  cfg.scoreFloorKappa + ScoreSum(scores, validators));
  }

  /** One identity v is replaced by the identities `parts`, which share out its stake and its active score. */
  ghost predicate SplitsUp(scores: map<string, real>, scores': map<string, real>,
                           pre: seq<Validator>, v: Validator, parts: seq<Validator>, post: seq<Validator>)
  {
    && DistinctAddresses(pre + [v] + post) && DistinctAddresses(pre + parts + post)
    && StakeSum(parts) == Max(v.stake, 0.0)
    && ScoreSum(scores', parts) == ScoreOf(scores, v.address)
    && (forall i :: 0 <= i < |pre| ==> ScoreOf(scores', pre[i].address) == ScoreOf(scores, pre[i].address))
    && (forall i :: 0 <= i < |post| ==> ScoreOf(scores', post[i].address) == ScoreOf(scores, post[i].address))
  }

  lemma SplitKeepsTotals(scores: map<string, real>, scores': map<string, real>,
                         pre: seq<Validator>, v: Validator, parts: seq<Validator>, post: seq<Validator>)
    requires SplitsUp(scores, scores', pre, v, parts, post)
    ensures StakeSum(pre + parts + post) == StakeSum(pre + [v] + post)
    ensures ScoreSum(scores', pre + parts + post) == ScoreSum(scores, pre + [v] + post)
  {
    StakeSumConcat(pre + parts, post);
    StakeSumConcat(pre, parts);
    StakeSumConcat(pre + [v], post);
    StakeSumConcat(pre, [v]);
    ScoreSumConcat(scores', pre + parts, post);
    ScoreSumConcat(scores', pre, parts);
    ScoreSumConcat(scores, pre + [v], post);
    ScoreSumConcat(scores, pre, [v]);
    ScoreSumAgrees(scores, scores', pre);
    ScoreSumAgrees(scores, scores', post);
    assert [v][..0] == [];
    assert StakeSum([v]) == StakeSum([]) + Max(v.stake, 0.0);
    assert ScoreSum(scores, [v]) == ScoreSum(scores, []) + ScoreOf(scores, v.address);
  }

  /** Splitting never gains: the parts' unnormalised weights add up to at most the weight of the undivided identity. */
  lemma SplitNeverGains(cfg: ValidatedConfig, scores: map<string, real>, scores': map<string, real>,
                        pre: seq<Validator>, v: Validator, parts: seq<Validator>, post: seq<Validator>)
    requires SplitsUp(scores, scores', pre, v, parts, post) && StakeSum(pre + [v] + post) > 0.0
    ensures v.address in Addresses(pre + [v] + post) && Addresses(parts) <= Addresses(pre + parts + post)
    ensures SumOver(Unnormalized(cfg, scores', pre + parts + post), Addresses(parts))
         <= Unnormalized(cfg, scores, pre + [v] + post)[v.address]
  {
    hide SumOver, Weight, DampedScore, NormalizedStake, Unnormalized, RawStakes;
    var vs, vs', a := pre + [v] + post, pre + parts + post, Addresses(parts);
    SplitKeepsTotals(scores, scores', pre, v, parts, post);
    PartsDistinct(pre, parts, post);
    assert vs[|pre|] == v;
    WeightOfListed(cfg, scores, vs, |pre|);
    RawStakesSum(vs');
    PooledHoldings(cfg, scores', vs', parts);
    NonNegativeHoldings(cfg, scores', vs', a);
    CoalitionWeight(cfg, Unnormalized(cfg, scores', vs'), NormalizedStake(vs'),
                    DampedScore(scores', vs', cfg.scoreFloorKappa), a);
  }

  /** ... while everyone else's weight stays what it was. */
  lemma SplitKeepsOthers(cfg: ValidatedConfig, scores: map<string, real>, scores': map<string, real>,
                         pre: seq<Validator>, v: Validator, parts: seq<Validator>, post: seq<Validator>, i: nat)
    requires SplitsUp(scores, scores', pre, v, parts, post) && StakeSum(pre + [v] + post) > 0.0
    requires i < |pre + post|
    ensures var a := (pre + post)[i].address;
            && a in Addresses(pre + [v] + post) && a in Addresses(pre + parts + post)
            && Unnormalized(cfg, scores', pre + parts + post)[a] == Unnormalized(cfg, scores, pre + [v] + post)[a]
  {
    hide SumOver, Weight, DampedScore, NormalizedStake, Unnormalized, RawStakes;
    var vs, vs' := pre + [v] + post, pre + parts + post;
    SplitKeepsTotals(scores, scores', pre, v, parts, post);
    var j, k := if i < |pre| then i else i + 1, if i < |pre| then i else i + |parts|;
    assert vs[j] == (pre + post)[i] && vs'[k] == (pre + post)[i];
    assert i < |pre| ==> (pre + post)[i] == pre[i];
    assert i >= |pre| ==> (pre + post)[i] == post[i - |pre|];
    WeightOfListed(cfg, scores, vs, j);
    WeightOfListed(cfg, scores', vs', k);
  }

  /** Hence the frozen share of the parts together is at most that of the undivided identity. */
  lemma SplitShareNeverGains(cfg: ValidatedConfig, scores: map<string, real>, scores': map<string, real>,
                             pre: seq<Validator>, v: Validator, parts: seq<Validator>, post: seq<Validator>)
    requires SplitsUp(scores, scores', pre, v, parts, post) && StakeSum(pre + [v] + post) > 0.0
    ensures v.address in Addresses(pre + [v] + post)
    ensures SumOver(FrozenWeights(cfg, scores', pre + parts + post), Addresses(parts))
         <= FrozenWeights(cfg, scores, pre + [v] + post)[v.address]
  {
    hide SumOver, MapSum, Unnormalized, FrozenWeights, RawStakes, StakeSum, ScoreSum, SplitsUp;
    var vs, vs', a := pre + [v] + post, pre + parts + post, Addresses(parts);
    var u, u', others := Unnormalized(cfg, scores, vs), Unnormalized(cfg, scores', vs'), Addresses(pre + post);
    SplitStakes(scores, scores', pre, v, parts, post);
    SplitNeverGains(cfg, scores, scores', pre, v, parts, post);
    OthersTotal(cfg, scores, scores', pre, v, parts, post);
    FrozenShare(cfg, scores, vs, others, v.address);
    FrozenShare(cfg, scores', vs', a, v.address);
    GrowingShare(SumOver(u', a), u[v.address], SumOver(u, others));
  }

  /** Splitting leaves a positive stake total on both sides. */
  lemma SplitStakes(scores: map<string, real>, scores': map<string, real>,
                    pre: seq<Validator>, v: Validator, parts: seq<Validator>, post: seq<Validator>)
    requires SplitsUp(scores, scores', pre, v, parts, post) && StakeSum(pre + [v] + post) > 0.0
    ensures MapSum(RawStakes(pre + [v] + post)) > 0.0 && MapSum(RawStakes(pre + parts + post)) > 0.0
  {
    hide MapSum, RawStakes, StakeSum, ScoreSum;
    SplitKeepsTotals(scores, scores', pre, v, parts, post);
    RawStakesSum(pre + [v] + post);
    RawStakesSum(pre + parts + post);
  }

  /** Frozen shares in terms of the unnormalised weights. */
  lemma FrozenShare(cfg: ValidatedConfig, scores: map<string, real>, validators: seq<Validator>, a: set<string>,
                    x: string)
    requires MapSum(RawStakes(validators)) > 0.0 && a <= Addresses(validators)
    ensures var u := Unnormalized(cfg, scores, validators);
            && MapSum(u) >= 1.0 && SumOver(u, a) >= 0.0
            && SumOver(FrozenWeights(cfg, scores, validators), a) == SumOver(u, a) / MapSum(u)
            && (x in u ==> u[x] >= 0.0 && x in FrozenWeights(cfg, scores, validators)
                           && FrozenWeights(cfg, scores, validators)[x] == u[x] / MapSum(u))
  {
    hide SumOver, MapSum, Unnormalized, NormalizeMap, RawStakes;
    var u := Unnormalized(cfg, scores, validators);
    WholeAtLeastOne(cfg, scores, validators);
    UnnormalizedNonNegative(cfg, scores, validators);
    NormalizedShares(u);
    SumOverNonNegative(u, a);
  }

  lemma WholeAtLeastOne(cfg: ValidatedConfig, scores: map<string, real>, validators: seq<Validator>)
    requires MapSum(RawStakes(validators)) > 0.0
    ensures MapSum(Unnormalized(cfg, scores, validators)) >= 1.0
  {
    hide Weight, SumOver, DampedScore, NormalizeMap, RawStakes;
    NonNegativeHoldings(cfg, scores, validators, Addresses(validators));
    NormalizedShares(RawStakes(validators));
    SharesOfWhole(cfg, Unnormalized(cfg, scores, validators), NormalizedStake(validators),
                  DampedScore(scores, validators, cfg.scoreFloorKappa), Addresses(validators), {});
  }

  /** Both totals are the others' weights plus the identity's, respectively the parts'. */
  lemma OthersTotal(cfg: ValidatedConfig, scores: map<string, real>, scores': map<string, real>,
                    pre: seq<Validator>, v: Validator, parts: seq<Validator>, post: seq<Validator>)
    requires SplitsUp(scores, scores', pre, v, parts, post) && StakeSum(pre + [v] + post) > 0.0
    ensures var u, u' := Unnormalized(cfg, scores, pre + [v] + post), Unnormalized(cfg, scores', pre + parts + post);
            && v.address in u && Addresses(pre + post) <= u.Keys
            && MapSum(u) == u[v.address] + SumOver(u, Addresses(pre + post))
            && MapSum(u') == SumOver(u', Addresses(parts)) + SumOver(u, Addresses(pre + post))
  {
    hide SumOver, Unnormalized, StakeSum, ScoreSum;
    var vs, vs', others, a := pre + [v] + post, pre + parts + post, Addresses(pre + post), Addresses(parts);
    var u, u' := Unnormalized(cfg, scores, vs), Unnormalized(cfg, scores', vs');
    AddressParts(pre, [v], post);
    AddressParts(pre, parts, post);
    assert [v][..0] == [];
    assert Addresses([v]) == Addresses([]) + {v.address};
    SumOverRemove(u, u.Keys, v.address);
    assert u.Keys - {v.address} == others;
    SumOverUnion(u', a, others);
    forall k | k in others
      ensures Get(u, k) == Get(u', k)
    {
      AddressIn(pre + post, k);
      var i :| 0 <= i < |pre + post| && (pre + post)[i].address == k;
      SplitKeepsOthers(cfg, scores, scores', pre, v, parts, post, i);
    }
    SumOverAgree(u, u', others);
  }

  lemma AddressParts(pre: seq<Validator>, mid: seq<Validator>, post: seq<Validator>)
    requires DistinctAddresses(pre + mid + post)
    ensures Addresses(pre + mid + post) == Addresses(mid) + Addresses(pre + post)
    ensures Addresses(mid) !! Addresses(pre + post)
  {
    AddressesConcat(pre + mid, post);
    AddressesConcat(pre, mid);
    AddressesConcat(pre, post);
    var all := pre + mid + post;
    forall x | x in Addresses(mid)
      ensures x !in Addresses(pre + post)
    {
      AddressIn(mid, x);
      AddressIn(pre + post, x);
      var i :| 0 <= i < |mid| && mid[i].address == x;
      assert all[|pre| + i].address == x;
      forall j | 0 <= j < |pre + post|
        ensures (pre + post)[j].address != x
      {
        assert (pre + post)[j] == all[if j < |pre| then j else j + |mid|];
      }
    }
  }

  lemma {:induction false} AddressesConcat(a: seq<Validator>, b: seq<Validator>)
    ensures Addresses(a + b) == Addresses(a) + Addresses(b)
    decreases |b|
  {
    if b == [] {
      assert a + b == a;
    } else {
      assert (a + b)[..|a + b| - 1] == a + b[..|b| - 1];
      AddressesConcat(a, b[..|b| - 1]);
    }
  }

  lemma PartsDistinct(pre: seq<Validator>, parts: seq<Validator>, post: seq<Validator>)
    requires DistinctAddresses(pre + parts + post)
    ensures DistinctAddresses(parts)
    ensures forall i :: 0 <= i < |parts| ==> parts[i] in pre + parts + post
  {
    var all := pre + parts + post;
    assert forall i :: 0 <= i < |parts| ==> parts[i] == all[|pre| + i];
  }

  lemma NonNegativeHoldings(cfg: ValidatedConfig, scores: map<string, real>, validators: seq<Validator>, a: set<string>)
    requires MapSum(RawStakes(validators)) > 0.0 && a <= Addresses(validators)
    ensures forall k :: k in a ==> Get(NormalizedStake(validators), k) >= 0.0
    ensures forall k :: k in a ==> Get(DampedScore(scores, validators, cfg.scoreFloorKappa), k) >= 0.0
    ensures forall k :: k in a ==>
              Get(Unnormalized(cfg, scores, validators), k)
              == Weight(cfg, Get(NormalizedStake(validators), k),
                        Get(DampedScore(scores, validators, cfg.scoreFloorKappa), k))
  {
    hide Weight, SumOver;
    NormalizedShares(RawStakes(validators));
    DampedNonNegative(scores, validators, cfg.scoreFloorKappa);
  }
}
