/**
 What the frozen weights are in terms of the recorded scores and stakes, and how
 they respond to a score. Proved: the damped score of a listed validator; a larger
 recorded score strictly raises the validator's own frozen weight and lowers the
 others' together, each of them relative to it; and exactly when one of the others
 loses share on its own.
 */
module WeightLaws {
  import opened RealMath
  import opened PathCredit
  import opened Ledger
  import opened Config
  import opened Weights
  import opened Scores

  // ----- damped scores

  /** The recorded scores that count: the positive ones of listed validators. */
  ghost function Counted(scores: map<string, real>, validators: seq<Validator>): map<string, real> {
    map a | a in scores && a in Addresses(validators) && scores[a] > 0.0 :: scores[a]
  }

  lemma CountedTotal(scores: map<string, real>, validators: seq<Validator>)
    requires DistinctAddresses(validators)
    ensures MapSum(Counted(scores, validators)) == ScoreSum(scores, validators)
  {
    hide MapSum, SumOver;
    var counted := Counted(scores, validators);
    forall i | 0 <= i < |validators|
      ensures Get(counted, validators[i].address) == ScoreOf(scores, validators[i].address)
    {
      AddressIn(validators, validators[i].address);
    }
    ScoreSums(counted, scores, validators);
    SumOverCover(counted, Addresses(validators));
  }

  /** The damped score of a listed validator is its counted score over the floor plus all counted scores. */
  lemma DampedScoreIs(scores: map<string, real>, validators: seq<Validator>, kappa: real, a: string)
    requires kappa > 0.0 && DistinctAddresses(validators) && a in Addresses(validators)
    ensures MapSum(Counted(scores, validators)) >= 0.0
    ensures Get(DampedScore(scores, validators, kappa), a)
         == Get(Counted(scores, validators), a) / (kappa + MapSum(Counted(scores, validators)))
  {
    hide MapSum;
    CountedTotal(scores, validators);
  }

  /** If only listed validators have scores and none is negative, the scores count as recorded. */
  lemma DampedScoreAsRecorded(scores: map<string, real>, validators: seq<Validator>, kappa: real, a: string)
    requires kappa > 0.0 && DistinctAddresses(validators) && a in Addresses(validators)
    requires scores.Keys <= Addresses(validators) && forall x :: x in scores ==> scores[x] >= 0.0
    ensures MapSum(scores) >= 0.0
    ensures Get(DampedScore(scores, validators, kappa), a) == Get(scores, a) / (kappa + MapSum(scores))
  {
    hide MapSum, SumOver;
    var counted := Counted(scores, validators);
    DampedScoreIs(scores, validators, kappa, a);
    SumOverCover(scores, Addresses(validators));
    SumOverCover(counted, Addresses(validators));
    SumOverAgree(scores, counted, Addresses(validators));
  }

  // ----- the response of one weight

  /** The bonus in closed form: the cap times the score's part of score and weighted stake. */
  lemma BonusIs(cfg: ValidatedConfig, s: real, c: real)
    requires s >= 0.0 && c >= 0.0
    ensures s == 0.0 ==> Bonus(cfg, s, c) == 0.0
    ensures s > 0.0 ==> cfg.bonusZeta * s + c > 0.0 && Bonus(cfg, s, c) == cfg.bonusCap * (c / (cfg.bonusZeta * s + c))
  {
    var z, cap := cfg.bonusZeta, cfg.bonusCap;
    if s > 0.0 {
      MulPositive(z, s);
      QuotientNonNegative(c, s);
      SameFraction(z, s, c);
      FactorOut(cap, c / s, z + c / s);
      if c == 0.0 {
        assert c / s == 0.0 && c / (z * s + c) == 0.0;
      }
    }
  }

  lemma SameFraction(z: real, s: real, c: real)
    requires z > 0.0 && s > 0.0 && c >= 0.0 && c / s >= 0.0 && z * s > 0.0
    ensures (c / s) / (z + c / s) == c / (z * s + c)
  {
    var q := c / s;
    assert c == q * s;
    var x := q / (z + q);
    assert q == x * (z + q);
    assert c == x * (z * s + c);
  }

  lemma StrictShare(x: real, y: real, r: real)
    requires 0.0 <= x < y && r > 0.0
    ensures x / (x + r) < y / (y + r)
  {
    MulStrict(r, x, y);
    StrictFractions(x, x + r, y, y + r);
  }

  lemma StrictFractions(a: real, b: real, c: real, d: real)
    requires b > 0.0 && d > 0.0 && a * d < c * b
    ensures a / b < c / d
  {
    DivLeqDiv(c, d, a, b);
  }

  lemma FactorOut(s: real, c: real, d: real)
    requires d > 0.0
    ensures s * c / d == s * (c / d)
  {}

  /** The blend grows strictly with the score. */
  lemma BlendStrict(z: real, s: real, c: real, c': real)
    requires z > 0.0 && s > 0.0 && 0.0 <= c < c'
    ensures Blend(z, s, c) < Blend(z, s, c')
  {
    MulPositive(z, s);
    var r := z * s;
    StrictShare(c, c', r);
    MulStrict(s, c / (c + r), c' / (c' + r));
    FactorOut(s, c, c + r);
    FactorOut(s, c', c' + r);
    BlendIs(z, s, c, r);
    BlendIs(z, s, c', r);
  }

  lemma BlendIs(z: real, s: real, c: real, r: real)
    requires r == z * s && c + r > 0.0
    ensures Blend(z, s, c) == s * c / (c + r)
  {}

  lemma WeightStrict(cfg: ValidatedConfig, s: real, c: real, c': real)
    requires cfg.eta > 0.0 && cfg.bonusCap > 0.0 && s > 0.0 && 0.0 <= c < c'
    ensures Weight(cfg, s, c) < Weight(cfg, s, c')
  {
    hide Weight, Blend;
    WeightForm(cfg, s, c);
    WeightForm(cfg, s, c');
    BlendStrict(cfg.bonusZeta, s, c, c');
    MulPositive(cfg.eta, cfg.bonusCap);
    MulStrict(cfg.eta * cfg.bonusCap, Blend(cfg.bonusZeta, s, c), Blend(cfg.bonusZeta, s, c'));
  }

  lemma WeightMono(cfg: ValidatedConfig, s: real, c: real, c': real)
    requires s >= 0.0 && 0.0 <= c <= c'
    ensures Weight(cfg, s, c) <= Weight(cfg, s, c')
  {
    hide Weight, Blend;
    WeightForm(cfg, s, c);
    WeightForm(cfg, s, c');
    if s > 0.0 && c < c' {
      BlendStrict(cfg.bonusZeta, s, c, c');
    } else if s == 0.0 {
      BlendZero(cfg.bonusZeta, s, c);
      BlendZero(cfg.bonusZeta, s, c');
    }
    MulNonNegative(cfg.eta, cfg.bonusCap);
    MulMono(cfg.eta * cfg.bonusCap, Blend(cfg.bonusZeta, s, c), Blend(cfg.bonusZeta, s, c'));
  }

  // ----- raising one score

  /** Validator i has stake, its score is raised to the positive y, and the bonus is switched on. */
  ghost predicate Raises(cfg: ValidatedConfig, scores: map<string, real>, validators: seq<Validator>, i: nat, y: real) {
    && cfg.eta > 0.0 && cfg.bonusCap > 0.0 && DistinctAddresses(validators)
    && i < |validators| && validators[i].stake > 0.0
    && y > 0.0 && y > Get(scores, validators[i].address)
  }

  lemma {:induction false} RaisedSum(scores: map<string, real>, validators: seq<Validator>, a: string, y: real)
    requires DistinctAddresses(validators) && y > 0.0
    ensures ScoreSum(scores[a := y], validators)
         == ScoreSum(scores, validators) + (if a in Addresses(validators) then y - ScoreOf(scores, a) else 0.0)
  {
    if validators != [] {
      RaisedSum(scores, validators[..|validators| - 1], a, y);
      LastAddressNew(validators);
    }
  }

  lemma {:induction false} ScoreWithinSum(scores: map<string, real>, validators: seq<Validator>, a: string)
    requires a in Addresses(validators)
    ensures ScoreOf(scores, a) <= ScoreSum(scores, validators)
  {
    if a != validators[|validators| - 1].address {
      ScoreWithinSum(scores, validators[..|validators| - 1], a);
    }
  }

  lemma {:induction false} StakeWithinSum(validators: seq<Validator>, i: nat)
    requires i < |validators|
    ensures Max(validators[i].stake, 0.0) <= StakeSum(validators)
  {
    if i < |validators| - 1 {
      StakeWithinSum(validators[..|validators| - 1], i);
    }
  }

  /** The damped scores move apart: a's strictly up, nobody else's up. */
  lemma DampedMoves(cfg: ValidatedConfig, scores: map<string, real>, validators: seq<Validator>, i: nat, y: real,
                    b: string)
    requires Raises(cfg, scores, validators, i, y) && b in Addresses(validators)
    ensures var a, kappa := validators[i].address, cfg.scoreFloorKappa;
            var c := Get(DampedScore(scores, validators, kappa), b);
            var c' := Get(DampedScore(scores[a := y], validators, kappa), b);
            0.0 <= c && 0.0 <= c' && (if b == a then c < c' else c' <= c)
  {
    hide ScoreSum;
    var a, kappa := validators[i].address, cfg.scoreFloorKappa;
    var s, s' := ScoreSum(scores, validators), ScoreSum(scores[a := y], validators);
    AddressIn(validators, a);
    RaisedSum(scores, validators, a, y);
    ScoreWithinSum(scores, validators, a);
    DampedNonNegative(scores, validators, kappa);
    DampedNonNegative(scores[a := y], validators, kappa);
    if b == a {
      var x, r := ScoreOf(scores, a), kappa + s - ScoreOf(scores, a);
      StrictShare(x, y, r);
      assert x + r == kappa + s && y + r == kappa + s';
    } else {
      var z := ScoreOf(scores, b);
      MulMono(z, kappa + s, kappa + s');
      DivLeqDiv(z, kappa + s', z, kappa + s);
    }
  }

  /** So do the unnormalised weights. */
  lemma UnnormalizedMoves(cfg: ValidatedConfig, scores: map<string, real>, validators: seq<Validator>, i: nat,
                          y: real, b: string)
    requires Raises(cfg, scores, validators, i, y) && b in Addresses(validators)
    ensures var a := validators[i].address;
            var u, u' := Unnormalized(cfg, scores, validators), Unnormalized(cfg, scores[a := y], validators);
            u[b] >= 0.0 && u'[b] >= 0.0 && if b == a then 0.0 < u[b] < u'[b] else u'[b] <= u[b]
  {
    hide Weight, DampedScore, NormalizedStake, RawStakes, MapSum;
    var a := validators[i].address;
    StakeIsShare(validators, i);
    NormalizedNonNegative(validators, b);
    DampedMoves(cfg, scores, validators, i, y, b);
    var s := Get(NormalizedStake(validators), b);
    var c := Get(DampedScore(scores, validators, cfg.scoreFloorKappa), b);
    var c' := Get(DampedScore(scores[a := y], validators, cfg.scoreFloorKappa), b);
    WeightRange(cfg, s, c);
    WeightRange(cfg, s, c');
    if b == a {
      WeightStrict(cfg, s, c, c');
    } else {
      WeightMono(cfg, s, c', c);
    }
  }

  lemma StakeIsShare(validators: seq<Validator>, i: nat)
    requires DistinctAddresses(validators) && i < |validators| && validators[i].stake > 0.0
    ensures validators[i].address in Addresses(validators) && MapSum(RawStakes(validators)) > 0.0
    ensures Get(NormalizedStake(validators), validators[i].address) > 0.0
  {
    hide MapSum, RawStakes, NormalizeMap;
    RawStakeOf(validators, i);
    RawStakesSum(validators);
    StakeWithinSum(validators, i);
    NormalizedShares(RawStakes(validators));
    QuotientPositive(validators[i].stake, MapSum(RawStakes(validators)));
  }

  lemma NormalizedNonNegative(validators: seq<Validator>, b: string)
    requires MapSum(RawStakes(validators)) > 0.0
    ensures Get(NormalizedStake(validators), b) >= 0.0
  {
    hide MapSum, RawStakes, NormalizeMap;
    NormalizedShares(RawStakes(validators));
  }

  /** The totals split into the raised validator's part and everybody else's. */
  lemma TotalsMove(cfg: ValidatedConfig, scores: map<string, real>, validators: seq<Validator>, i: nat, y: real)
    requires Raises(cfg, scores, validators, i, y)
    ensures var a := validators[i].address;
            var u, u' := Unnormalized(cfg, scores, validators), Unnormalized(cfg, scores[a := y], validators);
            var others := Addresses(validators) - {a};
            && a in Addresses(validators)
            && MapSum(u) == u[a] + SumOver(u, others) && MapSum(u') == u'[a] + SumOver(u', others)
            && 0.0 <= SumOver(u', others) <= SumOver(u, others) && 0.0 < u[a] < u'[a]
  {
    hide Unnormalized, SumOver;
    var a := validators[i].address;
    var u, u' := Unnormalized(cfg, scores, validators), Unnormalized(cfg, scores[a := y], validators);
    var others := Addresses(validators) - {a};
    AddressIn(validators, a);
    SumOverRemove(u, Addresses(validators), a);
    SumOverRemove(u', Addresses(validators), a);
    forall b | b in Addresses(validators)
      ensures u[b] >= 0.0 && u'[b] >= 0.0 && if b == a then 0.0 < u[b] < u'[b] else u'[b] <= u[b]
    {
      UnnormalizedMoves(cfg, scores, validators, i, y, b);
    }
    SumOverLeq(u', u, others);
    SumOverNonNegative(u', others);
  }

  /**
   A larger recorded score strictly raises the validator's frozen weight as soon as somebody else
   has stake, and strictly lowers what all others hold together.
   */
  lemma ScoreRaisesWeight(cfg: ValidatedConfig, scores: map<string, real>, validators: seq<Validator>, i: nat, j: nat,
                          y: real)
    requires Raises(cfg, scores, validators, i, y)
    requires j < |validators| && j != i && validators[j].stake > 0.0
    ensures var a := validators[i].address;
            var f, f' := FrozenWeights(cfg, scores, validators), FrozenWeights(cfg, scores[a := y], validators);
            && Get(f, a) < Get(f', a)
            && SumOver(f', Addresses(validators) - {a}) < SumOver(f, Addresses(validators) - {a})
  {
    hide Unnormalized, FrozenWeights, SumOver, MapSum, RawStakes;
    var a := validators[i].address;
    var u, u' := Unnormalized(cfg, scores, validators), Unnormalized(cfg, scores[a := y], validators);
    var others := Addresses(validators) - {a};
    StakeIsShare(validators, i);
    TotalsMove(cfg, scores, validators, i, y);
    FrozenShare(cfg, scores, validators, others, a);
    FrozenShare(cfg, scores[a := y], validators, others, a);
    OthersHoldWeight(cfg, scores[a := y], validators, i, j);
    SharesMove(u[a], SumOver(u, others), u'[a], SumOver(u', others));
  }

  lemma SharesMove(x: real, r: real, x': real, r': real)
    requires 0.0 < x < x' && 0.0 < r' <= r
    ensures x / (x + r) < x' / (x' + r') && r' / (x' + r') < r / (x + r)
  {
    CrossedProducts(x, r, x', r');
    StrictFractions(x, x + r, x', x' + r');
    StrictFractions(r', x' + r', r, x + r);
  }

  lemma CrossedProducts(x: real, r: real, x': real, r': real)
    requires 0.0 < x < x' && 0.0 < r' <= r
    ensures x * (x' + r') < x' * (x + r) && r' * (x + r) < r * (x' + r')
  {
    var k := x * r';
    assert k <= x * r by { MulMono(x, r', r); }
    assert x * r < x' * r by { MulStrict(r, x, x'); }
    assert x * (x' + r') == x * x' + k;
    assert x' * (x + r) == x * x' + x' * r;
    assert r' * (x + r) == r * r' + k;
    assert r * (x' + r') == r * r' + x' * r;
  }

  lemma OthersHoldWeight(cfg: ValidatedConfig, scores: map<string, real>, validators: seq<Validator>, i: nat, j: nat)
    requires DistinctAddresses(validators) && i < |validators| && j < |validators| && j != i
             && validators[j].stake > 0.0
    ensures SumOver(Unnormalized(cfg, scores, validators), Addresses(validators) - {validators[i].address}) > 0.0
  {
    hide Weight, DampedScore, NormalizeMap, RawStakes, SumOver, MapSum;
    var u, b := Unnormalized(cfg, scores, validators), validators[j].address;
    var others := Addresses(validators) - {validators[i].address};
    StakeIsShare(validators, j);
    UnnormalizedNonNegative(cfg, scores, validators);
    DampedNonNegative(scores, validators, cfg.scoreFloorKappa);
    WeightRange(cfg, Get(NormalizedStake(validators), b), Get(DampedScore(scores, validators, cfg.scoreFloorKappa), b));
    SumOverNonNegative(u, others);
    assert b in others && Get(u, b) > 0.0;
  }

  /** Every single other validator with stake loses relative to the raised one. */
  lemma ScoreLowersOthersRelatively(cfg: ValidatedConfig, scores: map<string, real>, validators: seq<Validator>,
                                    i: nat, j: nat, y: real)
    requires Raises(cfg, scores, validators, i, y)
    requires j < |validators| && j != i && validators[j].stake > 0.0
    ensures var a, b := validators[i].address, validators[j].address;
            var f, f' := FrozenWeights(cfg, scores, validators), FrozenWeights(cfg, scores[a := y], validators);
            && Get(f, a) > 0.0 && Get(f', a) > 0.0
            && Get(f', b) / Get(f', a) < Get(f, b) / Get(f, a)
  {
    hide Unnormalized, FrozenWeights, SumOver, MapSum, RawStakes;
    var a, b := validators[i].address, validators[j].address;
    var u, u' := Unnormalized(cfg, scores, validators), Unnormalized(cfg, scores[a := y], validators);
    StakeIsShare(validators, i);
    StakeIsShare(validators, j);
    UnnormalizedMoves(cfg, scores, validators, i, y, a);
    UnnormalizedMoves(cfg, scores, validators, i, y, b);
    FrozenShare(cfg, scores, validators, {}, a);
    FrozenShare(cfg, scores, validators, {}, b);
    FrozenShare(cfg, scores[a := y], validators, {}, a);
    FrozenShare(cfg, scores[a := y], validators, {}, b);
    HoldsWeight(cfg, scores, validators, j);
    RelativeLoss(u[a], u[b], MapSum(u), u'[a], u'[b], MapSum(u'));
  }

  lemma HoldsWeight(cfg: ValidatedConfig, scores: map<string, real>, validators: seq<Validator>, j: nat)
    requires DistinctAddresses(validators) && j < |validators| && validators[j].stake > 0.0
    ensures Get(Unnormalized(cfg, scores, validators), validators[j].address) > 0.0
  {
    hide Weight, DampedScore, NormalizeMap, RawStakes;
    var b := validators[j].address;
    StakeIsShare(validators, j);
    DampedNonNegative(scores, validators, cfg.scoreFloorKappa);
    WeightRange(cfg, Get(NormalizedStake(validators), b), Get(DampedScore(scores, validators, cfg.scoreFloorKappa), b));
  }

  lemma RelativeLoss(x: real, z: real, t: real, x': real, z': real, t': real)
    requires 0.0 < x < x' && 0.0 <= z' <= z && z > 0.0 && t > 0.0 && t' > 0.0
    ensures x / t > 0.0 && x' / t' > 0.0 && (z' / t') / (x' / t') < (z / t) / (x / t)
  {
    QuotientPositive(x, t);
    QuotientPositive(x', t');
    CancelTotal(z, x, t);
    CancelTotal(z', x', t');
    MulStrict(z, x, x');
    MulMono(x, z', z);
    StrictFractions(z', x', z, x);
  }

  lemma CancelTotal(z: real, x: real, t: real)
    requires x > 0.0 && t > 0.0 && x / t > 0.0
    ensures (z / t) / (x / t) == z / x
  {
    var q := z / x;
    assert z == q * x;
    assert z / t == q * (x / t);
  }

  // ----- a single other validator

  lemma ShareFalls(f: real, p: real, t: real, f': real, p': real, t': real)
    requires t > 0.0 && t' > 0.0 && f == p / t && f' == p' / t'
    ensures f' < f <==> p' * t < p * t'
  {
    DivLeqDiv(p, t, p', t');
  }

  /** With p unchanged and positive, its share moves against the total. */
  lemma ShareAgainstTotal(f: real, p: real, t: real, f': real, t': real)
    requires t > 0.0 && t' > 0.0 && p > 0.0 && f == p / t && f' == p / t'
    ensures (f' < f <==> t < t') && (f' > f <==> t > t')
  {
    ShareFalls(f, p, t, f', p, t');
    ShareFalls(f', p, t', f, p, t);
    CompareScaled(p, t, t');
  }

  /** The share of one other validator falls exactly when its own weight falls by a larger factor than the total. */
  lemma OtherShareExact(cfg: ValidatedConfig, scores: map<string, real>, scores': map<string, real>,
                        validators: seq<Validator>, b: string)
    requires MapSum(RawStakes(validators)) > 0.0 && b in Addresses(validators)
    ensures var u, u' := Unnormalized(cfg, scores, validators), Unnormalized(cfg, scores', validators);
            Get(FrozenWeights(cfg, scores', validators), b) < Get(FrozenWeights(cfg, scores, validators), b)
            <==> Get(u', b) * MapSum(u) < Get(u, b) * MapSum(u')
  {
    hide Unnormalized, FrozenWeights, SumOver, MapSum, RawStakes;
    var u, u' := Unnormalized(cfg, scores, validators), Unnormalized(cfg, scores', validators);
    FrozenShare(cfg, scores, validators, {}, b);
    FrozenShare(cfg, scores', validators, {}, b);
    var f, f' := Get(FrozenWeights(cfg, scores, validators), b), Get(FrozenWeights(cfg, scores', validators), b);
    ShareFalls(f, Get(u, b), MapSum(u), f', Get(u', b), MapSum(u'));
  }

  /** For one without a score, whose weight stays, the share moves exactly against the total. */
  lemma ScorelessShareExact(cfg: ValidatedConfig, scores: map<string, real>, validators: seq<Validator>,
                            i: nat, j: nat, y: real)
    requires Raises(cfg, scores, validators, i, y) && j < |validators| && j != i
    requires ScoreOf(scores, validators[j].address) == 0.0 && validators[j].stake > 0.0
    ensures var a, b := validators[i].address, validators[j].address;
            var f, f' := FrozenWeights(cfg, scores, validators), FrozenWeights(cfg, scores[a := y], validators);
            var u, u' := Unnormalized(cfg, scores, validators), Unnormalized(cfg, scores[a := y], validators);
            && (Get(f', b) < Get(f, b) <==> MapSum(u) < MapSum(u'))
            && (Get(f', b) > Get(f, b) <==> MapSum(u) > MapSum(u'))
  {
    hide Unnormalized, FrozenWeights, SumOver, MapSum, RawStakes;
    var a, b := validators[i].address, validators[j].address;
    var u, u' := Unnormalized(cfg, scores, validators), Unnormalized(cfg, scores[a := y], validators);
    StakeIsShare(validators, j);
    FrozenShare(cfg, scores, validators, {}, b);
    FrozenShare(cfg, scores[a := y], validators, {}, b);
    var f, f' := Get(FrozenWeights(cfg, scores, validators), b), Get(FrozenWeights(cfg, scores[a := y], validators), b);
    HoldsWeight(cfg, scores, validators, j);
    ScorelessKeepsWeight(cfg, scores, validators, i, j, y);
    ShareAgainstTotal(f, Get(u, b), MapSum(u), f', MapSum(u'));
  }

  lemma CompareScaled(p: real, t: real, t': real)
    requires p > 0.0
    ensures p * t < p * t' <==> t < t'
    ensures p * t' < p * t <==> t' < t
  {}

  lemma ScorelessKeepsWeight(cfg: ValidatedConfig, scores: map<string, real>, validators: seq<Validator>, i: nat,
                             j: nat, y: real)
    requires Raises(cfg, scores, validators, i, y) && j < |validators| && j != i
    requires ScoreOf(scores, validators[j].address) == 0.0
    ensures Get(Unnormalized(cfg, scores[validators[i].address := y], validators), validators[j].address)
         == Get(Unnormalized(cfg, scores, validators), validators[j].address)
  {
    hide Weight, NormalizedStake, ScoreSum;
    var b, kappa := validators[j].address, cfg.scoreFloorKappa;
    AddressIn(validators, b);
    assert 0.0 / (kappa + ScoreSum(scores, validators)) == 0.0;
    assert 0.0 / (kappa + ScoreSum(scores[validators[i].address := y], validators)) == 0.0;
    assert Get(DampedScore(scores, validators, kappa), b) == 0.0;
    assert Get(DampedScore(scores[validators[i].address := y], validators, kappa), b) == 0.0;
  }

  /** A third party can gain from somebody else's score, where it costs a scored competitor more than it earns. */
  lemma RaiseCanHelpThird(cfg: ValidatedConfig)
    requires cfg.eta > 0.0 && cfg.bonusCap > 0.0 && cfg.scoreFloorKappa == 1.0 && cfg.bonusZeta == 1.0
    ensures var validators := [Validator("A", 1.0), Validator("B", 1.0), Validator("C", 2.0)];
            var scores := map["C" := 1.0];
            && Raises(cfg, scores, validators, 0, 98.0)
            && Get(FrozenWeights(cfg, scores, validators), "B")
               < Get(FrozenWeights(cfg, scores["A" := 98.0], validators), "B")
  {
    hide Unnormalized, FrozenWeights, MapSum, SumOver;
    var validators, scores := [Validator("A", 1.0), Validator("B", 1.0), Validator("C", 2.0)], map["C" := 1.0];
    var scores' := scores["A" := 98.0];
    var u, u' := Unnormalized(cfg, scores, validators), Unnormalized(cfg, scores', validators);
    ThreeWeights(cfg, scores, validators, 1.0);
    ThreeWeights(cfg, scores', validators, 99.0);
    var k := cfg.eta * cfg.bonusCap;
    MulPositive(cfg.eta, cfg.bonusCap);
    assert MapSum(u) == 1.0 + k * Blend(1.0, 0.5, 0.5);
    assert MapSum(u') == 1.0 + k * Blend(1.0, 0.25, 0.98) + k * Blend(1.0, 0.5, 0.01);
    MulStrict(k, Blend(1.0, 0.25, 0.98) + Blend(1.0, 0.5, 0.01), Blend(1.0, 0.5, 0.5));
    ScorelessShareExact(cfg, scores, validators, 0, 1, 98.0);
  }

  lemma ThreeWeights(cfg: ValidatedConfig, scores: map<string, real>, validators: seq<Validator>, total: real)
    requires cfg.scoreFloorKappa == 1.0 && cfg.bonusZeta == 1.0
    requires validators == [Validator("A", 1.0), Validator("B", 1.0), Validator("C", 2.0)]
    requires total == ScoreOf(scores, "A") + ScoreOf(scores, "B") + ScoreOf(scores, "C")
    ensures DistinctAddresses(validators) && ScoreSum(scores, validators) == total
    ensures MapSum(Unnormalized(cfg, scores, validators))
         == 1.0 + Boost(cfg, 0.25, ScoreOf(scores, "A") / (1.0 + total))
                + Boost(cfg, 0.25, ScoreOf(scores, "B") / (1.0 + total))
                + Boost(cfg, 0.5, ScoreOf(scores, "C") / (1.0 + total))
  {
    hide Unnormalized, MapSum, SumOver, Weight, Boost;
    var u := Unnormalized(cfg, scores, validators);
    var two, one := validators[..2], validators[..2][..1];
    assert one[..0] == [] && one == [Validator("A", 1.0)] && two == [Validator("A", 1.0), Validator("B", 1.0)];
    assert StakeSum(one) == 1.0 && ScoreSum(scores, one) == ScoreOf(scores, "A") && Addresses(one) == {"A"};
    assert StakeSum(two) == 2.0 && ScoreSum(scores, two) == ScoreOf(scores, "A") + ScoreOf(scores, "B");
    assert Addresses(two) == {"A", "B"};
    assert StakeSum(validators) == 4.0 && ScoreSum(scores, validators) == total;
    assert Addresses(validators) == {"A", "B", "C"};
    WeightOfListed(cfg, scores, validators, 0);
    WeightOfListed(cfg, scores, validators, 1);
    WeightOfListed(cfg, scores, validators, 2);
    QuotientNonNegative(ScoreOf(scores, "A"), 1.0 + total);
    QuotientNonNegative(ScoreOf(scores, "B"), 1.0 + total);
    QuotientNonNegative(ScoreOf(scores, "C"), 1.0 + total);
    WeightForm(cfg, 0.25, ScoreOf(scores, "A") / (1.0 + total));
    WeightForm(cfg, 0.25, ScoreOf(scores, "B") / (1.0 + total));
    WeightForm(cfg, 0.5, ScoreOf(scores, "C") / (1.0 + total));
    ThreeKeys(u, "A", "B", "C");
  }

  lemma ThreeKeys(u: map<string, real>, a: string, b: string, c: string)
    requires u.Keys == {a, b, c} && a != b && a != c && b != c
    ensures MapSum(u) == u[a] + u[b] + u[c]
  {
    SumOverRemove(u, {a, b, c}, a);
    assert {a, b, c} - {a} == {b, c};
    SumOverRemove(u, {b, c}, b);
    assert {b, c} - {b} == {c};
    SumOverRemove(u, {c}, c);
    assert {c} - {c} == {};
  }
}
