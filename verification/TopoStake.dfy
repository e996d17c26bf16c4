/**
 The consensus object: the fields it updates in place and the loops that update
 them. Every operation is proved to take the step of the consensus state machine.
 */
module TopoStake {
  import opened RealMath
  import opened Encoding
  import opened Ledger
  import opened Config
  import VerifyCache
  import opened Verdicts
  import opened Weights
  import opened Rewards
  import opened Scores
  import opened Selection
  import opened Settlement
  import opened Consensus

  /** `map.values().sum()`: the keys are visited in no particular order. */
  method SumValues(m: map<string, real>) returns (total: real)
    ensures total == MapSum(m)
  {
    total := 0.0;
    var rest := m.Keys;
    while rest != {}
      invariant rest <= m.Keys
      invariant total + SumOver(m, rest) == MapSum(m)
    {
      var k :| k in rest;
      SumOverRemove(m, rest, k);
      total := total + m[k];
      rest := rest - {k};
    }
  }

  method NormalizeValues(m: map<string, real>) returns (r: map<string, real>)
    ensures r == NormalizeMap(m)
  {
    hide MapSum;
    var sum := SumValues(m);
    if sum <= 0.0 {
      return map k | k in m :: 0.0;
    }
    r := map k | k in m :: m[k] / sum;
  }

  method NormalizeStake(validators: seq<Validator>) returns (r: map<string, real>)
    ensures r == NormalizedStake(validators)
  {
    r := NormalizeValues(RawStakes(validators));
  }

  lemma {:induction false} AddressesOfPrefix(validators: seq<Validator>, i: nat)
    requires i < |validators|
    ensures Addresses(validators[..i + 1]) == Addresses(validators[..i]) + {validators[i].address}
    ensures Addresses(validators[..|validators|]) == Addresses(validators) && Addresses(validators[..0]) == {}
  {
    assert validators[..i + 1][..i] == validators[..i];
    assert validators[..|validators|] == validators;
  }

  method Weigh(cfg: ValidatedConfig, s: real, c: real) returns (bonus: real, weight: real)
    ensures bonus == Bonus(cfg, s, c) && weight == Weight(cfg, s, c)
  {
    bonus := 0.0;
    if s > 0.0 {
      bonus := PropagationBonus(c / s, cfg.bonusCap, cfg.bonusZeta);
    }
    weight := s * (1.0 + cfg.eta * bonus);
  }

  /** The loop of `freeze_proposer_weights`. */
  method WeighValidators(cfg: ValidatedConfig, stake: map<string, real>, damped: map<string, real>,
                         validators: seq<Validator>)
    returns (bonuses: map<string, real>, weights: map<string, real>)
    ensures bonuses == map a | a in Addresses(validators) :: Bonus(cfg, Get(stake, a), Get(damped, a))
    ensures weights == map a | a in Addresses(validators) :: Weight(cfg, Get(stake, a), Get(damped, a))
  {
    hide Bonus, Weight;
    bonuses, weights := map[], map[];
    for i := 0 to |validators|
      invariant bonuses == map a | a in Addresses(validators[..i]) :: Bonus(cfg, Get(stake, a), Get(damped, a))
      invariant weights == map a | a in Addresses(validators[..i]) :: Weight(cfg, Get(stake, a), Get(damped, a))
    {
      AddressesOfPrefix(validators, i);
      var address := validators[i].address;
      var bonus, weight := Weigh(cfg, Get(stake, address), Get(damped, address));
      bonuses := bonuses[address := bonus];
      weights := weights[address := weight];
    }
    assert validators[..|validators|] == validators;
  }

  lemma FrozenParts(cfg: ValidatedConfig, scores: map<string, real>, validators: seq<Validator>,
                    bonuses: map<string, real>, weights: map<string, real>)
    requires var stake, damped := NormalizedStake(validators), DampedScore(scores, validators, cfg.scoreFloorKappa);
             && bonuses == (map a | a in Addresses(validators) :: Bonus(cfg, Get(stake, a), Get(damped, a)))
             && weights == (map a | a in Addresses(validators) :: Weight(cfg, Get(stake, a), Get(damped, a)))
    ensures Freeze(cfg, scores, validators)
         == Snapshot(DampedScore(scores, validators, cfg.scoreFloorKappa), StakeSnapshot(validators),
                     bonuses, weights, NormalizeMap(weights))
  {
    hide DampedScore, NormalizedStake, NormalizeMap, Bonus, Weight, StakeSnapshot, Addresses;
  }

  /** The loop of `update_scores_from_epoch`. */
  method AverageScores(env: Env, stake: map<string, real>, raw: map<string, real>, history: map<string, real>,
                       validators: seq<Validator>)
    returns (next: map<string, real>)
    ensures next == map a | a in Addresses(validators) ::
                      NextScore(env.cfg.beta,
                                SaturatedContribution(env.ln, Get(raw, a), Get(stake, a), env.cfg.saturationK),
                                Get(history, a))
  {
    hide SaturatedContribution, NextScore;
    next := map[];
    for i := 0 to |validators|
      invariant next == map a | a in Addresses(validators[..i]) ::
                          NextScore(env.cfg.beta,
                                    SaturatedContribution(env.ln, Get(raw, a), Get(stake, a), env.cfg.saturationK),
                                    Get(history, a))
    {
      AddressesOfPrefix(validators, i);
      var address := validators[i].address;
      var saturated := SaturatedContribution(env.ln, Get(raw, address), Get(stake, address), env.cfg.saturationK);
      next := next[address := NextScore(env.cfg.beta, saturated, Get(history, address))];
    }
    assert validators[..|validators|] == validators;
  }

  class TopoStakeConsensus {
    const env: Env
    const cache: VerifyCache.PathVerifyCache
    var scoreHistory: map<string, real>
    var activeScoreHistory: map<string, real>
    var activeScoreEpoch: Option<nat>
    var nextEpoch: nat
    var pendingScoreRoots: seq<ScoreRoot>
    var normalizedScore: map<string, real>
    var epochStakeSnapshot: map<string, real>
    var unnormalizedProposerWeights: map<string, real>
    var frozenProposerWeights: map<string, real>
    var epochBonuses: map<string, real>
    var pendingRewards: seq<Batch>

    function View(): State
      reads this, cache
    {
      State(scoreHistory, activeScoreHistory, activeScoreEpoch, nextEpoch, pendingScoreRoots,
            Snapshot(normalizedScore, epochStakeSnapshot, epochBonuses, unnormalizedProposerWeights,
                     frozenProposerWeights),
            pendingRewards, cache.entries)
    }

    /** The cache is the process-wide one; it is not touched here. */
    constructor (env: Env, cache: VerifyCache.PathVerifyCache)
      ensures this.env == env && this.cache == cache && View() == INITIAL.(cache := cache.entries)
    {
      this.env, this.cache := env, cache;
      scoreHistory, activeScoreHistory, activeScoreEpoch, nextEpoch, pendingScoreRoots := map[], map[], None, 0, [];
      normalizedScore, epochStakeSnapshot, epochBonuses := map[], map[], map[];
      unnormalizedProposerWeights, frozenProposerWeights, pendingRewards := map[], map[], [];
    }

    method FreezeProposerWeights(validators: seq<Validator>)
      modifies this
      ensures View() == old(View()).(snapshot := Freeze(env.cfg, old(activeScoreHistory), validators))
    {
      hide DampedScore, NormalizedStake, NormalizeMap, Bonus, Weight, StakeSnapshot, Addresses, Freeze;
      var normalizedStake := NormalizeStake(validators);
      var damped := DampedScore(activeScoreHistory, validators, env.cfg.scoreFloorKappa);
      var bonuses, unnormalized := WeighValidators(env.cfg, normalizedStake, damped, validators);
      FrozenParts(env.cfg, activeScoreHistory, validators, bonuses, unnormalized);
      var frozen := NormalizeValues(unnormalized);
      normalizedScore, epochStakeSnapshot := damped, StakeSnapshot(validators);
      epochBonuses, unnormalizedProposerWeights, frozenProposerWeights := bonuses, unnormalized, frozen;
    }

    method SelectProposer(validators: seq<Validator>, unit: real) returns (r: Option<Validator>)
      requires 0.0 <= unit < 1.0
      modifies this
      ensures (View(), Elected(r)) == Step(env, old(View()), Select(validators, unit))
    {
      hide Freeze, Acc, Draw;
      if validators == [] {
        NobodyToElect(frozenProposerWeights, unit);
        return None;
      }
      if frozenProposerWeights == map[] {
        FreezeProposerWeights(validators);
      }
      var chosen := SelectByWeights(frozenProposerWeights, validators, unit);
      ghost var ws := WeightList(frozenProposerWeights, validators);
      if chosen.None? {
        return None;
      }
      ghost var i: nat :| SelectedAt(ws, Draw(unit, Sum(ws)), i)
        && Elect(frozenProposerWeights, validators, unit) == Some(validators[i]);
      SelectionUnique(ws, Draw(unit, Sum(ws)), chosen.value, i);
      r := Some(validators[chosen.value]);
    }

    method UpdateScoresFromEpoch(blocks: seq<Block>, validators: seq<Validator>)
      modifies this`scoreHistory, cache
      ensures var verdicts := EpochVerdicts(env.w, env.cfg, old(cache.entries), blocks);
              && scoreHistory == NextScores(env, old(scoreHistory), EpochInput(blocks, validators), verdicts.valid)
              && cache.entries == verdicts.cache
    {
      hide NormalizedStake, RawContribution, SaturatedContribution, NextScore;
      var normalizedStake := NormalizeStake(validators);
      var rawContribution := RawEpochContribution(env.w, env.cfg, blocks, validators, cache);
      scoreHistory := AverageScores(env, normalizedStake, rawContribution, scoreHistory, validators);
    }

    method EnqueueScoreRoot(producedEpoch: nat)
      modifies this`pendingScoreRoots
      ensures pendingScoreRoots
           == old(pendingScoreRoots)
             + [ScoreRoot(producedEpoch, producedEpoch + env.cfg.scoreActivationDelayEpochs, scoreHistory)]
    {
      pendingScoreRoots := pendingScoreRoots
        + [ScoreRoot(producedEpoch, producedEpoch + env.cfg.scoreActivationDelayEpochs, scoreHistory)];
    }

    method ActivateScoreRootsForEpoch(targetEpoch: nat)
      modifies this`pendingScoreRoots, this`activeScoreEpoch, this`activeScoreHistory
      ensures (pendingScoreRoots, activeScoreEpoch, activeScoreHistory)
           == Activate(old(pendingScoreRoots), old(activeScoreEpoch), old(activeScoreHistory), targetEpoch)
    {
      while pendingScoreRoots != [] && pendingScoreRoots[0].activatesAt <= targetEpoch
        invariant Activate(pendingScoreRoots, activeScoreEpoch, activeScoreHistory, targetEpoch)
               == Activate(old(pendingScoreRoots), old(activeScoreEpoch), old(activeScoreHistory), targetEpoch)
        decreases |pendingScoreRoots|
      {
        var root := pendingScoreRoots[0];
        pendingScoreRoots := pendingScoreRoots[1..];
        activeScoreEpoch := Some(root.producedEpoch);
        activeScoreHistory := root.scores;
      }
    }

    method OnEpochEnd(blocks: seq<Block>, validators: seq<Validator>)
      modifies this, cache
      ensures View() == EndEpoch(env, old(View()), EpochInput(blocks, validators))
    {
      hide NextScores, Freeze, EpochVerdicts;
      var producedEpoch := nextEpoch;
      UpdateScoresFromEpoch(blocks, validators);
      EnqueueScoreRoot(producedEpoch);
      nextEpoch := producedEpoch + 1;
      ActivateScoreRootsForEpoch(nextEpoch);
      FreezeProposerWeights(validators);
    }

    method SettleMaturedRewards(currentBlockIndex: nat) returns (matured: seq<BalanceDelta>)
      modifies this`pendingRewards
      ensures var k := MaturedCount(old(pendingRewards), currentBlockIndex);
              pendingRewards == old(pendingRewards)[k..] && matured == Payout(old(pendingRewards)[..k])
    {
      matured := [];
      ghost var queue, k := pendingRewards, 0;
      while pendingRewards != [] && pendingRewards[0].settleAt <= currentBlockIndex
        invariant k <= |queue| && pendingRewards == queue[k..]
        invariant k + MaturedCount(pendingRewards, currentBlockIndex) == MaturedCount(queue, currentBlockIndex)
        invariant matured == Payout(queue[..k])
        decreases |pendingRewards|
      {
        var batch := pendingRewards[0];
        pendingRewards := pendingRewards[1..];
        matured := matured + batch.rewards;
        assert queue[..k + 1][..k] == queue[..k];
        k := k + 1;
      }
    }

    method DistributeRewards(b: Block, validators: seq<Validator>) returns (rewards: seq<BalanceDelta>)
      modifies this`pendingRewards, cache
      ensures (View(), Paid(rewards)) == Step(env, old(View()), Distribute(b, validators))
    {
      hide BlockRewards, AllVerdicts, MaturedCount, Payout, EndEpoch, BeforeSelection, Elect, CacheAfterCall;
      var plan := ComputeBlockRewards(env.w, env.cfg, env.baseReward, b, validators, cache);
      if plan.rewards != [] {
        pendingRewards := pendingRewards + [Batch(b.header.index + env.cfg.rewardSettlementDepth, plan.rewards)];
      }
      rewards := SettleMaturedRewards(b.header.index);
    }
  }

  lemma NobodyToElect(weights: map<string, real>, unit: real)
    ensures Elect(weights, [], unit) == None
  {
    assert WeightList(weights, []) == [];
  }

  /** `TopoStakeConsensus::new`: refused exactly when the configuration does not validate. */
  method NewConsensus(baseReward: real, cfg: TopoStakeConfig, w: World, ln: real -> real,
                      cache: VerifyCache.PathVerifyCache)
    returns (c: TopoStakeConsensus?)
    ensures c != null <==> ValidConfig(cfg)
    ensures c != null ==>
              && fresh(c) && c.env == Env(cfg, baseReward, w, ln) && c.cache == cache
              && c.View() == INITIAL.(cache := cache.entries)
  {
    var error := Validate(cfg);
    if error.Some? {
      return null;
    }
    c := new TopoStakeConsensus(Env(cfg, baseReward, w, ln), cache);
  }
}
