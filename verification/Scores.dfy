/**
 Propagation scores: an exponential moving average of stake-saturated path
 contributions. Proved: an epoch moves the score mass of all validators together
 at most to the average of the old mass and what its irrecoverable cost backs.
 */
module Scores {
  import opened RealMath
  import opened PathCredit
  import opened Ledger
  import opened Config
  import opened Verdicts
  import opened Weights
  import opened Rewards

  /** What is used of the natural logarithm. */
  ghost predicate LogLike(ln: real -> real) {
    forall x :: x >= 1.0 ==> 0.0 <= ln(x) <= x - 1.0
  }

  function SaturatedContribution(ln: real -> real, raw: real, stake: real, k: real): real
    requires k > 0.0
  {
    if raw <= 0.0 || stake <= 0.0 then 0.0
    else
      MulPositive(k, stake);
      stake * ln(1.0 + raw / (k * stake))
  }

  function NextScore(beta: real, saturated: real, previous: real): real {
    beta * saturated + (1.0 - beta) * previous
  }

  /** The inputs of an epoch end. */
  datatype EpochInput = EpochInput(blocks: seq<Block>, validators: seq<Validator>)

  /** The fixed surroundings of a run: configuration, block reward, cryptography and the logarithm. */
  datatype Env = Env(cfg: ValidatedConfig, baseReward: real, w: World, ln: real -> real)

  /** The scores after an epoch, given the verdicts on its paths. */
  ghost function NextScores(env: Env, history: map<string, real>, epoch: EpochInput,
                            valid: seq<seq<bool>>): (next: map<string, real>)
    requires Matching(epoch.blocks, valid)
    ensures next.Keys == Addresses(epoch.validators)
  {
    var members := Addresses(epoch.validators);
    var stake, raw := NormalizedStake(epoch.validators), RawContribution(env.cfg, epoch.blocks, valid, members);
    map a | a in members ::
      NextScore(env.cfg.beta, SaturatedContribution(env.ln, Get(raw, a), Get(stake, a), env.cfg.saturationK),
                Get(history, a))
  }

  /**
   The next score of a listed validator: the average, weighted with beta, of its contribution
   saturated against its stake and of its previous score.
   */
  lemma NextScoreIs(env: Env, history: map<string, real>, epoch: EpochInput, valid: seq<seq<bool>>, a: string)
    requires Matching(epoch.blocks, valid) && a in Addresses(epoch.validators)
    ensures var raw := Get(RawContribution(env.cfg, epoch.blocks, valid, Addresses(epoch.validators)), a);
            var s, beta := Get(NormalizedStake(epoch.validators), a), env.cfg.beta;
            var saturated := if raw > 0.0 && s > 0.0 then s * env.ln(1.0 + raw / env.cfg.saturationK / s) else 0.0;
            var next := NextScores(env, history, epoch, valid)[a];
            && next == beta * saturated + (1.0 - beta) * Get(history, a)
            && (beta == 1.0 ==> next == saturated)
            && (raw <= 0.0 ==> next == (1.0 - beta) * Get(history, a))
  {
    hide RawContribution, NormalizedStake, SaturatedContribution, NextScore;
    var raw := Get(RawContribution(env.cfg, epoch.blocks, valid, Addresses(epoch.validators)), a);
    var s, k := Get(NormalizedStake(epoch.validators), a), env.cfg.saturationK;
    SaturatedIs(env.ln, raw, s, k);
    AverageIs(env.cfg.beta, SaturatedContribution(env.ln, raw, s, k), Get(history, a));
  }

  lemma SaturatedIs(ln: real -> real, raw: real, s: real, k: real)
    requires k > 0.0
    ensures SaturatedContribution(ln, raw, s, k) == if raw > 0.0 && s > 0.0 then s * ln(1.0 + raw / k / s) else 0.0
  {
    if raw > 0.0 && s > 0.0 {
      NestedQuotient(raw, k, s);
    }
  }

  lemma AverageIs(beta: real, x: real, y: real)
    ensures NextScore(beta, x, y) == beta * x + (1.0 - beta) * y
    ensures beta == 1.0 ==> NextScore(beta, x, y) == x
    ensures x == 0.0 ==> NextScore(beta, x, y) == (1.0 - beta) * y
  {}

  lemma NestedQuotient(x: real, k: real, s: real)
    requires k > 0.0 && s > 0.0
    ensures k * s > 0.0 && x / (k * s) == x / k / s
  {
    MulPositive(k, s);
    var q := x / k / s;
    assert x == q * s * k;
    assert q * s * k == q * (k * s);
  }

  // ----- saturation

  /** Saturation only ever lowers a contribution, measured in units of k. */
  lemma SaturatedRange(ln: real -> real, raw: real, stake: real, k: real)
    requires k > 0.0 && LogLike(ln) && raw >= 0.0
    ensures 0.0 <= SaturatedContribution(ln, raw, stake, k) <= raw / k
    ensures (forall x :: x > 1.0 ==> ln(x) > 0.0) ==>
              (SaturatedContribution(ln, raw, stake, k) > 0.0 <==> raw > 0.0 && stake > 0.0)
  {
    if raw <= 0.0 || stake <= 0.0 {
      QuotientNonNegative(raw, k);
    } else {
      MulPositive(k, stake);
      var x := raw / (k * stake);
      QuotientNonNegative(raw, k * stake);
      assert 0.0 <= ln(1.0 + x) <= (1.0 + x) - 1.0;
      var y := ln(1.0 + x);
      MulNonNegative(stake, y);
      if y > 0.0 {
        MulPositive(stake, y);
      }
      MulMono(stake, y, x);
      CancelStake(raw, stake, k);
    }
  }

  lemma CancelStake(raw: real, stake: real, k: real)
    requires k > 0.0 && stake > 0.0 && k * stake > 0.0
    ensures stake * (raw / (k * stake)) == raw / k
  {
    var q := raw / (k * stake);
    assert (k * stake) * q == raw;
    assert k * (stake * q) == raw;
  }

  // ----- contributions are non-negative

  ghost predicate NonNegativeMap(m: map<string, real>) {
    forall a :: a in m ==> m[a] >= 0.0
  }

  lemma {:induction false} PathCreditNonNegative(depth: nat, raw: map<string, real>, q: real, members: set<string>,
                                                 path: seq<string>, n: nat)
    requires 1 <= n <= |path| - 1 && q >= 0.0 && NonNegativeMap(raw)
    ensures NonNegativeMap(AddPathCredit(depth, raw, q, members, path, n))
  {
    hide Share;
    if n > 1 {
      PathCreditNonNegative(depth, raw, q, members, path, n - 1);
      ShareNonNegative(depth, q, path, n - 1);
    }
  }

  lemma {:induction false} BlockCreditNonNegative(cfg: ValidatedConfig, raw: map<string, real>, b: Block,
                                                  valid: seq<bool>, members: set<string>, n: nat)
    requires n <= |b.transactions| == |valid| && NonNegativeMap(raw)
    ensures NonNegativeMap(AddBlockCredit(cfg, raw, b, valid, members, n))
  {
    hide CreditedPath, CreditWeight;
    if n > 0 {
      BlockCreditNonNegative(cfg, raw, b, valid, members, n - 1);
      CreditWeightRange(cfg, b.transactions[n - 1]);
      var credited := CreditedPath(b, valid, n - 1);
      if credited.Some? {
        PathCreditNonNegative(cfg.targetDepth, AddBlockCredit(cfg, raw, b, valid, members, n - 1),
                              CreditWeight(cfg, b.transactions[n - 1]), members, credited.value, |credited.value| - 1);
      }
    }
  }

  lemma {:induction false} RawNonNegative(cfg: ValidatedConfig, blocks: seq<Block>, valid: seq<seq<bool>>,
                                          members: set<string>)
    requires Matching(blocks, valid)
    ensures NonNegativeMap(RawContribution(cfg, blocks, valid, members))
  {
    hide AddTxCredit;
    if blocks != [] {
      var n := |blocks| - 1;
      RawNonNegative(cfg, blocks[..n], valid[..n], members);
      BlockCreditNonNegative(cfg, RawContribution(cfg, blocks[..n], valid[..n], members), blocks[n], valid[n],
                             members, |blocks[n].transactions|);
    }
  }

  // ----- the score mass

  lemma NextScoreRange(beta: real, saturated: real, previous: real, bound: real)
    requires 0.0 < beta <= 1.0 && 0.0 <= saturated <= bound && previous >= 0.0
    ensures 0.0 <= NextScore(beta, saturated, previous) <= NextScore(beta, bound, previous)
  {
    MulNonNegative(beta, saturated);
    MulNonNegative(1.0 - beta, previous);
    MulMono(beta, saturated, bound);
  }

  lemma NextScoreAdds(beta: real, x: real, y: real, x': real, y': real)
    ensures NextScore(beta, x, y) + NextScore(beta, x', y') == NextScore(beta, x + x', y + y')
  {
    Distribute(beta, x, x');
    Distribute(1.0 - beta, y, y');
  }

  lemma NextScoreAtMost(beta: real, x: real, y: real, bound: real)
    requires 0.0 < beta <= 1.0 && x <= bound && y <= bound
    ensures NextScore(beta, x, y) <= bound
  {
    NextScoreMono(beta, x, y, bound, bound);
    AverageOfEqual(beta, bound);
  }

  lemma AverageOfEqual(beta: real, x: real)
    ensures NextScore(beta, x, x) == x
  {}

  /** Bounded entry by entry by an average, bounded in total by the average of the totals. */
  lemma {:induction false} AveragedSums(beta: real, k: real, next: map<string, real>, raw: map<string, real>,
                                        history: map<string, real>, s: set<string>)
    requires k > 0.0
    requires forall a :: a in s ==> Get(next, a) <= NextScore(beta, Get(raw, a) / k, Get(history, a))
    ensures SumOver(next, s) <= NextScore(beta, SumOver(raw, s) / k, SumOver(history, s))
  {
    if s == {} {
      NothingAveraged(beta, k);
    } else {
      hide SumOver, NextScore;
      var a :| a in s;
      AveragedSums(beta, k, next, raw, history, s - {a});
      SumOverRemove(next, s, a);
      SumOverRemove(raw, s, a);
      SumOverRemove(history, s, a);
      var x, y := SumOver(raw, s - {a}), SumOver(history, s - {a});
      DivAdd(Get(raw, a), x, k);
      NextScoreAdds(beta, Get(raw, a) / k, Get(history, a), x / k, y);
    }
  }

  lemma NothingAveraged(beta: real, k: real)
    requires k > 0.0
    ensures NextScore(beta, 0.0 / k, 0.0) == 0.0
  {
    assert 0.0 / k == 0.0;
  }

  /** The sum over a set that covers all keys is the whole sum; over other sets it is no more. */
  lemma SumOverCover(m: map<string, real>, s: set<string>)
    requires NonNegativeMap(m)
    ensures SumOver(m, s) <= MapSum(m)
    ensures m.Keys <= s ==> SumOver(m, s) == MapSum(m)
  {
    hide SumOver;
    var keys, both := m.Keys, m.Keys * s;
    assert keys == both + (keys - s) && s == both + (s - keys);
    SumOverUnion(m, both, keys - s);
    SumOverUnion(m, both, s - keys);
    SumOverNonNegative(m, keys - s);
    NoKeysNoSum(m, s - keys);
    if m.Keys <= s {
      assert both == keys;
    }
  }

  lemma {:induction false} NoKeysNoSum(m: map<string, real>, s: set<string>)
    requires m.Keys !! s
    ensures SumOver(m, s) == 0.0
  {
    if s != {} {
      var a :| a in s;
      SumOverRemove(m, s, a);
      NoKeysNoSum(m, s - {a});
    }
  }

  /** One epoch: the new mass is at most the average of the cost backing and the old mass. */
  lemma ScoreStep(env: Env, history: map<string, real>, epoch: EpochInput, valid: seq<seq<bool>>)
    requires Matching(epoch.blocks, valid)
    requires LogLike(env.ln) && NonNegativeMap(history)
    ensures NonNegativeMap(NextScores(env, history, epoch, valid))
    ensures MapSum(NextScores(env, history, epoch, valid))
         <= NextScore(env.cfg.beta, EpochCost(epoch.blocks) / env.cfg.scoreCostReference / env.cfg.saturationK,
                      MapSum(history))
  {
    hide SumOver, NextScore, RawContribution, NormalizedStake, SaturatedContribution;
    var cfg, members, k := env.cfg, Addresses(epoch.validators), env.cfg.saturationK;
    var raw, next := RawContribution(cfg, epoch.blocks, valid, members), NextScores(env, history, epoch, valid);
    RawNonNegative(cfg, epoch.blocks, valid, members);
    forall a | a in members
      ensures 0.0 <= Get(next, a) <= NextScore(cfg.beta, Get(raw, a) / k, Get(history, a))
    {
      var stake := Get(NormalizedStake(epoch.validators), a);
      SaturatedRange(env.ln, Get(raw, a), stake, k);
      NextScoreRange(cfg.beta, SaturatedContribution(env.ln, Get(raw, a), stake, k), Get(history, a), Get(raw, a) / k);
    }
    AveragedSums(cfg.beta, k, next, raw, history, members);
    ScoreIsCostBacked(cfg, epoch.blocks, valid, members);
    SumOverCover(raw, members);
    SumOverCover(history, members);
    var backing := EpochCost(epoch.blocks) / cfg.scoreCostReference;
    DivMonoNumerator(SumOver(raw, members), backing, k);
    NextScoreMono(cfg.beta, SumOver(raw, members) / k, SumOver(history, members), backing / k, MapSum(history));
  }

  lemma NextScoreMono(beta: real, x: real, y: real, x': real, y': real)
    requires 0.0 < beta <= 1.0 && x <= x' && y <= y'
    ensures NextScore(beta, x, y) <= NextScore(beta, x', y')
  {
    WeightedMono(beta, 1.0 - beta, x, y, x', y');
  }

  lemma WeightedMono(b: real, c: real, x: real, y: real, x': real, y': real)
    requires b >= 0.0 && c >= 0.0 && x <= x' && y <= y'
    ensures b * x + c * y <= b * x' + c * y'
  {
    MulMono(b, x, x');
    MulMono(c, y, y');
  }

  /** What a given irrecoverable cost backs, in units of reference cost and saturation. */
  function Backing(cfg: ValidatedConfig, cost: real): real {
    cost / cfg.scoreCostReference / cfg.saturationK
  }

  /** An epoch that spends no more than the given cost keeps the score mass within what that cost backs. */
  lemma MassStaysBacked(env: Env, history: map<string, real>, epoch: EpochInput, valid: seq<seq<bool>>, cost: real)
    requires Matching(epoch.blocks, valid) && LogLike(env.ln) && NonNegativeMap(history)
    requires EpochCost(epoch.blocks) <= cost && MapSum(history) <= Backing(env.cfg, cost)
    ensures NonNegativeMap(NextScores(env, history, epoch, valid))
    ensures MapSum(NextScores(env, history, epoch, valid)) <= Backing(env.cfg, cost)
  {
    hide NextScores, NextScore;
    var reference, k := env.cfg.scoreCostReference, env.cfg.saturationK;
    ScoreStep(env, history, epoch, valid);
    var spent := EpochCost(epoch.blocks);
    DivMonoNumerator(spent, cost, reference);
    DivMonoNumerator(spent / reference, cost / reference, k);
    NextScoreAtMost(env.cfg.beta, spent / reference / k, MapSum(history), cost / reference / k);
  }

  lemma BackingNonNegative(cfg: ValidatedConfig, cost: real)
    requires cost >= 0.0
    ensures Backing(cfg, cost) >= 0.0
  {
    QuotientNonNegative(cost, cfg.scoreCostReference);
    QuotientNonNegative(cost / cfg.scoreCostReference, cfg.saturationK);
  }
}
