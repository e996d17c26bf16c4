/**
 How far the verification cache reaches into a block's rewards. Proved: the
 reward plan is the one of uncached verification in every reachable cache if and
 only if no ambiguous record of the block can move money.
 */
module PlanExactness {
  import opened RealMath
  import opened PathCredit
  import opened Ledger
  import opened Config
  import opened Evidence
  import VerifyCache
  import opened Verdicts
  import opened Weights
  import opened Rewards
  import opened Scores

  // ----- which verdicts move money

  ghost predicate HasInteriorMember(path: seq<string>, members: set<string>) {
    exists p :: 1 <= p < |path| - 1 && path[p] in members
  }

  /** The verdict on transaction idx makes a difference: its path is long enough, and it owes or pays some relay. */
  ghost predicate Material(b: Block, members: set<string>, idx: nat)
    requires idx < |b.transactions|
  {
    && idx < |b.paths|
    && var path, fee := FullPath(b.paths[idx], b.header.miner), b.transactions[idx].fee;
    && |path| >= 3 && (fee < 0.0 || (fee > 0.0 && HasInteriorMember(path, members)))
  }

  lemma {:induction false} NobodyPaid(depth: nat, budget: real, members: set<string>, path: seq<string>, n: nat)
    requires 1 <= n <= |path| - 1 && !HasInteriorMember(path, members)
    ensures RelayPayments(depth, budget, members, path, n) == []
  {
    hide Share;
    if n > 1 {
      NobodyPaid(depth, budget, members, path, n - 1);
    }
  }

  lemma PaidStep(depth: nat, budget: real, members: set<string>, path: seq<string>, n: nat)
    requires 1 < n <= |path| - 1 && budget >= 0.0
    ensures Total(RelayPayments(depth, budget, members, path, n))
         == Total(RelayPayments(depth, budget, members, path, n - 1))
            + (if path[n - 1] in members then Share(depth, budget, path, n - 1) else 0.0)
    ensures Share(depth, budget, path, n - 1) >= 0.0
  {
    hide Share, PositionPayment;
    TotalConcat(RelayPayments(depth, budget, members, path, n - 1),
                PositionPayment(depth, budget, members, path, n - 1));
    PositionIsPaid(depth, budget, members, path, n - 1, "");
    ShareNonNegative(depth, budget, path, n - 1);
  }

  /** The payments cover the share of every interior validator. */
  lemma {:induction false} SomebodyPaid(depth: nat, budget: real, members: set<string>, path: seq<string>, n: nat,
                                        p: nat)
    requires 1 <= p < |path| - 1 && 1 <= n <= |path| - 1 && budget >= 0.0 && path[p] in members
    ensures Total(RelayPayments(depth, budget, members, path, n))
            >= if p < n then Share(depth, budget, path, p) else 0.0
  {
    hide Share, PositionPayment;
    if n > 1 {
      SomebodyPaid(depth, budget, members, path, n - 1, p);
      PaidStep(depth, budget, members, path, n);
    }
  }

  lemma SharePositive(depth: nat, budget: real, path: seq<string>, p: nat)
    requires depth >= 1 && budget > 0.0 && 1 <= p < |path| - 1
    ensures Share(depth, budget, path, p) > 0.0
  {
    GammaNonNegative(depth, p, |path| - 1);
    MulPositive(budget, GammaForDepth(depth, p, |path| - 1));
  }

  /** What a transaction's relays are paid, and that plus what is burned. */
  ghost function PaidFor(cfg: ValidatedConfig, b: Block, valid: seq<bool>, members: set<string>, idx: nat): real
    requires idx < |b.transactions| == |valid|
  {
    Total(TxPayments(cfg, b, valid, members, idx))
  }

  ghost function MovedFor(cfg: ValidatedConfig, b: Block, valid: seq<bool>, members: set<string>, idx: nat): real
    requires idx < |b.transactions| == |valid|
  {
    PaidFor(cfg, b, valid, members, idx) + TxBurned(cfg, b, valid, members, idx)
  }

  /** A refused path pays nobody and burns the whole budget. */
  lemma Refused(cfg: ValidatedConfig, b: Block, valid: seq<bool>, members: set<string>, idx: nat)
    requires idx < |b.transactions| == |valid| && !valid[idx]
    ensures TxPayments(cfg, b, valid, members, idx) == []
    ensures TxBurned(cfg, b, valid, members, idx) == RelayBudget(cfg, b.transactions[idx].fee)
  {}

  /** An accepted path: where the verdict is immaterial the outcome is as if it were refused, elsewhere it differs. */
  lemma Accepted(cfg: ValidatedConfig, b: Block, valid: seq<bool>, members: set<string>, idx: nat)
    requires idx < |b.transactions| == |valid| && valid[idx]
    ensures var budget, fee := RelayBudget(cfg, b.transactions[idx].fee), b.transactions[idx].fee;
            && (!Material(b, members, idx) ==>
                  TxPayments(cfg, b, valid, members, idx) == [] && TxBurned(cfg, b, valid, members, idx) == budget)
            && PaidFor(cfg, b, valid, members, idx) >= 0.0
            && MovedFor(cfg, b, valid, members, idx) >= budget
            && (Material(b, members, idx) && fee > 0.0 ==> PaidFor(cfg, b, valid, members, idx) > 0.0)
            && (Material(b, members, idx) && fee < 0.0 ==> MovedFor(cfg, b, valid, members, idx) > budget)
  {
    hide RelayBudget, Share, CreditedPath, RelayPayments;
    var fee := b.transactions[idx].fee;
    var budget := RelayBudget(cfg, fee);
    BudgetSign(cfg, fee);
    TxConservation(cfg, b, valid, members, idx);
    AcceptedPath(b, valid, members, idx);
    if CreditedPath(b, valid, idx).Some? {
      var path := CreditedPath(b, valid, idx).value;
      if fee > 0.0 {
        if HasInteriorMember(path, members) {
          var p :| 1 <= p < |path| - 1 && path[p] in members;
          BudgetPositiveFee(cfg, fee);
          SomebodyPaid(cfg.targetDepth, budget, members, path, |path| - 1, p);
          SharePositive(cfg.targetDepth, budget, path, p);
        } else {
          NobodyPaid(cfg.targetDepth, budget, members, path, |path| - 1);
        }
      } else {
        BudgetOfDebt(cfg, fee);
        NoPaymentsFromDebt(cfg.targetDepth, budget, members, path, |path| - 1);
      }
    }
  }

  lemma AcceptedPath(b: Block, valid: seq<bool>, members: set<string>, idx: nat)
    requires idx < |b.transactions| == |valid| && valid[idx]
    ensures CreditedPath(b, valid, idx).Some? ==>
              idx < |b.paths| && CreditedPath(b, valid, idx).value == FullPath(b.paths[idx], b.header.miner)
    ensures CreditedPath(b, valid, idx).None? ==> !Material(b, members, idx)
  {}

  lemma BudgetPositiveFee(cfg: ValidatedConfig, fee: real)
    requires fee > 0.0
    ensures RelayBudget(cfg, fee) > 0.0
  {
    MulPositive(1.0 - cfg.proposerFeeRatio, fee);
  }

  lemma BudgetOfDebt(cfg: ValidatedConfig, fee: real)
    requires fee <= 0.0
    ensures RelayBudget(cfg, fee) <= 0.0
  {
    SignOfProduct(fee, 1.0 - cfg.proposerFeeRatio);
  }

  // ----- comparing two lists of verdicts

  /** Where verdicts differ only immaterially, the plans are the same. */
  lemma {:induction false} SamePlan(cfg: ValidatedConfig, b: Block, valid: seq<bool>, valid': seq<bool>,
                                    members: set<string>, n: nat)
    requires n <= |b.transactions| == |valid| == |valid'|
    requires forall i :: 0 <= i < n ==> valid[i] == valid'[i] || !Material(b, members, i)
    ensures RelayDeltas(cfg, b, valid, members, n) == RelayDeltas(cfg, b, valid', members, n)
    ensures Burned(cfg, b, valid, members, n) == Burned(cfg, b, valid', members, n)
  {
    hide Material, TxPayments, TxBurned, RelayBudget;
    if n > 0 {
      SamePlan(cfg, b, valid, valid', members, n - 1);
      SameOutcome(cfg, b, valid, valid', members, n - 1);
    }
  }

  lemma SameOutcome(cfg: ValidatedConfig, b: Block, valid: seq<bool>, valid': seq<bool>, members: set<string>, idx: nat)
    requires idx < |b.transactions| == |valid| == |valid'|
    requires valid[idx] == valid'[idx] || !Material(b, members, idx)
    ensures TxPayments(cfg, b, valid, members, idx) == TxPayments(cfg, b, valid', members, idx)
    ensures TxBurned(cfg, b, valid, members, idx) == TxBurned(cfg, b, valid', members, idx)
  {
    hide Material, RelayBudget;
    if valid[idx] != valid'[idx] {
      if valid[idx] {
        Accepted(cfg, b, valid, members, idx);
        Refused(cfg, b, valid', members, idx);
      } else {
        Accepted(cfg, b, valid', members, idx);
        Refused(cfg, b, valid, members, idx);
      }
    }
  }

  /** With more verdicts positive, no less is paid and no less is moved; a material one makes one of the two grow. */
  lemma {:induction false} MoreMoved(cfg: ValidatedConfig, b: Block, valid: seq<bool>, valid': seq<bool>,
                                     members: set<string>, n: nat, at: nat)
    requires n <= |b.transactions| == |valid| == |valid'| && at < |valid|
    requires forall i :: 0 <= i < n ==> (valid[i] ==> valid'[i])
    requires !valid[at] && valid'[at] && Material(b, members, at)
    ensures var paid := Total(RelayDeltas(cfg, b, valid, members, n));
            var paid' := Total(RelayDeltas(cfg, b, valid', members, n));
            var moved, moved' := paid + Burned(cfg, b, valid, members, n), paid' + Burned(cfg, b, valid', members, n);
            && paid' >= paid && moved' >= moved
            && (at < n ==> paid' > paid || moved' > moved)
  {
    hide Material, TxPayments, TxBurned, RelayBudget;
    if n > 0 {
      var k := n - 1;
      MoreMoved(cfg, b, valid, valid', members, k, at);
      TotalConcat(RelayDeltas(cfg, b, valid, members, k), TxPayments(cfg, b, valid, members, k));
      TotalConcat(RelayDeltas(cfg, b, valid', members, k), TxPayments(cfg, b, valid', members, k));
      MoreMovedAt(cfg, b, valid, valid', members, k);
    }
  }

  lemma MoreMovedAt(cfg: ValidatedConfig, b: Block, valid: seq<bool>, valid': seq<bool>, members: set<string>, k: nat)
    requires k < |b.transactions| == |valid| == |valid'| && (valid[k] ==> valid'[k])
    ensures PaidFor(cfg, b, valid', members, k) >= PaidFor(cfg, b, valid, members, k)
    ensures MovedFor(cfg, b, valid', members, k) >= MovedFor(cfg, b, valid, members, k)
    ensures !valid[k] && valid'[k] && Material(b, members, k) ==>
              PaidFor(cfg, b, valid', members, k) > PaidFor(cfg, b, valid, members, k)
              || MovedFor(cfg, b, valid', members, k) > MovedFor(cfg, b, valid, members, k)
  {
    hide RelayBudget, TxPayments, TxBurned;
    if valid[k] == valid'[k] {
      SameOutcome(cfg, b, valid, valid', members, k);
    } else {
      Refused(cfg, b, valid, members, k);
      Accepted(cfg, b, valid', members, k);
    }
  }

  // ----- the exact condition for a block

  ghost function CachedPlan(env: Env, cache: Cache, b: Block, validators: seq<Validator>): RewardPlan {
    BlockRewards(env.cfg, env.baseReward, b, AllVerdicts(env.w, env.cfg, cache, b).valid, validators)
  }

  ghost function UncachedPlan(env: Env, b: Block, validators: seq<Validator>): RewardPlan {
    BlockRewards(env.cfg, env.baseReward, b, UncachedVerdicts(env.w, env.cfg, b), validators)
  }

  /** An ambiguous record whose verdict moves money. */
  ghost predicate Exposed(env: Env, b: Block, validators: seq<Validator>, idx: nat)
    requires idx < |b.transactions|
  {
    AmbiguousAt(env.w, env.cfg, b, idx) && Material(b, Addresses(validators), idx)
  }

  ghost predicate Unexposed(env: Env, b: Block, validators: seq<Validator>) {
    forall idx :: 0 <= idx < |b.transactions| ==> !Exposed(env, b, validators, idx)
  }

  /** Every reachable cache gives the uncached reward plan if and only if the block has no such record. */
  lemma PlanExact(env: Env, b: Block, validators: seq<Validator>)
    requires VerifyCache.CleanTexts(env.w)
    ensures (forall cache :: Reachable(env.w, cache) ==>
               CachedPlan(env, cache, b, validators) == UncachedPlan(env, b, validators))
       <==> Unexposed(env, b, validators)
  {
    hide VerifyCache.CleanTexts, Reachable, CachedPlan, UncachedPlan, Exposed;
    if idx :| 0 <= idx < |b.transactions| && Exposed(env, b, validators, idx) {
      var cache := VerifyCache.CacheAfter(env.w, [SplitCall(b, idx)]) by { ExposedHasPath(env, b, validators, idx); }
      ExposedDiffers(env, b, validators, idx);
      assert Reachable(env.w, cache) && CachedPlan(env, cache, b, validators) != UncachedPlan(env, b, validators);
    } else {
      forall cache | Reachable(env.w, cache)
        ensures CachedPlan(env, cache, b, validators) == UncachedPlan(env, b, validators)
      {
        UnexposedAgrees(env, cache, b, validators);
      }
    }
  }

  lemma ExposedHasPath(env: Env, b: Block, validators: seq<Validator>, idx: nat)
    requires idx < |b.transactions| && Exposed(env, b, validators, idx)
    ensures idx < |b.paths|
  {}

  lemma ExposedDiffers(env: Env, b: Block, validators: seq<Validator>, idx: nat)
    requires VerifyCache.CleanTexts(env.w) && idx < |b.transactions| && Exposed(env, b, validators, idx)
    ensures idx < |b.paths|
    ensures var cache := VerifyCache.CacheAfter(env.w, [SplitCall(b, idx)]);
            Reachable(env.w, cache) && CachedPlan(env, cache, b, validators) != UncachedPlan(env, b, validators)
  {
    hide VerifyCache.CleanTexts, AllVerdicts, UncachedVerdict, Material, VerifyCache.Ambiguous, SplitCall;
    var w, cfg, members, n := env.w, env.cfg, Addresses(validators), |b.transactions|;
    ExposedHasPath(env, b, validators, idx);
    var cache := VerifyCache.CacheAfter(w, [SplitCall(b, idx)]);
    assert Reachable(w, cache);
    var valid, valid' := UncachedVerdicts(w, cfg, b), AllVerdicts(w, cfg, cache, b).valid;
    AmbiguousAccepted(w, cfg, b, idx);
    forall i | 0 <= i < n
      ensures valid[i] ==> valid'[i]
    {
      if valid[i] {
        ValidStaysValid(w, cfg, cache, b, i);
      }
    }
    MoreMoved(cfg, b, valid, valid', members, n, idx);
  }

  lemma UnexposedAgrees(env: Env, cache: Cache, b: Block, validators: seq<Validator>)
    requires VerifyCache.CleanTexts(env.w) && Reachable(env.w, cache)
    requires Unexposed(env, b, validators)
    ensures CachedPlan(env, cache, b, validators) == UncachedPlan(env, b, validators)
  {
    hide VerifyCache.CleanTexts, Reachable, AllVerdicts, UncachedVerdict, Material, AmbiguousAt;
    var w, cfg, members, n := env.w, env.cfg, Addresses(validators), |b.transactions|;
    var valid, valid' := UncachedVerdicts(w, cfg, b), AllVerdicts(w, cfg, cache, b).valid;
    forall i | 0 <= i < n
      ensures valid[i] == valid'[i] || !Material(b, members, i)
    {
      assert !Exposed(env, b, validators, i);
      if !AmbiguousAt(w, cfg, b, i) {
        UnambiguousVerdict(w, cfg, cache, b, i);
      }
    }
    SamePlan(cfg, b, valid, valid', members, n);
  }
}
