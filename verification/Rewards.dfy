/**
 Block rewards and epoch contributions along certified paths. Proved: the
 reward plan conserves fees exactly when no credited transaction carries a
 negative fee, every relay is paid the share of its position, and the raw score
 an epoch hands out is backed by irrecoverable cost.
 */
module Rewards {
  import opened RealMath
  import opened PathCredit
  import opened Encoding
  import opened Ledger
  import opened Config
  import opened Evidence
  import opened VerifyCache
  import opened Verdicts
  import opened Weights

  // ----- credited paths

  /** The full path of transaction idx if it earns relay credit: present, found valid and at least two hops long. */
  function CreditedPath(b: Block, valid: seq<bool>, idx: nat): (r: Option<seq<string>>)
    requires idx < |b.transactions| == |valid|
    ensures r.Some? ==> |r.value| >= 3
  {
    if idx >= |b.paths| || !valid[idx] then None
    else
      var full := FullPath(b.paths[idx], b.header.miner);
      if |full| - 1 < 2 then None else Some(full)
  }

  /** x times the share of position p on a path; `gamma` scales relay budgets and credit weights alike. */
  function Share(depth: nat, x: real, path: seq<string>, p: nat): real
    requires |path| >= 1
  {
    x * GammaForDepth(depth, p, |path| - 1)
  }

  /** The interior positions of a path that are held by validators. */
  ghost function RelayPositions(path: seq<string>, members: set<string>): set<nat> {
    set p | p in Interval(1, |path|) && p < |path| - 1 && path[p] in members
  }

  /** Credit of the validators on positions 1 .. n-1. */
  ghost function RelayCredit(depth: nat, members: set<string>, path: seq<string>, n: nat): real
    requires 1 <= n <= |path| - 1
  {
    CreditBetween(Shares(depth, |path| - 1), RelayPositions(path, members), 1, n)
  }

  /** x times that credit. */
  ghost function ScaledCredit(depth: nat, x: real, members: set<string>, path: seq<string>, n: nat): real
    requires 1 <= n <= |path| - 1
  {
    x * RelayCredit(depth, members, path, n)
  }

  lemma ScaledCreditStep(depth: nat, x: real, members: set<string>, path: seq<string>, p: nat)
    requires 1 <= p < |path| - 1
    ensures ScaledCredit(depth, x, members, path, p + 1)
         == ScaledCredit(depth, x, members, path, p) + (if path[p] in members then Share(depth, x, path, p) else 0.0)
  {
    hide GammaForDepth;
    var credit, gamma := RelayCredit(depth, members, path, p), GammaForDepth(depth, p, |path| - 1);
    assert p in RelayPositions(path, members) <==> path[p] in members;
    assert RelayCredit(depth, members, path, p + 1) == credit + (if path[p] in members then gamma else 0.0);
    Distribute(x, credit, gamma);
  }

  lemma ScaledCreditRange(depth: nat, x: real, members: set<string>, path: seq<string>)
    requires |path| >= 3 && x >= 0.0
    ensures 0.0 <= ScaledCredit(depth, x, members, path, |path| - 1) <= x
  {
    hide RelayCredit;
    RelayCreditRange(depth, members, path);
    UnitScale(x, RelayCredit(depth, members, path, |path| - 1), ScaledCredit(depth, x, members, path, |path| - 1));
  }

  lemma UnitScale(x: real, c: real, y: real)
    requires x >= 0.0 && 0.0 <= c <= 1.0 && y == x * c
    ensures 0.0 <= y <= x
  {
    MulNonNegative(x, c);
    MulAtMostSelf(x, c);
  }

  lemma RelayCreditRange(depth: nat, members: set<string>, path: seq<string>)
    requires |path| >= 3
    ensures 0.0 <= RelayCredit(depth, members, path, |path| - 1) <= 1.0
  {
    CoalitionCreditBounded(depth, |path| - 1, RelayPositions(path, members));
  }

  lemma NoScaledCredit(depth: nat, x: real, members: set<string>, path: seq<string>)
    requires |path| >= 2
    ensures ScaledCredit(depth, x, members, path, 1) == 0.0
  {}

  lemma Distribute(x: real, y: real, z: real)
    ensures x * (y + z) == x * y + x * z
  {}

  lemma ShareNonNegative(depth: nat, x: real, path: seq<string>, p: nat)
    requires |path| >= 1
    ensures x >= 0.0 ==> Share(depth, x, path, p) >= 0.0
    ensures x <= 0.0 ==> Share(depth, x, path, p) <= 0.0
  {
    var gamma := GammaForDepth(depth, p, |path| - 1);
    GammaNonNegative(depth, p, |path| - 1);
    SignOfProduct(x, gamma);
  }

  lemma SignOfProduct(x: real, y: real)
    requires y >= 0.0
    ensures x >= 0.0 ==> x * y >= 0.0
    ensures x <= 0.0 ==> x * y <= 0.0
  {}

  // ----- relay payments of one transaction

  function PositionPayment(depth: nat, budget: real, members: set<string>, path: seq<string>, p: nat): seq<BalanceDelta>
    requires p < |path|
  {
    var amount := Share(depth, budget, path, p);
    if path[p] in members && amount > 0.0 then [BalanceDelta(path[p], amount)] else []
  }

  /** Payments to positions 1 .. n-1 of the path, in path order. */
  function RelayPayments(depth: nat, budget: real, members: set<string>, path: seq<string>, n: nat): seq<BalanceDelta>
    requires 1 <= n <= |path| - 1
  {
    if n == 1 then []
    else RelayPayments(depth, budget, members, path, n - 1) + PositionPayment(depth, budget, members, path, n - 1)
  }

  function Total(deltas: seq<BalanceDelta>): real {
    if deltas == [] then 0.0 else Total(deltas[..|deltas| - 1]) + deltas[|deltas| - 1].amount
  }

  /** What one address receives. */
  function AmountTo(deltas: seq<BalanceDelta>, address: string): real {
    if deltas == [] then 0.0
    else
      var d := deltas[|deltas| - 1];
      AmountTo(deltas[..|deltas| - 1], address) + (if d.address == address then d.amount else 0.0)
  }

  lemma {:induction false} TotalConcat(a: seq<BalanceDelta>, b: seq<BalanceDelta>)
    ensures Total(a + b) == Total(a) + Total(b)
    decreases |b|
  {
    if b == [] {
      assert a + b == a;
    } else {
      assert (a + b)[..|a + b| - 1] == a + b[..|b| - 1];
      TotalConcat(a, b[..|b| - 1]);
    }
  }

  lemma TotalSnoc(a: seq<BalanceDelta>, d: BalanceDelta)
    ensures Total(a + [d]) == Total(a) + d.amount
  {
    assert (a + [d])[..|a|] == a;
  }

  lemma {:induction false} AmountToConcat(a: seq<BalanceDelta>, b: seq<BalanceDelta>, x: string)
    ensures AmountTo(a + b, x) == AmountTo(a, x) + AmountTo(b, x)
    decreases |b|
  {
    if b == [] {
      assert a + b == a;
    } else {
      assert (a + b)[..|a + b| - 1] == a + b[..|b| - 1];
      AmountToConcat(a, b[..|b| - 1], x);
    }
  }

  /** What one position of a path with a non-negative budget is paid, and whom the payment reaches. */
  lemma PositionIsPaid(depth: nat, budget: real, members: set<string>, path: seq<string>, p: nat, x: string)
    requires p < |path| && budget >= 0.0
    ensures var amount := if path[p] in members then Share(depth, budget, path, p) else 0.0;
            var paid := PositionPayment(depth, budget, members, path, p);
            Total(paid) == amount && AmountTo(paid, x) == if path[p] == x then amount else 0.0
  {
    hide Share;
    ShareNonNegative(depth, budget, path, p);
    var d := BalanceDelta(path[p], Share(depth, budget, path, p));
    assert [d][..0] == [];
    assert Total([d]) == d.amount && AmountTo([d], x) == if d.address == x then d.amount else 0.0;
  }

  /** Against a non-negative budget the payments are the budget times the credit of the validators' positions. */
  lemma {:induction false} PaymentsAreCredit(depth: nat, budget: real, members: set<string>, path: seq<string>, n: nat)
    requires 1 <= n <= |path| - 1 && budget >= 0.0
    ensures Total(RelayPayments(depth, budget, members, path, n)) == ScaledCredit(depth, budget, members, path, n)
  {
    hide Share, ScaledCredit, PositionPayment;
    if n == 1 {
      NoScaledCredit(depth, budget, members, path);
    } else {
      PaymentsAreCredit(depth, budget, members, path, n - 1);
      ScaledCreditStep(depth, budget, members, path, n - 1);
      PositionIsPaid(depth, budget, members, path, n - 1, "");
      TotalConcat(RelayPayments(depth, budget, members, path, n - 1),
                  PositionPayment(depth, budget, members, path, n - 1));
    }
  }

  /** Against a negative budget nobody is paid. */
  lemma {:induction false} NoPaymentsFromDebt(depth: nat, budget: real, members: set<string>, path: seq<string>, n: nat)
    requires 1 <= n <= |path| - 1 && budget <= 0.0
    ensures RelayPayments(depth, budget, members, path, n) == []
  {
    hide Share;
    if n > 1 {
      NoPaymentsFromDebt(depth, budget, members, path, n - 1);
      ShareNonNegative(depth, budget, path, n - 1);
    }
  }

  /** The payments never exceed the budget, so the clamp on the burned rest never fires. */
  lemma PaymentsWithinBudget(depth: nat, budget: real, members: set<string>, path: seq<string>)
    requires |path| >= 3 && budget >= 0.0
    ensures 0.0 <= Total(RelayPayments(depth, budget, members, path, |path| - 1)) <= budget
  {
    hide ScaledCredit;
    PaymentsAreCredit(depth, budget, members, path, |path| - 1);
    ScaledCreditRange(depth, budget, members, path);
  }

  /** Every interior validator of a repetition-free path is paid exactly its position's share. */
  lemma {:induction false} RelayIsPaidItsShare(depth: nat, budget: real, members: set<string>, path: seq<string>,
                                               n: nat, p: nat)
    requires 1 <= n <= |path| - 1 && budget >= 0.0 && NoRepeatedNodes(path)
    requires 1 <= p < |path| - 1 && path[p] in members
    ensures AmountTo(RelayPayments(depth, budget, members, path, n), path[p])
         == if p < n then Share(depth, budget, path, p) else 0.0
  {
    hide Share, PositionPayment;
    if n > 1 {
      RelayIsPaidItsShare(depth, budget, members, path, n - 1, p);
      PositionIsPaid(depth, budget, members, path, n - 1, path[p]);
      AmountToConcat(RelayPayments(depth, budget, members, path, n - 1),
                     PositionPayment(depth, budget, members, path, n - 1), path[p]);
      assert path[n - 1] == path[p] <==> n - 1 == p;
    }
  }

  // ----- the plan of a block

  datatype RewardPlan = RewardPlan(
    rewards: seq<BalanceDelta>,
    proposerReward: real,
    relayReward: real,
    burnedRelayFee: real,
    totalFee: real)

  function TotalFee(txs: seq<Transaction>): real {
    if txs == [] then 0.0 else TotalFee(txs[..|txs| - 1]) + txs[|txs| - 1].fee
  }

  function RelayBudget(cfg: ValidatedConfig, fee: real): real {
    (1.0 - cfg.proposerFeeRatio) * fee
  }

  /** Payments for one transaction, and what of its relay budget is burned. */
  function TxPayments(cfg: ValidatedConfig, b: Block, valid: seq<bool>, members: set<string>,
                      idx: nat): seq<BalanceDelta>
    requires idx < |b.transactions| == |valid|
  {
    match CreditedPath(b, valid, idx)
    case None => []
    case Some(path) => RelayPayments(cfg.targetDepth, RelayBudget(cfg, b.transactions[idx].fee), members, path,
                                     |path| - 1)
  }

  function TxBurned(cfg: ValidatedConfig, b: Block, valid: seq<bool>, members: set<string>, idx: nat): real
    requires idx < |b.transactions| == |valid|
  {
    var budget := RelayBudget(cfg, b.transactions[idx].fee);
    match CreditedPath(b, valid, idx)
    case None => budget
    case Some(_) => Max(budget - Total(TxPayments(cfg, b, valid, members, idx)), 0.0)
  }

  lemma CreditedIsFullPath(b: Block, valid: seq<bool>, idx: nat)
    requires idx < |b.transactions| == |valid| && CreditedPath(b, valid, idx).Some?
    ensures idx < |b.paths| && valid[idx] && CreditedPath(b, valid, idx).value == FullPath(b.paths[idx], b.header.miner)
  {}

  /**
   A path found valid never repeats a node, so each validator on it is paid exactly its position's
   share of the budget.
   */
  lemma CreditedRelayIsPaid(w: World, cfg: ValidatedConfig, b: Block, valid: seq<bool>, members: set<string>,
                            idx: nat, p: nat)
    requires idx < |b.transactions| == |valid| && b.transactions[idx].fee >= 0.0 && Asked(w, cfg, b, valid)
    requires var credited := CreditedPath(b, valid, idx);
             credited.Some? && 1 <= p < |credited.value| - 1 && credited.value[p] in members
    ensures var path := CreditedPath(b, valid, idx).value;
            AmountTo(TxPayments(cfg, b, valid, members, idx), path[p])
            == (1.0 - cfg.proposerFeeRatio) * b.transactions[idx].fee * GammaForDepth(cfg.targetDepth, p, |path| - 1)
  {
    hide GammaForDepth, Asked, CreditedPath, RelayPayments, NoRepeatedNodes;
    var path := CreditedPath(b, valid, idx).value;
    CreditedIsFullPath(b, valid, idx);
    AskedIsDistinct(w, cfg, b, valid, idx);
    BudgetSign(cfg, b.transactions[idx].fee);
    RelayIsPaidItsShare(cfg.targetDepth, RelayBudget(cfg, b.transactions[idx].fee), members, path, |path| - 1, p);
  }

  /** Relay payments and burned fees of the first n transactions. */
  function RelayDeltas(cfg: ValidatedConfig, b: Block, valid: seq<bool>, members: set<string>,
                       n: nat): seq<BalanceDelta>
    requires n <= |b.transactions| == |valid|
  {
    if n == 0 then [] else RelayDeltas(cfg, b, valid, members, n - 1) + TxPayments(cfg, b, valid, members, n - 1)
  }

  function Burned(cfg: ValidatedConfig, b: Block, valid: seq<bool>, members: set<string>, n: nat): real
    requires n <= |b.transactions| == |valid|
  {
    if n == 0 then 0.0 else Burned(cfg, b, valid, members, n - 1) + TxBurned(cfg, b, valid, members, n - 1)
  }

  function ProposerReward(cfg: ValidatedConfig, baseReward: real, fees: real): real {
    baseReward + cfg.proposerFeeRatio * fees
  }

  function BlockRewards(cfg: ValidatedConfig, baseReward: real, b: Block, valid: seq<bool>,
                        validators: seq<Validator>): RewardPlan
    requires |valid| == |b.transactions|
  {
    var members, n, fees := Addresses(validators), |b.transactions|, TotalFee(b.transactions);
    var proposer := ProposerReward(cfg, baseReward, fees);
    var relays := RelayDeltas(cfg, b, valid, members, n);
    RewardPlan([BalanceDelta(b.header.miner, proposer)] + relays, proposer, Total(relays),
               Burned(cfg, b, valid, members, n), fees)
  }

  // ----- conservation

  /** A credited transaction carries a negative fee. */
  ghost predicate CreditedDebt(b: Block, valid: seq<bool>, idx: nat)
    requires idx < |b.transactions| == |valid|
  {
    CreditedPath(b, valid, idx).Some? && b.transactions[idx].fee < 0.0
  }

  /** Per transaction: paid plus burned is the relay budget, except that a credited debt is dropped. */
  lemma TxConservation(cfg: ValidatedConfig, b: Block, valid: seq<bool>, members: set<string>, idx: nat)
    requires idx < |b.transactions| == |valid|
    ensures var budget, moved := RelayBudget(cfg, b.transactions[idx].fee),
                                 Total(TxPayments(cfg, b, valid, members, idx)) + TxBurned(cfg, b, valid, members, idx);
            && (!CreditedDebt(b, valid, idx) ==> moved == budget)
            && (CreditedDebt(b, valid, idx) ==> moved > budget)
  {
    hide CreditedPath, RelayBudget, RelayPayments;
    var fee := b.transactions[idx].fee;
    var budget := RelayBudget(cfg, fee);
    BudgetSign(cfg, fee);
    if CreditedPath(b, valid, idx).Some? {
      var path := CreditedPath(b, valid, idx).value;
      if fee >= 0.0 {
        PaymentsWithinBudget(cfg.targetDepth, budget, members, path);
      } else {
        NoPaymentsFromDebt(cfg.targetDepth, budget, members, path, |path| - 1);
      }
    }
  }

  lemma BudgetSign(cfg: ValidatedConfig, fee: real)
    ensures fee >= 0.0 ==> RelayBudget(cfg, fee) >= 0.0
    ensures fee < 0.0 ==> RelayBudget(cfg, fee) < 0.0
  {
    StrictSignOfProduct(1.0 - cfg.proposerFeeRatio, fee);
  }

  lemma StrictSignOfProduct(x: real, y: real)
    requires x > 0.0
    ensures y >= 0.0 ==> x * y >= 0.0
    ensures y < 0.0 ==> x * y < 0.0
  {}

  lemma {:induction false} PrefixConservation(cfg: ValidatedConfig, b: Block, valid: seq<bool>, members: set<string>,
                                              n: nat)
    requires n <= |b.transactions| == |valid|
    ensures var moved, due := Total(RelayDeltas(cfg, b, valid, members, n)) + Burned(cfg, b, valid, members, n),
                              RelayBudget(cfg, TotalFee(b.transactions[..n]));
            && moved >= due
            && (moved == due <==> forall i :: 0 <= i < n ==> !CreditedDebt(b, valid, i))
  {
    hide CreditedPath, TxPayments, TxBurned, CreditedDebt, RelayBudget;
    if n == 0 {
      BudgetOfNothing(cfg);
    } else {
      PrefixConservation(cfg, b, valid, members, n - 1);
      TxConservation(cfg, b, valid, members, n - 1);
      TotalConcat(RelayDeltas(cfg, b, valid, members, n - 1), TxPayments(cfg, b, valid, members, n - 1));
      assert b.transactions[..n][..n - 1] == b.transactions[..n - 1];
      BudgetAdds(cfg, TotalFee(b.transactions[..n - 1]), b.transactions[n - 1].fee);
    }
  }

  lemma BudgetOfNothing(cfg: ValidatedConfig)
    ensures RelayBudget(cfg, 0.0) == 0.0
  {}

  lemma BudgetAdds(cfg: ValidatedConfig, x: real, y: real)
    ensures RelayBudget(cfg, x + y) == RelayBudget(cfg, x) + RelayBudget(cfg, y)
  {}

  /**
   Fee conservation. The rewards always add up to base reward, proposer share and relay
   reward; relay reward plus burned fee never falls short of the relay part of the fees, and
   equals it if and only if no credited transaction has a negative fee; whatever the verdicts.
   */
  lemma FeeConservation(cfg: ValidatedConfig, baseReward: real, b: Block, valid: seq<bool>, validators: seq<Validator>)
    requires |valid| == |b.transactions|
    ensures var plan := BlockRewards(cfg, baseReward, b, valid, validators);
            && Total(plan.rewards) == baseReward + cfg.proposerFeeRatio * plan.totalFee + plan.relayReward
            && plan.relayReward + plan.burnedRelayFee >= (1.0 - cfg.proposerFeeRatio) * plan.totalFee
            && (plan.relayReward + plan.burnedRelayFee == (1.0 - cfg.proposerFeeRatio) * plan.totalFee
                <==> forall i :: 0 <= i < |b.transactions| ==> !CreditedDebt(b, valid, i))
  {
    hide CreditedPath, RelayBudget, ProposerReward, CreditedDebt, TxPayments, TxBurned;
    var plan, members := BlockRewards(cfg, baseReward, b, valid, validators), Addresses(validators);
    var first := [BalanceDelta(b.header.miner, plan.proposerReward)];
    TotalConcat(first, RelayDeltas(cfg, b, valid, members, |b.transactions|));
    assert first[..0] == [];
    assert Total(first) == Total([]) + plan.proposerReward;
    PrefixConservation(cfg, b, valid, members, |b.transactions|);
    assert b.transactions[..|b.transactions|] == b.transactions;
    FeeParts(cfg, baseReward, plan.totalFee);
  }

  lemma FeeParts(cfg: ValidatedConfig, baseReward: real, fees: real)
    ensures ProposerReward(cfg, baseReward, fees) == baseReward + cfg.proposerFeeRatio * fees
    ensures RelayBudget(cfg, fees) == (1.0 - cfg.proposerFeeRatio) * fees
    ensures cfg.proposerFeeRatio * fees + (1.0 - cfg.proposerFeeRatio) * fees == fees
  {}

  lemma {:induction false} TotalFeeIsSum(txs: seq<Transaction>, fees: seq<real>)
    requires |fees| == |txs| && forall i :: 0 <= i < |txs| ==> fees[i] == txs[i].fee
    ensures TotalFee(txs) == Sum(fees)
  {
    if txs != [] {
      TotalFeeIsSum(txs[..|txs| - 1], fees[..|txs| - 1]);
    }
  }

  lemma {:induction false} TotalIsSum(deltas: seq<BalanceDelta>, amounts: seq<real>)
    requires |amounts| == |deltas| && forall i :: 0 <= i < |deltas| ==> amounts[i] == deltas[i].amount
    ensures Total(deltas) == Sum(amounts)
  {
    if deltas != [] {
      TotalIsSum(deltas[..|deltas| - 1], amounts[..|deltas| - 1]);
    }
  }

  /** No path that is found valid and has at least two hops belongs to a negative fee. */
  ghost predicate NoCreditedDebt(b: Block, valid: seq<bool>) {
    && |valid| == |b.transactions|
    && forall i :: 0 <= i < |valid| && i < |b.paths| && valid[i] && b.transactions[i].fee < 0.0 ==>
         |FullPath(b.paths[i], b.header.miner)| <= 2
  }

  /**
   Every fee is paid or burned once: the amounts paid out and the burned fees add up to the base
   reward and all fees if and only if no credited transaction has a negative fee; and the proposer
   comes first, with the base reward and its part of the fees.
   */
  lemma EveryFeeOnce(cfg: ValidatedConfig, baseReward: real, b: Block, valid: seq<bool>, validators: seq<Validator>,
                     fees: seq<real>, amounts: seq<real>)
    requires |valid| == |b.transactions| == |fees| && forall i :: 0 <= i < |fees| ==> fees[i] == b.transactions[i].fee
    requires var rewards := BlockRewards(cfg, baseReward, b, valid, validators).rewards;
             |amounts| == |rewards| && forall i :: 0 <= i < |rewards| ==> amounts[i] == rewards[i].amount
    ensures var plan := BlockRewards(cfg, baseReward, b, valid, validators);
            && plan.totalFee == Sum(fees)
            && plan.rewards != [] && plan.rewards[0] == BalanceDelta(b.header.miner, plan.proposerReward)
            && plan.proposerReward == baseReward + cfg.proposerFeeRatio * Sum(fees)
            && Sum(amounts) == plan.proposerReward + plan.relayReward
            && (Sum(amounts) + plan.burnedRelayFee == baseReward + Sum(fees) <==> NoCreditedDebt(b, valid))
  {
    hide BlockRewards, NoCreditedDebt, CreditedDebt, Sum, Total, TotalFee;
    var plan := BlockRewards(cfg, baseReward, b, valid, validators);
    TotalFeeIsSum(b.transactions, fees);
    TotalIsSum(plan.rewards, amounts);
    PlanParts(cfg, baseReward, b, valid, validators);
    FeeConservation(cfg, baseReward, b, valid, validators);
    ClosingLaw(cfg.proposerFeeRatio, Sum(fees), baseReward, Sum(amounts), plan.relayReward, plan.burnedRelayFee);
    DebtFree(b, valid);
  }

  lemma DebtFree(b: Block, valid: seq<bool>)
    requires |valid| == |b.transactions|
    ensures NoCreditedDebt(b, valid) <==> forall i :: 0 <= i < |b.transactions| ==> !CreditedDebt(b, valid, i)
  {
    hide FullPath, CreditedPath;
    forall i | 0 <= i < |b.transactions|
      ensures CreditedDebt(b, valid, i)
         <==> i < |b.paths| && valid[i] && |FullPath(b.paths[i], b.header.miner)| >= 3 && b.transactions[i].fee < 0.0
    {
      DebtIs(b, valid, i);
    }
  }

  lemma DebtIs(b: Block, valid: seq<bool>, i: nat)
    requires i < |b.transactions| == |valid|
    ensures CreditedDebt(b, valid, i)
       <==> i < |b.paths| && valid[i] && |FullPath(b.paths[i], b.header.miner)| >= 3 && b.transactions[i].fee < 0.0
  {}

  lemma PlanParts(cfg: ValidatedConfig, baseReward: real, b: Block, valid: seq<bool>, validators: seq<Validator>)
    requires |valid| == |b.transactions|
    ensures var plan := BlockRewards(cfg, baseReward, b, valid, validators);
            && plan.totalFee == TotalFee(b.transactions)
            && plan.rewards != [] && plan.rewards[0] == BalanceDelta(b.header.miner, plan.proposerReward)
            && plan.proposerReward == baseReward + cfg.proposerFeeRatio * plan.totalFee
  {
    hide RelayDeltas, Burned;
  }

  lemma ClosingLaw(ratio: real, f: real, base: real, total: real, relay: real, burned: real)
    requires total == base + ratio * f + relay
    ensures total + burned == base + f <==> relay + burned == (1.0 - ratio) * f
  {
    assert (1.0 - ratio) * f == f - ratio * f;
  }

  // ----- the loops

  method ComputeBlockRewards(w: World, cfg: ValidatedConfig, baseReward: real, b: Block, validators: seq<Validator>,
                             cache: PathVerifyCache)
    returns (plan: RewardPlan)
    modifies cache
    ensures var verdicts := AllVerdicts(w, cfg, old(cache.entries), b);
            plan == BlockRewards(cfg, baseReward, b, verdicts.valid, validators) && cache.entries == verdicts.cache
  {
    hide CreditedPath, RelayBudget, ProposerReward, TxPayments, TxBurned, TxVerdict;
    var validatorSet := Addresses(validators);
    var totalFee := SumFees(b.transactions);
    var proposerReward := ProposerReward(cfg, baseReward, totalFee);
    var first := [BalanceDelta(b.header.miner, proposerReward)];
    var rewards := first;
    var relayReward, burned := 0.0, 0.0;
    ghost var entries := cache.entries;
    ghost var valid := AllVerdicts(w, cfg, entries, b).valid;
    for idx := 0 to |b.transactions|
      invariant cache.entries == BlockVerdicts(w, cfg, entries, b, idx).cache
      invariant rewards == first + RelayDeltas(cfg, b, valid, validatorSet, idx)
      invariant relayReward == Total(RelayDeltas(cfg, b, valid, validatorSet, idx))
      invariant burned == Burned(cfg, b, valid, validatorSet, idx)
    {
      VerdictAt(w, cfg, entries, b, |b.transactions|, idx);
      var pathValid := CheckPathRecord(w, cfg, b, idx, cache);
      var deltas, paid, rest := PlanTransaction(cfg, b, valid, pathValid, validatorSet, idx);
      TotalConcat(RelayDeltas(cfg, b, valid, validatorSet, idx), deltas);
      rewards := rewards + deltas;
      relayReward := relayReward + paid;
      burned := burned + rest;
    }
    plan := RewardPlan(rewards, proposerReward, relayReward, burned, totalFee);
  }

  /** The body of the loop over transactions, after the path check. */
  method PlanTransaction(cfg: ValidatedConfig, b: Block, ghost valid: seq<bool>, pathValid: bool,
                         validatorSet: set<string>, idx: nat)
    returns (deltas: seq<BalanceDelta>, paid: real, burned: real)
    requires idx < |b.transactions| == |valid| && pathValid == valid[idx]
    ensures deltas == TxPayments(cfg, b, valid, validatorSet, idx) && paid == Total(deltas)
    ensures burned == TxBurned(cfg, b, valid, validatorSet, idx)
  {
    hide RelayBudget;
    var relayBudget := RelayBudget(cfg, b.transactions[idx].fee);
    if idx >= |b.paths| || !pathValid {
      return [], 0.0, relayBudget;
    }
    var fullPath := FullPath(b.paths[idx], b.header.miner);
    if |fullPath| - 1 < 2 {
      return [], 0.0, relayBudget;
    }
    paid, deltas := PayRelays(cfg.targetDepth, relayBudget, validatorSet, fullPath);
    burned := Max(relayBudget - paid, 0.0);
  }

  method SumFees(txs: seq<Transaction>) returns (total: real)
    ensures total == TotalFee(txs)
  {
    total := 0.0;
    for i := 0 to |txs|
      invariant total == TotalFee(txs[..i])
    {
      assert txs[..i + 1][..i] == txs[..i];
      total := total + txs[i].fee;
    }
    assert txs[..|txs|] == txs;
  }

  method PayRelays(depth: nat, relayBudget: real, validatorSet: set<string>, fullPath: seq<string>)
    returns (paid: real, deltas: seq<BalanceDelta>)
    requires |fullPath| >= 3
    ensures deltas == RelayPayments(depth, relayBudget, validatorSet, fullPath, |fullPath| - 1) && paid == Total(deltas)
  {
    hide PositionPayment;
    paid, deltas := 0.0, [];
    for position := 1 to |fullPath| - 1
      invariant deltas == RelayPayments(depth, relayBudget, validatorSet, fullPath, position)
      invariant paid == Total(deltas)
    {
      var amount, payment := PayPosition(depth, relayBudget, validatorSet, fullPath, position);
      TotalConcat(deltas, payment);
      paid := paid + amount;
      deltas := deltas + payment;
    }
  }

  /** The body of the loop over positions: validators with a positive amount are paid. */
  method PayPosition(depth: nat, relayBudget: real, validatorSet: set<string>, fullPath: seq<string>, position: nat)
    returns (paid: real, payment: seq<BalanceDelta>)
    requires position < |fullPath|
    ensures payment == PositionPayment(depth, relayBudget, validatorSet, fullPath, position) && paid == Total(payment)
  {
    hide Share;
    paid, payment := 0.0, [];
    var relayer := fullPath[position];
    if relayer in validatorSet {
      var amount := Share(depth, relayBudget, fullPath, position);
      if amount > 0.0 {
        TotalSnoc([], BalanceDelta(relayer, amount));
        assert [] + [BalanceDelta(relayer, amount)] == [BalanceDelta(relayer, amount)];
        paid, payment := amount, [BalanceDelta(relayer, amount)];
      }
    }
  }

  // ----- raw epoch contribution

  function TransactionCreditWeight(irrecoverableCost: real, referenceCost: real): real {
    if irrecoverableCost <= 0.0 || referenceCost <= 0.0 then 0.0 else Min(irrecoverableCost / referenceCost, 1.0)
  }

  function CreditWeight(cfg: ValidatedConfig, tx: Transaction): real {
    TransactionCreditWeight(tx.irrecoverableCost, cfg.scoreCostReference)
  }

  function CreditPosition(depth: nat, raw: map<string, real>, q: real, members: set<string>, path: seq<string>,
                          p: nat): map<string, real>
    requires p < |path|
  {
    if path[p] in members then raw[path[p] := Get(raw, path[p]) + Share(depth, q, path, p)] else raw
  }

  /** raw[relayer] += q * gamma for the validators on positions 1 .. n-1. */
  function AddPathCredit(depth: nat, raw: map<string, real>, q: real, members: set<string>, path: seq<string>,
                         n: nat): map<string, real>
    requires 1 <= n <= |path| - 1
  {
    if n == 1 then raw
    else CreditPosition(depth, AddPathCredit(depth, raw, q, members, path, n - 1), q, members, path, n - 1)
  }

  function AddTxCredit(cfg: ValidatedConfig, raw: map<string, real>, b: Block, valid: seq<bool>, members: set<string>,
                       idx: nat): map<string, real>
    requires idx < |b.transactions| == |valid|
  {
    match CreditedPath(b, valid, idx)
    case None => raw
    case Some(path) => AddPathCredit(cfg.targetDepth, raw, CreditWeight(cfg, b.transactions[idx]), members, path,
                                     |path| - 1)
  }

  function AddBlockCredit(cfg: ValidatedConfig, raw: map<string, real>, b: Block, valid: seq<bool>,
                          members: set<string>, n: nat): map<string, real>
    requires n <= |b.transactions| == |valid|
  {
    if n == 0 then raw else AddTxCredit(cfg, AddBlockCredit(cfg, raw, b, valid, members, n - 1), b, valid, members,
                                        n - 1)
  }

  /** `raw_epoch_contribution`, given the path verdicts */
  function RawContribution(cfg: ValidatedConfig, blocks: seq<Block>, valid: seq<seq<bool>>,
                           members: set<string>): map<string, real>
    requires Matching(blocks, valid)
  {
    if blocks == [] then map[]
    else
      var n := |blocks| - 1;
      AddBlockCredit(cfg, RawContribution(cfg, blocks[..n], valid[..n], members), blocks[n], valid[n], members,
                     |blocks[n].transactions|)
  }

  /** Cost in units of the reference, capped at one; nothing for a cost that is not positive. */
  lemma CreditWeightIs(cfg: ValidatedConfig, tx: Transaction)
    ensures var cost, reference := tx.irrecoverableCost, cfg.scoreCostReference;
            && (cost <= 0.0 ==> CreditWeight(cfg, tx) == 0.0)
            && (0.0 < cost <= reference ==> CreditWeight(cfg, tx) * reference == cost)
            && (cost >= reference ==> CreditWeight(cfg, tx) == 1.0)
  {
    var cost, reference := tx.irrecoverableCost, cfg.scoreCostReference;
    if cost > 0.0 {
      DivLeqDiv(cost, reference, reference, reference);
      DivLeqDiv(reference, reference, cost, reference);
      DivSelf(reference);
      assert cost / reference * reference == cost;
    }
  }

  lemma CreditWeightRange(cfg: ValidatedConfig, tx: Transaction)
    ensures 0.0 <= CreditWeight(cfg, tx) <= 1.0
    ensures CreditWeight(cfg, tx) <= Max(tx.irrecoverableCost, 0.0) / cfg.scoreCostReference
  {
    QuotientNonNegative(Max(tx.irrecoverableCost, 0.0), cfg.scoreCostReference);
  }

  lemma {:induction false} PathCreditSum(depth: nat, raw: map<string, real>, q: real, members: set<string>,
                                         path: seq<string>, n: nat)
    requires 1 <= n <= |path| - 1
    ensures MapSum(AddPathCredit(depth, raw, q, members, path, n))
            == MapSum(raw) + ScaledCredit(depth, q, members, path, n)
    ensures AddPathCredit(depth, raw, q, members, path, n).Keys <= raw.Keys + members
  {
    hide Share, ScaledCredit, MapSum;
    if n == 1 {
      NoScaledCredit(depth, q, members, path);
    } else {
      PathCreditSum(depth, raw, q, members, path, n - 1);
      var sofar := AddPathCredit(depth, raw, q, members, path, n - 1);
      ScaledCreditStep(depth, q, members, path, n - 1);
      MapSumInsert(sofar, path[n - 1], Get(sofar, path[n - 1]) + Share(depth, q, path, n - 1));
    }
  }

  /** On a repetition-free path a validator at position p gains its share and nobody off the path gains anything. */
  lemma {:induction false} PathCreditTo(depth: nat, raw: map<string, real>, q: real, members: set<string>,
                                        path: seq<string>, n: nat, x: string)
    requires 1 <= n <= |path| - 1 && NoRepeatedNodes(path)
    ensures (forall p :: 1 <= p < n ==> path[p] != x) || x !in members ==>
              Get(AddPathCredit(depth, raw, q, members, path, n), x) == Get(raw, x)
    ensures forall p :: 1 <= p < n && path[p] == x && x in members ==>
              Get(AddPathCredit(depth, raw, q, members, path, n), x) == Get(raw, x) + Share(depth, q, path, p)
  {
    hide Share;
    if n > 1 {
      PathCreditTo(depth, raw, q, members, path, n - 1, x);
    }
  }

  lemma TxCreditBounded(cfg: ValidatedConfig, raw: map<string, real>, b: Block, valid: seq<bool>,
                        members: set<string>, idx: nat)
    requires idx < |b.transactions| == |valid|
    ensures MapSum(AddTxCredit(cfg, raw, b, valid, members, idx))
            <= MapSum(raw) + CreditWeight(cfg, b.transactions[idx])
    ensures AddTxCredit(cfg, raw, b, valid, members, idx).Keys <= raw.Keys + members
  {
    hide CreditedPath, CreditWeight, ScaledCredit, MapSum;
    var q := CreditWeight(cfg, b.transactions[idx]);
    CreditWeightRange(cfg, b.transactions[idx]);
    if CreditedPath(b, valid, idx).Some? {
      var path := CreditedPath(b, valid, idx).value;
      PathCreditSum(cfg.targetDepth, raw, q, members, path, |path| - 1);
      ScaledCreditRange(cfg.targetDepth, q, members, path);
    }
  }

  function BlockCreditWeight(cfg: ValidatedConfig, txs: seq<Transaction>): real {
    if txs == [] then 0.0 else BlockCreditWeight(cfg, txs[..|txs| - 1]) + CreditWeight(cfg, txs[|txs| - 1])
  }

  function EpochCreditWeight(cfg: ValidatedConfig, blocks: seq<Block>): real {
    if blocks == [] then 0.0
    else EpochCreditWeight(cfg, blocks[..|blocks| - 1]) + BlockCreditWeight(cfg, blocks[|blocks| - 1].transactions)
  }

  /** Irrecoverable cost spent in a list of blocks; negative entries count as nothing. */
  function BlockCost(txs: seq<Transaction>): real {
    if txs == [] then 0.0 else BlockCost(txs[..|txs| - 1]) + Max(txs[|txs| - 1].irrecoverableCost, 0.0)
  }

  function EpochCost(blocks: seq<Block>): real {
    if blocks == [] then 0.0 else EpochCost(blocks[..|blocks| - 1]) + BlockCost(blocks[|blocks| - 1].transactions)
  }

  lemma {:induction false} BlockCreditBounded(cfg: ValidatedConfig, raw: map<string, real>, b: Block,
                                              valid: seq<bool>, members: set<string>, n: nat)
    requires n <= |b.transactions| == |valid|
    ensures MapSum(AddBlockCredit(cfg, raw, b, valid, members, n))
            <= MapSum(raw) + BlockCreditWeight(cfg, b.transactions[..n])
    ensures AddBlockCredit(cfg, raw, b, valid, members, n).Keys <= raw.Keys + members
  {
    hide AddTxCredit, CreditWeight, MapSum;
    if n > 0 {
      BlockCreditBounded(cfg, raw, b, valid, members, n - 1);
      TxCreditBounded(cfg, AddBlockCredit(cfg, raw, b, valid, members, n - 1), b, valid, members, n - 1);
      assert b.transactions[..n][..n - 1] == b.transactions[..n - 1];
    }
  }

  lemma {:induction false} BlockWeightCostBacked(cfg: ValidatedConfig, txs: seq<Transaction>)
    ensures BlockCreditWeight(cfg, txs) <= BlockCost(txs) / cfg.scoreCostReference
  {
    hide CreditWeight;
    if txs == [] {
      QuotientNonNegative(0.0, cfg.scoreCostReference);
    } else {
      var n := |txs| - 1;
      BlockWeightCostBacked(cfg, txs[..n]);
      CreditWeightRange(cfg, txs[n]);
      DivAdd(BlockCost(txs[..n]), Max(txs[n].irrecoverableCost, 0.0), cfg.scoreCostReference);
    }
  }

  /**
   Score is cost-backed: over any list of blocks the raw contributions of all validators
   together are at most the transactions' credit weights, and these are at most the
   irrecoverable cost spent, in units of the reference cost. Nobody else receives any.
   */
  lemma {:induction false} ScoreIsCostBacked(cfg: ValidatedConfig, blocks: seq<Block>, valid: seq<seq<bool>>,
                                             members: set<string>)
    requires Matching(blocks, valid)
    ensures MapSum(RawContribution(cfg, blocks, valid, members)) <= EpochCreditWeight(cfg, blocks)
    ensures EpochCreditWeight(cfg, blocks) <= EpochCost(blocks) / cfg.scoreCostReference
    ensures RawContribution(cfg, blocks, valid, members).Keys <= members
  {
    hide AddTxCredit, CreditWeight;
    if blocks == [] {
      var none: map<string, real> := map[];
      assert MapSum(none) == 0.0;
      QuotientNonNegative(0.0, cfg.scoreCostReference);
    } else {
      var n := |blocks| - 1;
      var b := blocks[n];
      ScoreIsCostBacked(cfg, blocks[..n], valid[..n], members);
      BlockCreditBounded(cfg, RawContribution(cfg, blocks[..n], valid[..n], members), b, valid[n], members,
                         |b.transactions|);
      assert b.transactions[..|b.transactions|] == b.transactions;
      BlockWeightCostBacked(cfg, b.transactions);
      DivAdd(EpochCost(blocks[..n]), BlockCost(b.transactions), cfg.scoreCostReference);
    }
  }

  // ----- what fully staffed paths earn

  /** Transaction idx is credited for a path within the hop limit all of whose relays are validators. */
  ghost predicate Staffed(cfg: ValidatedConfig, b: Block, valid: seq<bool>, members: set<string>, idx: nat)
    requires idx < |b.transactions| == |valid|
  {
    && idx < |b.paths| && valid[idx]
    && var path := FullPath(b.paths[idx], b.header.miner);
    && 3 <= |path| <= cfg.maxPathHops + 1 && forall p :: 1 <= p < |path| - 1 ==> path[p] in members
  }

  ghost predicate AllStaffed(cfg: ValidatedConfig, b: Block, valid: seq<bool>, members: set<string>) {
    |valid| == |b.transactions| && forall idx :: 0 <= idx < |valid| ==> Staffed(cfg, b, valid, members, idx)
  }

  /** Such a path hands out its whole budget, weighted. */
  lemma StaffedCredit(cfg: ValidatedConfig, raw: map<string, real>, b: Block, valid: seq<bool>,
                      members: set<string>, idx: nat)
    requires idx < |b.transactions| == |valid| && Staffed(cfg, b, valid, members, idx)
    ensures MapSum(AddTxCredit(cfg, raw, b, valid, members, idx)) == MapSum(raw)
            + CreditWeight(cfg, b.transactions[idx])
              * PathBudgetForDepth(cfg.targetDepth, |FullPath(b.paths[idx], b.header.miner)| - 1)
  {
    hide CreditWeight, MapSum, PathBudgetForDepth, RelayCredit, AddPathCredit;
    var path, q := FullPath(b.paths[idx], b.header.miner), CreditWeight(cfg, b.transactions[idx]);
    PathCreditSum(cfg.targetDepth, raw, q, members, path, |path| - 1);
    StaffedPositions(cfg.targetDepth, members, path);
  }

  lemma StaffedPositions(depth: nat, members: set<string>, path: seq<string>)
    requires |path| >= 3 && forall p :: 1 <= p < |path| - 1 ==> path[p] in members
    ensures RelayCredit(depth, members, path, |path| - 1) == PathBudgetForDepth(depth, |path| - 1)
  {
    hide PathBudgetForDepth;
    assert RelayPositions(path, members) == Interval(1, |path| - 1);
    GammasSumToBudget(depth, |path| - 1);
  }

  lemma StaffedCreditAtLeast(cfg: ValidatedConfig, raw: map<string, real>, b: Block, valid: seq<bool>,
                             members: set<string>, idx: nat)
    requires idx < |b.transactions| == |valid| && Staffed(cfg, b, valid, members, idx)
    ensures MapSum(AddTxCredit(cfg, raw, b, valid, members, idx))
         >= MapSum(raw) + PathBudgetForDepth(cfg.targetDepth, cfg.maxPathHops) * CreditWeight(cfg, b.transactions[idx])
  {
    hide CreditWeight, MapSum, PathBudgetForDepth, AddTxCredit;
    var m, q := |FullPath(b.paths[idx], b.header.miner)| - 1, CreditWeight(cfg, b.transactions[idx]);
    StaffedCredit(cfg, raw, b, valid, members, idx);
    CreditWeightRange(cfg, b.transactions[idx]);
    if m < cfg.maxPathHops {
      BudgetBelowOneAndDecreasing(cfg.targetDepth, m, cfg.maxPathHops);
    }
    MulMono(q, PathBudgetForDepth(cfg.targetDepth, cfg.maxPathHops), PathBudgetForDepth(cfg.targetDepth, m));
  }

  lemma {:induction false} StaffedBlock(cfg: ValidatedConfig, raw: map<string, real>, b: Block, valid: seq<bool>,
                                        members: set<string>, n: nat)
    requires AllStaffed(cfg, b, valid, members) && n <= |b.transactions|
    ensures MapSum(AddBlockCredit(cfg, raw, b, valid, members, n)) >= MapSum(raw)
            + PathBudgetForDepth(cfg.targetDepth, cfg.maxPathHops) * BlockCreditWeight(cfg, b.transactions[..n])
  {
    hide CreditWeight, MapSum, PathBudgetForDepth, AddTxCredit, Staffed;
    var budget := PathBudgetForDepth(cfg.targetDepth, cfg.maxPathHops);
    if n == 0 {
      assert budget * 0.0 == 0.0;
    } else {
      StaffedBlock(cfg, raw, b, valid, members, n - 1);
      StaffedCreditAtLeast(cfg, AddBlockCredit(cfg, raw, b, valid, members, n - 1), b, valid, members, n - 1);
      assert b.transactions[..n][..n - 1] == b.transactions[..n - 1];
      Distribute(budget, BlockCreditWeight(cfg, b.transactions[..n - 1]), CreditWeight(cfg, b.transactions[n - 1]));
    }
  }

  /**
   The lower bound: if every transaction of an epoch is credited and fully staffed, the validators
   together earn at least the budget of the longest admissible path, times all credit weights.
   */
  lemma {:induction false} StaffedEpoch(cfg: ValidatedConfig, blocks: seq<Block>, valid: seq<seq<bool>>,
                                        members: set<string>)
    requires Matching(blocks, valid)
    requires forall k :: 0 <= k < |blocks| ==> AllStaffed(cfg, blocks[k], valid[k], members)
    ensures 0.0 < PathBudgetForDepth(cfg.targetDepth, cfg.maxPathHops)
    ensures PathBudgetForDepth(cfg.targetDepth, cfg.maxPathHops) * EpochCreditWeight(cfg, blocks)
         <= MapSum(RawContribution(cfg, blocks, valid, members))
  {
    hide AddTxCredit, CreditWeight, PathBudgetForDepth, AllStaffed, MapSum;
    var budget := PathBudgetForDepth(cfg.targetDepth, cfg.maxPathHops);
    BudgetPositive(cfg.targetDepth, cfg.maxPathHops);
    if blocks == [] {
      EmptyMapSum();
      assert budget * 0.0 == 0.0;
    } else {
      var n := |blocks| - 1;
      var b := blocks[n];
      StaffedEpoch(cfg, blocks[..n], valid[..n], members);
      StaffedBlock(cfg, RawContribution(cfg, blocks[..n], valid[..n], members), b, valid[n], members, |b.transactions|);
      assert b.transactions[..|b.transactions|] == b.transactions;
      Distribute(budget, EpochCreditWeight(cfg, blocks[..n]), BlockCreditWeight(cfg, b.transactions));
    }
  }

  lemma EmptyMapSum()
    ensures var none: map<string, real> := map[]; MapSum(none) == 0.0
  {}

  method RawEpochContribution(w: World, cfg: ValidatedConfig, blocks: seq<Block>, validators: seq<Validator>,
                              cache: PathVerifyCache)
    returns (raw: map<string, real>)
    modifies cache
    ensures var verdicts := EpochVerdicts(w, cfg, old(cache.entries), blocks);
            raw == RawContribution(cfg, blocks, verdicts.valid, Addresses(validators))
              && cache.entries == verdicts.cache
  {
    hide AddBlockCredit, AllVerdicts;
    var validatorSet := Addresses(validators);
    raw := map[];
    ghost var entries := cache.entries;
    for k := 0 to |blocks|
      invariant cache.entries == EpochVerdicts(w, cfg, entries, blocks[..k]).cache
      invariant raw == RawContribution(cfg, blocks[..k], EpochVerdicts(w, cfg, entries, blocks[..k]).valid,
                                       validatorSet)
    {
      assert blocks[..k + 1][..k] == blocks[..k];
      ghost var before := EpochVerdicts(w, cfg, entries, blocks[..k]);
      ghost var last := AllVerdicts(w, cfg, before.cache, blocks[k]);
      assert EpochVerdicts(w, cfg, entries, blocks[..k + 1]) == EpochOutcome(before.valid + [last.valid], last.cache);
      assert (before.valid + [last.valid])[..k] == before.valid;
      raw := CreditBlock(w, cfg, raw, blocks[k], validatorSet, cache);
    }
    assert blocks[..|blocks|] == blocks;
  }

  /** The loop over the transactions of one block. */
  method CreditBlock(w: World, cfg: ValidatedConfig, before: map<string, real>, b: Block, validatorSet: set<string>,
                     cache: PathVerifyCache)
    returns (raw: map<string, real>)
    modifies cache
    ensures var verdicts := AllVerdicts(w, cfg, old(cache.entries), b);
            raw == AddBlockCredit(cfg, before, b, verdicts.valid, validatorSet, |b.transactions|)
              && cache.entries == verdicts.cache
  {
    hide AddTxCredit, TxVerdict;
    raw := before;
    ghost var entries := cache.entries;
    ghost var valid := AllVerdicts(w, cfg, entries, b).valid;
    for idx := 0 to |b.transactions|
      invariant cache.entries == BlockVerdicts(w, cfg, entries, b, idx).cache
      invariant raw == AddBlockCredit(cfg, before, b, valid, validatorSet, idx)
    {
      VerdictAt(w, cfg, entries, b, |b.transactions|, idx);
      var pathValid := CheckPathRecord(w, cfg, b, idx, cache);
      raw := CreditTransaction(cfg, raw, b, valid, pathValid, validatorSet, idx);
    }
  }

  method CreditTransaction(cfg: ValidatedConfig, before: map<string, real>, b: Block, ghost valid: seq<bool>,
                           pathValid: bool, validatorSet: set<string>, idx: nat)
    returns (raw: map<string, real>)
    requires idx < |b.transactions| == |valid| && pathValid == valid[idx]
    ensures raw == AddTxCredit(cfg, before, b, valid, validatorSet, idx)
  {
    hide CreditWeight;
    if idx >= |b.paths| || !pathValid {
      return before;
    }
    var fullPath := FullPath(b.paths[idx], b.header.miner);
    if |fullPath| - 1 < 2 {
      return before;
    }
    raw := CreditRelays(cfg.targetDepth, before, CreditWeight(cfg, b.transactions[idx]), validatorSet, fullPath);
  }

  method CreditRelays(depth: nat, before: map<string, real>, q: real, validatorSet: set<string>, fullPath: seq<string>)
    returns (raw: map<string, real>)
    requires |fullPath| >= 3
    ensures raw == AddPathCredit(depth, before, q, validatorSet, fullPath, |fullPath| - 1)
  {
    hide Share;
    raw := before;
    for position := 1 to |fullPath| - 1
      invariant raw == AddPathCredit(depth, before, q, validatorSet, fullPath, position)
    {
      var relayer := fullPath[position];
      if relayer in validatorSet {
        raw := raw[relayer := Get(raw, relayer) + Share(depth, q, fullPath, position)];
      }
    }
  }
}
