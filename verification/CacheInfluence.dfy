/**
 The shared verification cache lets later blocks interfere: with an ambiguous
 record that can move money, a block of an epoch whose scores are not yet active
 decides whether the record's relays are paid.
 */
module CacheInfluence {
  import opened Ledger
  import opened Evidence
  import VerifyCache
  import opened Verdicts
  import opened Weights
  import opened Rewards
  import opened Scores
  import opened Settlement
  import opened PlanExactness
  import opened Consensus

  /** A one-transaction block whose ambiguous record would pay a relay, and the same block with the record split. */
  ghost predicate Bait(env: Env, b: Block, validators: seq<Validator>) {
    && |b.transactions| == 1 && |b.paths| == 1
    && b.transactions[0].fee > 0.0 && Exposed(env, b, validators, 0)
    && WithinHops(env.cfg, VerifyCache.Resplit(b.paths[0]), b.header.miner)
  }

  function SplitBlock(b: Block): Block
    requires |b.paths| == 1
  {
    b.(paths := [VerifyCache.Resplit(b.paths[0])])
  }

  /** An epoch with the given blocks ends, then the block's rewards are distributed. */
  function TwoSteps(b: Block, blocks: seq<Block>, validators: seq<Validator>): seq<Event> {
    [EpochEnd(EpochInput(blocks, validators)), Distribute(b, validators)]
  }

  /** Such blocks exist: merge two neighbouring relays of a verifying record that has a validator behind them. */
  lemma BaitExists(env: Env, b: Block, validators: seq<Validator>)
    requires VerifyCache.CleanTexts(env.w) && |b.transactions| == 1 && |b.paths| == 1 && b.transactions[0].fee > 0.0
    requires VerifyUncached(env.w, b.paths[0], b.transactions[0], b.header.miner, b.header.epoch)
    requires WithinHops(env.cfg, b.paths[0], b.header.miner)
    requires var paths := b.paths[0].paths;
             |paths| >= 4 && paths[3] in Addresses(validators) && paths[3] != b.header.miner
    ensures var record := b.paths[0];
            Bait(env, b.(paths := [record.(paths := VerifyCache.Merged(record.paths, 1))]), validators)
  {
    hide VerifyUncached, VerifyCache.CleanTexts, VerifyCache.Ambiguous, VerifyCache.Resplit, VerifyCache.Merged;
    var record, miner := b.paths[0], b.header.miner;
    var sibling := record.(paths := VerifyCache.Merged(record.paths, 1));
    VerifyCache.AmbiguousSibling(env.w, record, b.transactions[0], miner, b.header.epoch, 1);
    VerifyCache.MergedLength(record.paths, 1);
    VerifyCache.MergedEntries(record.paths, 1, 2);
    var path := FullPath(sibling, miner);
    assert path[2] == record.paths[3] && 2 < |path| - 1;
    assert HasInteriorMember(path, Addresses(validators));
    assert |path| <= |FullPath(record, miner)| by { MergedHops(record, miner); }
  }

  /** Merging does not lengthen the full path. */
  lemma MergedHops(record: PathRecord, miner: string)
    requires |record.paths| >= 4
    ensures |FullPath(record.(paths := VerifyCache.Merged(record.paths, 1)), miner)| <= |FullPath(record, miner)|
  {
    hide VerifyCache.Merged;
    VerifyCache.MergedLength(record.paths, 1);
  }

  /** Judging the split block leaves exactly the cache of the call that verifies the split record. */
  lemma SplitBlockCache(env: Env, b: Block, validators: seq<Validator>)
    requires Bait(env, b, validators)
    ensures EpochVerdicts(env.w, env.cfg, map[], [SplitBlock(b)]).cache
            == VerifyCache.CacheAfter(env.w, [SplitCall(b, 0)])
  {
    hide VerifyCache.VerifyWithCache, VerifyCache.Resplit, Exposed;
    var block, call := SplitBlock(b), SplitCall(b, 0);
    assert [block][..0] == [] && [call][..0] == [];
    assert BlockVerdicts(env.w, env.cfg, map[], block, 0).cache == map[];
  }

  lemma EmptyCacheRefuses(env: Env, b: Block, validators: seq<Validator>)
    requires VerifyCache.CleanTexts(env.w) && Bait(env, b, validators)
    ensures AllVerdicts(env.w, env.cfg, map[], b).valid == [false]
  {
    hide VerifyCache.CleanTexts, Precheck, AggregateCheck, VerifyCache.CacheKey, VerifyCache.Resplit, Material;
    VerifyCache.UnregisteredPath(env.w, b.paths[0], b.transactions[0].hash, b.header.miner);
    assert BlockVerdicts(env.w, env.cfg, map[], b, 0) == BlockOutcome([], map[]);
    assert BlockVerdicts(env.w, env.cfg, map[], b, 1).valid == [] + [TxVerdict(env.w, env.cfg, map[], b, 0).valid];
  }

  /** The rewards submitted for the block differ between the two verdicts. */
  lemma BaitRewardsDiffer(env: Env, b: Block, validators: seq<Validator>)
    requires Bait(env, b, validators)
    ensures BlockCall(env, b, [true], validators).rewards != BlockCall(env, b, [false], validators).rewards
  {
    hide TxPayments, TxBurned, Material, ProposerReward, AmbiguousAt;
    var cfg, members := env.cfg, Addresses(validators);
    MoreMovedAt(cfg, b, [false], [true], members, 0);
    Refused(cfg, b, [false], members, 0);
    Accepted(cfg, b, [true], members, 0);
    var paid := TxPayments(cfg, b, [true], members, 0);
    assert Total([]) == 0.0 && Total(paid) > 0.0;
    assert RelayDeltas(cfg, b, [true], members, 1) == [] + paid;
    assert RelayDeltas(cfg, b, [false], members, 1) == [] + [];
  }

  lemma RunOfTwo(env: Env, b: Block, blocks: seq<Block>, validators: seq<Validator>)
    ensures var events := TwoSteps(b, blocks, validators);
            var cache := EpochVerdicts(env.w, env.cfg, map[], blocks).cache;
            var call := BlockCall(env, b, AllVerdicts(env.w, env.cfg, cache, b).valid, validators);
            && RunState(env, events).pendingRewards == Pay(env, INITIAL, call).0.pendingRewards
            && RunOutputs(env, events) == [Silent, Pay(env, INITIAL, call).1]
            && EpochCount(events) == 1
  {
    hide NextScores, Freeze, BlockCall, AllVerdicts, EpochVerdicts, Activate;
    var e, d := EpochEnd(EpochInput(blocks, validators)), Distribute(b, validators);
    var events := [e, d];
    assert events[..1] == [e] && [e][..0] == [];
    assert RunState(env, [e]) == EndEpoch(env, INITIAL, e.epoch);
    assert RunOutputs(env, [e]) == [] + [Silent];
    assert EpochCount([e]) == 1;
  }

  /** What is paid or queued determines what was submitted. */
  lemma PayShows(env: Env, call: Call, call': Call)
    requires call.index == call'.index && call.rewards != [] && call'.rewards != []
    requires Pay(env, INITIAL, call).0.pendingRewards == Pay(env, INITIAL, call').0.pendingRewards
    requires Pay(env, INITIAL, call).1 == Pay(env, INITIAL, call').1
    ensures call.rewards == call'.rewards
  {
    hide Pay;
    PayFirst(env, call);
    PayFirst(env, call');
  }

  /** The first plan of a run is paid at once or queued. */
  lemma PayFirst(env: Env, call: Call)
    requires call.rewards != []
    ensures var depth, r := env.cfg.rewardSettlementDepth, Pay(env, INITIAL, call);
            if depth == 0 then r.1 == Paid(call.rewards)
              else r.0.pendingRewards == [Batch(call.index + depth, call.rewards)]
  {
    hide Payout;
    var batch := Batch(call.index + env.cfg.rewardSettlementDepth, call.rewards);
    assert Submit([], env.cfg.rewardSettlementDepth, call) == [batch];
    assert MaturedCount([batch], call.index) == if env.cfg.rewardSettlementDepth == 0 then 1 else 0;
    PayoutOne([batch], 0);
    assert [batch][0..1] == [batch][..1] && [batch][0..] == [batch];
  }

  /**
   Without the condition on ambiguous records non-interference fails: two runs that differ only in
   the blocks of epoch 0, all at or after the cutoff 0, pay or queue different rewards before those
   scores can activate.
   */
  lemma LaterBlocksInterfere(env: Env, b: Block, validators: seq<Validator>)
    requires VerifyCache.CleanTexts(env.w) && Bait(env, b, validators) && env.cfg.scoreActivationDelayEpochs >= 2
    ensures var events, events' := TwoSteps(b, [SplitBlock(b)], validators), TwoSteps(b, [], validators);
            && SameBefore(events, events', 0) && EpochCount(events) < 0 + env.cfg.scoreActivationDelayEpochs
            && (RunOutputs(env, events) != RunOutputs(env, events')
                || RunState(env, events).pendingRewards != RunState(env, events').pendingRewards)
  {
    hide VerifyCache.CleanTexts, BlockCall, AllVerdicts, EpochVerdicts, Pay, Exposed, RunState, RunOutputs, EpochCount;
    RunOfTwo(env, b, [SplitBlock(b)], validators);
    RunOfTwo(env, b, [], validators);
    SplitBlockCache(env, b, validators);
    BaitAccepted(env, b, validators);
    EmptyEpochCache(env);
    EmptyCacheRefuses(env, b, validators);
    BaitRewardsDiffer(env, b, validators);
    var call, call' := BlockCall(env, b, [true], validators), BlockCall(env, b, [false], validators);
    PlanNotEmpty(env, b, [true], validators);
    PlanNotEmpty(env, b, [false], validators);
    SameIndex(env, b, validators);
    if Pay(env, INITIAL, call).0.pendingRewards == Pay(env, INITIAL, call').0.pendingRewards
       && Pay(env, INITIAL, call).1 == Pay(env, INITIAL, call').1 {
      PayShows(env, call, call');
    }
  }

  lemma BaitAccepted(env: Env, b: Block, validators: seq<Validator>)
    requires VerifyCache.CleanTexts(env.w) && Bait(env, b, validators)
    ensures AllVerdicts(env.w, env.cfg, VerifyCache.CacheAfter(env.w, [SplitCall(b, 0)]), b).valid == [true]
  {
    hide VerifyCache.CleanTexts, AllVerdicts, AmbiguousAt, Material, VerifyCache.Resplit;
    AmbiguousAccepted(env.w, env.cfg, b, 0);
  }

  lemma EmptyEpochCache(env: Env)
    ensures EpochVerdicts(env.w, env.cfg, map[], []).cache == map[]
  {}

  lemma SameIndex(env: Env, b: Block, validators: seq<Validator>)
    requires |b.transactions| == 1
    ensures BlockCall(env, b, [true], validators).index == BlockCall(env, b, [false], validators).index
  {}
}
