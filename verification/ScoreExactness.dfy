/**
 How far the verification cache reaches into the scores. Proved: the raw
 contributions of an epoch are those of uncached verification in every reachable
 cache if and only if no ambiguous record of the epoch can earn credit.
 */
module ScoreExactness {
  import opened RealMath
  import opened Ledger
  import opened Config
  import opened Evidence
  import VerifyCache
  import opened Verdicts
  import opened Weights
  import opened Rewards
  import opened Scores
  import opened PlanExactness

  // ----- which verdicts earn credit

  /**
   The verdict on transaction idx makes a difference: its path is long enough, carries weight and
   has a validator inside.
   */
  ghost predicate Creditable(cfg: ValidatedConfig, b: Block, members: set<string>, idx: nat)
    requires idx < |b.transactions|
  {
    && idx < |b.paths|
    && var path := FullPath(b.paths[idx], b.header.miner);
    && |path| >= 3 && CreditWeight(cfg, b.transactions[idx]) > 0.0 && HasInteriorMember(path, members)
  }

  /** Crediting the same path keeps the distance between two accounts. */
  lemma {:induction false} PathKeepsGap(depth: nat, raw: map<string, real>, raw': map<string, real>, q: real,
                                        members: set<string>, path: seq<string>, n: nat, a: string)
    requires 1 <= n <= |path| - 1
    ensures var r := AddPathCredit(depth, raw, q, members, path, n);
            var r' := AddPathCredit(depth, raw', q, members, path, n);
            Get(r', a) - Get(r, a) == Get(raw', a) - Get(raw, a)
  {
    hide Share;
    if n > 1 {
      PathKeepsGap(depth, raw, raw', q, members, path, n - 1, a);
    }
  }

  /** A credited path takes nothing away, and a validator inside it gains at least its share. */
  lemma {:induction false} PathGain(depth: nat, raw: map<string, real>, q: real, members: set<string>,
                                    path: seq<string>, n: nat, a: string, p: nat)
    requires 1 <= n <= |path| - 1 && q >= 0.0 && 1 <= p < |path| - 1
    ensures var gain := Get(AddPathCredit(depth, raw, q, members, path, n), a) - Get(raw, a);
            gain >= 0.0 && (p < n && path[p] == a && a in members ==> gain >= Share(depth, q, path, p))
  {
    hide Share;
    if n > 1 {
      PathGain(depth, raw, q, members, path, n - 1, a, p);
      ShareNonNegative(depth, q, path, n - 1);
    }
  }

  /** Without weight or without a validator inside, a credited path changes no account. */
  lemma {:induction false} NoGain(depth: nat, raw: map<string, real>, q: real, members: set<string>,
                                  path: seq<string>, n: nat, a: string)
    requires 1 <= n <= |path| - 1 && (q == 0.0 || !HasInteriorMember(path, members))
    ensures Get(AddPathCredit(depth, raw, q, members, path, n), a) == Get(raw, a)
  {
    hide Share;
    if n > 1 {
      NoGain(depth, raw, q, members, path, n - 1, a);
      ShareNonNegative(depth, q, path, n - 1);
    }
  }

  // ----- comparing two lists of verdicts

  /** Every positive verdict that can earn credit is positive in the second list too. */
  ghost predicate BlockBelow(cfg: ValidatedConfig, b: Block, valid: seq<bool>, valid': seq<bool>, members: set<string>)
  {
    && |b.transactions| == |valid| == |valid'|
    && forall i :: 0 <= i < |valid| && valid[i] ==> valid'[i] || !Creditable(cfg, b, members, i)
  }

  ghost predicate Below(cfg: ValidatedConfig, blocks: seq<Block>, valid: seq<seq<bool>>, valid': seq<seq<bool>>,
                        members: set<string>)
  {
    && |blocks| == |valid| == |valid'|
    && forall k :: 0 <= k < |blocks| ==> BlockBelow(cfg, blocks[k], valid[k], valid'[k], members)
  }

  /** Only the second list accepts the path of transaction idx, on which validator a earns credit. */
  ghost predicate Gains(cfg: ValidatedConfig, b: Block, valid: seq<bool>, valid': seq<bool>, members: set<string>,
                        idx: nat, a: string)
  {
    && idx < |b.transactions| == |valid| == |valid'| && !valid[idx] && valid'[idx]
    && idx < |b.paths| && a in members && CreditWeight(cfg, b.transactions[idx]) > 0.0
    && var path := FullPath(b.paths[idx], b.header.miner);
    && exists p :: 1 <= p < |path| - 1 && path[p] == a
  }

  /** One transaction does not shrink the second account's lead, and widens it where only the second list accepts. */
  lemma TxLead(cfg: ValidatedConfig, raw: map<string, real>, raw': map<string, real>, b: Block,
               valid: seq<bool>, valid': seq<bool>, members: set<string>, idx: nat, a: string)
    requires BlockBelow(cfg, b, valid, valid', members) && idx < |b.transactions|
    ensures var r, r' := AddTxCredit(cfg, raw, b, valid, members, idx), AddTxCredit(cfg, raw', b, valid', members, idx);
            var lead := Get(r', a) - Get(r, a);
            && lead >= Get(raw', a) - Get(raw, a)
            && (Gains(cfg, b, valid, valid', members, idx, a) ==> lead > Get(raw', a) - Get(raw, a))
  {
    hide CreditWeight, Share, AddPathCredit, HasInteriorMember;
    var depth, q := cfg.targetDepth, CreditWeight(cfg, b.transactions[idx]);
    CreditWeightRange(cfg, b.transactions[idx]);
    var credited, credited' := CreditedPath(b, valid, idx), CreditedPath(b, valid', idx);
    if credited.Some? && credited'.Some? {
      PathKeepsGap(depth, raw, raw', q, members, credited.value, |credited.value| - 1, a);
    } else if credited'.Some? {
      var path := credited'.value;
      PathGain(depth, raw', q, members, path, |path| - 1, a, 1);
      if Gains(cfg, b, valid, valid', members, idx, a) {
        var p :| 1 <= p < |path| - 1 && path[p] == a;
        PathGain(depth, raw', q, members, path, |path| - 1, a, p);
        SharePositive(depth, q, path, p);
      }
    } else if credited.Some? {
      NoGain(depth, raw, q, members, credited.value, |credited.value| - 1, a);
    }
  }

  lemma {:induction false} BlockLead(cfg: ValidatedConfig, raw: map<string, real>, raw': map<string, real>, b: Block,
                                     valid: seq<bool>, valid': seq<bool>, members: set<string>, n: nat, a: string,
                                     idx: nat)
    requires BlockBelow(cfg, b, valid, valid', members) && n <= |b.transactions|
    ensures var r := AddBlockCredit(cfg, raw, b, valid, members, n);
            var r' := AddBlockCredit(cfg, raw', b, valid', members, n);
            var lead := Get(r', a) - Get(r, a);
            && lead >= Get(raw', a) - Get(raw, a)
            && (idx < n && Gains(cfg, b, valid, valid', members, idx, a) ==> lead > Get(raw', a) - Get(raw, a))
  {
    hide AddTxCredit, BlockBelow, Gains;
    if n > 0 {
      assert |b.transactions| == |valid| == |valid'| by { BelowSizes(cfg, b, valid, valid', members); }
      BlockLead(cfg, raw, raw', b, valid, valid', members, n - 1, a, idx);
      var r := AddBlockCredit(cfg, raw, b, valid, members, n - 1);
      var r' := AddBlockCredit(cfg, raw', b, valid', members, n - 1);
      TxLead(cfg, r, r', b, valid, valid', members, n - 1, a);
    }
  }

  lemma BelowSizes(cfg: ValidatedConfig, b: Block, valid: seq<bool>, valid': seq<bool>, members: set<string>)
    requires BlockBelow(cfg, b, valid, valid', members)
    ensures |b.transactions| == |valid| == |valid'|
  {}

  /** Contributions only grow with the verdicts, and strictly for a validator on a path only the second list accepts. */
  lemma {:induction false} EpochLead(cfg: ValidatedConfig, blocks: seq<Block>, valid: seq<seq<bool>>,
                                     valid': seq<seq<bool>>, members: set<string>, a: string, k: nat, idx: nat)
    requires Matching(blocks, valid) && Matching(blocks, valid') && Below(cfg, blocks, valid, valid', members)
    ensures var x := Get(RawContribution(cfg, blocks, valid, members), a);
            var x' := Get(RawContribution(cfg, blocks, valid', members), a);
            && x <= x'
            && (k < |blocks| && Gains(cfg, blocks[k], valid[k], valid'[k], members, idx, a) ==> x < x')
  {
    hide AddBlockCredit, BlockBelow;
    if blocks != [] {
      var n := |blocks| - 1;
      var b := blocks[n];
      EpochLead(cfg, blocks[..n], valid[..n], valid'[..n], members, a, k, idx);
      var raw := RawContribution(cfg, blocks[..n], valid[..n], members);
      var raw' := RawContribution(cfg, blocks[..n], valid'[..n], members);
      BlockLead(cfg, raw, raw', b, valid[n], valid'[n], members, |b.transactions|, a, idx);
    }
  }

  // ----- the exact condition for an epoch

  ghost function CachedCredit(env: Env, cache: Cache, epoch: EpochInput): map<string, real> {
    RawContribution(env.cfg, epoch.blocks, EpochVerdicts(env.w, env.cfg, cache, epoch.blocks).valid,
                    Addresses(epoch.validators))
  }

  ghost function UncachedCredit(env: Env, epoch: EpochInput): map<string, real> {
    RawContribution(env.cfg, epoch.blocks, UncachedEpoch(env.w, env.cfg, epoch.blocks), Addresses(epoch.validators))
  }

  /** Equal entries, where a missing one is zero: all that the scores read. */
  ghost predicate SameCredit(raw: map<string, real>, raw': map<string, real>) {
    forall a :: Get(raw, a) == Get(raw', a)
  }

  /** An ambiguous record whose verdict earns credit. */
  ghost predicate CreditExposed(env: Env, epoch: EpochInput, k: nat, idx: nat)
    requires k < |epoch.blocks| && idx < |epoch.blocks[k].transactions|
  {
    AmbiguousAt(env.w, env.cfg, epoch.blocks[k], idx)
      && Creditable(env.cfg, epoch.blocks[k], Addresses(epoch.validators), idx)
  }

  ghost predicate CreditUnexposed(env: Env, epoch: EpochInput) {
    forall k, idx :: 0 <= k < |epoch.blocks| && 0 <= idx < |epoch.blocks[k].transactions|
           ==> !CreditExposed(env, epoch, k, idx)
  }

  /** Every reachable cache gives the uncached contributions if and only if the epoch has no such record. */
  lemma CreditExact(env: Env, epoch: EpochInput)
    requires VerifyCache.CleanTexts(env.w)
    ensures (forall cache :: Reachable(env.w, cache) ==>
               SameCredit(CachedCredit(env, cache, epoch), UncachedCredit(env, epoch)))
       <==> CreditUnexposed(env, epoch)
  {
    hide VerifyCache.CleanTexts, Reachable, CachedCredit, UncachedCredit, CreditExposed, SameCredit;
    var blocks := epoch.blocks;
    if k, idx :| 0 <= k < |blocks| && 0 <= idx < |blocks[k].transactions| && CreditExposed(env, epoch, k, idx) {
      var cache := ExposedCreditDiffers(env, epoch, k, idx);
    } else {
      forall cache | Reachable(env.w, cache)
        ensures SameCredit(CachedCredit(env, cache, epoch), UncachedCredit(env, epoch))
      {
        UnexposedCreditAgrees(env, cache, epoch);
      }
    }
  }

  lemma UnexposedCreditAgrees(env: Env, cache: Cache, epoch: EpochInput)
    requires VerifyCache.CleanTexts(env.w) && Reachable(env.w, cache) && CreditUnexposed(env, epoch)
    ensures SameCredit(CachedCredit(env, cache, epoch), UncachedCredit(env, epoch))
  {
    hide VerifyCache.CleanTexts, Reachable, EpochVerdicts, UncachedEpoch, Creditable, AmbiguousAt, RawContribution,
      Below;
    var w, cfg, members := env.w, env.cfg, Addresses(epoch.validators);
    var valid, valid' := UncachedEpoch(w, cfg, epoch.blocks), EpochVerdicts(w, cfg, cache, epoch.blocks).valid;
    assert Below(cfg, epoch.blocks, valid, valid', members) && Below(cfg, epoch.blocks, valid', valid, members) by {
      forall k | 0 <= k < |epoch.blocks|
        ensures BlockBelow(cfg, epoch.blocks[k], valid[k], valid'[k], members)
        ensures BlockBelow(cfg, epoch.blocks[k], valid'[k], valid[k], members)
      {
        UnexposedBlock(env, cache, epoch, k);
      }
      BelowFromBlocks(cfg, epoch.blocks, valid, valid', members);
      BelowFromBlocks(cfg, epoch.blocks, valid', valid, members);
    }
    forall a
      ensures Get(CachedCredit(env, cache, epoch), a) == Get(UncachedCredit(env, epoch), a)
    {
      EpochLead(cfg, epoch.blocks, valid, valid', members, a, |epoch.blocks|, 0);
      EpochLead(cfg, epoch.blocks, valid', valid, members, a, |epoch.blocks|, 0);
    }
  }

  lemma BelowFromBlocks(cfg: ValidatedConfig, blocks: seq<Block>, valid: seq<seq<bool>>, valid': seq<seq<bool>>,
                        members: set<string>)
    requires |blocks| == |valid| == |valid'|
    requires forall k :: 0 <= k < |blocks| ==> BlockBelow(cfg, blocks[k], valid[k], valid'[k], members)
    ensures Below(cfg, blocks, valid, valid', members)
  {
    hide BlockBelow;
  }

  /** On each block, cached and uncached verdicts differ only where no credit is earned. */
  lemma UnexposedBlock(env: Env, cache: Cache, epoch: EpochInput, k: nat)
    requires VerifyCache.CleanTexts(env.w) && Reachable(env.w, cache) && CreditUnexposed(env, epoch)
             && k < |epoch.blocks|
    ensures var valid := UncachedEpoch(env.w, env.cfg, epoch.blocks);
            var valid' := EpochVerdicts(env.w, env.cfg, cache, epoch.blocks).valid;
            && BlockBelow(env.cfg, epoch.blocks[k], valid[k], valid'[k], Addresses(epoch.validators))
            && BlockBelow(env.cfg, epoch.blocks[k], valid'[k], valid[k], Addresses(epoch.validators))
  {
    hide VerifyCache.CleanTexts, Reachable, EpochVerdicts, AllVerdicts, Creditable, AmbiguousAt, UncachedVerdict;
    var w, cfg, b := env.w, env.cfg, epoch.blocks[k];
    var before := EpochVerdicts(w, cfg, cache, epoch.blocks[..k]).cache;
    EpochVerdictAt(w, cfg, cache, epoch.blocks, k);
    EpochReachable(w, cfg, cache, epoch.blocks[..k]);
    forall i | 0 <= i < |b.transactions|
      ensures UncachedVerdicts(w, cfg, b)[i] == AllVerdicts(w, cfg, before, b).valid[i]
           || !Creditable(cfg, b, Addresses(epoch.validators), i)
    {
      assert !CreditExposed(env, epoch, k, i);
      if !AmbiguousAt(w, cfg, b, i) {
        UnambiguousVerdict(w, cfg, before, b, i);
      }
    }
  }

  /** An exposed record earns its relays credit in the cache left by verifying its split form, and none without it. */
  lemma ExposedCreditDiffers(env: Env, epoch: EpochInput, k: nat, idx: nat) returns (cache: Cache)
    requires VerifyCache.CleanTexts(env.w) && k < |epoch.blocks| && idx < |epoch.blocks[k].transactions|
    requires CreditExposed(env, epoch, k, idx)
    ensures Reachable(env.w, cache) && !SameCredit(CachedCredit(env, cache, epoch), UncachedCredit(env, epoch))
  {
    hide VerifyCache.CleanTexts, EpochVerdicts, UncachedEpoch, RawContribution, Below, Gains, CreditWeight,
      VerifyCache.Ambiguous, VerifyCache.CacheAfter;
    var w, cfg, b, members := env.w, env.cfg, epoch.blocks[k], Addresses(epoch.validators);
    var path := FullPath(b.paths[idx], b.header.miner);
    var p :| 1 <= p < |path| - 1 && path[p] in members;
    cache := VerifyCache.CacheAfter(w, [SplitCall(b, idx)]);
    assert Reachable(w, cache);
    var valid, valid' := UncachedEpoch(w, cfg, epoch.blocks), EpochVerdicts(w, cfg, cache, epoch.blocks).valid;
    CachedAbove(env, cache, epoch);
    ExposedGains(env, epoch, k, idx, p);
    EpochLead(cfg, epoch.blocks, valid, valid', members, path[p], k, idx);
    assert Get(CachedCredit(env, cache, epoch), path[p]) != Get(UncachedCredit(env, epoch), path[p]);
  }

  /** No reachable cache takes credit away. */
  lemma CachedAbove(env: Env, cache: Cache, epoch: EpochInput)
    requires VerifyCache.CleanTexts(env.w) && Reachable(env.w, cache)
    ensures Below(env.cfg, epoch.blocks, UncachedEpoch(env.w, env.cfg, epoch.blocks),
                  EpochVerdicts(env.w, env.cfg, cache, epoch.blocks).valid, Addresses(epoch.validators))
  {
    hide VerifyCache.CleanTexts, Reachable, EpochVerdicts, AllVerdicts, Creditable, UncachedVerdict;
    var w, cfg := env.w, env.cfg;
    forall k | 0 <= k < |epoch.blocks|
      ensures BlockBelow(cfg, epoch.blocks[k], UncachedEpoch(w, cfg, epoch.blocks)[k],
                         EpochVerdicts(w, cfg, cache, epoch.blocks).valid[k], Addresses(epoch.validators))
    {
      var b, before := epoch.blocks[k], EpochVerdicts(w, cfg, cache, epoch.blocks[..k]).cache;
      EpochVerdictAt(w, cfg, cache, epoch.blocks, k);
      EpochReachable(w, cfg, cache, epoch.blocks[..k]);
      forall i | 0 <= i < |b.transactions| && UncachedVerdict(w, cfg, b, i)
        ensures AllVerdicts(w, cfg, before, b).valid[i]
      {
        ValidStaysValid(w, cfg, before, b, i);
      }
    }
  }

  lemma ExposedGains(env: Env, epoch: EpochInput, k: nat, idx: nat, p: nat)
    requires VerifyCache.CleanTexts(env.w) && k < |epoch.blocks| && idx < |epoch.blocks[k].transactions|
    requires CreditExposed(env, epoch, k, idx)
    requires var path := FullPath(epoch.blocks[k].paths[idx], epoch.blocks[k].header.miner);
             1 <= p < |path| - 1 && path[p] in Addresses(epoch.validators)
    ensures var w, cfg, b := env.w, env.cfg, epoch.blocks[k];
            Gains(cfg, b, UncachedEpoch(w, cfg, epoch.blocks)[k],
                  EpochVerdicts(w, cfg, VerifyCache.CacheAfter(w, [SplitCall(b, idx)]), epoch.blocks).valid[k],
                  Addresses(epoch.validators), idx, FullPath(b.paths[idx], b.header.miner)[p])
  {
    hide VerifyCache.CleanTexts, EpochVerdicts, AllVerdicts, VerifyCache.Ambiguous, VerifyCache.CacheAfter,
      VerifyCache.CacheKey, SplitCall, CreditWeight, UncachedVerdict;
    var w, cfg, b := env.w, env.cfg, epoch.blocks[k];
    var cache := VerifyCache.CacheAfter(w, [SplitCall(b, idx)]);
    SplitCallStores(w, cfg, b, idx);
    EpochKeepsEntries(w, cfg, cache, epoch.blocks[..k],
                      VerifyCache.CacheKey(b.paths[idx], b.transactions[idx].hash, b.header.miner));
    EpochVerdictAt(w, cfg, cache, epoch.blocks, k);
    StoredAccepted(w, cfg, EpochVerdicts(w, cfg, cache, epoch.blocks[..k]).cache, b, idx);
  }

  /** Scores read the contributions entry by entry, so equal entries give equal scores. */
  lemma SameCreditSameScores(env: Env, history: map<string, real>, epoch: EpochInput, cache: Cache, cache': Cache)
    requires VerifyCache.CleanTexts(env.w) && Reachable(env.w, cache) && Reachable(env.w, cache')
             && CreditUnexposed(env, epoch)
    ensures NextScores(env, history, epoch, EpochVerdicts(env.w, env.cfg, cache, epoch.blocks).valid)
         == NextScores(env, history, epoch, EpochVerdicts(env.w, env.cfg, cache', epoch.blocks).valid)
  {
    hide VerifyCache.CleanTexts, Reachable, EpochVerdicts, CreditUnexposed, RawContribution, NextScore,
      SaturatedContribution, NormalizedStake;
    UnexposedCreditAgrees(env, cache, epoch);
    UnexposedCreditAgrees(env, cache', epoch);
    assert SameCredit(CachedCredit(env, cache, epoch), CachedCredit(env, cache', epoch));
  }
}
