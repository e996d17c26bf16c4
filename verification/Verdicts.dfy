/**
 The path verdicts of the consensus code. They go through the process-wide
 verification cache, so they depend on everything verified before. Proved: in
 every cache that calls of the verifier can produce, the verdicts on blocks
 without ambiguous records are the uncached ones, and a verdict never turns from
 valid to invalid.
 */
module Verdicts {
  import opened Encoding
  import opened Ledger
  import opened Config
  import opened Evidence
  import opened VerifyCache

  type Cache = map<string, bool>

  predicate WithinHops(cfg: ValidatedConfig, record: PathRecord, miner: string) {
    |FullPath(record, miner)| - 1 <= cfg.maxPathHops
  }

  /** `valid_path_record`: the verdict and the cache afterwards. */
  function ValidPathRecord(w: World, cfg: ValidatedConfig, cache: Cache, record: PathRecord, tx: Transaction,
                           miner: string, epoch: u64): Outcome
  {
    if !WithinHops(cfg, record, miner) then Outcome(false, cache)
    else VerifyWithCache(w, cache, record, tx, miner, epoch, true)
  }

  /** The verdict on transaction idx of a block; one without a path record has none. */
  function TxVerdict(w: World, cfg: ValidatedConfig, cache: Cache, b: Block, idx: nat): Outcome
    requires idx < |b.transactions|
  {
    if idx >= |b.paths| then Outcome(false, cache)
    else ValidPathRecord(w, cfg, cache, b.paths[idx], b.transactions[idx], b.header.miner, b.header.epoch)
  }

  /**
   A record with more hops than the limit is refused without a look at the cache; any other is
   verified through it.
   */
  lemma HopLimit(w: World, cfg: ValidatedConfig, cache: Cache, b: Block, idx: nat)
    requires idx < |b.transactions| && idx < |b.paths|
    ensures var hops := |FullPath(b.paths[idx], b.header.miner)| - 1;
            TxVerdict(w, cfg, cache, b, idx)
            == if hops <= cfg.maxPathHops
               then VerifyWithCache(w, cache, b.paths[idx], b.transactions[idx], b.header.miner, b.header.epoch, true)
               else Outcome(false, cache)
  {
    hide VerifyWithCache, FullPath;
  }

  datatype BlockOutcome = BlockOutcome(valid: seq<bool>, cache: Cache)

  /** The verdicts on the first n transactions, one after the other. */
  function BlockVerdicts(w: World, cfg: ValidatedConfig, cache: Cache, b: Block, n: nat): (r: BlockOutcome)
    requires n <= |b.transactions|
    ensures |r.valid| == n
  {
    if n == 0 then BlockOutcome([], cache)
    else
      var before := BlockVerdicts(w, cfg, cache, b, n - 1);
      var last := TxVerdict(w, cfg, before.cache, b, n - 1);
      BlockOutcome(before.valid + [last.valid], last.cache)
  }

  function AllVerdicts(w: World, cfg: ValidatedConfig, cache: Cache, b: Block): (r: BlockOutcome)
    ensures |r.valid| == |b.transactions|
  {
    BlockVerdicts(w, cfg, cache, b, |b.transactions|)
  }

  datatype EpochOutcome = EpochOutcome(valid: seq<seq<bool>>, cache: Cache)

  function EpochVerdicts(w: World, cfg: ValidatedConfig, cache: Cache, blocks: seq<Block>): (r: EpochOutcome)
    ensures Matching(blocks, r.valid)
  {
    if blocks == [] then EpochOutcome([], cache)
    else
      var n := |blocks| - 1;
      var before := EpochVerdicts(w, cfg, cache, blocks[..n]);
      var last := AllVerdicts(w, cfg, before.cache, blocks[n]);
      EpochOutcome(before.valid + [last.valid], last.cache)
  }

  /** One list of verdicts per block, one verdict per transaction. */
  predicate Matching(blocks: seq<Block>, valid: seq<seq<bool>>) {
    |blocks| == |valid| && forall i :: 0 <= i < |blocks| ==> |valid[i]| == |blocks[i].transactions|
  }

  // ----- without the cache

  predicate UncachedVerdict(w: World, cfg: ValidatedConfig, b: Block, idx: nat)
    requires idx < |b.transactions|
  {
    && idx < |b.paths| && WithinHops(cfg, b.paths[idx], b.header.miner)
    && VerifyUncached(w, b.paths[idx], b.transactions[idx], b.header.miner, b.header.epoch)
  }

  function UncachedVerdicts(w: World, cfg: ValidatedConfig, b: Block): (valid: seq<bool>)
    ensures |valid| == |b.transactions|
  {
    seq(|b.transactions|, i requires 0 <= i < |b.transactions| => UncachedVerdict(w, cfg, b, i))
  }

  function UncachedEpoch(w: World, cfg: ValidatedConfig, blocks: seq<Block>): (valid: seq<seq<bool>>)
    ensures Matching(blocks, valid)
  {
    seq(|blocks|, k requires 0 <= k < |blocks| => UncachedVerdicts(w, cfg, blocks[k]))
  }

  /** Transaction idx carries a record on which the cache can be wrong. */
  ghost predicate AmbiguousAt(w: World, cfg: ValidatedConfig, b: Block, idx: nat)
    requires idx < |b.transactions|
  {
    && idx < |b.paths| && WithinHops(cfg, b.paths[idx], b.header.miner)
    && Ambiguous(w, b.paths[idx], b.transactions[idx], b.header.miner, b.header.epoch)
  }

  ghost predicate Clear(w: World, cfg: ValidatedConfig, b: Block) {
    forall idx :: 0 <= idx < |b.transactions| ==> !AmbiguousAt(w, cfg, b, idx)
  }

  // ----- caches that calls can produce

  ghost predicate Reachable(w: World, cache: Cache) {
    exists calls :: cache == CacheAfter(w, calls)
  }

  lemma EmptyReachable(w: World)
    ensures Reachable(w, map[])
  {
    assert CacheAfter(w, []) == map[];
  }

  lemma VerifyReachable(w: World, cache: Cache, record: PathRecord, tx: Transaction, miner: string, epoch: u64,
                        useCache: bool)
    requires Reachable(w, cache)
    ensures Reachable(w, VerifyWithCache(w, cache, record, tx, miner, epoch, useCache).cache)
  {
    hide VerifyWithCache;
    var calls :| cache == CacheAfter(w, calls);
    var more := calls + [Call(record, tx, miner, epoch, useCache)];
    assert more[..|calls|] == calls;
    assert CacheAfter(w, more) == VerifyWithCache(w, cache, record, tx, miner, epoch, useCache).cache;
  }

  lemma TxReachable(w: World, cfg: ValidatedConfig, cache: Cache, b: Block, idx: nat)
    requires Reachable(w, cache) && idx < |b.transactions|
    ensures Reachable(w, TxVerdict(w, cfg, cache, b, idx).cache)
  {
    hide VerifyWithCache, Reachable;
    if idx < |b.paths| {
      VerifyReachable(w, cache, b.paths[idx], b.transactions[idx], b.header.miner, b.header.epoch, true);
    }
  }

  lemma {:induction false} BlockReachable(w: World, cfg: ValidatedConfig, cache: Cache, b: Block, n: nat)
    requires Reachable(w, cache) && n <= |b.transactions|
    ensures Reachable(w, BlockVerdicts(w, cfg, cache, b, n).cache)
  {
    hide TxVerdict, Reachable;
    if n > 0 {
      BlockReachable(w, cfg, cache, b, n - 1);
      TxReachable(w, cfg, BlockVerdicts(w, cfg, cache, b, n - 1).cache, b, n - 1);
    }
  }

  lemma {:induction false} EpochReachable(w: World, cfg: ValidatedConfig, cache: Cache, blocks: seq<Block>)
    requires Reachable(w, cache)
    ensures Reachable(w, EpochVerdicts(w, cfg, cache, blocks).cache)
  {
    hide Reachable;
    if blocks != [] {
      var n := |blocks| - 1;
      EpochReachable(w, cfg, cache, blocks[..n]);
      BlockReachable(w, cfg, EpochVerdicts(w, cfg, cache, blocks[..n]).cache, blocks[n], |blocks[n].transactions|);
    }
  }

  // ----- agreement

  lemma TxAgrees(w: World, cfg: ValidatedConfig, cache: Cache, b: Block, idx: nat)
    requires CleanTexts(w) && Reachable(w, cache) && idx < |b.transactions| && !AmbiguousAt(w, cfg, b, idx)
    ensures TxVerdict(w, cfg, cache, b, idx).valid == UncachedVerdict(w, cfg, b, idx)
  {
    hide VerifyWithCache, VerifyUncached, CleanTexts, Ambiguous;
    if idx < |b.paths| && WithinHops(cfg, b.paths[idx], b.header.miner) {
      var calls :| cache == CacheAfter(w, calls);
      CacheAgrees(w, calls, b.paths[idx], b.transactions[idx], b.header.miner, b.header.epoch);
    }
  }

  /** So do the verdicts on a whole block, record by record. */
  lemma UnambiguousVerdict(w: World, cfg: ValidatedConfig, cache: Cache, b: Block, idx: nat)
    requires CleanTexts(w) && Reachable(w, cache) && idx < |b.transactions| && !AmbiguousAt(w, cfg, b, idx)
    ensures AllVerdicts(w, cfg, cache, b).valid[idx] == UncachedVerdict(w, cfg, b, idx)
  {
    hide CleanTexts, Reachable, TxVerdict, AmbiguousAt, UncachedVerdict;
    VerdictAt(w, cfg, cache, b, |b.transactions|, idx);
    BlockReachable(w, cfg, cache, b, idx);
    TxAgrees(w, cfg, BlockVerdicts(w, cfg, cache, b, idx).cache, b, idx);
  }

  /** On a block without ambiguous records every reachable cache gives the uncached verdicts. */
  lemma {:induction false} BlockAgrees(w: World, cfg: ValidatedConfig, cache: Cache, b: Block, n: nat)
    requires CleanTexts(w) && Reachable(w, cache) && Clear(w, cfg, b) && n <= |b.transactions|
    ensures BlockVerdicts(w, cfg, cache, b, n).valid == UncachedVerdicts(w, cfg, b)[..n]
  {
    hide TxVerdict, Reachable, CleanTexts, UncachedVerdict, AmbiguousAt;
    if n > 0 {
      BlockAgrees(w, cfg, cache, b, n - 1);
      BlockReachable(w, cfg, cache, b, n - 1);
      TxAgrees(w, cfg, BlockVerdicts(w, cfg, cache, b, n - 1).cache, b, n - 1);
    }
  }

  lemma ClearVerdicts(w: World, cfg: ValidatedConfig, cache: Cache, b: Block)
    requires CleanTexts(w) && Reachable(w, cache) && Clear(w, cfg, b)
    ensures AllVerdicts(w, cfg, cache, b).valid == UncachedVerdicts(w, cfg, b)
  {
    hide Reachable, CleanTexts, Clear;
    BlockAgrees(w, cfg, cache, b, |b.transactions|);
  }

  ghost predicate AllClear(w: World, cfg: ValidatedConfig, blocks: seq<Block>) {
    forall i :: 0 <= i < |blocks| ==> Clear(w, cfg, blocks[i])
  }

  /** Two reachable caches give the same verdicts on an epoch without ambiguous records. */
  lemma {:induction false} EpochAgrees(w: World, cfg: ValidatedConfig, cache: Cache, cache': Cache, blocks: seq<Block>)
    requires CleanTexts(w) && Reachable(w, cache) && Reachable(w, cache') && AllClear(w, cfg, blocks)
    ensures EpochVerdicts(w, cfg, cache, blocks).valid == EpochVerdicts(w, cfg, cache', blocks).valid
  {
    hide Reachable, CleanTexts, Clear, AllVerdicts;
    if blocks != [] {
      var n := |blocks| - 1;
      EpochAgrees(w, cfg, cache, cache', blocks[..n]);
      EpochReachable(w, cfg, cache, blocks[..n]);
      EpochReachable(w, cfg, cache', blocks[..n]);
      ClearVerdicts(w, cfg, EpochVerdicts(w, cfg, cache, blocks[..n]).cache, blocks[n]);
      ClearVerdicts(w, cfg, EpochVerdicts(w, cfg, cache', blocks[..n]).cache, blocks[n]);
    }
  }

  // ----- what a positive verdict says, cached or not

  lemma {:induction false} VerdictAt(w: World, cfg: ValidatedConfig, cache: Cache, b: Block, n: nat, idx: nat)
    requires idx < n <= |b.transactions|
    ensures BlockVerdicts(w, cfg, cache, b, n).valid[idx]
            == TxVerdict(w, cfg, BlockVerdicts(w, cfg, cache, b, idx).cache, b, idx).valid
  {
    hide TxVerdict;
    if idx < n - 1 {
      VerdictAt(w, cfg, cache, b, n - 1, idx);
    }
  }

  lemma {:induction false} EpochVerdictAt(w: World, cfg: ValidatedConfig, cache: Cache, blocks: seq<Block>, k: nat)
    requires k < |blocks|
    ensures EpochVerdicts(w, cfg, cache, blocks).valid[k]
         == AllVerdicts(w, cfg, EpochVerdicts(w, cfg, cache, blocks[..k]).cache, blocks[k]).valid
  {
    hide AllVerdicts;
    var n := |blocks| - 1;
    if k < n {
      EpochVerdictAt(w, cfg, cache, blocks[..n], k);
      assert blocks[..n][..k] == blocks[..k];
    }
  }

  /** A record with a positive verdict of at least two hops names nobody twice: that check precedes the cache. */
  lemma ValidIsDistinct(w: World, cfg: ValidatedConfig, cache: Cache, b: Block, idx: nat)
    requires idx < |b.transactions| && TxVerdict(w, cfg, cache, b, idx).valid
    ensures idx < |b.paths|
            && (|FullPath(b.paths[idx], b.header.miner)| >= 2
                ==> NoRepeatedNodes(FullPath(b.paths[idx], b.header.miner)))
  {
    hide TransactionVerifies, AggregateCheck, CacheKey;
  }

  /** The verdicts of a block that are asked for, by cached verification in order. */
  ghost predicate Asked(w: World, cfg: ValidatedConfig, b: Block, valid: seq<bool>) {
    exists cache :: valid == AllVerdicts(w, cfg, cache, b).valid
  }

  lemma AskedIsDistinct(w: World, cfg: ValidatedConfig, b: Block, valid: seq<bool>, idx: nat)
    requires Asked(w, cfg, b, valid) && idx < |valid| == |b.transactions| && valid[idx]
    ensures idx < |b.paths|
            && (|FullPath(b.paths[idx], b.header.miner)| >= 2
                ==> NoRepeatedNodes(FullPath(b.paths[idx], b.header.miner)))
  {
    hide TxVerdict, NoRepeatedNodes;
    var cache :| valid == AllVerdicts(w, cfg, cache, b).valid;
    VerdictAt(w, cfg, cache, b, |b.transactions|, idx);
    ValidIsDistinct(w, cfg, BlockVerdicts(w, cfg, cache, b, idx).cache, b, idx);
  }

  // ----- the effect of a stored answer

  lemma VerifyKeepsEntries(w: World, cache: Cache, record: PathRecord, tx: Transaction, miner: string, epoch: u64,
                           key: string)
    requires key in cache
    ensures var after := VerifyWithCache(w, cache, record, tx, miner, epoch, true).cache;
            key in after && after[key] == cache[key]
  {
    hide Precheck, AggregateCheck, CacheKey;
  }

  lemma {:induction false} BlockKeepsEntries(w: World, cfg: ValidatedConfig, cache: Cache, b: Block, n: nat,
                                             key: string)
    requires n <= |b.transactions| && key in cache
    ensures var after := BlockVerdicts(w, cfg, cache, b, n).cache; key in after && after[key] == cache[key]
  {
    hide VerifyWithCache;
    if n > 0 {
      BlockKeepsEntries(w, cfg, cache, b, n - 1, key);
      if n - 1 < |b.paths| {
        VerifyKeepsEntries(w, BlockVerdicts(w, cfg, cache, b, n - 1).cache, b.paths[n - 1], b.transactions[n - 1],
                           b.header.miner, b.header.epoch, key);
      }
    }
  }

  lemma {:induction false} EpochKeepsEntries(w: World, cfg: ValidatedConfig, cache: Cache, blocks: seq<Block>,
                                             key: string)
    requires key in cache
    ensures var after := EpochVerdicts(w, cfg, cache, blocks).cache; key in after && after[key] == cache[key]
  {
    hide BlockVerdicts;
    if blocks != [] {
      var n := |blocks| - 1;
      EpochKeepsEntries(w, cfg, cache, blocks[..n], key);
      BlockKeepsEntries(w, cfg, EpochVerdicts(w, cfg, cache, blocks[..n]).cache, blocks[n], |blocks[n].transactions|,
                        key);
    }
  }

  /** The call that makes an ambiguous record's verdict positive: verifying the split record. */
  function SplitCall(b: Block, idx: nat): Call
    requires idx < |b.transactions| && idx < |b.paths|
  {
    Call(Resplit(b.paths[idx]), b.transactions[idx], b.header.miner, b.header.epoch, true)
  }

  /** The cache holds a positive answer under the key of the block's record. */
  predicate Stored(cache: Cache, b: Block, idx: nat)
    requires idx < |b.transactions| && idx < |b.paths|
  {
    var key := CacheKey(b.paths[idx], b.transactions[idx].hash, b.header.miner);
    key in cache && cache[key]
  }

  /** That call stores one, although without the cache the record is refused. */
  lemma SplitCallStores(w: World, cfg: ValidatedConfig, b: Block, idx: nat)
    requires CleanTexts(w) && idx < |b.transactions| && AmbiguousAt(w, cfg, b, idx)
    ensures Stored(CacheAfter(w, [SplitCall(b, idx)]), b, idx) && !UncachedVerdict(w, cfg, b, idx)
  {
    hide CleanTexts, Precheck, AggregateCheck, CacheKey, Split;
    PoisonedEntry(w, b.paths[idx], b.transactions[idx], b.header.miner, b.header.epoch);
  }

  /** With such an answer stored the ambiguous record is accepted. */
  lemma StoredAccepted(w: World, cfg: ValidatedConfig, cache: Cache, b: Block, idx: nat)
    requires idx < |b.transactions| && AmbiguousAt(w, cfg, b, idx) && Stored(cache, b, idx)
    ensures AllVerdicts(w, cfg, cache, b).valid[idx]
  {
    hide AggregateCheck, CacheKey;
    BlockKeepsEntries(w, cfg, cache, b, idx, CacheKey(b.paths[idx], b.transactions[idx].hash, b.header.miner));
    VerdictAt(w, cfg, cache, b, |b.transactions|, idx);
  }

  lemma AmbiguousAccepted(w: World, cfg: ValidatedConfig, b: Block, idx: nat)
    requires CleanTexts(w) && idx < |b.transactions| && AmbiguousAt(w, cfg, b, idx)
    ensures AllVerdicts(w, cfg, CacheAfter(w, [SplitCall(b, idx)]), b).valid[idx]
    ensures !UncachedVerdict(w, cfg, b, idx)
  {
    hide CleanTexts, Stored, AllVerdicts, UncachedVerdict, CacheAfter, Ambiguous;
    SplitCallStores(w, cfg, b, idx);
    StoredAccepted(w, cfg, CacheAfter(w, [SplitCall(b, idx)]), b, idx);
  }

  /** No reachable cache turns a valid record away. */
  lemma ValidStaysValid(w: World, cfg: ValidatedConfig, cache: Cache, b: Block, idx: nat)
    requires CleanTexts(w) && Reachable(w, cache) && idx < |b.transactions| && UncachedVerdict(w, cfg, b, idx)
    ensures AllVerdicts(w, cfg, cache, b).valid[idx]
  {
    hide CleanTexts, Reachable, AllVerdicts, AmbiguousAt, UncachedVerdict;
    if AmbiguousAt(w, cfg, b, idx) {
      AmbiguousAccepted(w, cfg, b, idx);
    }
    UnambiguousVerdict(w, cfg, cache, b, idx);
  }

  // ----- the check as the code makes it

  method CheckPathRecord(w: World, cfg: ValidatedConfig, b: Block, idx: nat, cache: PathVerifyCache)
    returns (valid: bool)
    requires idx < |b.transactions|
    modifies cache
    ensures Outcome(valid, cache.entries) == TxVerdict(w, cfg, old(cache.entries), b, idx)
  {
    hide VerifyWithCache;
    if idx >= |b.paths| {
      return false;
    }
    var pathLength := |FullPath(b.paths[idx], b.header.miner)| - 1;
    if pathLength > cfg.maxPathHops {
      return false;
    }
    valid := cache.VerifyAtEpoch(w, b.paths[idx], b.transactions[idx], b.header.miner, b.header.epoch, true);
  }
}
