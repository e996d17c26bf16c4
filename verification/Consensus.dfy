/**
 The TopoStake state machine: epoch ends, proposer selections, reward
 distributions and path verifications by the rest of the process, in any order;
 path verdicts go through the shared verification cache. Proved over every run:
 scores become active exactly the configured number of epochs after they were
 produced; the score mass stays backed by irrecoverable cost; frozen weights and
 elections never depend on more recent blocks; and, as long as no ambiguous path
 record can earn credit or move money, payments do not either, nor does anything
 depend on what else the process verifies.
 */
module Consensus {
  import opened RealMath
  import opened Encoding
  import opened Ledger
  import opened Config
  import VerifyCache
  import opened Verdicts
  import opened Weights
  import opened Rewards
  import opened Scores
  import opened Selection
  import opened Settlement
  import opened PlanExactness
  import opened ScoreExactness

  // ----- state

  datatype ScoreRoot = ScoreRoot(producedEpoch: nat, activatesAt: nat, scores: map<string, real>)

  /** Everything `freeze_proposer_weights` writes. */
  datatype Snapshot = Snapshot(
    normalizedScore: map<string, real>,
    stakes: map<string, real>,
    bonuses: map<string, real>,
    unnormalized: map<string, real>,
    weights: map<string, real>)

  datatype State = State(
    history: map<string, real>,
    active: map<string, real>,
    activeEpoch: Option<nat>,
    nextEpoch: nat,
    pendingRoots: seq<ScoreRoot>,
    snapshot: Snapshot,
    pendingRewards: seq<Batch>,
    cache: Cache)

  const NO_SNAPSHOT := Snapshot(map[], map[], map[], map[], map[])

  const INITIAL := State(map[], map[], None, 0, [], NO_SNAPSHOT, [], map[])

  // ----- freezing

  function StakeSnapshot(validators: seq<Validator>): map<string, real> {
    if validators == [] then map[]
    else
      var v := validators[|validators| - 1];
      StakeSnapshot(validators[..|validators| - 1])[v.address := v.stake]
  }

  ghost function Bonuses(cfg: ValidatedConfig, scores: map<string, real>, validators: seq<Validator>): map<string, real>
  {
    var stake, damped := NormalizedStake(validators), DampedScore(scores, validators, cfg.scoreFloorKappa);
    map a | a in Addresses(validators) :: Bonus(cfg, Get(stake, a), Get(damped, a))
  }

  ghost function Freeze(cfg: ValidatedConfig, scores: map<string, real>, validators: seq<Validator>): Snapshot {
    Snapshot(
      DampedScore(scores, validators, cfg.scoreFloorKappa),
      StakeSnapshot(validators),
      Bonuses(cfg, scores, validators),
      Unnormalized(cfg, scores, validators),
      FrozenWeights(cfg, scores, validators))
  }

  lemma {:induction false} StakeSnapshotOf(validators: seq<Validator>, i: nat)
    requires DistinctAddresses(validators) && i < |validators|
    ensures validators[i].address in StakeSnapshot(validators)
    ensures StakeSnapshot(validators)[validators[i].address] == validators[i].stake
  {
    var n := |validators| - 1;
    if i < n {
      StakeSnapshotOf(validators[..n], i);
      assert validators[i].address != validators[n].address;
    }
  }

  /**
   What the snapshot records of a listed validator: its stake as listed, the bonus behind its
   unnormalised weight, and that weight's part of the total as its frozen weight.
   */
  lemma SnapshotOf(cfg: ValidatedConfig, scores: map<string, real>, validators: seq<Validator>, i: nat)
    returns (share: real)
    requires DistinctAddresses(validators) && i < |validators| && MapSum(RawStakes(validators)) > 0.0
    ensures share == Max(validators[i].stake, 0.0) / MapSum(RawStakes(validators))
    ensures var s, a := Freeze(cfg, scores, validators), validators[i].address;
            && a in s.stakes && s.stakes[a] == validators[i].stake
            && a in s.bonuses && a in s.unnormalized && a in s.weights && MapSum(s.unnormalized) > 0.0
            && s.unnormalized[a] == share * (1.0 + cfg.eta * s.bonuses[a])
            && s.weights[a] == s.unnormalized[a] / MapSum(s.unnormalized)
            && s.normalizedScore == DampedScore(scores, validators, cfg.scoreFloorKappa)
  {
    hide MapSum, RawStakes, DampedScore, Bonuses, NormalizedStake, FrozenWeights, Unnormalized, StakeSnapshot;
    var a := validators[i].address;
    share := Get(NormalizedStake(validators), a);
    RawStakeOf(validators, i);
    ShareOf(validators, i);
    StakeSnapshotOf(validators, i);
    FrozenShare(cfg, scores, validators, {}, a);
    UnnormalizedAt(cfg, scores, validators, a);
  }

  lemma ShareOf(validators: seq<Validator>, i: nat)
    requires DistinctAddresses(validators) && i < |validators| && MapSum(RawStakes(validators)) > 0.0
    ensures Get(NormalizedStake(validators), validators[i].address)
         == Max(validators[i].stake, 0.0) / MapSum(RawStakes(validators))
  {
    hide MapSum, RawStakes, NormalizeMap;
    RawStakeOf(validators, i);
    NormalizedShares(RawStakes(validators));
  }

  lemma UnnormalizedAt(cfg: ValidatedConfig, scores: map<string, real>, validators: seq<Validator>, a: string)
    requires a in Addresses(validators)
    ensures a in DampedScore(scores, validators, cfg.scoreFloorKappa) && a in Bonuses(cfg, scores, validators)
    ensures Unnormalized(cfg, scores, validators)[a]
         == Get(NormalizedStake(validators), a) * (1.0 + cfg.eta * Bonuses(cfg, scores, validators)[a])
  {
    hide NormalizedStake, Bonus, Weight, ScoreOf, ScoreSum;
    var s, c := Get(NormalizedStake(validators), a), Get(DampedScore(scores, validators, cfg.scoreFloorKappa), a);
    assert Unnormalized(cfg, scores, validators)[a] == Weight(cfg, s, c);
    WeightIs(cfg, s, c, Bonuses(cfg, scores, validators)[a]);
  }

  lemma WeightIs(cfg: ValidatedConfig, s: real, c: real, bonus: real)
    requires bonus == Bonus(cfg, s, c)
    ensures Weight(cfg, s, c) == s * (1.0 + cfg.eta * bonus)
  {}

  // ----- epoch ends

  /** The activation loop: roots leave the front of the queue while they are due. */
  function Activate(roots: seq<ScoreRoot>, activeEpoch: Option<nat>, active: map<string, real>, target: nat)
    : (seq<ScoreRoot>, Option<nat>, map<string, real>)
  {
    if roots == [] || roots[0].activatesAt > target then (roots, activeEpoch, active)
    else Activate(roots[1..], Some(roots[0].producedEpoch), roots[0].scores, target)
  }

  ghost function EndEpoch(env: Env, s: State, epoch: EpochInput): State {
    var verdicts := EpochVerdicts(env.w, env.cfg, s.cache, epoch.blocks);
    var history, target := NextScores(env, s.history, epoch, verdicts.valid), s.nextEpoch + 1;
    var root := ScoreRoot(s.nextEpoch, s.nextEpoch + env.cfg.scoreActivationDelayEpochs, history);
    var (pending, activeEpoch, active) := Activate(s.pendingRoots + [root], s.activeEpoch, s.active, target);
    State(history, active, activeEpoch, target, pending, Freeze(env.cfg, active, epoch.validators), s.pendingRewards,
          verdicts.cache)
  }

  // ----- selection and rewards

  /** The proposer picked from given frozen weights. */
  ghost function Elect(weights: map<string, real>, validators: seq<Validator>, unit: real): (r: Option<Validator>)
    ensures var ws := WeightList(weights, validators);
            if Sum(ws) <= 0.0 then r.None?
            else exists i: nat :: SelectedAt(ws, Draw(unit, Sum(ws)), i) && r == Some(validators[i])
  {
    var ws := WeightList(weights, validators);
    if Sum(ws) <= 0.0 then None
    else
      var i := SelectFrom(ws, Draw(unit, Sum(ws)), 0);
      assert SelectedAt(ws, Draw(unit, Sum(ws)), i);
      Some(validators[i])
  }

  /** Selection freezes first if nothing is frozen yet. */
  ghost function BeforeSelection(env: Env, s: State, validators: seq<Validator>): State {
    if validators != [] && s.snapshot.weights == map[] then s.(snapshot := Freeze(env.cfg, s.active, validators)) else s
  }

  /** What a block's distribution submits for settlement, given the verdicts on its paths. */
  function BlockCall(env: Env, b: Block, valid: seq<bool>, validators: seq<Validator>): Call
    requires |valid| == |b.transactions|
  {
    Call(b.header.index, BlockRewards(env.cfg, env.baseReward, b, valid, validators).rewards)
  }

  ghost function Pay(env: Env, s: State, call: Call): (State, Output) {
    var queue := Submit(s.pendingRewards, env.cfg.rewardSettlementDepth, call);
    var k := MaturedCount(queue, call.index);
    (s.(pendingRewards := queue[k..]), Paid(Payout(queue[..k])))
  }

  // ----- runs

  datatype Event =
    | EpochEnd(epoch: EpochInput)
    | Select(validators: seq<Validator>, unit: real)
    | Distribute(b: Block, validators: seq<Validator>)
    | Verify(call: VerifyCache.Call)

  datatype Output = Silent | Elected(proposer: Option<Validator>) | Paid(rewards: seq<BalanceDelta>)

  /** The cache after some other part of the process has verified a record. */
  function CacheAfterCall(env: Env, cache: Cache, c: VerifyCache.Call): Cache {
    VerifyCache.VerifyWithCache(env.w, cache, c.record, c.tx, c.miner, c.epoch, c.useCache).cache
  }

  ghost function Step(env: Env, s: State, e: Event): (State, Output) {
    match e
    case EpochEnd(epoch) => (EndEpoch(env, s, epoch), Silent)
    case Select(validators, unit) =>
      var s' := BeforeSelection(env, s, validators);
      (s', Elected(Elect(s'.snapshot.weights, validators, unit)))
    case Distribute(b, validators) =>
      var verdicts := AllVerdicts(env.w, env.cfg, s.cache, b);
      Pay(env, s.(cache := verdicts.cache), BlockCall(env, b, verdicts.valid, validators))
    case Verify(call) => (s.(cache := CacheAfterCall(env, s.cache, call)), Silent)
  }

  ghost function RunState(env: Env, events: seq<Event>): State {
    if events == [] then INITIAL else Step(env, RunState(env, events[..|events| - 1]), events[|events| - 1]).0
  }

  ghost function RunOutputs(env: Env, events: seq<Event>): seq<Output> {
    if events == [] then []
    else
      var before := events[..|events| - 1];
      RunOutputs(env, before) + [Step(env, RunState(env, before), events[|events| - 1]).1]
  }

  /** The number of epochs a run has ended. */
  function EpochCount(events: seq<Event>): nat {
    if events == [] then 0 else EpochCount(events[..|events| - 1]) + (if events[|events| - 1].EpochEnd? then 1 else 0)
  }

  /** The scores produced at each epoch end of a run. */
  ghost function Produced(env: Env, events: seq<Event>): seq<map<string, real>> {
    if events == [] then []
    else Produced(env, events[..|events| - 1])
         + (if events[|events| - 1].EpochEnd? then [RunState(env, events).history] else [])
  }

  // ----- the activation schedule

  /** How many score roots are active or superseded after n epochs. */
  function ActivatedCount(delay: nat, n: nat): nat {
    if n < delay then 0 else n - delay + 1
  }

  ghost function RootOf(env: Env, produced: seq<map<string, real>>, p: nat): ScoreRoot
    requires p < |produced|
  {
    ScoreRoot(p, p + env.cfg.scoreActivationDelayEpochs, produced[p])
  }

  /** The scores in force: those produced delay epochs ago. */
  ghost function ActiveScores(env: Env, produced: seq<map<string, real>>): map<string, real> {
    var k := ActivatedCount(env.cfg.scoreActivationDelayEpochs, |produced|);
    if k == 0 then map[] else produced[k - 1]
  }

  ghost predicate OnSchedule(env: Env, s: State, produced: seq<map<string, real>>) {
    var n := |produced|;
    var k := ActivatedCount(env.cfg.scoreActivationDelayEpochs, n);
    && s.nextEpoch == n
    && s.history == (if n == 0 then map[] else produced[n - 1])
    && s.activeEpoch == (if k == 0 then None else Some(k - 1))
    && s.active == ActiveScores(env, produced)
    && RootsFrom(env, s.pendingRoots, produced, k)
  }

  /** The queue holds the roots of the epochs from k on, in order. */
  ghost predicate RootsFrom(env: Env, roots: seq<ScoreRoot>, produced: seq<map<string, real>>, k: nat) {
    && |roots| + k == |produced|
    && forall i :: 0 <= i < |roots| ==> roots[i] == RootOf(env, produced, k + i)
  }

  lemma EndEpochKeepsSchedule(env: Env, s: State, produced: seq<map<string, real>>, epoch: EpochInput)
    requires OnSchedule(env, s, produced)
    ensures OnSchedule(env, EndEpoch(env, s, epoch), produced + [EndEpoch(env, s, epoch).history])
  {
    hide NextScores, Freeze, RootsFrom, EpochVerdicts;
    var n, delay, history := |produced|, env.cfg.scoreActivationDelayEpochs, EndEpoch(env, s, epoch).history;
    var k, k' := ActivatedCount(delay, n), ActivatedCount(delay, n + 1);
    var root := ScoreRoot(n, n + delay, history);
    var roots, due := s.pendingRoots + [root], k' - k;
    RootsExtended(env, s.pendingRoots, produced, history, k);
    RootsDropped(env, roots, produced + [history], k, due);
    ActivateDue(roots, s.activeEpoch, s.active, n + 1, due);
  }

  /** Queued roots keep their meaning when another epoch ends, and the new root joins them at the back. */
  lemma RootsExtended(env: Env, roots: seq<ScoreRoot>, produced: seq<map<string, real>>, history: map<string, real>,
                      k: nat)
    requires RootsFrom(env, roots, produced, k)
    ensures var n := |produced|;
            RootsFrom(env, roots + [ScoreRoot(n, n + env.cfg.scoreActivationDelayEpochs, history)],
                      produced + [history], k)
  {}

  /** What is known of the front of the queue, and of the queue without it. */
  lemma RootsDropped(env: Env, roots: seq<ScoreRoot>, produced: seq<map<string, real>>, k: nat, due: nat)
    requires RootsFrom(env, roots, produced, k) && due <= 1 <= |roots|
    ensures RootsFrom(env, roots[due..], produced, k + due)
    ensures roots[0] == RootOf(env, produced, k)
    ensures due < |roots| ==> roots[due].activatesAt == k + due + env.cfg.scoreActivationDelayEpochs
  {
    assert roots[0] == RootOf(env, produced, k + 0);
    assert forall i :: 0 <= i < |roots| - due ==> roots[due..][i] == roots[due + i];
  }

  /** If exactly the first one or none of the queued roots is due, the loop stops there. */
  lemma ActivateDue(roots: seq<ScoreRoot>, activeEpoch: Option<nat>, active: map<string, real>, target: nat, due: nat)
    requires due <= 1 && due <= |roots|
    requires due == 1 ==> roots[0].activatesAt <= target
    requires due < |roots| ==> roots[due].activatesAt > target
    ensures Activate(roots, activeEpoch, active, target)
         == (roots[due..],
             if due == 0 then activeEpoch else Some(roots[0].producedEpoch),
             if due == 0 then active else roots[0].scores)
  {
    assert roots[0..] == roots;
  }

  /**
   The activation schedule, over every run: after n ended epochs the active scores are those
   produced at epoch n - delay (none before), the later roots are queued in order, and
   selections, payments and verifications in between change nothing of it.
   */
  lemma {:induction false} ActivationSchedule(env: Env, events: seq<Event>)
    ensures |Produced(env, events)| == EpochCount(events)
    ensures OnSchedule(env, RunState(env, events), Produced(env, events))
  {
    hide EndEpoch, Freeze, OnSchedule;
    if events == [] {
      InitiallyOnSchedule(env);
    } else {
      var before, e := events[..|events| - 1], events[|events| - 1];
      ActivationSchedule(env, before);
      var s, produced := RunState(env, before), Produced(env, before);
      if e.EpochEnd? {
        EndEpochKeepsSchedule(env, s, produced, e.epoch);
      } else {
        assert produced + [] == produced;
        OtherStepsKeepSchedule(env, s, produced, e);
      }
    }
  }

  lemma InitiallyOnSchedule(env: Env)
    ensures OnSchedule(env, INITIAL, [])
  {}

  lemma OtherStepsKeepSchedule(env: Env, s: State, produced: seq<map<string, real>>, e: Event)
    requires OnSchedule(env, s, produced) && !e.EpochEnd?
    ensures OnSchedule(env, Step(env, s, e).0, produced)
  {
    hide Freeze, Elect, BlockCall, AllVerdicts, CacheAfterCall;
  }

  // ----- what the frozen weights are

  /** The event ends an epoch with at least one validator. */
  predicate Manned(e: Event) {
    e.EpochEnd? && e.epoch.validators != []
  }

  /**
   Between a manned epoch end and the next epoch end, every state carries exactly the snapshot
   frozen from the validators of that epoch end and the scores then in force.
   */
  lemma {:induction false} FrozenWithinEpoch(env: Env, events: seq<Event>, at: nat)
    requires at < |events| && Manned(events[at])
    requires forall i :: at < i < |events| ==> !events[i].EpochEnd?
    ensures RunState(env, events).snapshot
         == Freeze(env.cfg, ActiveScores(env, Produced(env, events[..at + 1])), events[at].epoch.validators)
  {
    hide NextScores, Freeze, ActiveScores, AllVerdicts, EpochVerdicts, BlockCall, CacheAfterCall;
    var before, e := events[..|events| - 1], events[|events| - 1];
    var validators := events[at].epoch.validators;
    if at == |events| - 1 {
      ActivationSchedule(env, events);
      assert events[..at + 1] == events;
    } else {
      FrozenWithinEpoch(env, before, at);
      assert before[..at + 1] == events[..at + 1];
      FrozenNotEmpty(env.cfg, ActiveScores(env, Produced(env, events[..at + 1])), validators);
    }
  }

  /** The event makes weights be frozen: an epoch end or a selection with at least one validator. */
  predicate Freezing(e: Event) {
    Manned(e) || (e.Select? && e.validators != [])
  }

  lemma {:induction false} NothingFrozen(env: Env, events: seq<Event>)
    requires forall i :: 0 <= i < |events| ==> !Freezing(events[i])
    ensures RunState(env, events).snapshot.weights == map[]
  {
    hide NextScores, AllVerdicts, EpochVerdicts, BlockCall, CacheAfterCall, Activate;
    if events != [] {
      var before, e := events[..|events| - 1], events[|events| - 1];
      NothingFrozen(env, before);
      assert !Freezing(e);
      NobodyWeighed(env.cfg, EndEpochScores(env, RunState(env, before), e));
    }
  }

  ghost function EndEpochScores(env: Env, s: State, e: Event): map<string, real> {
    if e.EpochEnd? then EndEpoch(env, s, e.epoch).active else map[]
  }

  lemma NobodyWeighed(cfg: ValidatedConfig, scores: map<string, real>)
    ensures Freeze(cfg, scores, []).weights == map[]
  {
    assert Freeze(cfg, scores, []).weights.Keys == {};
  }

  /**
   If nothing was frozen before, the first selection with a validator freezes: until the next epoch
   end every state carries the weights of that selection's validators and the scores then in force.
   */
  lemma {:induction false} FrozenAtFirstSelection(env: Env, events: seq<Event>, at: nat)
    requires at < |events| && events[at].Select? && events[at].validators != []
    requires forall i :: 0 <= i < at ==> !Freezing(events[i])
    requires forall i :: at < i < |events| ==> !events[i].EpochEnd?
    ensures RunState(env, events).snapshot
         == Freeze(env.cfg, ActiveScores(env, Produced(env, events[..at])), events[at].validators)
  {
    hide NextScores, Freeze, ActiveScores, AllVerdicts, EpochVerdicts, BlockCall, CacheAfterCall, Elect;
    var before, e := events[..|events| - 1], events[|events| - 1];
    if at == |events| - 1 {
      NothingFrozen(env, before);
      ActivationSchedule(env, before);
    } else {
      FrozenAtFirstSelection(env, before, at);
      assert before[..at] == events[..at];
      FrozenNotEmpty(env.cfg, ActiveScores(env, Produced(env, events[..at])), events[at].validators);
    }
  }

  lemma FrozenNotEmpty(cfg: ValidatedConfig, scores: map<string, real>, validators: seq<Validator>)
    requires validators != []
    ensures Freeze(cfg, scores, validators).weights != map[]
  {
    hide NormalizeMap, Unnormalized;
    var v := validators[|validators| - 1];
    assert v.address in Addresses(validators);
    assert v.address in FrozenWeights(cfg, scores, validators);
  }

  // ----- the score mass

  /** No epoch of the run spends more than the given irrecoverable cost. */
  ghost predicate SpendsAtMost(events: seq<Event>, cost: real) {
    forall i :: 0 <= i < |events| && events[i].EpochEnd? ==> EpochCost(events[i].epoch.blocks) <= cost
  }

  /**
   Score mass over whole runs: if no epoch spends more than the given irrecoverable cost, all
   scores stay non-negative and their total stays within what that cost backs, however many
   epochs have ended and whatever the verdicts were.
   */
  lemma {:induction false} ScoreMassBounded(env: Env, events: seq<Event>, cost: real)
    requires LogLike(env.ln) && cost >= 0.0 && SpendsAtMost(events, cost)
    ensures NonNegativeMap(RunState(env, events).history)
    ensures MapSum(RunState(env, events).history) <= Backing(env.cfg, cost)
  {
    hide Backing, NextScores, Freeze, Elect, BlockCall, AllVerdicts, EpochVerdicts, CacheAfterCall;
    BackingNonNegative(env.cfg, cost);
    if events == [] {
      var none: map<string, real> := map[];
      assert MapSum(none) == 0.0;
    } else {
      var before, e := events[..|events| - 1], events[|events| - 1];
      ScoreMassBounded(env, before, cost);
      if e.EpochEnd? {
        var s := RunState(env, before);
        MassStaysBacked(env, s.history, e.epoch, EpochVerdicts(env.w, env.cfg, s.cache, e.epoch.blocks).valid, cost);
      }
    }
  }

  // ----- frozen weights do not depend on recent epochs

  /** Two states that agree on everything weights are frozen from before scores produced from the cutoff on activate. */
  ghost predicate WeightsAlike(env: Env, s: State, s': State, cutoff: nat) {
    && s.nextEpoch == s'.nextEpoch
    && s.active == s'.active
    && s.activeEpoch == s'.activeEpoch
    && s.snapshot == s'.snapshot
    && RootsAlike(env, s.pendingRoots, s'.pendingRoots, cutoff)
  }

  ghost predicate RootsAlike(env: Env, roots: seq<ScoreRoot>, roots': seq<ScoreRoot>, cutoff: nat) {
    && |roots| == |roots'|
    && forall i :: 0 <= i < |roots| ==> RootAlike(env, roots[i], roots'[i], cutoff)
  }

  predicate RootAlike(env: Env, r: ScoreRoot, r': ScoreRoot, cutoff: nat) {
    && r.producedEpoch == r'.producedEpoch
    && r.activatesAt == r'.activatesAt == r.producedEpoch + env.cfg.scoreActivationDelayEpochs
    && (r.producedEpoch < cutoff ==> r.scores == r'.scores)
  }

  lemma {:induction false} ActivateAlike(env: Env, roots: seq<ScoreRoot>, roots': seq<ScoreRoot>,
                                         activeEpoch: Option<nat>, active: map<string, real>, target: nat, cutoff: nat)
    requires RootsAlike(env, roots, roots', cutoff) && target < cutoff + env.cfg.scoreActivationDelayEpochs
    ensures var (rest, epoch, scores) := Activate(roots, activeEpoch, active, target);
            var (rest', epoch', scores') := Activate(roots', activeEpoch, active, target);
            RootsAlike(env, rest, rest', cutoff) && epoch == epoch' && scores == scores'
  {
    if roots != [] && roots[0].activatesAt <= target {
      assert RootAlike(env, roots[0], roots'[0], cutoff);
      ActivateAlike(env, roots[1..], roots'[1..], Some(roots[0].producedEpoch), roots[0].scores, target, cutoff);
    } else if roots != [] {
      assert RootAlike(env, roots[0], roots'[0], cutoff);
    }
  }

  /** An epoch end with the same validators activates and freezes the same, whatever the newest root holds. */
  lemma FreezeAlike(env: Env, s: State, s': State, epoch: EpochInput, epoch': EpochInput, cutoff: nat)
    requires WeightsAlike(env, s, s', cutoff) && epoch.validators == epoch'.validators
    requires s.nextEpoch + 1 < cutoff + env.cfg.scoreActivationDelayEpochs
    requires s.nextEpoch < cutoff ==> EndEpoch(env, s, epoch).history == EndEpoch(env, s', epoch').history
    ensures WeightsAlike(env, EndEpoch(env, s, epoch), EndEpoch(env, s', epoch'), cutoff)
  {
    hide NextScores, Freeze, EpochVerdicts;
    var n, due := s.nextEpoch, s.nextEpoch + env.cfg.scoreActivationDelayEpochs;
    var root := ScoreRoot(n, due, EndEpoch(env, s, epoch).history);
    var root' := ScoreRoot(n, due, EndEpoch(env, s', epoch').history);
    assert RootAlike(env, root, root', cutoff);
    ActivateAlike(env, s.pendingRoots + [root], s'.pendingRoots + [root'], s.activeEpoch, s.active, n + 1, cutoff);
  }

  /** What proposer weights may depend on: who validates at each epoch end, and the selections. */
  function Turns(events: seq<Event>): seq<Event> {
    if events == [] then []
    else
      var e := events[|events| - 1];
      Turns(events[..|events| - 1])
      + (if e.EpochEnd? then [EpochEnd(EpochInput([], e.epoch.validators))] else if e.Select? then [e] else [])
  }

  predicate IsTurn(e: Event) {
    e.EpochEnd? || e.Select?
  }

  /** The proposers elected among the outputs of a run. */
  function Elections(outputs: seq<Output>): seq<Option<Validator>> {
    if outputs == [] then []
    else
      var o := outputs[|outputs| - 1];
      Elections(outputs[..|outputs| - 1]) + (if o.Elected? then [o.proposer] else [])
  }

  /** The run has the same frozen weights and has elected the same proposers. */
  ghost predicate SameElections(env: Env, events: seq<Event>, events': seq<Event>, cutoff: nat) {
    && WeightsAlike(env, RunState(env, events), RunState(env, events'), cutoff)
    && Elections(RunOutputs(env, events)) == Elections(RunOutputs(env, events'))
  }

  /**
   Fewer than delay epochs after two runs part, nothing but the validators of the epoch ends and
   the draws has had any influence on weights and elections: the blocks scored and distributed and
   the records verified since may differ in every way, also in number and order.
   */
  lemma FrozenWeightsIsolated(env: Env, common: seq<Event>, tail: seq<Event>, tail': seq<Event>)
    requires Turns(tail) == Turns(tail')
    requires EpochCount(common + tail) < EpochCount(common) + env.cfg.scoreActivationDelayEpochs
    ensures var s, s' := RunState(env, common + tail), RunState(env, common + tail');
            s.snapshot == s'.snapshot && s.active == s'.active && s.activeEpoch == s'.activeEpoch
    ensures Elections(RunOutputs(env, common + tail)) == Elections(RunOutputs(env, common + tail'))
  {
    hide Turns, RunOutputs;
    TailsAlike(env, common, tail, tail');
  }

  lemma {:induction false} TailsAlike(env: Env, common: seq<Event>, tail: seq<Event>, tail': seq<Event>)
    requires Turns(tail) == Turns(tail')
    requires EpochCount(common + tail) < EpochCount(common) + env.cfg.scoreActivationDelayEpochs
    ensures SameElections(env, common + tail, common + tail', EpochCount(common))
    decreases |tail| + |tail'|
  {
    hide SameElections;
    var cutoff, n, n' := EpochCount(common), |tail| - 1, |tail'| - 1;
    if tail != [] && !IsTurn(tail[n]) {
      LastEvent(common, tail);
      TailsAlike(env, common, tail[..n], tail');
      IdleStep(env, common + tail[..n], tail[n], common + tail', cutoff);
    } else if tail' != [] && !IsTurn(tail'[n']) {
      LastEvent(common, tail');
      TailsAlike(env, common, tail, tail'[..n']);
      IdleStep'(env, common + tail, common + tail'[..n'], tail'[n'], cutoff);
    } else if tail == [] {
      assert tail' == [];
      SelfAlike(env, common + [], cutoff);
    } else {
      LastEvent(common, tail);
      LastEvent(common, tail');
      LastTurn(tail, tail');
      TailsAlike(env, common, tail[..n], tail'[..n']);
      EpochsGrow(common, tail[..n]);
      TurnStep(env, common + tail[..n], tail[n], common + tail'[..n'], tail'[n'], cutoff);
    }
  }

  lemma LastEvent(common: seq<Event>, tail: seq<Event>)
    requires tail != []
    ensures var n := |tail| - 1;
            common + tail == (common + tail[..n]) + [tail[n]]
              && EpochCount(common + tail[..n]) <= EpochCount(common + tail)
  {
    var n := |tail| - 1;
    assert common + tail == (common + tail[..n]) + [tail[n]];
    assert (common + tail)[..|common + tail| - 1] == common + tail[..n];
  }

  lemma {:induction false} EpochsGrow(common: seq<Event>, tail: seq<Event>)
    ensures EpochCount(common) <= EpochCount(common + tail)
  {
    if tail == [] {
      assert common + tail == common;
    } else {
      LastEvent(common, tail);
      EpochsGrow(common, tail[..|tail| - 1]);
    }
  }

  lemma LastTurn(tail: seq<Event>, tail': seq<Event>)
    requires tail != [] && IsTurn(tail[|tail| - 1]) && Turns(tail) == Turns(tail')
    requires tail' != [] ==> IsTurn(tail'[|tail'| - 1])
    ensures tail' != []
    ensures var n, n' := |tail| - 1, |tail'| - 1;
            && Turns(tail[..n]) == Turns(tail'[..n'])
            && SameTurn(tail[n], tail'[n'])
  {
    var n, n' := |tail| - 1, |tail'| - 1;
    assert tail' != [] by { assert Turns(tail) != []; }
    var a, a' := Turns(tail[..n]), Turns(tail'[..n']);
    assert Turns(tail)[..|Turns(tail)| - 1] == a && Turns(tail')[..|Turns(tail')| - 1] == a';
    assert Turns(tail)[|a|] == Turns(tail')[|a'|];
  }

  /** Two epoch ends with the same validators, or the same selection. */
  predicate SameTurn(e: Event, e': Event) {
    if e.EpochEnd? then e'.EpochEnd? && e.epoch.validators == e'.epoch.validators else e.Select? && e == e'
  }

  lemma RunSnoc(env: Env, before: seq<Event>, e: Event)
    ensures RunState(env, before + [e]) == Step(env, RunState(env, before), e).0
    ensures var o := Step(env, RunState(env, before), e).1;
            Elections(RunOutputs(env, before + [e]))
            == Elections(RunOutputs(env, before)) + (if o.Elected? then [o.proposer] else [])
  {
    hide Step;
    assert (before + [e])[..|before|] == before;
    var outputs, o := RunOutputs(env, before), Step(env, RunState(env, before), e).1;
    assert (outputs + [o])[..|outputs|] == outputs;
  }

  /** Distributions and verifications touch nothing that weights depend on, and elect nobody. */
  lemma IdleKeeps(env: Env, s: State, e: Event)
    requires !IsTurn(e)
    ensures var (after, o) := Step(env, s, e);
            && !o.Elected?
            && after.nextEpoch == s.nextEpoch && after.active == s.active && after.activeEpoch == s.activeEpoch
            && after.snapshot == s.snapshot && after.pendingRoots == s.pendingRoots
  {
    hide BlockCall, AllVerdicts, CacheAfterCall;
  }

  lemma IdleStep(env: Env, before: seq<Event>, e: Event, events': seq<Event>, cutoff: nat)
    requires !IsTurn(e) && SameElections(env, before, events', cutoff)
    ensures SameElections(env, before + [e], events', cutoff)
  {
    hide Step, RunState, RunOutputs, Elections, RootsAlike;
    RunSnoc(env, before, e);
    IdleKeeps(env, RunState(env, before), e);
  }

  lemma IdleStep'(env: Env, events: seq<Event>, before': seq<Event>, e': Event, cutoff: nat)
    requires !IsTurn(e') && SameElections(env, events, before', cutoff)
    ensures SameElections(env, events, before' + [e'], cutoff)
  {
    hide Step, RunState, RunOutputs, Elections, RootsAlike;
    RunSnoc(env, before', e');
    IdleKeeps(env, RunState(env, before'), e');
  }

  lemma TurnStep(env: Env, before: seq<Event>, e: Event, before': seq<Event>, e': Event, cutoff: nat)
    requires SameElections(env, before, before', cutoff) && SameTurn(e, e')
    requires cutoff <= EpochCount(before)
    requires EpochCount(before + [e]) < cutoff + env.cfg.scoreActivationDelayEpochs
    ensures SameElections(env, before + [e], before' + [e'], cutoff)
  {
    hide EndEpoch, RunState, RunOutputs, Elections, RootsAlike, Freeze, Elect;
    RunSnoc(env, before, e);
    RunSnoc(env, before', e');
    EpochsCounted(env, before);
    assert (before + [e])[..|before|] == before;
    if e.EpochEnd? {
      FreezeAlike(env, RunState(env, before), RunState(env, before'), e.epoch, e'.epoch, cutoff);
    }
  }

  lemma SelfAlike(env: Env, events: seq<Event>, cutoff: nat)
    ensures SameElections(env, events, events, cutoff)
  {
    hide RunState, RunOutputs, Produced;
    ActivationSchedule(env, events);
  }

  lemma EpochsCounted(env: Env, events: seq<Event>)
    ensures RunState(env, events).nextEpoch == EpochCount(events)
  {
    ActivationSchedule(env, events);
  }

  // ----- non-interference

  /**
   No ambiguous record that can earn credit is scored before the cutoff, and none that can move
   money is distributed.
   */
  ghost predicate EventClear(env: Env, e: Event, epoch: nat, cutoff: nat) {
    match e
    case EpochEnd(input) => epoch < cutoff ==> CreditUnexposed(env, input)
    case Distribute(b, validators) => Unexposed(env, b, validators)
    case _ => true
  }

  ghost predicate ClearRun(env: Env, events: seq<Event>, cutoff: nat) {
    forall i :: 0 <= i < |events| ==> EventClear(env, events[i], EpochCount(events[..i]), cutoff)
  }

  /**
   The runs differ at most in the blocks of epochs from the cutoff on, and in what the rest of the
   process verifies.
   */
  ghost predicate SameBefore(events: seq<Event>, events': seq<Event>, cutoff: nat) {
    && |events| == |events'|
    && forall i :: 0 <= i < |events| ==> SameEvent(events[i], events'[i], EpochCount(events[..i]), cutoff)
  }

  predicate SameEvent(e: Event, e': Event, epoch: nat, cutoff: nat) {
    match e
    case EpochEnd(input) => e'.EpochEnd? && input.validators == e'.epoch.validators && (epoch < cutoff ==> e == e')
    case Verify(_) => e'.Verify?
    case _ => e == e'
  }

  /** Two states that agree on all that can matter before the cutoff's scores activate. */
  ghost predicate Alike(env: Env, s: State, s': State, cutoff: nat) {
    && WeightsAlike(env, s, s', cutoff)
    && s.pendingRewards == s'.pendingRewards
    && (s.nextEpoch <= cutoff ==> s.history == s'.history)
    && Reachable(env.w, s.cache) && Reachable(env.w, s'.cache)
  }

  lemma EndEpochAlike(env: Env, s: State, s': State, epoch: EpochInput, epoch': EpochInput, cutoff: nat)
    requires VerifyCache.CleanTexts(env.w) && Alike(env, s, s', cutoff)
    requires s.nextEpoch + 1 < cutoff + env.cfg.scoreActivationDelayEpochs
    requires SameEvent(EpochEnd(epoch), EpochEnd(epoch'), s.nextEpoch, cutoff)
    requires EventClear(env, EpochEnd(epoch), s.nextEpoch, cutoff)
    ensures Alike(env, EndEpoch(env, s, epoch), EndEpoch(env, s', epoch'), cutoff)
  {
    hide NextScores, Freeze, EpochVerdicts, Activate, WeightsAlike, Reachable, VerifyCache.CleanTexts, CreditUnexposed;
    EpochReachable(env.w, env.cfg, s.cache, epoch.blocks);
    EpochReachable(env.w, env.cfg, s'.cache, epoch'.blocks);
    assert s.nextEpoch == s'.nextEpoch by { AlikeEpochs(env, s, s', cutoff); }
    if s.nextEpoch < cutoff {
      SameCreditSameScores(env, s.history, epoch, s.cache, s'.cache);
    }
    FreezeAlike(env, s, s', epoch, epoch', cutoff);
  }

  lemma AlikeEpochs(env: Env, s: State, s': State, cutoff: nat)
    requires WeightsAlike(env, s, s', cutoff)
    ensures s.nextEpoch == s'.nextEpoch
  {}

  lemma StepAlike(env: Env, s: State, s': State, e: Event, e': Event, cutoff: nat)
    requires VerifyCache.CleanTexts(env.w) && Alike(env, s, s', cutoff)
    requires SameEvent(e, e', s.nextEpoch, cutoff) && EventClear(env, e, s.nextEpoch, cutoff)
    requires e.EpochEnd? ==> s.nextEpoch + 1 < cutoff + env.cfg.scoreActivationDelayEpochs
    ensures Alike(env, Step(env, s, e).0, Step(env, s', e').0, cutoff)
    ensures Step(env, s, e).1 == Step(env, s', e').1
  {
    hide EndEpoch, Freeze, Elect, AllVerdicts, Reachable, Unexposed, BlockRewards, VerifyCache.CleanTexts,
      VerifyCache.VerifyWithCache;
    match e {
      case EpochEnd(epoch) => EndEpochAlike(env, s, s', epoch, e'.epoch, cutoff);
      case Select(_, _) =>
      case Distribute(b, validators) =>
        UnexposedAgrees(env, s.cache, b, validators);
        UnexposedAgrees(env, s'.cache, b, validators);
        AllReachable(env.w, env.cfg, s.cache, b);
        AllReachable(env.w, env.cfg, s'.cache, b);
      case Verify(c) =>
        var c' := e'.call;
        VerifyReachable(env.w, s.cache, c.record, c.tx, c.miner, c.epoch, c.useCache);
        VerifyReachable(env.w, s'.cache, c'.record, c'.tx, c'.miner, c'.epoch, c'.useCache);
    }
  }

  lemma AllReachable(w: World, cfg: ValidatedConfig, cache: Cache, b: Block)
    requires Reachable(w, cache)
    ensures Reachable(w, AllVerdicts(w, cfg, cache, b).cache)
  {
    hide Reachable;
    BlockReachable(w, cfg, cache, b, |b.transactions|);
  }

  /**
   Non-interference: as long as earlier epochs hold no ambiguous record that can earn credit and
   distributed blocks none that can move money, blocks of epochs from the cutoff on, and whatever
   else the process verifies, cannot influence any election, frozen weight or payment until
   cutoff + delay epochs have ended.
   */
  lemma {:induction false} NonInterference(env: Env, events: seq<Event>, events': seq<Event>, cutoff: nat)
    requires VerifyCache.CleanTexts(env.w) && SameBefore(events, events', cutoff) && ClearRun(env, events, cutoff)
    requires EpochCount(events) < cutoff + env.cfg.scoreActivationDelayEpochs
    ensures RunOutputs(env, events) == RunOutputs(env, events')
    ensures Alike(env, RunState(env, events), RunState(env, events'), cutoff)
  {
    hide Step, Alike, SameEvent, EventClear, OnSchedule, VerifyCache.CleanTexts;
    if events == [] {
      InitiallyAlike(env, cutoff);
    } else {
      var n := |events| - 1;
      var before, before' := events[..n], events'[..n];
      assert SameBefore(before, before', cutoff) && ClearRun(env, before, cutoff) by {
        forall i | 0 <= i < n
          ensures SameEvent(before[i], before'[i], EpochCount(before[..i]), cutoff)
               && EventClear(env, before[i], EpochCount(before[..i]), cutoff)
        {
          assert before[..i] == events[..i];
        }
      }
      NonInterference(env, before, before', cutoff);
      EpochsCounted(env, before);
      StepAlike(env, RunState(env, before), RunState(env, before'), events[n], events'[n], cutoff);
    }
  }

  lemma InitiallyAlike(env: Env, cutoff: nat)
    ensures Alike(env, INITIAL, INITIAL, cutoff)
  {
    EmptyReachable(env.w);
  }

  // ----- settlement within runs

  /** The reward plans a run has submitted. */
  ghost function Calls(env: Env, events: seq<Event>): seq<Call> {
    if events == [] then []
    else
      var before, e := events[..|events| - 1], events[|events| - 1];
      Calls(env, before)
      + (if e.Distribute? then
           [BlockCall(env, e.b, AllVerdicts(env.w, env.cfg, RunState(env, before).cache, e.b).valid, e.validators)]
         else [])
  }

  /** Every run settles its rewards as the settlement machine does; a block's plan is never empty. */
  lemma {:induction false} RunsSettle(env: Env, events: seq<Event>)
    ensures RunState(env, events).pendingRewards == Run(env.cfg.rewardSettlementDepth, Calls(env, events)).queue
    ensures events != [] && events[|events| - 1].Distribute? ==>
              Step(env, RunState(env, events[..|events| - 1]), events[|events| - 1]).1
              == Paid(Run(env.cfg.rewardSettlementDepth, Calls(env, events)).output)
    ensures forall i :: 0 <= i < |Calls(env, events)| ==> Calls(env, events)[i].rewards != []
  {
    hide EndEpoch, Freeze, Elect, BlockCall, AllVerdicts, CacheAfterCall, Pay, Settle;
    if events != [] {
      var before, e := events[..|events| - 1], events[|events| - 1];
      RunsSettle(env, before);
      if e.Distribute? {
        var s, depth := RunState(env, before), env.cfg.rewardSettlementDepth;
        var verdicts := AllVerdicts(env.w, env.cfg, s.cache, e.b);
        var call := BlockCall(env, e.b, verdicts.valid, e.validators);
        PlanNotEmpty(env, e.b, verdicts.valid, e.validators);
        assert Calls(env, events) == Calls(env, before) + [call];
        assert (Calls(env, before) + [call])[..|Calls(env, before)|] == Calls(env, before);
        PaySettles(env, s.(cache := verdicts.cache), Run(depth, Calls(env, before)), call);
      } else {
        assert Calls(env, events) == Calls(env, before);
        OtherStepsKeepRewards(env, RunState(env, before), e);
      }
    }
  }

  /** The blocks whose rewards a run has distributed. */
  function Distributed(events: seq<Event>): seq<Block> {
    if events == [] then []
    else
      var e := events[|events| - 1];
      Distributed(events[..|events| - 1]) + (if e.Distribute? then [e.b] else [])
  }

  /** One plan per distributed block, under its index, and the miner comes first in it. */
  lemma {:induction false} PlansFollowBlocks(env: Env, events: seq<Event>)
    ensures |Calls(env, events)| == |Distributed(events)|
    ensures forall i :: 0 <= i < |Calls(env, events)| ==>
              && Calls(env, events)[i].index == Distributed(events)[i].header.index
              && Calls(env, events)[i].rewards != []
              && Calls(env, events)[i].rewards[0].address == Distributed(events)[i].header.miner
  {
    hide RunState, AllVerdicts, BlockCall;
    if events != [] {
      var before, e := events[..|events| - 1], events[|events| - 1];
      PlansFollowBlocks(env, before);
      if e.Distribute? {
        var valid := AllVerdicts(env.w, env.cfg, RunState(env, before).cache, e.b).valid;
        PlanOfBlock(env, e.b, valid, e.validators);
      }
    }
  }

  lemma PlanOfBlock(env: Env, b: Block, valid: seq<bool>, validators: seq<Validator>)
    requires |valid| == |b.transactions|
    ensures var call := BlockCall(env, b, valid, validators);
            call.index == b.header.index && call.rewards != [] && call.rewards[0].address == b.header.miner
  {
    hide RelayDeltas, Burned;
  }

  /**
   Settlement on time, over every run: if the blocks distributed have consecutive indices, the
   distribution of a block pays exactly the plan made for the block settlement-depth blocks below
   it, and nothing while there is none; whatever epoch ends, selections and verifications intervene.
   */
  lemma RunsPayOnTime(env: Env, events: seq<Event>)
    requires events != [] && events[|events| - 1].Distribute?
    requires var blocks := Distributed(events);
             forall i :: 0 <= i < |blocks| ==> blocks[i].header.index == blocks[0].header.index + i
    ensures var calls, depth := Calls(env, events), env.cfg.rewardSettlementDepth;
            Step(env, RunState(env, events[..|events| - 1]), events[|events| - 1]).1
            == Paid(if |calls| <= depth then [] else calls[|calls| - 1 - depth].rewards)
  {
    hide Step, RunState, Run, Distributed;
    RunsSettle(env, events);
    PlansFollowBlocks(env, events);
    SettlementIsDelay(env.cfg.rewardSettlementDepth, Calls(env, events));
  }

  lemma PaySettles(env: Env, s: State, books: Books, call: Call)
    requires s.pendingRewards == books.queue
    ensures var after := Settle(env.cfg.rewardSettlementDepth, books, call);
            Pay(env, s, call).0.pendingRewards == after.queue && Pay(env, s, call).1 == Paid(after.output)
  {}

  lemma OtherStepsKeepRewards(env: Env, s: State, e: Event)
    requires !e.Distribute?
    ensures Step(env, s, e).0.pendingRewards == s.pendingRewards
  {
    hide Freeze, Elect, NextScores, EpochVerdicts, CacheAfterCall;
  }

  lemma PlanNotEmpty(env: Env, b: Block, valid: seq<bool>, validators: seq<Validator>)
    requires |valid| == |b.transactions|
    ensures BlockCall(env, b, valid, validators).rewards != []
  {}
}
