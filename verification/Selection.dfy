/**
 Proposer selection by cumulative weight. Proved: for a draw inside the total
 weight, TopoStake picks the validator whose half-open interval contains the
 draw, and that interval is as long as the validator's weight; with the score
 switched off (eta = 0) the pick is that of plain proof of stake on the same
 random number, except on the interval boundaries.
 */
module Selection {
  import opened RealMath
  import opened PathCredit
  import opened Encoding
  import opened Ledger
  import opened Config
  import opened Weights

  // ----- selection over a list of weights

  /** The generator's number in [0, 1), spread over [0, total). */
  function Draw(unit: real, total: real): real {
    unit * total
  }

  lemma DrawRange(unit: real, total: real)
    requires 0.0 <= unit < 1.0 && total > 0.0
    ensures 0.0 <= Draw(unit, total) < total
  {
    MulNonNegative(unit, total);
    MulAtMostSelf(total, unit);
  }

  lemma DrawOne(unit: real)
    ensures Draw(unit, 1.0) == unit
  {}

  /** The accumulated weight of the first n entries. */
  function Acc(ws: seq<real>, n: nat): real
    requires n <= |ws|
  {
    Sum(ws[..n])
  }

  lemma AccStep(ws: seq<real>, n: nat)
    requires n < |ws|
    ensures Acc(ws, n + 1) == Acc(ws, n) + ws[n]
  {
    assert ws[..n + 1][..n] == ws[..n];
  }

  lemma AccWhole(ws: seq<real>)
    ensures Acc(ws, |ws|) == Sum(ws) && Acc(ws, 0) == 0.0
  {
    assert ws[..|ws|] == ws;
  }

  /** A random number hits the share an accumulated weight has of the total. */
  lemma DrawHitsShare(unit: real, total: real, x: real)
    requires total > 0.0
    ensures x >= Draw(unit, total) <==> x / total >= unit
    ensures x > Draw(unit, total) <==> x / total > unit
  {
    var q := x / total;
    assert x == q * total;
    if q > unit { MulStrict(total, unit, q); }
    if q < unit { MulStrict(total, q, unit); }
  }

  /** TopoStake: the first entry whose accumulated weight is at least the draw, else the last entry. */
  ghost predicate SelectedAt(ws: seq<real>, draw: real, i: nat) {
    && i < |ws|
    && (forall j :: 1 <= j <= i ==> Acc(ws, j) < draw)
    && (Acc(ws, i + 1) >= draw || i == |ws| - 1)
  }

  /** The selected entry, searched from entry i on. */
  function SelectFrom(ws: seq<real>, draw: real, i: nat): (r: nat)
    requires i < |ws|
    ensures i <= r < |ws|
    ensures forall j :: i < j <= r ==> Acc(ws, j) < draw
    ensures Acc(ws, r + 1) >= draw || r == |ws| - 1
    decreases |ws| - i
  {
    if Acc(ws, i + 1) >= draw || i == |ws| - 1 then i else SelectFrom(ws, draw, i + 1)
  }

  /** Proof of stake: the first entry whose accumulated stake exceeds the draw. */
  ghost predicate StrictlySelectedAt(ws: seq<real>, draw: real, i: nat) {
    && i < |ws|
    && (forall j :: 1 <= j <= i ==> Acc(ws, j) <= draw)
    && Acc(ws, i + 1) > draw
  }

  ghost predicate NonNegative(ws: seq<real>) {
    forall i :: 0 <= i < |ws| ==> ws[i] >= 0.0
  }

  lemma {:induction false} AccMonotone(ws: seq<real>, i: nat, j: nat)
    requires NonNegative(ws) && i <= j <= |ws|
    ensures Acc(ws, i) <= Acc(ws, j)
    decreases j
  {
    if i < j {
      AccMonotone(ws, i, j - 1);
      AccStep(ws, j - 1);
    }
  }

  /** The draws that select entry i: its half-open interval, and the draw zero for the first entry. */
  ghost predicate InInterval(ws: seq<real>, draw: real, i: nat) {
    i < |ws| && (Acc(ws, i) < draw <= Acc(ws, i + 1) || (draw == 0.0 && i == 0))
  }

  /**
   In terms of the random number: entry i is selected exactly on an interval as long as its share
   of the total weight.
   */
  lemma SelectionByShare(ws: seq<real>, unit: real, i: nat)
    requires NonNegative(ws) && Sum(ws) > 0.0 && 0.0 <= unit < 1.0 && i < |ws|
    ensures var lo, hi := Acc(ws, i) / Sum(ws), Acc(ws, i + 1) / Sum(ws);
            && (SelectedAt(ws, Draw(unit, Sum(ws)), i) <==> lo < unit <= hi || (unit == 0.0 && i == 0))
            && hi - lo == ws[i] / Sum(ws)
  {
    hide Acc, Draw, SelectedAt;
    var total, draw := Sum(ws), Draw(unit, Sum(ws));
    AccWhole(ws);
    DrawRange(unit, total);
    DrawHitsShare(unit, total, Acc(ws, i));
    DrawHitsShare(unit, total, Acc(ws, i + 1));
    DrawHitsShare(unit, total, 0.0);
    assert 0.0 / total == 0.0;
    assert draw == 0.0 <==> unit == 0.0;
    SelectionByInterval(ws, draw, i);
    DivAdd(Acc(ws, i), ws[i], total);
  }

  /** Selection by draws inside the total weight: exactly the interval law; the fallback is never needed. */
  lemma SelectionByInterval(ws: seq<real>, draw: real, i: nat)
    requires NonNegative(ws) && 0.0 <= draw < Acc(ws, |ws|)
    ensures SelectedAt(ws, draw, i) <==> InInterval(ws, draw, i)
    ensures i < |ws| ==> Acc(ws, i + 1) - Acc(ws, i) == ws[i]
    ensures SelectedAt(ws, draw, i) ==> Acc(ws, i + 1) >= draw
  {
    hide Acc;
    AccWhole(ws);
    if i < |ws| {
      AccStep(ws, i);
      AccMonotone(ws, 0, i);
      AccMonotone(ws, i, i + 1);
      AccMonotone(ws, 0, 1);
      forall j | 1 <= j <= i
        ensures Acc(ws, j) <= Acc(ws, i)
      {
        AccMonotone(ws, j, i);
      }
      if SelectedAt(ws, draw, i) && i > 0 {
        assert Acc(ws, i) < draw;
      }
    }
  }

  /** Exactly one entry is selected. */
  lemma SelectionUnique(ws: seq<real>, draw: real, i: nat, j: nat)
    requires SelectedAt(ws, draw, i) && SelectedAt(ws, draw, j)
    ensures i == j
  {
    hide Acc;
    assert Acc(ws, i + 1) >= draw || i == |ws| - 1;
    assert Acc(ws, j + 1) >= draw || j == |ws| - 1;
  }

  /** The selected entry has positive weight, unless the draw is zero and the first entry has none. */
  lemma SelectedHasWeight(ws: seq<real>, draw: real, i: nat)
    requires NonNegative(ws) && 0.0 <= draw < Acc(ws, |ws|) && SelectedAt(ws, draw, i)
    ensures ws[i] > 0.0 <==> draw > 0.0 || ws[0] > 0.0
  {
    hide Acc, SelectedAt;
    SelectionByInterval(ws, draw, i);
    AccStep(ws, i);
    AccWhole(ws);
    AccMonotone(ws, 0, i);
  }

  /** The two selection rules meet exactly when the draw is none of the accumulated weights. */
  lemma SelectionsAgree(ws: seq<real>, draw: real, i: nat, j: nat)
    requires NonNegative(ws) && 0.0 <= draw < Acc(ws, |ws|)
    requires SelectedAt(ws, draw, i) && StrictlySelectedAt(ws, draw, j)
    ensures i == j <==> forall k :: 1 <= k <= |ws| ==> Acc(ws, k) != draw
  {
    hide Acc;
    SelectionByInterval(ws, draw, i);
    if Acc(ws, i + 1) == draw {
      assert i != j;
    } else {
      forall k | 1 <= k <= |ws|
        ensures Acc(ws, k) != draw
      {
        if k > i {
          AccMonotone(ws, i + 1, k);
        }
      }
      assert Acc(ws, j + 1) > draw;
      assert i == j;
    }
  }

  /** Strict selection is unchanged when weights and draw are scaled together. */
  lemma StrictSelectionScales(xs: seq<real>, ws: seq<real>, unit: real, total: real, i: nat)
    requires total > 0.0 && |xs| == |ws|
    requires forall k :: 0 <= k < |xs| ==> xs[k] == total * ws[k]
    ensures StrictlySelectedAt(xs, Draw(unit, total), i) <==> StrictlySelectedAt(ws, unit, i)
  {
    hide Acc;
    forall k | 0 <= k <= |xs|
      ensures Acc(xs, k) > Draw(unit, total) <==> Acc(ws, k) > unit
    {
      AccScales(xs, ws, total, k);
      ScaledOrder(total, Acc(ws, k), unit);
    }
  }

  lemma AccScales(xs: seq<real>, ws: seq<real>, total: real, k: nat)
    requires |xs| == |ws| && k <= |xs|
    requires forall i :: 0 <= i < |xs| ==> xs[i] == total * ws[i]
    ensures Acc(xs, k) == total * Acc(ws, k)
  {
    SumScale(total, ws[..k], xs[..k]);
  }

  lemma ScaledOrder(t: real, x: real, y: real)
    requires t > 0.0
    ensures t * x > y * t <==> x > y
    ensures t * x == y * t <==> x == y
  {
    if x > y {
      MulStrict(t, y, x);
    } else if y > x {
      MulStrict(t, x, y);
    }
  }

  // ----- the selection loops

  /** The validators' weights, in list order; an address without an entry weighs nothing. */
  function WeightList(weights: map<string, real>, validators: seq<Validator>): (ws: seq<real>)
    ensures |ws| == |validators|
    ensures forall i :: 0 <= i < |ws| ==> ws[i] == Get(weights, validators[i].address)
  {
    seq(|validators|, i requires 0 <= i < |validators| => Get(weights, validators[i].address))
  }

  function StakeList(validators: seq<Validator>): (xs: seq<real>)
    ensures |xs| == |validators|
    ensures forall i :: 0 <= i < |xs| ==> xs[i] == validators[i].stake
  {
    seq(|validators|, i requires 0 <= i < |validators| => validators[i].stake)
  }

  /** `select_with_frozen_weights` once weights are frozen; unit is the generator's number in [0, 1). */
  method SelectByWeights(weights: map<string, real>, validators: seq<Validator>, unit: real)
    returns (r: Option<nat>)
    requires 0.0 <= unit < 1.0
    ensures var ws := WeightList(weights, validators);
            if Sum(ws) <= 0.0 then r.None? else r.Some? && SelectedAt(ws, Draw(unit, Sum(ws)), r.value)
  {
    hide Acc, Draw;
    ghost var ws := WeightList(weights, validators);
    AccWhole(ws);
    if validators == [] {
      return None;
    }
    var totalWeight := 0.0;
    for i := 0 to |validators|
      invariant totalWeight == Acc(ws, i)
    {
      AccStep(ws, i);
      totalWeight := totalWeight + Get(weights, validators[i].address);
    }
    if totalWeight <= 0.0 {
      return None;
    }
    var randomValue := Draw(unit, totalWeight);
    var accumulated := 0.0;
    for i := 0 to |validators|
      invariant accumulated == Acc(ws, i)
      invariant forall j :: 1 <= j <= i ==> Acc(ws, j) < randomValue
    {
      AccStep(ws, i);
      accumulated := accumulated + Get(weights, validators[i].address);
      if accumulated >= randomValue {
        return Some(i);
      }
    }
    r := Some(|validators| - 1);
  }

  /** `PosConsensus::select`; drawing below the total stake needs that total to be positive. */
  method PosSelect(validators: seq<Validator>, unit: real) returns (r: Option<nat>)
    requires 0.0 <= unit < 1.0
    requires validators != [] ==> Sum(StakeList(validators)) > 0.0
    ensures var xs := StakeList(validators);
            if validators == [] then r.None? else r.Some? && StrictlySelectedAt(xs, Draw(unit, Sum(xs)), r.value)
  {
    hide Acc, Draw;
    ghost var xs := StakeList(validators);
    AccWhole(xs);
    if validators == [] {
      return None;
    }
    var totalStake := 0.0;
    for i := 0 to |validators|
      invariant totalStake == Acc(xs, i)
    {
      AccStep(xs, i);
      totalStake := totalStake + validators[i].stake;
    }
    var randomValue := Draw(unit, totalStake);
    DrawRange(unit, totalStake);
    var accumulated := 0.0;
    for i := 0 to |validators|
      invariant accumulated == Acc(xs, i)
      invariant forall j :: 1 <= j <= i ==> Acc(xs, j) <= randomValue
    {
      AccStep(xs, i);
      accumulated := accumulated + validators[i].stake;
      if accumulated > randomValue {
        return Some(i);
      }
    }
    r := None;
  }

  // ----- without the score bonus, TopoStake is proof of stake

  /** With eta = 0 the frozen weight is the stake share. */
  lemma FrozenIsStakeShare(cfg: ValidatedConfig, scores: map<string, real>, validators: seq<Validator>, i: nat)
    requires cfg.eta == 0.0 && DistinctAddresses(validators) && i < |validators| && StakeSum(validators) > 0.0
    ensures Get(FrozenWeights(cfg, scores, validators), validators[i].address)
         == Max(validators[i].stake, 0.0) / StakeSum(validators)
  {
    hide MapSum, NormalizeMap, RawStakes, StakeSum, Unnormalized;
    var x, raw := validators[i].address, RawStakes(validators);
    PlainUnnormalized(cfg, scores, validators);
    RawStakeOf(validators, i);
    RawStakesSum(validators);
    NormalizedTwice(raw, x);
  }

  lemma NormalizedTwice(m: map<string, real>, x: string)
    requires MapSum(m) > 0.0 && (forall k :: k in m ==> m[k] >= 0.0) && x in m
    ensures NormalizeMap(NormalizeMap(m))[x] == m[x] / MapSum(m)
  {
    hide MapSum, NormalizeMap;
    var n := NormalizeMap(m);
    assert n[x] == m[x] / MapSum(m) && MapSum(n) == 1.0 && forall k :: k in n ==> n[k] >= 0.0 by {
      NormalizedShares(m);
    }
    assert NormalizeMap(n)[x] == n[x] / MapSum(n) by { NormalizedShares(n); }
    DivOne(n[x]);
  }

  lemma PlainUnnormalized(cfg: ValidatedConfig, scores: map<string, real>, validators: seq<Validator>)
    requires cfg.eta == 0.0
    ensures Unnormalized(cfg, scores, validators) == NormalizedStake(validators)
  {
    hide Weight, DampedScore, NormalizeMap, RawStakes;
    var stake, u := NormalizedStake(validators), Unnormalized(cfg, scores, validators);
    forall x | x in u
      ensures u[x] == stake[x]
    {
      PlainWeight(cfg, Get(stake, x), Get(DampedScore(scores, validators, cfg.scoreFloorKappa), x));
    }
  }

  lemma PlainWeight(cfg: ValidatedConfig, s: real, c: real)
    requires cfg.eta == 0.0
    ensures Weight(cfg, s, c) == s
  {}

  lemma DivOne(x: real)
    ensures x / 1.0 == x
  {}

  /**
   Same random number, score bonus off, distinct validators with non-negative stakes: TopoStake
   and proof of stake pick the same validator if and only if the draw hits no accumulated stake.
   */
  lemma EtaZeroIsProofOfStake(cfg: ValidatedConfig, scores: map<string, real>, validators: seq<Validator>, unit: real,
                              i: nat, j: nat)
    requires cfg.eta == 0.0 && DistinctAddresses(validators) && NonNegative(StakeList(validators))
    requires Sum(StakeList(validators)) > 0.0 && 0.0 <= unit < 1.0
    requires var ws := WeightList(FrozenWeights(cfg, scores, validators), validators);
             SelectedAt(ws, Draw(unit, Sum(ws)), i)
    requires var xs := StakeList(validators); StrictlySelectedAt(xs, Draw(unit, Sum(xs)), j)
    ensures Sum(WeightList(FrozenWeights(cfg, scores, validators), validators)) == 1.0
    ensures var xs := StakeList(validators);
            i == j <==> forall k :: 1 <= k <= |xs| ==> Acc(xs, k) != Draw(unit, Sum(xs))
  {
    hide Acc, Draw, FrozenWeights, SelectedAt, StrictlySelectedAt;
    var xs, ws := StakeList(validators), WeightList(FrozenWeights(cfg, scores, validators), validators);
    var total := Sum(xs);
    WeightsAreShares(cfg, scores, validators);
    StrictSelectionScales(xs, ws, unit, total, j);
    DrawOne(unit);
    AccWhole(ws);
    assert NonNegative(ws);
    SelectionsAgree(ws, unit, i, j);
    forall k | 0 <= k <= |xs|
      ensures Acc(xs, k) == Draw(unit, total) <==> Acc(ws, k) == unit
    {
      AccScales(xs, ws, total, k);
      DrawIs(total, Acc(ws, k), unit);
    }
  }

  lemma DrawIs(total: real, x: real, unit: real)
    requires total > 0.0
    ensures total * x == Draw(unit, total) <==> x == unit
  {
    ScaledOrder(total, x, unit);
  }

  lemma WeightsAreShares(cfg: ValidatedConfig, scores: map<string, real>, validators: seq<Validator>)
    requires cfg.eta == 0.0 && DistinctAddresses(validators) && NonNegative(StakeList(validators))
    requires Sum(StakeList(validators)) > 0.0
    ensures var xs, ws := StakeList(validators), WeightList(FrozenWeights(cfg, scores, validators), validators);
            NonNegative(ws) && Sum(ws) == 1.0 && forall k :: 0 <= k < |xs| ==> xs[k] == Sum(xs) * ws[k]
  {
    hide FrozenWeights, StakeSum;
    var xs, ws := StakeList(validators), WeightList(FrozenWeights(cfg, scores, validators), validators);
    var total := Sum(xs);
    StakeListSum(validators);
    forall k | 0 <= k < |xs|
      ensures xs[k] == total * ws[k] && ws[k] >= 0.0
    {
      FrozenIsStakeShare(cfg, scores, validators, k);
      QuotientNonNegative(xs[k], total);
      TimesQuotient(total, xs[k]);
    }
    SharesSum(total, ws, xs);
  }

  lemma SharesSum(total: real, ws: seq<real>, xs: seq<real>)
    requires |ws| == |xs| && total > 0.0 && total == Sum(xs)
    requires forall k :: 0 <= k < |xs| ==> xs[k] == total * ws[k]
    ensures Sum(ws) == 1.0
  {
    SumScale(total, ws, xs);
    WholeShare(Sum(xs), total, Sum(ws));
  }

  lemma TimesQuotient(t: real, x: real)
    requires t > 0.0
    ensures t * (x / t) == x
  {}

  lemma WholeShare(y: real, t: real, x: real)
    requires t > 0.0 && y == t && y == t * x
    ensures x == 1.0
  {}

  lemma {:induction false} StakeListSum(validators: seq<Validator>)
    requires NonNegative(StakeList(validators))
    ensures Sum(StakeList(validators)) == StakeSum(validators)
  {
    if validators != [] {
      var n := |validators| - 1;
      var xs := StakeList(validators);
      assert StakeList(validators[..n]) == xs[..n];
      assert validators[n].stake == xs[n];
      StakeListSum(validators[..n]);
    }
  }
}
