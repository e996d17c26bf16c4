/**
 Path-credit formulas of the frozen-v1 protocol: how a transaction's relay
 budget is shared over the positions of its certified path, and why replacing
 one relay by a run of consecutive identities never increases what any
 coalition containing that relay collects.
 */
module PathCredit {
  import opened RealMath

  function LambdaForDepth(depth: nat): real {
    var d := depth as real;
    (2.0 * d + 1.0) / (3.0 * d + 1.0)
  }

  function RForDepth(depth: nat): real {
    var d := depth as real;
    d / (2.0 * d + 1.0)
  }

  /** min(d, m) / m */
  function DepthShare(depth: nat, pathLength: nat): real
    requires pathLength >= 1
  {
    Min(depth as real, pathLength as real) / pathLength as real
  }

  function PathBudgetForDepth(depth: nat, pathLength: nat): real {
    if pathLength < 2 then 0.0
    else DepthShare(depth, pathLength) * Pow(LambdaForDepth(depth), pathLength - 1)
  }

  function AlphaForDepth(depth: nat, position: nat, pathLength: nat): real {
    if pathLength < 2 || position == 0 || position >= pathLength then 0.0
    else
      var r := RForDepth(depth);
      RRange(depth);
      PowBelowOne(r, pathLength - 1);
      (1.0 - r) * Pow(r, position - 1) / (1.0 - Pow(r, pathLength - 1))
  }

  function GammaForDepth(depth: nat, position: nat, pathLength: nat): real {
    PathBudgetForDepth(depth, pathLength) * AlphaForDepth(depth, position, pathLength)
  }

  // ----- the parameters

  lemma RRange(depth: nat)
    ensures 0.0 <= RForDepth(depth) < 1.0
    ensures depth >= 1 ==> RForDepth(depth) > 0.0
  {}

  lemma LambdaRange(depth: nat)
    ensures 0.0 < LambdaForDepth(depth) <= 1.0
    ensures depth >= 1 ==> LambdaForDepth(depth) < 1.0
  {}

  /**
   The parameters of each depth: lambda falls from 3/4 at depth one towards 2/3, and r rises from
   1/3 towards 1/2; at the default depth they are 9/13 and 4/9.
   */
  lemma Calibration(depth: nat)
    requires depth >= 1
    ensures var d := depth as real;
            LambdaForDepth(depth) * (3.0 * d + 1.0) == 2.0 * d + 1.0 && RForDepth(depth) * (2.0 * d + 1.0) == d
    ensures 2.0 / 3.0 < LambdaForDepth(depth + 1) < LambdaForDepth(depth) <= 3.0 / 4.0
    ensures 1.0 / 3.0 <= RForDepth(depth) < RForDepth(depth + 1) < 1.0 / 2.0
    ensures LambdaForDepth(4) == 9.0 / 13.0 && RForDepth(4) == 4.0 / 9.0
  {
    var d := depth as real;
    DivLeqDiv(2.0 * d + 1.0, 3.0 * d + 1.0, 3.0, 4.0);
    DivLeqDiv(2.0 * d + 1.0, 3.0 * d + 1.0, 2.0 * d + 3.0, 3.0 * d + 4.0);
    DivLeqDiv(2.0 * d + 3.0, 3.0 * d + 4.0, 2.0, 3.0);
    DivLeqDiv(1.0, 3.0, d, 2.0 * d + 1.0);
    DivLeqDiv(d + 1.0, 2.0 * d + 3.0, d, 2.0 * d + 1.0);
    DivLeqDiv(1.0, 2.0, d + 1.0, 2.0 * d + 3.0);
  }

  /** The calibration that makes one inserted hop exactly break even before the budget shrinks. */
  lemma LambdaTimesOnePlusR(depth: nat)
    ensures LambdaForDepth(depth) * (1.0 + RForDepth(depth)) == 1.0
  {
    var d := depth as real;
    var a, b := 2.0 * d + 1.0, 3.0 * d + 1.0;
    assert 1.0 + RForDepth(depth) == b / a;
    assert (a / b) * (b / a) == 1.0;
  }

  // ----- the budget

  lemma DepthShareRange(depth: nat, m: nat, n: nat)
    requires 1 <= m <= n
    ensures 0.0 <= DepthShare(depth, n) <= DepthShare(depth, m) <= 1.0
    ensures depth >= 1 ==> DepthShare(depth, n) > 0.0
  {
    ShareFractions(depth as real, m as real, n as real);
  }

  lemma ShareFractions(d: real, x: real, y: real)
    requires 0.0 <= d && 0.0 < x <= y
    ensures 0.0 <= Min(d, y) / y <= Min(d, x) / x <= 1.0
    ensures d > 0.0 ==> Min(d, y) / y > 0.0
  {
    var a, b := Min(d, x), Min(d, y);
    if d <= x {
      QuotientMono(d, y, d, x);
    } else {
      DivSelf(x);
      QuotientAtMostOne(b, y);
    }
    QuotientAtMostOne(a, x);
    QuotientNonNegative(b, y);
  }

  lemma QuotientNonNegative(b: real, y: real)
    requires b >= 0.0 && y > 0.0
    ensures b / y >= 0.0
    ensures b > 0.0 ==> b / y > 0.0
  {}

  lemma QuotientAtMostOne(a: real, x: real)
    requires a <= x && x > 0.0
    ensures a / x <= 1.0
  {
    DivMonoNumerator(a, x, x);
    DivSelf(x);
  }

  /** Between two lengths the budget loses at least a factor lambda per extra hop. */
  lemma BudgetShrinks(depth: nat, m: nat, k: nat)
    returns (b: real, b': real, q: real)
    requires m >= 2
    ensures b == PathBudgetForDepth(depth, m) && b' == PathBudgetForDepth(depth, m + k)
    ensures q == Pow(LambdaForDepth(depth), k)
    ensures 0.0 <= b && 0.0 <= b' <= b * q
  {
    hide LambdaForDepth, DepthShare, Pow;
    var l := LambdaForDepth(depth);
    b, b', q := PathBudgetForDepth(depth, m), PathBudgetForDepth(depth, m + k), Pow(l, k);
    DepthShareRange(depth, m, m + k);
    LambdaRange(depth);
    PowNonNegative(l, m - 1);
    PowNonNegative(l, k);
    PowAdd(l, m - 1, k);
    assert m + k - 1 == m - 1 + k;
    ScaledProduct(DepthShare(depth, m), DepthShare(depth, m + k), Pow(l, m - 1), q, Pow(l, m + k - 1));
  }

  lemma ScaledProduct(s: real, t: real, x: real, y: real, xy: real)
    requires 0.0 <= t <= s && 0.0 <= x && 0.0 <= y && xy == x * y
    ensures 0.0 <= s * x
    ensures 0.0 <= t * xy <= (s * x) * y
  {
    MulNonNegative(x, s);
    MulNonNegative(x, y);
    MulNonNegative(xy, t);
    MulMono(xy, t, s);
    MulAssoc(s, x, y);
  }

  lemma BudgetPositive(depth: nat, m: nat)
    requires depth >= 1 && m >= 2
    ensures 0.0 < PathBudgetForDepth(depth, m) < 1.0
  {
    var l := LambdaForDepth(depth);
    LambdaRange(depth);
    DepthShareRange(depth, m, m);
    PowPositive(l, m - 1);
    PowBelowOne(l, m - 1);
    ProperFraction(DepthShare(depth, m), Pow(l, m - 1));
  }

  lemma ProperFraction(s: real, x: real)
    requires 0.0 < s <= 1.0 && 0.0 < x < 1.0
    ensures 0.0 < s * x < 1.0
  {
    MulAtMostSelf(x, s);
  }

  /** The budget of a path never exhausts the fee, and every extra hop strictly lowers it. */
  lemma BudgetBelowOneAndDecreasing(depth: nat, m: nat, n: nat)
    requires depth >= 1 && 2 <= m < n
    ensures 0.0 < PathBudgetForDepth(depth, n) < PathBudgetForDepth(depth, m) < 1.0
  {
    hide PathBudgetForDepth, LambdaForDepth;
    BudgetPositive(depth, m);
    BudgetPositive(depth, n);
    var b, b', q := BudgetShrinks(depth, m, n - m);
    assert m + (n - m) == n;
    LambdaRange(depth);
    PowBelowOne(LambdaForDepth(depth), n - m);
    StrictlyBelow(b, b', q);
  }

  lemma StrictlyBelow(b: real, b': real, q: real)
    requires b > 0.0 && b' <= b * q && q < 1.0
    ensures b' < b
  {
    MulAtMostSelf(b, q);
  }

  /** For depth 0 every budget is zero; in general it stays within [0, 1]. */
  lemma BudgetAtMostOne(depth: nat, m: nat)
    ensures 0.0 <= PathBudgetForDepth(depth, m) <= 1.0
  {
    if m >= 2 {
      if depth >= 1 {
        BudgetPositive(depth, m);
      } else {
        assert DepthShare(0, m) == 0.0;
      }
    }
  }

  /**
   The target depth: up to it a path keeps the full lambda^(m-1), beyond it the budget is
   spread so that one more hop scales m * budget(m) by lambda exactly.
   */
  lemma BudgetAtTargetDepth(depth: nat, m: nat)
    requires m >= 2
    ensures m <= depth ==> PathBudgetForDepth(depth, m) == Pow(LambdaForDepth(depth), m - 1)
    ensures m >= depth ==>
      (m + 1) as real * PathBudgetForDepth(depth, m + 1)
        == LambdaForDepth(depth) * (m as real * PathBudgetForDepth(depth, m))
  {
    hide LambdaForDepth;
    var l, d := LambdaForDepth(depth), depth as real;
    if m <= depth {
      assert Min(depth as real, m as real) == m as real;
      DivSelf(m as real);
    }
    if m >= depth {
      ScaledBudget(m as real, d, DepthShare(depth, m), Pow(l, m - 1));
      ScaledBudget((m + 1) as real, d, DepthShare(depth, m + 1), Pow(l, m));
      assert d * Pow(l, m) == l * (d * Pow(l, m - 1)) by {
        MulAssoc(l, d, Pow(l, m - 1));
        MulAssoc(d, l, Pow(l, m - 1));
      }
    }
  }

  lemma DivSelf(x: real)
    requires x > 0.0
    ensures x / x == 1.0
  {}

  lemma ScaledBudget(x: real, d: real, s: real, p: real)
    requires x > 0.0 && s == d / x
    ensures x * (s * p) == d * p
  {
    assert x * s == d;
    MulAssoc(x, s, p);
  }

  // ----- the shares

  /**
   The code's closed form is the normalised geometric weight: on a path of length m the
   shares are u, u*r, u*r^2, ... and u is fixed by the budget.
   */
  lemma GammaProfile(depth: nat, m: nat)
    returns (u: real, r: real)
    requires m >= 2
    ensures r == RForDepth(depth) && 0.0 <= r < 1.0 && 0.0 <= u
    ensures depth >= 1 ==> r > 0.0 && u > 0.0
    ensures GeoSum(r, m - 1) >= 1.0
    ensures u == PathBudgetForDepth(depth, m) / GeoSum(r, m - 1)
    ensures forall p: nat :: 1 <= p < m ==> GammaForDepth(depth, p, m) == u * Pow(r, p - 1)
  {
    hide PathBudgetForDepth, RForDepth, Pow, GeoSum, GammaForDepth;
    r := RForDepth(depth);
    RRange(depth);
    GeoSumMonotone(r, m - 1, m - 1);
    var b, g := PathBudgetForDepth(depth, m), GeoSum(r, m - 1);
    u := b / g;
    BudgetAtMostOne(depth, m);
    DivMonoNumerator(0.0, b, g);
    if depth >= 1 {
      BudgetPositive(depth, m);
      QuotientPositive(b, g);
    }
    forall p: nat | 1 <= p < m
      ensures GammaForDepth(depth, p, m) == u * Pow(r, p - 1)
    {
      GammaShare(depth, m, p, b, g);
    }
  }

  lemma GammaShare(depth: nat, m: nat, p: nat, b: real, g: real)
    requires 1 <= p < m && b == PathBudgetForDepth(depth, m) && g == GeoSum(RForDepth(depth), m - 1) >= 1.0
    ensures GammaForDepth(depth, p, m) == b / g * Pow(RForDepth(depth), p - 1)
  {
    hide PathBudgetForDepth, RForDepth, Pow, GeoSum;
    var r := RForDepth(depth);
    RRange(depth);
    GeoClosedForm(r, m - 1);
    PowBelowOne(r, m - 1);
    NormalisedShare(b, g, 1.0 - r, Pow(r, p - 1), 1.0 - Pow(r, m - 1));
  }

  lemma QuotientPositive(b: real, g: real)
    requires b > 0.0 && g > 0.0
    ensures b / g > 0.0
  {
    assert b / g * g == b;
  }

  lemma NormalisedShare(b: real, g: real, q: real, x: real, den: real)
    requires q > 0.0 && g > 0.0 && den > 0.0 && q * g == den
    ensures b * (q * x / den) == b / g * x
  {
    var y := x / g;
    assert x == y * g;
    MulAssoc(q, y, g);
    MulAssoc(y, q, g);
    assert q * x == y * den;
    assert q * x / den == y;
    MoveDivisor(b, x, g);
  }

  lemma MoveDivisor(b: real, p: real, g: real)
    requires g > 0.0
    ensures b * (p / g) == b / g * p
    ensures b / g * p == (b * p) / g
  {
    var i := 1.0 / g;
    assert p / g == p * i && b / g == b * i && (b * p) / g == (b * p) * i;
    MulAssoc(b, p, i);
    MulAssoc(b, i, p);
  }

  lemma GammaNonNegative(depth: nat, position: nat, m: nat)
    ensures GammaForDepth(depth, position, m) >= 0.0
    ensures depth >= 1 && 1 <= position < m ==> GammaForDepth(depth, position, m) > 0.0
  {
    if 1 <= position < m {
      var u, r := GammaProfile(depth, m);
      PowNonNegative(r, position - 1);
      MulNonNegative(u, Pow(r, position - 1));
      if depth >= 1 {
        PowPositive(r, position - 1);
        MulPositive(u, Pow(r, position - 1));
      }
    }
  }

  // ----- coalitions

  /** What a coalition c collects on positions lo..hi-1 when position i carries the share w(i). */
  ghost function CreditBetween(w: nat -> real, c: set<nat>, lo: nat, hi: nat): real
    requires lo <= hi
    decreases hi - lo
  {
    if lo == hi then 0.0
    else CreditBetween(w, c, lo, hi - 1) + (if hi - 1 in c then w(hi - 1) else 0.0)
  }

  function Shares(depth: nat, m: nat): nat -> real {
    (i: nat) => GammaForDepth(depth, i, m)
  }

  /** What a coalition of path positions collects on a path of length m; positions run from 1 to m - 1. */
  ghost function CoalitionCredit(depth: nat, m: nat, c: set<nat>): real
    requires m >= 1
  {
    CreditBetween(Shares(depth, m), c, 1, m)
  }

  function Interval(lo: nat, hi: nat): (all: set<nat>)
    ensures forall i: nat :: i in all <==> lo <= i < hi
    decreases hi
  {
    if hi <= lo then {} else Interval(lo, hi - 1) + {hi - 1}
  }

  /**
   The original position behind position y of a path in which relay p was replaced by the
   consecutive identities p..p+k.
   */
  function Origin(y: nat, p: nat, k: nat): nat {
    if y < p then y else if y <= p + k then p else y - k
  }

  /** The coalition c on the padded path: it owns whatever stands for a position it owned before. */
  ghost function PaddedCoalition(c: set<nat>, m: nat, p: nat, k: nat): set<nat> {
    set y | y in Interval(1, m + k) && Origin(y, p, k) in c
  }

  lemma {:induction false} CreditSplit(w: nat -> real, c: set<nat>, lo: nat, mid: nat, hi: nat)
    requires lo <= mid <= hi
    ensures CreditBetween(w, c, lo, hi) == CreditBetween(w, c, lo, mid) + CreditBetween(w, c, mid, hi)
    decreases hi - mid
  {
    if mid < hi {
      CreditSplit(w, c, lo, mid, hi - 1);
    }
  }

  lemma {:induction false} CreditMonotone(w: nat -> real, c: set<nat>, c': set<nat>, lo: nat, hi: nat)
    requires lo <= hi
    requires forall i :: lo <= i < hi ==> w(i) >= 0.0
    requires forall i :: lo <= i < hi && i in c ==> i in c'
    ensures 0.0 <= CreditBetween(w, c, lo, hi) <= CreditBetween(w, c', lo, hi)
    decreases hi - lo
  {
    if lo < hi {
      CreditMonotone(w, c, c', lo, hi - 1);
    }
  }

  /** Moving every member of c up by k, to shares that are no larger, does not gain. */
  lemma {:induction false} ShiftShrinks(w: nat -> real, w': nat -> real, k: nat,
                                        c: set<nat>, c': set<nat>, lo: nat, hi: nat)
    requires lo <= hi
    requires forall i: nat, j: nat :: lo <= i < hi && j == i + k ==> w'(j) <= w(i)
    requires forall i: nat, j: nat :: lo <= i < hi && j == i + k ==> (j in c' <==> i in c)
    ensures CreditBetween(w', c', lo + k, hi + k) <= CreditBetween(w, c, lo, hi)
    decreases hi
  {
    if lo < hi {
      ShiftShrinks(w, w', k, c, c', lo, hi - 1);
      var i, j := hi - 1, hi + k - 1;
      assert w'(j) <= w(i);
      assert j in c' <==> i in c;
    }
  }

  lemma {:induction false} GeometricRun(w: nat -> real, c: set<nat>, u: real, r: real, lo: nat, n: nat)
    requires lo >= 1
    requires forall i :: lo <= i < lo + n ==> i in c && w(i) == u * Pow(r, i - 1)
    ensures CreditBetween(w, c, lo, lo + n) == u * (Pow(r, lo - 1) * GeoSum(r, n))
    decreases n
  {
    hide Pow;
    if n > 0 {
      GeometricRun(w, c, u, r, lo, n - 1);
      PowAdd(r, lo - 1, n - 1);
      assert lo - 1 + (n - 1) == lo + n - 1 - 1;
      DistributeRun(u, Pow(r, lo - 1), GeoSum(r, n - 1), Pow(r, n - 1), Pow(r, lo + n - 2));
    }
  }

  lemma DistributeRun(u: real, x: real, g: real, p: real, xp: real)
    requires xp == x * p
    ensures u * (x * (g + p)) == u * (x * g) + u * xp
  {
    assert x * (g + p) == x * g + x * p;
  }

  /** The shares of all positions add up to exactly the path budget. */
  lemma GammasSumToBudget(depth: nat, m: nat)
    requires m >= 2
    ensures CoalitionCredit(depth, m, Interval(1, m)) == PathBudgetForDepth(depth, m)
  {
    hide GammaForDepth, PathBudgetForDepth, RForDepth;
    var u, r := GammaProfile(depth, m);
    GeometricRun(Shares(depth, m), Interval(1, m), u, r, 1, m - 1);
    WholeRun(PathBudgetForDepth(depth, m), GeoSum(r, m - 1), Pow(r, 0), u);
  }

  lemma WholeRun(b: real, g: real, x: real, u: real)
    requires g > 0.0 && x == 1.0 && u == b / g
    ensures u * (x * g) == b
  {
    assert x * g == g;
  }

  /** No coalition collects more than the path budget. */
  lemma CoalitionCreditBounded(depth: nat, m: nat, c: set<nat>)
    requires m >= 2
    ensures 0.0 <= CoalitionCredit(depth, m, c) <= PathBudgetForDepth(depth, m) <= 1.0
  {
    SharesNonNegative(depth, m);
    CreditMonotone(Shares(depth, m), c, Interval(1, m), 1, m);
    GammasSumToBudget(depth, m);
    BudgetAtMostOne(depth, m);
  }

  lemma SharesNonNegative(depth: nat, m: nat)
    ensures forall i: nat :: Shares(depth, m)(i) >= 0.0
    ensures depth >= 1 ==> forall i: nat :: 1 <= i < m ==> Shares(depth, m)(i) > 0.0
  {
    forall i: nat
      ensures Shares(depth, m)(i) >= 0.0
      ensures depth >= 1 && 1 <= i < m ==> Shares(depth, m)(i) > 0.0
    {
      GammaNonNegative(depth, i, m);
    }
  }

  // ----- padding

  /** lambda^k * (1 + r + ... + r^k) <= (lambda * (1 + r))^k = 1 */
  lemma PowerTimesRun(r: real, l: real, k: nat)
    requires 0.0 <= r && 0.0 < l && l * (1.0 + r) == 1.0
    ensures Pow(l, k) * GeoSum(r, k + 1) <= 1.0
  {
    UnitPowers(l, 1.0 + r, k);
    GeoSumAtMostBinomial(r, k);
    PowNonNegative(l, k);
    BelowUnit(Pow(l, k), GeoSum(r, k + 1), Pow(1.0 + r, k));
  }

  lemma UnitPowers(l: real, t: real, k: nat)
    requires l * t == 1.0
    ensures Pow(l, k) * Pow(t, k) == 1.0
  {
    PowMul(l, t, k);
    PowOne(l * t, k);
  }

  lemma BelowUnit(x: real, s: real, y: real)
    requires x >= 0.0 && s <= y && x * y == 1.0
    ensures x * s <= 1.0
  {
    MulMono(x, s, y);
  }

  /** Comparing the first shares of a path of length m and of one k hops longer. */
  lemma TwoLengths(depth: nat, m: nat, n: nat)
    returns (u: real, u': real, r: real)
    requires 2 <= m <= n
    ensures 0.0 <= r < 1.0 && 0.0 <= u' <= u
    ensures u' * GeoSum(r, n - m + 1) <= u
    ensures forall p: nat :: 1 <= p < m ==> GammaForDepth(depth, p, m) == u * Pow(r, p - 1)
    ensures forall p: nat :: 1 <= p < n ==> GammaForDepth(depth, p, n) == u' * Pow(r, p - 1)
  {
    hide *;
    u, r := GammaProfile(depth, m);
    u', r := GammaProfile(depth, n);
    var k := n - m;
    var b, b', q := BudgetShrinks(depth, m, k);
    assert m + k == n;
    GeoSumMonotone(r, m - 1, n - 1);
    GeoSumMonotone(r, k + 1, k + 1);
    LambdaRange(depth);
    LambdaTimesOnePlusR(depth);
    PowerTimesRun(r, LambdaForDepth(depth), k);
    RunQuotient(b, b', q, GeoSum(r, k + 1), GeoSum(r, m - 1), GeoSum(r, n - 1));
  }

  lemma RunQuotient(b: real, b': real, q: real, s: real, g: real, g': real)
    requires 0.0 <= b && 0.0 <= b' <= b * q
    requires s >= 1.0 && q * s <= 1.0 && 0.0 < g <= g'
    ensures b' / g' * s <= b / g
    ensures b' / g' <= b / g
  {
    assert b' * s <= b by {
      MulMono(s, b', b * q);
      assert (b * q) * s <= b by {
        MulAssoc(b, q, s);
        MulAtMostSelf(b, q * s);
      }
    }
    MulAtLeastSelf(b', s);
    RunQuotientSteps(b, b', b' * s, s, g, g');
  }

  lemma RunQuotientSteps(b: real, b': real, bs: real, s: real, g: real, g': real)
    requires 0.0 <= b' <= bs <= b && 0.0 < g <= g' && bs == b' * s
    ensures b' / g' * s <= b / g
    ensures b' / g' <= b / g
  {
    assert b' / g' * s == bs / g' by {
      MoveDivisor(b', s, g');
    }
    assert bs / g' <= b / g by {
      QuotientMono(bs, g', b, g);
    }
    assert b' / g' <= bs / g' by {
      DivMonoNumerator(b', bs, g');
    }
  }

  lemma QuotientMono(a: real, x: real, b: real, y: real)
    requires 0.0 <= a <= b
    requires 0.0 < y <= x
    ensures 0.0 <= a / x <= b / y
  {
    MulMono(y, a, b);
    MulMono(b, y, x);
    DivLeqDiv(a, x, b, y);
    DivMonoNumerator(0.0, a, x);
  }

  /** A position's share does not grow when the path gets longer, wherever the position moves to. */
  lemma GammaLongerPath(depth: nat, q: nat, m: nat, q': nat, n: nat)
    requires 1 <= q < m && q <= q' && q' - q <= n - m
    ensures 0.0 <= GammaForDepth(depth, q', n) <= GammaForDepth(depth, q, m)
  {
    hide GammaForDepth;
    var u, u', r := TwoLengths(depth, m, n);
    PowDecreasing(r, q - 1, q' - q);
    assert q - 1 + (q' - q) == q' - 1;
    ShrunkProduct(u, u', Pow(r, q - 1), Pow(r, q' - 1));
  }

  lemma PowDecreasing(r: real, a: nat, j: nat)
    requires 0.0 <= r <= 1.0
    ensures 0.0 <= Pow(r, a + j) <= Pow(r, a)
  {
    PowAdd(r, a, j);
    PowAtMostOne(r, j);
    PowNonNegative(r, a);
    PowNonNegative(r, a + j);
    MulAtMostSelf(Pow(r, a), Pow(r, j));
  }

  lemma ShrunkProduct(u: real, u': real, x: real, y: real)
    requires 0.0 <= u' <= u && 0.0 <= y <= x
    ensures 0.0 <= u' * y <= u * x
  {
    MulNonNegative(u', y);
    MulMono(u', y, x);
    MulMono(x, u', u);
  }

  /** The run of k + 1 identities that replaces relay p collects at most what p alone did. */
  lemma PaddedRunAtMostRelay(depth: nat, m: nat, p: nat, n: nat, c: set<nat>)
    requires 1 <= p < m <= n
    requires forall i: nat :: p <= i <= p + (n - m) ==> i in c
    ensures CreditBetween(Shares(depth, n), c, p, p + (n - m) + 1) <= GammaForDepth(depth, p, m)
  {
    hide GammaForDepth;
    var u, u', r := TwoLengths(depth, m, n);
    var k := n - m;
    GeometricRun(Shares(depth, n), c, u', r, p, k + 1);
    assert p + (k + 1) == p + k + 1;
    PowNonNegative(r, p - 1);
    SwapAndBound(u', Pow(r, p - 1), GeoSum(r, k + 1), u);
  }

  lemma SwapAndBound(u': real, x: real, s: real, u: real)
    requires x >= 0.0 && u' * s <= u
    ensures u' * (x * s) <= u * x
  {
    MulMono(x, u' * s, u);
    assert u' * (x * s) == (u' * s) * x;
  }

  /**
   Padding never pays: for every depth, path length, relay position, number of inserted
   identities and coalition containing the relay, replacing the relay by a run of
   identities does not raise the coalition's total.
   */
  lemma PaddingNeverPays(depth: nat, m: nat, p: nat, k: nat, c: set<nat>)
    requires 1 <= p < m
    requires p in c
    ensures CoalitionCredit(depth, m + k, PaddedCoalition(c, m, p, k)) <= CoalitionCredit(depth, m, c)
  {
    hide GammaForDepth;
    var w, w' := SharesShrink(depth, m, m + k);
    var c' := PaddedCoalition(c, m, p, k);
    forall i: nat | p <= i <= p + k
      ensures i in c'
    {
      assert Origin(i, p, k) == p;
      assert i in Interval(1, m + k);
    }
    PaddedRunAtMostRelay(depth, m, p, m + k, c');
    assert w(p) == GammaForDepth(depth, p, m);
    PaddingByParts(w, w', m, p, k, c);
  }

  /** Below the relay positions keep their owner, above it they move up by k. */
  lemma PaddedMembers(c: set<nat>, m: nat, p: nat, k: nat, lo: nat, hi: nat, shift: nat)
    requires 1 <= p < m
    requires (1 <= lo && hi == p && shift == 0) || (lo == p + 1 && hi == m && shift == k)
    ensures forall i: nat, j: nat :: lo <= i < hi && j == i + shift ==> (j in PaddedCoalition(c, m, p, k) <==> i in c)
  {
    forall i: nat, j: nat | lo <= i < hi && j == i + shift
      ensures j in PaddedCoalition(c, m, p, k) <==> i in c
    {
      assert Origin(j, p, k) == i;
      assert j in Interval(1, m + k);
    }
  }

  /** The three parts of a padded path: positions before the relay, the run, and positions after it. */
  lemma PaddingByParts(w: nat -> real, w': nat -> real, m: nat, p: nat, k: nat, c: set<nat>)
    requires 1 <= p < m
    requires p in c
    requires forall i: nat, j: nat :: 1 <= i < m && i <= j <= i + k ==> w'(j) <= w(i)
    requires CreditBetween(w', PaddedCoalition(c, m, p, k), p, p + k + 1) <= w(p)
    ensures CreditBetween(w', PaddedCoalition(c, m, p, k), 1, m + k) <= CreditBetween(w, c, 1, m)
  {
    hide PaddedCoalition;
    var c' := PaddedCoalition(c, m, p, k);
    CreditSplit(w, c, 1, p, m);
    CreditSplit(w, c, p, p + 1, m);
    CreditSingle(w, c, p);
    CreditSplit(w', c', 1, p, m + k);
    CreditSplit(w', c', p, p + k + 1, m + k);
    PaddedMembers(c, m, p, k, 1, p, 0);
    PaddedMembers(c, m, p, k, p + 1, m, k);
    ShiftShrinks(w, w', 0, c, c', 1, p);
    ShiftShrinks(w, w', k, c, c', p + 1, m);
  }

  lemma SharesShrink(depth: nat, m: nat, n: nat)
    returns (w: nat -> real, w': nat -> real)
    requires m <= n
    ensures w == Shares(depth, m) && w' == Shares(depth, n)
    ensures forall i: nat, j: nat :: 1 <= i < m && i <= j <= i + (n - m) ==> w'(j) <= w(i)
  {
    hide GammaForDepth;
    w, w' := Shares(depth, m), Shares(depth, n);
    forall i: nat, j: nat | 1 <= i < m && i <= j <= i + (n - m)
      ensures w'(j) <= w(i)
    {
      GammaLongerPath(depth, i, m, j, n);
    }
  }

  lemma CreditSingle(w: nat -> real, c: set<nat>, p: nat)
    requires p in c
    ensures CreditBetween(w, c, p, p + 1) == w(p)
  {
    assert CreditBetween(w, c, p, p) == 0.0;
  }
}
