/**
 Exact real arithmetic shared by the incentive modules: powers, finite
 geometric sums, and order-independent sums over sequences and maps.
 */
module RealMath {

  /** `f64::powi` over exact reals. */
  function Pow(b: real, n: nat): real {
    if n == 0 then 1.0 else b * Pow(b, n - 1)
  }

  /** 1 + r + ... + r^(n-1). */
  function GeoSum(r: real, n: nat): real {
    if n == 0 then 0.0 else GeoSum(r, n - 1) + Pow(r, n - 1)
  }

  function Min(a: real, b: real): real {
    if a <= b then a else b
  }

  function Max(a: real, b: real): real {
    if a >= b then a else b
  }

  lemma {:induction false} PowPositive(b: real, n: nat)
    requires b > 0.0
    ensures Pow(b, n) > 0.0
  {
    if n > 0 {
      PowPositive(b, n - 1);
      MulPositive(b, Pow(b, n - 1));
    }
  }

  lemma {:induction false} PowNonNegative(b: real, n: nat)
    requires b >= 0.0
    ensures Pow(b, n) >= 0.0
  {
    if n > 0 {
      PowNonNegative(b, n - 1);
      MulNonNegative(b, Pow(b, n - 1));
    }
  }

  lemma {:induction false} PowAtMostOne(b: real, n: nat)
    requires 0.0 <= b <= 1.0
    ensures 0.0 <= Pow(b, n) <= 1.0
  {
    if n > 0 {
      PowAtMostOne(b, n - 1);
      PowNonNegative(b, n);
      MulAtMostSelf(b, Pow(b, n - 1));
      assert Pow(b, n) == b * Pow(b, n - 1) <= b * 1.0;
    }
  }

  lemma PowBelowOne(b: real, n: nat)
    requires 0.0 <= b < 1.0
    requires n >= 1
    ensures 0.0 <= Pow(b, n) < 1.0
  {
    PowAtMostOne(b, n - 1);
    PowNonNegative(b, n);
    MulAtMostSelf(b, Pow(b, n - 1));
  }

  lemma {:induction false} PowAdd(b: real, m: nat, n: nat)
    ensures Pow(b, m + n) == Pow(b, m) * Pow(b, n)
  {
    if m > 0 {
      PowAdd(b, m - 1, n);
      MulAssoc(b, Pow(b, m - 1), Pow(b, n));
    }
  }

  lemma {:induction false} PowMul(a: real, b: real, n: nat)
    ensures Pow(a * b, n) == Pow(a, n) * Pow(b, n)
  {
    if n > 0 {
      PowMul(a, b, n - 1);
      var x, y := Pow(a, n - 1), Pow(b, n - 1);
      assert (a * b) * (x * y) == (a * x) * (b * y) by {
        MulAssoc(a, b, x * y);
        MulAssoc(b, x, y);
        MulAssoc(x, b, y);
        MulAssoc(a, x, b * y);
      }
    }
  }

  lemma {:induction false} PowOne(b: real, n: nat)
    requires b == 1.0
    ensures Pow(b, n) == 1.0
  {
    if n > 0 {
      PowOne(b, n - 1);
    }
  }

  /** The closed form behind the denominator 1 - r^n. */
  lemma {:induction false} GeoClosedForm(r: real, n: nat)
    ensures (1.0 - r) * GeoSum(r, n) == 1.0 - Pow(r, n)
  {
    if n > 0 {
      GeoClosedForm(r, n - 1);
      assert (1.0 - r) * GeoSum(r, n) == (1.0 - r) * GeoSum(r, n - 1) + (1.0 - r) * Pow(r, n - 1);
    }
  }

  lemma {:induction false} GeoSumMonotone(r: real, m: nat, n: nat)
    requires r >= 0.0
    requires m <= n
    ensures 0.0 <= GeoSum(r, m) <= GeoSum(r, n)
    ensures m >= 1 ==> GeoSum(r, m) >= 1.0
    decreases n
  {
    if m < n {
      GeoSumMonotone(r, m, n - 1);
      PowNonNegative(r, n - 1);
    } else if n > 0 {
      GeoSumMonotone(r, n - 1, n - 1);
      PowNonNegative(r, n - 1);
    }
  }

  /** A geometric sum is dominated by the binomial expansion: 1 + r + ... + r^k <= (1 + r)^k. */
  lemma {:induction false} GeoSumAtMostBinomial(r: real, k: nat)
    requires r >= 0.0
    ensures GeoSum(r, k + 1) <= Pow(1.0 + r, k)
  {
    if k > 0 {
      GeoSumAtMostBinomial(r, k - 1);
      GeoSumShift(r, k);
      MulMono(r, GeoSum(r, k), Pow(1.0 + r, k - 1));
      PowAtLeastOne(r, k - 1);
      assert Pow(1.0 + r, k) == Pow(1.0 + r, k - 1) + r * Pow(1.0 + r, k - 1);
    }
  }

  lemma {:induction false} GeoSumShift(r: real, k: nat)
    ensures GeoSum(r, k + 1) == 1.0 + r * GeoSum(r, k)
  {
    if k > 0 {
      GeoSumShift(r, k - 1);
      assert r * GeoSum(r, k) == r * GeoSum(r, k - 1) + r * Pow(r, k - 1);
    }
  }

  lemma {:induction false} PowAtLeastOne(r: real, k: nat)
    requires r >= 0.0
    ensures Pow(1.0 + r, k) >= 1.0
  {
    if k > 0 {
      PowAtLeastOne(r, k - 1);
      MulNonNegative(r, Pow(1.0 + r, k - 1));
    }
  }

  // ----- small nonlinear facts, stated once so that the proofs using them stay linear

  lemma MulMono(c: real, x: real, y: real)
    requires c >= 0.0
    requires x <= y
    ensures c * x <= c * y
    ensures x * c <= y * c
  {}

  lemma MulNonNegative(x: real, y: real)
    requires x >= 0.0 && y >= 0.0
    ensures x * y >= 0.0
  {}

  lemma MulAtMostSelf(c: real, x: real)
    requires c >= 0.0 && x <= 1.0
    ensures c * x <= c
    ensures x * c <= c
    ensures c > 0.0 && x < 1.0 ==> c * x < c
  {}

  lemma MulAtLeastSelf(c: real, x: real)
    requires c >= 0.0 && x >= 1.0
    ensures c * x >= c
    ensures x * c >= c
  {}

  lemma MulPositive(x: real, y: real)
    requires x > 0.0 && y > 0.0
    ensures x * y > 0.0
  {}

  lemma MulAssoc(x: real, y: real, z: real)
    ensures x * (y * z) == (x * y) * z
  {}

  lemma DivMonoNumerator(x: real, y: real, c: real)
    requires c > 0.0
    requires x <= y
    ensures x / c <= y / c
  {}

  /** Cross multiplication, both directions. */
  lemma DivLeqDiv(a: real, b: real, c: real, d: real)
    requires b > 0.0 && d > 0.0
    ensures a / b <= c / d <==> a * d <= c * b
  {
    var x, y := a / b, c / d;
    assert a == x * b && c == y * d;
    assert a * d == x * (b * d);
    assert c * b == y * (b * d);
    MulPositive(b, d);
    if x <= y {
      MulMono(b * d, x, y);
    } else {
      MulStrict(b * d, y, x);
    }
  }

  lemma MulStrict(c: real, x: real, y: real)
    requires c > 0.0
    requires x < y
    ensures c * x < c * y
    ensures x * c < y * c
  {}

  // ----- sums over sequences

  function Sum(xs: seq<real>): real {
    if xs == [] then 0.0 else Sum(xs[..|xs| - 1]) + xs[|xs| - 1]
  }

  lemma {:induction false} SumScale(c: real, xs: seq<real>, ys: seq<real>)
    requires |xs| == |ys|
    requires forall i :: 0 <= i < |xs| ==> ys[i] == c * xs[i]
    ensures Sum(ys) == c * Sum(xs)
  {
    if xs != [] {
      var n := |xs| - 1;
      SumScale(c, xs[..n], ys[..n]);
      assert c * Sum(xs) == c * Sum(xs[..n]) + c * xs[n];
    }
  }

  // ----- sums over finite maps; the order of iteration is immaterial

  /** `map.get(&k).copied().unwrap_or(0.0)` */
  function Get<K>(m: map<K, real>, k: K): real {
    if k in m then m[k] else 0.0
  }

  ghost function FoldSum<K(!new)>(m: map<K, real>, s: set<K>): real {
    if s == {} then 0.0
    else
      var k :| k in s;
      Get(m, k) + FoldSum(m, s - {k})
  }

  /** The total of m over the keys in s. */
  ghost function SumOver<K(!new)>(m: map<K, real>, s: set<K>): real {
    FoldSum(m, s)
  }

  /** `map.values().sum()` */
  ghost function MapSum<K(!new)>(m: map<K, real>): real {
    SumOver(m, m.Keys)
  }

  /** Any key may be taken out first. */
  lemma {:induction false} SumOverRemove<K(!new)>(m: map<K, real>, s: set<K>, k: K)
    requires k in s
    ensures SumOver(m, s) == Get(m, k) + SumOver(m, s - {k})
    decreases |s|
  {
    var j :| j in s && FoldSum(m, s) == Get(m, j) + FoldSum(m, s - {j});
    if j != k {
      SumOverRemove(m, s - {j}, k);
      SumOverRemove(m, s - {k}, j);
      assert s - {j} - {k} == s - {k} - {j};
    }
  }

  lemma {:induction false} SumOverUnion<K(!new)>(m: map<K, real>, s: set<K>, t: set<K>)
    requires s !! t
    ensures SumOver(m, s + t) == SumOver(m, s) + SumOver(m, t)
    decreases |s|
  {
    if s == {} {
      assert s + t == t;
    } else {
      var k :| k in s;
      SumOverRemove(m, s, k);
      SumOverRemove(m, s + t, k);
      assert s + t - {k} == (s - {k}) + t;
      SumOverUnion(m, s - {k}, t);
    }
  }

  lemma {:induction false} SumOverLeq<K(!new)>(m: map<K, real>, n: map<K, real>, s: set<K>)
    requires forall k :: k in s ==> Get(m, k) <= Get(n, k)
    ensures SumOver(m, s) <= SumOver(n, s)
    decreases |s|
  {
    if s != {} {
      var k :| k in s;
      SumOverRemove(m, s, k);
      SumOverRemove(n, s, k);
      SumOverLeq(m, n, s - {k});
    }
  }

  lemma SumOverAgree<K(!new)>(m: map<K, real>, n: map<K, real>, s: set<K>)
    requires forall k :: k in s ==> Get(m, k) == Get(n, k)
    ensures SumOver(m, s) == SumOver(n, s)
  {
    SumOverLeq(m, n, s);
    SumOverLeq(n, m, s);
  }

  lemma {:induction false} SumOverNonNegative<K(!new)>(m: map<K, real>, s: set<K>)
    requires forall k :: k in s ==> Get(m, k) >= 0.0
    ensures SumOver(m, s) >= 0.0
    ensures forall k :: k in s ==> Get(m, k) <= SumOver(m, s)
    decreases |s|
  {
    forall k | k in s
      ensures Get(m, k) <= SumOver(m, s) && SumOver(m, s) >= 0.0
    {
      SumOverRemove(m, s, k);
      SumOverNonNegative(m, s - {k});
    }
  }

  /** Dividing every entry divides the total. */
  lemma {:induction false} SumOverDivide<K(!new)>(m: map<K, real>, n: map<K, real>, s: set<K>, d: real)
    requires d > 0.0
    requires forall k :: k in s ==> Get(n, k) == Get(m, k) / d
    ensures SumOver(n, s) == SumOver(m, s) / d
    decreases |s|
  {
    if s != {} {
      var k :| k in s;
      var x, y := Get(m, k), SumOver(m, s - {k});
      assert SumOver(m, s) == x + y by { SumOverRemove(m, s, k); }
      assert SumOver(n, s) == x / d + y / d by {
        SumOverRemove(n, s, k);
        SumOverDivide(m, n, s - {k}, d);
      }
      DivAdd(x, y, d);
    }
  }

  lemma DivAdd(x: real, y: real, d: real)
    requires d > 0.0
    ensures x / d + y / d == (x + y) / d
  {}

  /** Overwriting one entry shifts the total by the difference. */
  lemma SumOverUpdate<K(!new)>(m: map<K, real>, s: set<K>, k: K, v: real)
    requires k in s
    ensures SumOver(m[k := v], s) == SumOver(m, s) - Get(m, k) + v
  {
    SumOverRemove(m, s, k);
    SumOverRemove(m[k := v], s, k);
    SumOverAgree(m, m[k := v], s - {k});
  }

  lemma MapSumInsert<K(!new)>(m: map<K, real>, k: K, v: real)
    ensures MapSum(m[k := v]) == MapSum(m) - Get(m, k) + v
  {
    var s := m.Keys + {k};
    assert m[k := v].Keys == s;
    SumOverUpdate(m, s, k, v);
    if k in m {
      assert s == m.Keys;
    } else {
      SumOverRemove(m, s, k);
      assert s - {k} == m.Keys;
    }
  }
}
