/** The exponentially weighted mean and variance, over the reals, against their closed forms. */
module Ewma {
  import opened Numerals

  /** Weight of sample `i` after `n` samples; the first sample starts the average and has no factor `alpha`. */
  function Weight(alpha: real, n: nat, i: nat): real
    requires i < n
  {
    (if i == 0 then 1.0 else alpha) * RealPower(1.0 - alpha, n - 1 - i)
  }

  /** Sum of the first `|xs|` of `n` weights times the values. */
  function Weighted(alpha: real, n: nat, xs: seq<real>): real
    requires |xs| <= n
    decreases |xs|
  {
    if xs == [] then 0.0
    else Weighted(alpha, n, xs[..|xs| - 1]) + Weight(alpha, n, |xs| - 1) * xs[|xs| - 1]
  }

  function Apply(f: real -> real, xs: seq<real>): (r: seq<real>)
    ensures |r| == |xs|
    decreases |xs|
  {
    if xs == [] then [] else Apply(f, xs[..|xs| - 1]) + [f(xs[|xs| - 1])]
  }

  /** Weighted average of `f` over all samples. */
  function Average(alpha: real, f: real -> real, xs: seq<real>): real {
    Weighted(alpha, |xs|, Apply(f, xs))
  }

  function Id(x: real): real {
    x
  }

  function Sqr(x: real): real {
    x * x
  }

  function SqrDistance(m: real): real -> real {
    x => (x - m) * (x - m)
  }

  function Quadratic(p: real, q: real, r: real): real -> real {
    x => p * (x * x) + q * x + r
  }

  function Mean(alpha: real, xs: seq<real>): real {
    Average(alpha, Id, xs)
  }

  /** The average squared distance to the mean; the mean is the one of all the samples. */
  function Variance(alpha: real, xs: seq<real>): real {
    Average(alpha, SqrDistance(Mean(alpha, xs)), xs)
  }

  // ---------------------------------------------------------------- one more sample

  lemma WeightDecays(alpha: real, n: nat, i: nat)
    requires i < n
    ensures Weight(alpha, n + 1, i) == Times(1.0 - alpha, Weight(alpha, n, i))
  {
    var w, p, b := if i == 0 then 1.0 else alpha, RealPower(1.0 - alpha, n - 1 - i), 1.0 - alpha;
    assert RealPower(b, n - i) == b * p;
    assert w * (b * p) == b * (w * p);
  }

  lemma {:induction false} WeightedDecays(alpha: real, n: nat, xs: seq<real>)
    requires |xs| <= n
    ensures Weighted(alpha, n + 1, xs) == Times(1.0 - alpha, Weighted(alpha, n, xs))
    decreases |xs|
  {
    if xs != [] {
      hide Weight, Weighted, Times;
      var i := |xs| - 1;
      WeightedDecays(alpha, n, xs[..i]);
      WeightDecays(alpha, n, i);
      LastWeighted(alpha, n, xs);
      LastWeighted(alpha, n + 1, xs);
      Factor(Weight(alpha, n, i), 1.0 - alpha, xs[i], Weighted(alpha, n, xs[..i]));
    }
  }

  lemma LastWeighted(alpha: real, n: nat, xs: seq<real>)
    requires 0 < |xs| <= n
    ensures var i := |xs| - 1; Weighted(alpha, n, xs) == Weighted(alpha, n, xs[..i]) + Times(Weight(alpha, n, i), xs[i])
  {
  }

  lemma Factor(v: real, b: real, x: real, s: real)
    ensures Times(b, s) + Times(Times(b, v), x) == Times(b, s + Times(v, x))
  {
    assert (b * v) * x == b * (v * x);
  }

  lemma EmptyWeighted(alpha: real, n: nat, xs: seq<real>)
    requires |xs| <= n
    ensures xs == [] ==> Weighted(alpha, n, xs) == 0.0
  {
  }

  lemma NewestWeight(alpha: real, n: nat, x: real)
    ensures Weight(alpha, n + 1, n) == if n == 0 then 1.0 else alpha
    ensures Times(1.0, x) == x
  {
  }

  lemma ApplySnoc(f: real -> real, xs: seq<real>, x: real)
    ensures Apply(f, xs + [x]) == Apply(f, xs) + [f(x)]
  {
    assert (xs + [x])[..|xs|] == xs;
  }

  /** Every weighted average moves towards the newest value by the factor `alpha`. */
  lemma AverageSnoc(alpha: real, f: real -> real, xs: seq<real>, x: real)
    ensures xs == [] ==> Average(alpha, f, xs + [x]) == f(x)
    ensures xs != [] ==> Average(alpha, f, xs + [x]) == Times(1.0 - alpha, Average(alpha, f, xs)) + Times(alpha, f(x))
  {
    hide Weighted, Weight, Times, Apply;
    ApplySnoc(f, xs, x);
    WeightedSnoc(alpha, Apply(f, xs), f(x));
  }

  lemma WeightedSnoc(alpha: real, vs: seq<real>, v: real)
    ensures Weighted(alpha, |vs| + 1, vs + [v]) ==
            if vs == [] then v else Times(1.0 - alpha, Weighted(alpha, |vs|, vs)) + Times(alpha, v)
  {
    hide Weighted, Weight, Times;
    var n, all := |vs|, vs + [v];
    LastOf(vs, v);
    NewestWeight(alpha, n, v);
    LastWeighted(alpha, n + 1, all);
    if vs == [] {
      EmptyWeighted(alpha, n + 1, vs);
    } else {
      WeightedDecays(alpha, n, vs);
    }
  }

  lemma LastOf(vs: seq<real>, v: real)
    ensures (vs + [v])[..|vs|] == vs && (vs + [v])[|vs|] == v
  {
  }

  /** The weights sum to 1. */
  lemma {:induction false} WeightsSumToOne(alpha: real, xs: seq<real>)
    requires xs != []
    ensures Average(alpha, _ => 1.0, xs) == 1.0
    decreases |xs|
  {
    var before, x := xs[..|xs| - 1], xs[|xs| - 1];
    assert xs == before + [x];
    AverageSnoc(alpha, _ => 1.0, before, x);
    if before != [] {
      WeightsSumToOne(alpha, before);
    }
  }

  /** The average is linear; quadratics are all that is needed. */
  lemma {:induction false} AverageQuadratic(alpha: real, p: real, q: real, r: real, xs: seq<real>)
    requires xs != []
    ensures Average(alpha, Quadratic(p, q, r), xs)
         == p * Average(alpha, Sqr, xs) + q * Average(alpha, Id, xs) + r
    decreases |xs|
  {
    hide Average, Times, Quadratic, Sqr, Id;
    var before, x := xs[..|xs| - 1], xs[|xs| - 1];
    assert xs == before + [x];
    AverageSnoc(alpha, Quadratic(p, q, r), before, x);
    AverageSnoc(alpha, Sqr, before, x);
    AverageSnoc(alpha, Id, before, x);
    if before != [] {
      AverageQuadratic(alpha, p, q, r, before);
      Combine(alpha, p, q, r, Average(alpha, Sqr, before), Average(alpha, Id, before), Average(alpha, Quadratic(p, q, r), before), x,
              Average(alpha, Sqr, xs), Average(alpha, Id, xs), Average(alpha, Quadratic(p, q, r), xs));
    } else {
      CombineOne(p, q, r, x);
    }
  }

  lemma Combine(alpha: real, p: real, q: real, r: real, s: real, m: real, a: real, x: real, s1: real, m1: real, a1: real)
    requires a == p * s + q * m + r
    requires s1 == Times(1.0 - alpha, s) + Times(alpha, Sqr(x)) && m1 == Times(1.0 - alpha, m) + Times(alpha, Id(x))
    requires a1 == Times(1.0 - alpha, a) + Times(alpha, Quadratic(p, q, r)(x))
    ensures a1 == p * s1 + q * m1 + r
  {
  }

  lemma CombineOne(p: real, q: real, r: real, x: real)
    ensures Quadratic(p, q, r)(x) == p * Sqr(x) + q * Id(x) + r
  {
  }

  lemma {:induction false} AverageSame(alpha: real, f: real -> real, g: real -> real, xs: seq<real>)
    requires forall x :: f(x) == g(x)
    ensures Average(alpha, f, xs) == Average(alpha, g, xs)
  {
    ApplySame(f, g, xs);
  }

  lemma {:induction false} ApplySame(f: real -> real, g: real -> real, xs: seq<real>)
    requires forall x :: f(x) == g(x)
    ensures Apply(f, xs) == Apply(g, xs)
    decreases |xs|
  {
    if xs != [] {
      ApplySame(f, g, xs[..|xs| - 1]);
    }
  }

  lemma Square(x: real, m: real)
    ensures (x - m) * (x - m) == 1.0 * (x * x) + (-2.0 * m) * x + m * m
  {
  }

  /** The variance is the average square less the square of the average. */
  lemma VarianceBySquares(alpha: real, xs: seq<real>)
    requires xs != []
    ensures Variance(alpha, xs) == Average(alpha, Sqr, xs) - Mean(alpha, xs) * Mean(alpha, xs)
  {
    hide Average;
    var m := Mean(alpha, xs);
    var f, g := SqrDistance(m), Quadratic(1.0, -2.0 * m, m * m);
    forall x ensures f(x) == g(x) {
      Square(x, m);
    }
    AverageSame(alpha, f, g, xs);
    AverageQuadratic(alpha, 1.0, -2.0 * m, m * m, xs);
  }

  lemma UpdateIdentity(alpha: real, s: real, m: real, x: real)
    ensures var d := x - m; var n := m + alpha * d;
      (1.0 - alpha) * s + alpha * (x * x) - n * n == (1.0 - alpha) * ((s - m * m) + alpha * d * d)
  {
    var d := x - m;
    assert x == m + d;
    assert x * x == m * m + 2.0 * (m * d) + d * d;
    assert (m + alpha * d) * (m + alpha * d) == m * m + 2.0 * alpha * (m * d) + alpha * alpha * (d * d);
    assert (1.0 - alpha) * (alpha * d * d) == alpha * (d * d) - alpha * alpha * (d * d);
  }

  /** One update of the two closed forms. */
  lemma Updated(alpha: real, xs: seq<real>, x: real)
    ensures xs == [] ==> Mean(alpha, xs + [x]) == x && Variance(alpha, xs + [x]) == 0.0
    ensures xs != [] ==> var d := x - Mean(alpha, xs);
      Mean(alpha, xs + [x]) == Mean(alpha, xs) + alpha * d &&
      Variance(alpha, xs + [x]) == (1.0 - alpha) * (Variance(alpha, xs) + alpha * d * d)
  {
    hide Average, Variance;
    AverageSnoc(alpha, Id, xs, x);
    AverageSnoc(alpha, Sqr, xs, x);
    VarianceBySquares(alpha, xs + [x]);
    if xs != [] {
      VarianceBySquares(alpha, xs);
      UpdateIdentity(alpha, Average(alpha, Sqr, xs), Mean(alpha, xs), x);
    }
  }

  // ---------------------------------------------------------------- bounds

  predicate Between(xs: seq<real>, lo: real, hi: real) {
    forall i :: 0 <= i < |xs| ==> lo <= xs[i] <= hi
  }

  lemma {:induction false} AverageNonNegative(alpha: real, f: real -> real, xs: seq<real>)
    requires 0.0 <= alpha <= 1.0 && forall i :: 0 <= i < |xs| ==> f(xs[i]) >= 0.0
    ensures Average(alpha, f, xs) >= 0.0
    decreases |xs|
  {
    if xs != [] {
      var before, x := xs[..|xs| - 1], xs[|xs| - 1];
      assert xs == before + [x];
      AverageSnoc(alpha, f, before, x);
      AverageNonNegative(alpha, f, before);
      if before != [] {
        Positive(1.0 - alpha, Average(alpha, f, before));
        Positive(alpha, f(x));
      }
    }
  }

  lemma Positive(x: real, y: real)
    requires x >= 0.0 && y >= 0.0
    ensures x * y >= 0.0
  {
  }

  lemma Spread(x: real, lo: real, hi: real)
    ensures -1.0 * (x * x) + (lo + hi) * x + -(lo * hi) == (hi - x) * (x - lo)
  {
  }

  lemma BoundStep(s: real, m: real, lo: real, hi: real)
    requires -1.0 * s + (lo + hi) * m + -(lo * hi) >= 0.0
    ensures s - m * m <= (hi - m) * (m - lo)
  {
    Spread(m, lo, hi);
  }

  /** For samples in [lo, hi] the mean stays there, and the variance within the bound of Bhatia and Davis. */
  lemma VarianceBound(alpha: real, xs: seq<real>, lo: real, hi: real)
    requires 0.0 <= alpha <= 1.0 && xs != [] && Between(xs, lo, hi)
    ensures lo <= Mean(alpha, xs) <= hi
    ensures 0.0 <= Variance(alpha, xs) <= (hi - Mean(alpha, xs)) * (Mean(alpha, xs) - lo)
  {
    hide Average, Variance;
    var m := Mean(alpha, xs);
    var f := Quadratic(-1.0, lo + hi, -(lo * hi));
    forall i | 0 <= i < |xs| ensures f(xs[i]) >= 0.0 {
      Spread(xs[i], lo, hi);
      Positive(hi - xs[i], xs[i] - lo);
    }
    AverageNonNegative(alpha, f, xs);
    AverageQuadratic(alpha, -1.0, lo + hi, -(lo * hi), xs);
    VarianceBySquares(alpha, xs);
    BoundStep(Average(alpha, Sqr, xs), m, lo, hi);
    VarianceNonNegative(alpha, xs);
    MeanBetween(alpha, xs, lo, hi);
  }

  lemma VarianceNonNegative(alpha: real, xs: seq<real>)
    requires 0.0 <= alpha <= 1.0
    ensures Variance(alpha, xs) >= 0.0
  {
    hide Average;
    var m := Mean(alpha, xs);
    forall i | 0 <= i < |xs| ensures SqrDistance(m)(xs[i]) >= 0.0 {
      var d := xs[i] - m;
      assert d * d >= 0.0;
    }
    AverageNonNegative(alpha, SqrDistance(m), xs);
  }

  lemma MeanBetween(alpha: real, xs: seq<real>, lo: real, hi: real)
    requires 0.0 <= alpha <= 1.0 && xs != [] && Between(xs, lo, hi)
    ensures lo <= Mean(alpha, xs) <= hi
  {
    hide Average;
    AverageNonNegative(alpha, Quadratic(0.0, 1.0, -lo), xs);
    AverageQuadratic(alpha, 0.0, 1.0, -lo, xs);
    AverageNonNegative(alpha, Quadratic(0.0, -1.0, hi), xs);
    AverageQuadratic(alpha, 0.0, -1.0, hi, xs);
  }

  // ---------------------------------------------------------------- the tracker object

  class EwmaTracker {
    const alpha: real
    var mean: real
    var variance: real
    var count: nat
    ghost var samples: seq<real>

    constructor (alpha: real)
      ensures this.alpha == alpha && samples == [] && Exact()
    {
      this.alpha := alpha;
      mean, variance, count := 0.0, 0.0, 0;
      samples := [];
    }

    /** The fields are the closed forms over every sample seen so far. */
    ghost predicate Exact()
      reads this
    {
      count == |samples| && mean == Mean(alpha, samples) && variance == Variance(alpha, samples)
    }

    method Update(x: real)
      requires Exact()
      modifies this
      ensures Exact() && samples == old(samples) + [x]
    {
      hide Mean, Variance;
      Updated(alpha, samples, x);
      samples := samples + [x];
      count := count + 1;
      if count == 1 {
        mean := x;
        variance := 0.0;
      } else {
        var diff := x - mean;
        mean := mean + alpha * diff;
        variance := (1.0 - alpha) * (variance + alpha * diff * diff);
      }
    }

    /** The square root is the library's: any function that is positive and squares back. */
    method GetZScore(sqrt: real -> real, x: real) returns (z: real)
      requires Exact()
      requires variance > 0.0 ==> sqrt(variance) > 0.0 && sqrt(variance) * sqrt(variance) == variance
      requires variance >= 0.0
      ensures |samples| < 50 || Variance(alpha, samples) == 0.0 ==> z == 0.0
      ensures |samples| >= 50 && Variance(alpha, samples) != 0.0 ==>
        z * z * Variance(alpha, samples) == (x - Mean(alpha, samples)) * (x - Mean(alpha, samples)) &&
        (z > 0.0 <==> x > Mean(alpha, samples)) && (z < 0.0 <==> x < Mean(alpha, samples))
    {
      if count < 50 || variance == 0.0 {
        return 0.0;
      }
      var stdDev := sqrt(variance);
      z := (x - mean) / stdDev;
      Quotient(x - mean, stdDev, z);
    }
  }

  lemma Quotient(d: real, s: real, z: real)
    requires s > 0.0 && z == d / s
    ensures z * z * (s * s) == d * d && (z > 0.0 <==> d > 0.0) && (z < 0.0 <==> d < 0.0)
  {
    assert z * s == d;
    assert z * z * (s * s) == (z * s) * (z * s);
  }
}
