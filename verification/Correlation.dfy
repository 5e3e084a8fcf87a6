/** Pearson correlation over exact reals. The square root is a parameter known
    only by its two defining properties. */
module Correlation {

  ghost predicate IsRoot(root: real -> real) {
    forall x :: x >= 0.0 ==> root(x) >= 0.0 && root(x) * root(x) == x
  }

  function Sum(xs: seq<real>, n: nat): real
    requires n <= |xs|
  {
    if n == 0 then 0.0 else Sum(xs, n - 1) + xs[n - 1]
  }

  function Times(x: real, y: real): real {
    x * y
  }

  /** Sum of the products of the first `n` pairs. */
  function Dot(a: seq<real>, b: seq<real>, n: nat): real
    requires n <= |a| && n <= |b|
  {
    if n == 0 then 0.0 else Dot(a, b, n - 1) + Times(a[n - 1], b[n - 1])
  }

  function Squares(a: seq<real>): real {
    Dot(a, a, |a|)
  }

  function Deviations(xs: seq<real>, mean: real): (d: seq<real>)
    ensures |d| == |xs| && forall i :: 0 <= i < |xs| ==> d[i] == xs[i] - mean
  {
    seq(|xs|, i requires 0 <= i < |xs| => xs[i] - mean)
  }

  function Mean(xs: seq<real>, n: nat): real
    requires n > 0
  {
    Sum(xs, |xs|) / (n as real)
  }

  function Ratio(c: real, d: real): real
    requires d != 0.0
  {
    c / d
  }

  function Min(a: nat, b: nat): nat {
    if a < b then a else b
  }

  /** Zero below two points and when a series has no variance; `zip` stops at the
      shorter series, both means divide by the length of the first. */
  function Pearson(xs: seq<real>, ys: seq<real>, root: real -> real): real {
    var n := |xs|;
    if n < 2 then 0.0
    else
      var dx, dy := Deviations(xs, Mean(xs, n)), Deviations(ys, Mean(ys, n));
      var denom := Denominator(dx, dy, root);
      if denom == 0.0 then 0.0 else Ratio(Dot(dx, dy, Min(|dx|, |dy|)), denom)
  }

  function Denominator(dx: seq<real>, dy: seq<real>, root: real -> real): real {
    root(Squares(dx)) * root(Squares(dy))
  }

  // ----- small facts of real arithmetic

  lemma SquareNonNegative(x: real)
    ensures x * x >= 0.0
  {
    if x < 0.0 { assert x * x == (-x) * (-x); }
  }

  lemma MulMonotone(a: real, b: real, c: real)
    requires a <= b && c >= 0.0
    ensures a * c <= b * c
  {
    assert (b - a) * c >= 0.0;
    assert (b - a) * c == b * c - a * c;
  }

  lemma ProductPositive(a: real, b: real)
    requires a > 0.0 && b > 0.0
    ensures a * b > 0.0
  {}

  /** Squares compare like the numbers when the larger one is not negative. */
  lemma SquareRootOrder(u: real, v: real)
    requires v >= 0.0 && u * u <= v * v
    ensures u <= v
  {
    assert (u - v) * (u + v) == u * u - v * v;
    if u > v { ProductPositive(u - v, u + v); }
  }

  lemma RootUnique(root: real -> real, x: real, r: real)
    requires IsRoot(root) && r >= 0.0 && r * r == x
    ensures root(x) == r
  {
    SquareNonNegative(r);
    SquareRootOrder(root(x), r);
    SquareRootOrder(r, root(x));
  }

  // ----- Cauchy-Schwarz

  /** `2cxy <= ay^2 + bx^2` when `c^2 <= ab`. */
  lemma CrossTerm(a: real, b: real, c: real, x: real, y: real)
    requires a >= 0.0 && b >= 0.0 && c * c <= a * b
    ensures 2.0 * (c * (x * y)) <= a * (y * y) + b * (x * x)
  {
    var p, q, t := a * (y * y), b * (x * x), c * (x * y);
    SquareNonNegative(x);
    SquareNonNegative(y);
    SquareNonNegative(x * y);
    MulMonotone(c * c, a * b, (x * y) * (x * y));
    assert t * t == (c * c) * ((x * y) * (x * y)) by { Regroup(c, x * y, c, x * y); }
    assert p * q == (a * b) * ((x * y) * (x * y)) by {
      Regroup(a, y * y, b, x * x);
      Regroup(y, x, y, x);
      assert (y * y) * (x * x) == (x * y) * (x * y) by { Regroup(y, y, x, x); }
    }
    SquareNonNegative(p - q);
    assert (p + q) * (p + q) == (p - q) * (p - q) + 4.0 * (p * q) by { SquareOfSum(p, q); }
    assert (2.0 * t) * (2.0 * t) == 4.0 * (t * t) by { Regroup(2.0, t, 2.0, t); }
    assert p >= 0.0 && q >= 0.0 by { MulMonotone(0.0, a, y * y); MulMonotone(0.0, b, x * x); }
    SquareRootOrder(2.0 * t, p + q);
  }

  lemma Regroup(a: real, b: real, c: real, d: real)
    ensures (a * b) * (c * d) == (a * c) * (b * d)
  {
    assert (a * b) * (c * d) == a * (b * (c * d));
    assert b * (c * d) == c * (b * d);
    assert a * (c * (b * d)) == (a * c) * (b * d);
  }

  lemma SquareOfSum(p: real, q: real)
    ensures (p + q) * (p + q) == (p - q) * (p - q) + 4.0 * (p * q)
    ensures (p + q) * (p + q) == p * p + 2.0 * (p * q) + q * q
  {
    assert (p + q) * (p + q) == p * (p + q) + q * (p + q);
    assert (p - q) * (p - q) == p * (p - q) - q * (p - q);
  }

  lemma {:induction false} DotNonNegative(a: seq<real>, n: nat)
    requires n <= |a|
    ensures Dot(a, a, n) >= 0.0
  {
    if n > 0 {
      DotNonNegative(a, n - 1);
      SquareNonNegative(a[n - 1]);
    }
  }

  lemma CauchySchwarzStep(a: real, b: real, c: real, x: real, y: real)
    requires a >= 0.0 && b >= 0.0 && c * c <= a * b
    ensures (c + x * y) * (c + x * y) <= (a + x * x) * (b + y * y)
  {
    CrossTerm(a, b, c, x, y);
    SquareOfSum(c, x * y);
    assert (x * x) * (y * y) == (x * y) * (x * y) by { Regroup(x, x, y, y); }
    assert (a + x * x) * (b + y * y) == a * b + a * (y * y) + b * (x * x) + (x * x) * (y * y) by {
      Expand(a, x * x, b, y * y);
    }
  }

  lemma Expand(a: real, s: real, b: real, t: real)
    ensures (a + s) * (b + t) == a * b + a * t + b * s + s * t
  {
    assert (a + s) * (b + t) == a * (b + t) + s * (b + t);
  }

  /** The squared product sum is at most the product of the square sums. */
  ghost predicate Bounded(c: real, a: real, b: real) {
    c * c <= a * b
  }

  lemma BoundedStep(a: real, b: real, c: real, x: real, y: real, a': real, b': real, c': real)
    requires a >= 0.0 && b >= 0.0 && Bounded(c, a, b)
    requires a' == a + Times(x, x) && b' == b + Times(y, y) && c' == c + Times(x, y)
    ensures Bounded(c', a', b')
  {
    CauchySchwarzStep(a, b, c, x, y);
  }

  lemma {:induction false} CauchySchwarz(a: seq<real>, b: seq<real>, n: nat)
    requires n <= |a| && n <= |b|
    ensures Bounded(Dot(a, b, n), Dot(a, a, n), Dot(b, b, n))
  {
    if n > 0 {
      hide Bounded, Times;
      CauchySchwarz(a, b, n - 1);
      DotNonNegative(a, n - 1);
      DotNonNegative(b, n - 1);
      BoundedStep(Dot(a, a, n - 1), Dot(b, b, n - 1), Dot(a, b, n - 1), a[n - 1], b[n - 1],
                  Dot(a, a, n), Dot(b, b, n), Dot(a, b, n));
    }
  }

  lemma {:induction false} DotGrows(a: seq<real>, n: nat, m: nat)
    requires n <= m <= |a|
    ensures Dot(a, a, n) <= Dot(a, a, m)
    decreases m
  {
    if n < m {
      DotGrows(a, n, m - 1);
      SquareNonNegative(a[m - 1]);
    }
  }

  /** The numerator is at most the denominator in size, the series being cut to the
      shorter one. */
  lemma NumeratorBound(dx: seq<real>, dy: seq<real>, root: real -> real)
    requires IsRoot(root)
    ensures var n := Min(|dx|, |dy|);
            var denom := Denominator(dx, dy, root);
            denom >= 0.0 && -denom <= Dot(dx, dy, n) <= denom
  {
    hide Bounded, Dot, Times;
    var n := Min(|dx|, |dy|);
    CauchySchwarz(dx, dy, n);
    DotGrows(dx, n, |dx|);
    DotGrows(dy, n, |dy|);
    DotNonNegative(dx, n);
    DotNonNegative(dy, n);
    Widen(Dot(dx, dy, n), Dot(dx, dx, n), Dot(dy, dy, n), Squares(dx), Squares(dy));
    RootsBound(Dot(dx, dy, n), Squares(dx), Squares(dy), root(Squares(dx)), root(Squares(dy)));
  }

  lemma Widen(c: real, a: real, b: real, a': real, b': real)
    requires Bounded(c, a, b) && 0.0 <= a <= a' && 0.0 <= b <= b'
    ensures Bounded(c, a', b')
  {
    MulMonotone(a, a', b);
    MulMonotone(b, b', a');
  }

  lemma RootsBound(c: real, a: real, b: real, ra: real, rb: real)
    requires ra >= 0.0 && rb >= 0.0 && ra * ra == a && rb * rb == b && Bounded(c, a, b)
    ensures ra * rb >= 0.0 && -(ra * rb) <= c <= ra * rb
  {
    MulMonotone(0.0, ra, rb);
    Regroup(ra, rb, ra, rb);
    SquareRootOrder(c, ra * rb);
    assert (-c) * (-c) == c * c;
    SquareRootOrder(-c, ra * rb);
  }

  /** Measured correlation lies in [-1, 1], for series of any two lengths. */
  lemma PearsonRange(xs: seq<real>, ys: seq<real>, root: real -> real)
    requires IsRoot(root)
    ensures -1.0 <= Pearson(xs, ys, root) <= 1.0
  {
    hide Denominator, Deviations;
    if |xs| >= 2 {
      var dx, dy := Deviations(xs, Mean(xs, |xs|)), Deviations(ys, Mean(ys, |xs|));
      NumeratorBound(dx, dy, root);
      var denom := Denominator(dx, dy, root);
      if denom != 0.0 { QuotientBound(Dot(dx, dy, Min(|dx|, |dy|)), denom); }
    }
  }

  lemma QuotientBound(c: real, d: real)
    requires d > 0.0 && -d <= c <= d
    ensures -1.0 <= Ratio(c, d) <= 1.0
  {
    var r := Ratio(c, d);
    assert r * d == c;
  }

  // ----- symmetry and invariance

  lemma {:induction false} DotSymmetric(a: seq<real>, b: seq<real>, n: nat)
    requires n <= |a| && n <= |b|
    ensures Dot(a, b, n) == Dot(b, a, n)
  {
    if n > 0 { DotSymmetric(a, b, n - 1); }
  }

  lemma DenominatorSymmetric(dx: seq<real>, dy: seq<real>, root: real -> real)
    ensures Denominator(dx, dy, root) == Denominator(dy, dx, root)
  {}

  lemma PearsonSymmetric(xs: seq<real>, ys: seq<real>, root: real -> real)
    requires |xs| == |ys|
    ensures Pearson(xs, ys, root) == Pearson(ys, xs, root)
  {
    hide Denominator, Deviations;
    if |xs| >= 2 {
      var n := |xs|;
      var dx, dy := Deviations(xs, Mean(xs, n)), Deviations(ys, Mean(ys, n));
      DotSymmetric(dx, dy, n);
      DenominatorSymmetric(dx, dy, root);
    }
  }

  /** `k * x + c` for every point. */
  function Affine(xs: seq<real>, k: real, c: real): (r: seq<real>)
    ensures |r| == |xs| && forall i :: 0 <= i < |xs| ==> r[i] == k * xs[i] + c
  {
    seq(|xs|, i requires 0 <= i < |xs| => k * xs[i] + c)
  }

  lemma {:induction false} SumAffine(xs: seq<real>, k: real, c: real, n: nat)
    requires n <= |xs|
    ensures Sum(Affine(xs, k, c), n) == k * Sum(xs, n) + (n as real) * c
  {
    if n > 0 {
      SumAffine(xs, k, c, n - 1);
      assert (n as real) * c == ((n - 1) as real) * c + c by { assert (n as real) == ((n - 1) as real) + 1.0; }
      assert k * Sum(xs, n) == k * Sum(xs, n - 1) + k * xs[n - 1];
    }
  }

  lemma MeanAffine(xs: seq<real>, k: real, c: real)
    requires |xs| > 0
    ensures Mean(Affine(xs, k, c), |xs|) == k * Mean(xs, |xs|) + c
  {
    SumAffine(xs, k, c, |xs|);
    var m := |xs| as real;
    var mean := Mean(xs, |xs|);
    assert mean * m == Sum(xs, |xs|);
    assert (k * mean + c) * m == k * (mean * m) + c * m;
  }

  lemma DeviationsAffine(xs: seq<real>, k: real, c: real, mean: real, moved: real)
    requires moved == k * mean + c
    ensures Deviations(Affine(xs, k, c), moved) == Affine(Deviations(xs, mean), k, 0.0)
  {
    hide Affine, Deviations;
    var a, b := Deviations(Affine(xs, k, c), moved), Affine(Deviations(xs, mean), k, 0.0);
    forall i | 0 <= i < |xs| ensures a[i] == b[i] { DeviationAffine(k, xs[i], mean, c); }
    assert a == b;
  }

  lemma DeviationAffine(k: real, x: real, mean: real, c: real)
    ensures (k * x + c) - (k * mean + c) == k * (x - mean) + 0.0
  {
    assert k * (x - mean) == k * x - k * mean;
  }

  lemma {:induction false} DotScaled(a: seq<real>, b: seq<real>, k: real, n: nat)
    requires n <= |a| && n <= |b|
    ensures Dot(Affine(a, k, 0.0), b, n) == k * Dot(a, b, n)
  {
    if n > 0 {
      DotScaled(a, b, k, n - 1);
      assert (k * a[n - 1] + 0.0) * b[n - 1] == k * (a[n - 1] * b[n - 1]);
      assert k * (Dot(a, b, n - 1) + a[n - 1] * b[n - 1]) == k * Dot(a, b, n - 1) + k * (a[n - 1] * b[n - 1]);
    }
  }

  lemma SquaresScaled(a: seq<real>, k: real)
    ensures Squares(Affine(a, k, 0.0)) == (k * k) * Squares(a)
  {
    var ka := Affine(a, k, 0.0);
    DotScaled(a, ka, k, |a|);
    DotSymmetric(a, ka, |a|);
    DotScaled(a, a, k, |a|);
    assert k * (k * Squares(a)) == (k * k) * Squares(a);
  }

  lemma RootScaled(root: real -> real, x: real, k: real, y: real)
    requires IsRoot(root) && x >= 0.0 && k >= 0.0 && y == (k * k) * x
    ensures root(y) == k * root(x)
  {
    Regroup(k, root(x), k, root(x));
    MulMonotone(0.0, k, root(x));
    RootUnique(root, y, k * root(x));
  }

  /** Shifting a series and scaling it by a positive constant changes nothing. */
  lemma PearsonAffineInvariant(xs: seq<real>, ys: seq<real>, k: real, c: real, root: real -> real)
    requires IsRoot(root) && k > 0.0
    ensures Pearson(Affine(xs, k, c), ys, root) == Pearson(xs, ys, root)
  {
    hide Denominator, Deviations, Affine, Squares;
    if |xs| >= 2 {
      var dx, dy := Deviations(xs, Mean(xs, |xs|)), Deviations(ys, Mean(ys, |xs|));
      var m := Min(|dx|, |dy|);
      var kx := Affine(xs, k, c);
      var dk := Deviations(kx, Mean(kx, |xs|));
      MeanAffine(xs, k, c);
      DeviationsAffine(xs, k, c, Mean(xs, |xs|), Mean(kx, |xs|));
      DotScaled(dx, dy, k, m);
      DenominatorScaled(dx, dy, root, k);
      RatioScaled(Dot(dx, dy, m), Denominator(dx, dy, root), k, Dot(dk, dy, m), Denominator(dk, dy, root));
    }
  }

  lemma DenominatorScaled(dx: seq<real>, dy: seq<real>, root: real -> real, k: real)
    requires IsRoot(root) && k > 0.0
    ensures Denominator(Affine(dx, k, 0.0), dy, root) == k * Denominator(dx, dy, root)
  {
    hide Affine, Squares;
    var dk := Affine(dx, k, 0.0);
    SquaresScaled(dx, k);
    SquaresNonNegative(dx);
    RootScaled(root, Squares(dx), k, Squares(dk));
    var a, b := root(Squares(dx)), root(Squares(dy));
    assert (k * a) * b == k * (a * b);
  }

  lemma SquaresNonNegative(a: seq<real>)
    ensures Squares(a) >= 0.0
  {
    DotNonNegative(a, |a|);
  }

  lemma RatioScaled(c: real, d: real, k: real, kc: real, kd: real)
    requires k > 0.0 && kc == k * c && kd == k * d
    ensures kd == 0.0 <==> d == 0.0
    ensures d != 0.0 ==> Ratio(kc, kd) == Ratio(c, d)
  {
    if d != 0.0 {
      var r := Ratio(c, d);
      assert r * d == c;
      assert r * kd == k * (r * d);
    }
  }

  /** An exactly linear relation with positive slope measures as 1. */
  lemma PearsonOfLine(xs: seq<real>, k: real, c: real, root: real -> real)
    requires IsRoot(root) && k > 0.0 && |xs| >= 2
    requires Squares(Deviations(xs, Mean(xs, |xs|))) != 0.0
    ensures Pearson(xs, Affine(xs, k, c), root) == 1.0
  {
    hide Pearson;
    PearsonSymmetric(xs, Affine(xs, k, c), root);
    PearsonAffineInvariant(xs, xs, k, c, root);
    PearsonSelf(xs, root);
  }

  lemma DenominatorSelf(dx: seq<real>, root: real -> real)
    requires IsRoot(root)
    ensures Denominator(dx, dx, root) == Squares(dx)
  {
    SquaresNonNegative(dx);
  }

  lemma RatioSelf(d: real)
    requires d != 0.0
    ensures Ratio(d, d) == 1.0
  {}

  lemma PearsonSelf(xs: seq<real>, root: real -> real)
    requires IsRoot(root) && |xs| >= 2
    requires Squares(Deviations(xs, Mean(xs, |xs|))) != 0.0
    ensures Pearson(xs, xs, root) == 1.0
  {
    hide Deviations, Denominator;
    var dx := Deviations(xs, Mean(xs, |xs|));
    DenominatorSelf(dx, root);
    RatioSelf(Denominator(dx, dx, root));
  }
}
