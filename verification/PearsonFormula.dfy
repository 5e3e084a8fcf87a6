/** Pearson correlation as its textbook formula over plain sums, and what a negative
    scale does to it. */
module PearsonFormula {
  import opened Correlation

  // ----- plain sums over the points

  ghost function SumOf(terms: seq<real>): real {
    if terms == [] then 0.0 else SumOf(terms[..|terms| - 1]) + terms[|terms| - 1]
  }

  ghost function Products(xs: seq<real>, ys: seq<real>): (r: seq<real>)
    requires |xs| == |ys|
    ensures |r| == |xs| && forall i :: 0 <= i < |xs| ==> r[i] == xs[i] * ys[i]
  {
    seq(|xs|, i requires 0 <= i < |xs| => xs[i] * ys[i])
  }

  /** `n * Sxy - Sx * Sy`: zero exactly when two series of one length do not vary
      together, and for one series with itself when it does not vary. */
  ghost function Joint(xs: seq<real>, ys: seq<real>): real
    requires |xs| == |ys|
  {
    (|xs| as real) * SumOf(Products(xs, ys)) - SumOf(xs) * SumOf(ys)
  }

  lemma {:induction false} SumIsSumOf(xs: seq<real>, n: nat)
    requires n <= |xs|
    ensures Sum(xs, n) == SumOf(xs[..n])
  {
    if n > 0 {
      SumIsSumOf(xs, n - 1);
      assert xs[..n][..n - 1] == xs[..n - 1];
    }
  }

  lemma {:induction false} DotIsSumOf(xs: seq<real>, ys: seq<real>, n: nat)
    requires |xs| == |ys| && n <= |xs|
    ensures Dot(xs, ys, n) == SumOf(Products(xs, ys)[..n])
  {
    if n > 0 {
      DotIsSumOf(xs, ys, n - 1);
      assert Products(xs, ys)[..n][..n - 1] == Products(xs, ys)[..n - 1];
    }
  }

  /** One more point moves the sum of deviation products by its own product. */
  lemma DeviationStep(x: real, y: real, a: real, b: real)
    ensures (x - a) * (y - b) == x * y - b * x - a * y + a * b
  {
    assert (x - a) * (y - b) == x * (y - b) - a * (y - b);
    assert x * (y - b) == x * y - b * x;
    assert a * (y - b) == a * y - a * b;
  }

  lemma Accumulate(d: real, p: real, e: real, q: real, m: real, a: real, b: real,
                   sx: real, x: real, sy: real, y: real)
    requires d == e - b * sx - a * sy + m * (a * b)
    requires p == Times(x - a, y - b) && q == Times(x, y)
    ensures d + p == (e + q) - b * (sx + x) - a * (sy + y) + (m + 1.0) * (a * b)
  {
    DeviationStep(x, y, a, b);
    assert b * (sx + x) == b * sx + b * x;
    assert a * (sy + y) == a * sy + a * y;
    assert (m + 1.0) * (a * b) == m * (a * b) + a * b;
  }

  lemma {:induction false} DotOfDeviations(xs: seq<real>, ys: seq<real>, a: real, b: real, n: nat)
    requires |xs| == |ys| && n <= |xs|
    ensures Dot(Deviations(xs, a), Deviations(ys, b), n)
         == Dot(xs, ys, n) - b * Sum(xs, n) - a * Sum(ys, n) + (n as real) * (a * b)
  {
    hide Times;
    if n > 0 {
      DotOfDeviations(xs, ys, a, b, n - 1);
      assert (n as real) == ((n - 1) as real) + 1.0;
      var dx, dy := Deviations(xs, a), Deviations(ys, b);
      assert dx[n - 1] == xs[n - 1] - a && dy[n - 1] == ys[n - 1] - b;
      Accumulate(Dot(dx, dy, n - 1), Times(dx[n - 1], dy[n - 1]), Dot(xs, ys, n - 1), Times(xs[n - 1], ys[n - 1]),
                 (n - 1) as real, a, b, Sum(xs, n - 1), xs[n - 1], Sum(ys, n - 1), ys[n - 1]);
    }
  }

  /** The sum of deviation products, `n` times. */
  lemma JointIsDot(xs: seq<real>, ys: seq<real>)
    requires |xs| == |ys| > 0
    ensures var n := |xs|;
            Joint(xs, ys) == (n as real) * Dot(Deviations(xs, Mean(xs, n)), Deviations(ys, Mean(ys, n)), n)
  {
    hide Dot, Sum, SumOf, Deviations;
    var n := |xs|;
    var m, a, b := n as real, Mean(xs, n), Mean(ys, n);
    var sx, sy, sxy := Sum(xs, n), Sum(ys, n), Dot(xs, ys, n);
    SumIsSumOf(xs, n);
    SumIsSumOf(ys, n);
    DotIsSumOf(xs, ys, n);
    assert xs[..n] == xs && ys[..n] == ys && Products(xs, ys)[..n] == Products(xs, ys);
    DotOfDeviations(xs, ys, a, b, n);
    assert a * m == sx && b * m == sy;
    Centre(m, a, b, sx, sy, sxy);
  }

  lemma Centre(m: real, a: real, b: real, sx: real, sy: real, sxy: real)
    requires a * m == sx && b * m == sy
    ensures m * (sxy - b * sx - a * sy + m * (a * b)) == m * sxy - sx * sy
  {
    assert b * sx == m * (a * b) by { assert b * (a * m) == m * (a * b); }
    assert a * sy == m * (a * b) by { assert a * (b * m) == m * (a * b); }
    var p := m * (a * b);
    assert m * (sxy - p) == m * sxy - m * p;
    assert m * p == sx * sy by { assert m * (m * (a * b)) == (a * m) * (b * m); }
  }

  /** The spread of a series is `n` times its deviation squares, so never negative. */
  lemma JointOfSelf(xs: seq<real>)
    requires |xs| > 0
    ensures Joint(xs, xs) == (|xs| as real) * Squares(Deviations(xs, Mean(xs, |xs|)))
    ensures Joint(xs, xs) >= 0.0
  {
    hide Joint, Deviations, Dot;
    JointIsDot(xs, xs);
    SquaresNonNegative(Deviations(xs, Mean(xs, |xs|)));
    MulMonotone(0.0, Squares(Deviations(xs, Mean(xs, |xs|))), |xs| as real);
  }

  lemma RootOfProduct(root: real -> real, m: real, x: real)
    requires IsRoot(root) && m >= 0.0 && x >= 0.0
    ensures root(m * x) == root(m) * root(x)
  {
    var a, b := root(m), root(x);
    MulMonotone(0.0, a, b);
    MulMonotone(0.0, m, x);
    Regroup(a, b, a, b);
    RootUnique(root, m * x, a * b);
  }

  /** The roots of the two spreads multiply to `n` times the denominator. */
  lemma RootsOfSpreads(root: real -> real, m: real, x: real, y: real)
    requires IsRoot(root) && m >= 0.0 && x >= 0.0 && y >= 0.0
    ensures root(m * x) * root(m * y) == m * (root(x) * root(y))
  {
    RootOfProduct(root, m, x);
    RootOfProduct(root, m, y);
    Regroup(root(m), root(x), root(m), root(y));
  }

  lemma RootIsZero(root: real -> real, x: real)
    requires IsRoot(root) && x >= 0.0
    ensures root(x) == 0.0 <==> x == 0.0
  {
    if x == 0.0 { RootUnique(root, 0.0, 0.0); }
  }

  lemma ProductIsZero(a: real, b: real)
    ensures a * b == 0.0 <==> a == 0.0 || b == 0.0
  {}

  /** The correlation of two series of one length is their joint spread over the roots
      of their own spreads; it is 0 exactly when that is 0 or one does not vary. */
  lemma PearsonIsFormula(xs: seq<real>, ys: seq<real>, root: real -> real)
    requires IsRoot(root) && |xs| == |ys| >= 2
    ensures Pearson(xs, ys, root) * (root(Joint(xs, xs)) * root(Joint(ys, ys))) == Joint(xs, ys)
    ensures Joint(xs, xs) == 0.0 || Joint(ys, ys) == 0.0 ==> Pearson(xs, ys, root) == 0.0
  {
    hide Deviations, Dot, Joint, Squares;
    var n := |xs|;
    var m := n as real;
    var dx, dy := Deviations(xs, Mean(xs, n)), Deviations(ys, Mean(ys, n));
    JointIsDot(xs, ys);
    JointOfSelf(xs);
    JointOfSelf(ys);
    SquaresNonNegative(dx);
    SquaresNonNegative(dy);
    RootIsZero(root, Squares(dx));
    RootIsZero(root, Squares(dy));
    var c, d := Dot(dx, dy, n), Denominator(dx, dy, root);
    ProductIsZero(root(Squares(dx)), root(Squares(dy)));
    ProductIsZero(m, Squares(dx));
    ProductIsZero(m, Squares(dy));
    NumeratorBound(dx, dy, root);
    if d == 0.0 {
      assert c == 0.0;
    } else {
      var r := Ratio(c, d);
      assert r * d == c;
      assert Pearson(xs, ys, root) == r;
      Assemble(root, m, Squares(dx), Squares(dy), Joint(xs, xs), Joint(ys, ys), c, d, r);
    }
  }

  lemma Assemble(root: real -> real, m: real, sx: real, sy: real, jx: real, jy: real, c: real, d: real, r: real)
    requires IsRoot(root) && m >= 0.0 && sx >= 0.0 && sy >= 0.0
    requires jx == m * sx && jy == m * sy && d == root(sx) * root(sy) && r * d == c
    ensures r * (root(jx) * root(jy)) == m * c
  {
    RootsOfSpreads(root, m, sx, sy);
    assert r * (m * d) == m * (r * d);
  }

  /** Below two points there is no correlation. */
  lemma TooFewPoints(xs: seq<real>, ys: seq<real>, root: real -> real)
    requires |xs| < 2
    ensures Pearson(xs, ys, root) == 0.0
  {}

  // ----- a negative scale

  lemma DenominatorNegated(dx: seq<real>, dy: seq<real>, root: real -> real, k: real)
    requires IsRoot(root) && k < 0.0
    ensures Denominator(Affine(dx, k, 0.0), dy, root) == (-k) * Denominator(dx, dy, root)
  {
    hide Affine, Squares;
    var dk := Affine(dx, k, 0.0);
    SquaresScaled(dx, k);
    SquaresNonNegative(dx);
    assert k * k == (-k) * (-k);
    RootScaled(root, Squares(dx), -k, Squares(dk));
    var a, b := root(Squares(dx)), root(Squares(dy));
    assert ((-k) * a) * b == (-k) * (a * b);
  }

  lemma RatioNegated(c: real, d: real, k: real, kc: real, kd: real)
    requires k < 0.0 && kc == k * c && kd == (-k) * d
    ensures kd == 0.0 <==> d == 0.0
    ensures d != 0.0 ==> Ratio(kc, kd) == -Ratio(c, d)
  {
    ProductIsZero(-k, d);
    if d != 0.0 {
      var r := Ratio(c, d);
      assert r * d == c;
      assert (-r) * kd == k * (r * d) by { assert (-r) * ((-k) * d) == k * (r * d); }
    }
  }

  /** Scaling a series by a negative constant negates the correlation. */
  lemma PearsonNegated(xs: seq<real>, ys: seq<real>, k: real, c: real, root: real -> real)
    requires IsRoot(root) && k < 0.0
    ensures Pearson(Affine(xs, k, c), ys, root) == -Pearson(xs, ys, root)
  {
    hide Denominator, Deviations, Affine, Squares;
    if |xs| >= 2 {
      var dx, dy := Deviations(xs, Mean(xs, |xs|)), Deviations(ys, Mean(ys, |xs|));
      var m := Min(|dx|, |dy|);
      var kx := Affine(xs, k, c);
      var dk := Deviations(kx, Mean(kx, |xs|));
      MeanAffine(xs, k, c);
      DeviationsAffine(xs, k, c, Mean(xs, |xs|), Mean(kx, |xs|));
      DotScaled(dx, dy, k, m);
      DenominatorNegated(dx, dy, root, k);
      RatioNegated(Dot(dx, dy, m), Denominator(dx, dy, root), k, Dot(dk, dy, m), Denominator(dk, dy, root));
    }
  }

  // ----- lines

  /** A series with two different values has a spread. */
  lemma VaryingSpread(xs: seq<real>, i: nat, j: nat)
    requires i < |xs| && j < |xs| && xs[i] != xs[j]
    ensures Squares(Deviations(xs, Mean(xs, |xs|))) != 0.0
  {
    var d := Deviations(xs, Mean(xs, |xs|));
    hide Deviations, Dot;
    assert d[i] != 0.0 || d[j] != 0.0;
    if d[i] != 0.0 { SquareCounts(d, i); } else { SquareCounts(d, j); }
  }

  lemma SquarePositive(x: real)
    requires x != 0.0
    ensures Times(x, x) > 0.0
  {
    SquareNonNegative(x);
    ProductIsZero(x, x);
  }

  lemma SquareCounts(d: seq<real>, i: nat)
    requires i < |d| && d[i] != 0.0
    ensures Squares(d) > 0.0
  {
    DotNonNegative(d, i);
    DotGrows(d, i + 1, |d|);
    SquarePositive(d[i]);
    assert Dot(d, d, i + 1) == Dot(d, d, i) + Times(d[i], d[i]);
  }

  /** Points on a rising line measure as 1, on a falling line as -1. */
  lemma PearsonOfAnyLine(xs: seq<real>, ys: seq<real>, k: real, c: real, i: nat, j: nat, root: real -> real)
    requires IsRoot(root) && k != 0.0 && |xs| == |ys| && i < |xs| && j < |xs| && xs[i] != xs[j]
    requires forall p :: 0 <= p < |xs| ==> ys[p] == k * xs[p] + c
    ensures Pearson(xs, ys, root) == if k > 0.0 then 1.0 else -1.0
  {
    hide Pearson, Squares, Deviations;
    assert |xs| >= 2;
    VaryingSpread(xs, i, j);
    assert ys == Affine(xs, k, c);
    hide Affine;
    PearsonSelf(xs, root);
    PearsonSymmetric(xs, ys, root);
    if k > 0.0 { PearsonAffineInvariant(xs, xs, k, c, root); } else { PearsonNegated(xs, xs, k, c, root); }
  }
}
