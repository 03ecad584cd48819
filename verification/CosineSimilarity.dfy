/** Cosine similarity over ideal reals (src/domain/ai/cosine-similarity.ts). */
module CosineSimilarity {

  datatype Result<+T> = Success(value: T) | DimensionMismatch(left: nat, right: nat)

  type Vector = seq<real>

  function Dot(a: Vector, b: Vector): real
    requires |a| == |b|
  {
    if a == [] then 0.0 else Dot(a[..|a| - 1], b[..|b| - 1]) + a[|a| - 1] * b[|b| - 1]
  }

  function NormSquared(a: Vector): real {
    Dot(a, a)
  }

  function Scale(k: real, a: Vector): (r: Vector)
    ensures |r| == |a|
    ensures forall i :: 0 <= i < |a| ==> r[i] == k * a[i]
  {
    seq(|a|, i requires 0 <= i < |a| => k * a[i])
  }

  /** `Math.sqrt` without rounding. */
  ghost predicate IsSquareRoot(sqrt: real -> real) {
    forall x :: x >= 0.0 ==> sqrt(x) >= 0.0 && sqrt(x) * sqrt(x) == x
  }

  /** The quotient the code returns for vectors of equal length. */
  function Cosine(a: Vector, b: Vector, sqrt: real -> real): real
    requires |a| == |b| && IsSquareRoot(sqrt)
  {
    Quotient(Dot(a, b), NormSquared(a), NormSquared(b), sqrt)
  }

  function Quotient(dot: real, normA: real, normB: real, sqrt: real -> real): real
    requires IsSquareRoot(sqrt)
  {
    if normA <= 0.0 || normB <= 0.0 then 0.0
    else
      RootsArePositive(normA, normB, sqrt);
      dot / (sqrt(normA) * sqrt(normB))
  }

  method CosineSimilarity(a: Vector, b: Vector, sqrt: real -> real) returns (r: Result<real>)
    requires IsSquareRoot(sqrt)
    ensures |a| != |b| ==> r == DimensionMismatch(|a|, |b|)
    ensures |a| == |b| ==> r == Success(Cosine(a, b, sqrt))
  {
    if |a| != |b| {
      return DimensionMismatch(|a|, |b|);
    }
    var dot, normA, normB := 0.0, 0.0, 0.0;
    for i := 0 to |a|
      invariant dot == Dot(a[..i], b[..i]) && normA == NormSquared(a[..i]) && normB == NormSquared(b[..i])
    {
      assert a[..i + 1][..i] == a[..i] && b[..i + 1][..i] == b[..i];
      dot := dot + a[i] * b[i];
      normA := normA + a[i] * a[i];
      normB := normB + b[i] * b[i];
    }
    assert a[..|a|] == a && b[..|b|] == b;
    NormIsNonNegative(a);
    NormIsNonNegative(b);
    if normA == 0.0 || normB == 0.0 {
      return Success(0.0);
    }
    RootsArePositive(normA, normB, sqrt);
    var quotient := dot / (sqrt(normA) * sqrt(normB));
    assert quotient == Quotient(dot, normA, normB, sqrt);
    return Success(quotient);
  }

  lemma {:induction false} RootsArePositive(x: real, y: real, sqrt: real -> real)
    requires IsSquareRoot(sqrt) && x > 0.0 && y > 0.0
    ensures sqrt(x) > 0.0 && sqrt(y) > 0.0 && sqrt(x) * sqrt(y) > 0.0
    ensures (sqrt(x) * sqrt(y)) * (sqrt(x) * sqrt(y)) == x * y
  {
    var u, v := sqrt(x), sqrt(y);
    assert u * u == x && v * v == y;
    assert u != 0.0 && v != 0.0;
    assert (u * v) * (u * v) == (u * u) * (v * v);
  }

  // ----- the Cauchy-Schwarz inequality -----

  lemma {:induction false} NormIsNonNegative(a: Vector)
    ensures NormSquared(a) >= 0.0
  {
    if a != [] {
      NormIsNonNegative(a[..|a| - 1]);
      var x := a[|a| - 1];
      assert x * x >= 0.0;
    }
  }

  /** The squared length of `s * a + t * b`, expanded, for squared lengths `n` and `m` and inner product `d`. */
  function CombinedLength(s: real, t: real, n: real, d: real, m: real): real {
    s * s * n + 2.0 * s * t * d + t * t * m
  }

  lemma {:induction false} QuadraticForm(a: Vector, b: Vector, s: real, t: real)
    requires |a| == |b|
    ensures CombinedLength(s, t, NormSquared(a), Dot(a, b), NormSquared(b)) >= 0.0
  {
    hide CombinedLength;
    if a == [] {
      ZeroLength(s, t);
    } else {
      var a', b', x, y := a[..|a| - 1], b[..|b| - 1], a[|a| - 1], b[|b| - 1];
      QuadraticForm(a', b', s, t);
      QuadraticStep(s, t, x, y, NormSquared(a'), Dot(a', b'), NormSquared(b'));
      assert Dot(a, b) == Dot(a', b') + x * y;
      assert NormSquared(a) == NormSquared(a') + x * x && NormSquared(b) == NormSquared(b') + y * y;
    }
  }

  lemma {:induction false} ZeroLength(s: real, t: real)
    ensures CombinedLength(s, t, 0.0, 0.0, 0.0) == 0.0
  {
  }

  lemma {:induction false} QuadraticStep(s: real, t: real, x: real, y: real, n: real, d: real, m: real)
    requires CombinedLength(s, t, n, d, m) >= 0.0
    ensures CombinedLength(s, t, n + x * x, d + x * y, m + y * y) >= 0.0
  {
    ExpandSquare(s, t, x, y, n, d, m);
  }

  lemma {:induction false} ExpandSquare(s: real, t: real, x: real, y: real, n: real, d: real, m: real)
    ensures s * s * (n + x * x) + 2.0 * s * t * (d + x * y) + t * t * (m + y * y)
            == s * s * n + 2.0 * s * t * d + t * t * m + (s * x + t * y) * (s * x + t * y)
    ensures (s * x + t * y) * (s * x + t * y) >= 0.0
  {
    SquareIsNonNegative(s * x + t * y);
  }

  lemma {:induction false} SquareIsNonNegative(x: real)
    ensures x * x >= 0.0
  {
  }

  lemma {:induction false} ZeroSquare(y: real)
    ensures y * y == 0.0 ==> y == 0.0
  {
    if y * y == 0.0 {
      ZeroFactor(y, y);
    }
  }

  lemma {:induction false} ZeroNormZeroDot(a: Vector, b: Vector)
    requires |a| == |b| && NormSquared(b) == 0.0
    ensures Dot(a, b) == 0.0
  {
    if a != [] {
      NormIsNonNegative(b[..|b| - 1]);
      SquareIsNonNegative(b[|b| - 1]);
      ZeroSquare(b[|b| - 1]);
      ZeroNormZeroDot(a[..|a| - 1], b[..|b| - 1]);
    }
  }

  /** For every pair of vectors of equal length, the squared inner product is at most the product of the squared norms. */
  lemma {:induction false} CauchySchwarz(a: Vector, b: Vector)
    requires |a| == |b|
    ensures Dot(a, b) * Dot(a, b) <= NormSquared(a) * NormSquared(b)
  {
    hide Dot, NormSquared, CombinedLength;
    var d, n, m := Dot(a, b), NormSquared(a), NormSquared(b);
    NormIsNonNegative(b);
    if m == 0.0 {
      ZeroNormZeroDot(a, b);
    } else {
      QuadraticForm(a, b, m, -d);
      FromQuadratic(d, n, m);
    }
  }

  lemma {:induction false} FromQuadratic(d: real, n: real, m: real)
    requires CombinedLength(m, -d, n, d, m) >= 0.0 && m > 0.0
    ensures d * d <= n * m
  {
    assert m * m * n + 2.0 * m * (-d) * d + (-d) * (-d) * m == m * (n * m - d * d);
    NonNegativeFactor(m, n * m - d * d);
  }

  lemma {:induction false} NonNegativeFactor(m: real, z: real)
    requires m > 0.0 && m * z >= 0.0
    ensures z >= 0.0
  {
  }

  // ----- what the code's quotient is worth -----

  lemma {:induction false} QuotientInRange(dot: real, n: real, m: real, sqrt: real -> real)
    requires IsSquareRoot(sqrt) && dot * dot <= n * m
    ensures -1.0 <= Quotient(dot, n, m, sqrt) <= 1.0
  {
    if n > 0.0 && m > 0.0 {
      RootsArePositive(n, m, sqrt);
      var root := sqrt(n) * sqrt(m);
      BoundedBySquare(dot, root);
      DivideByPositive(dot, root);
    }
  }

  lemma {:induction false} BoundedBySquare(x: real, r: real)
    requires r > 0.0 && x * x <= r * r
    ensures -r <= x <= r
  {
    if x > r {
      LargerSquare(x, r);
    } else if -x > r {
      LargerSquare(-x, r);
    }
  }

  lemma {:induction false} LargerSquare(x: real, r: real)
    requires x > r > 0.0
    ensures x * x > r * r
  {
    assert x * x - r * r == (x - r) * (x + r);
  }

  lemma {:induction false} DivideByPositive(x: real, r: real)
    requires r > 0.0 && -r <= x <= r
    ensures -1.0 <= x / r <= 1.0
  {
  }

  /** The similarity of any two vectors of equal length lies in [-1, 1] and does not depend on their order. */
  lemma {:induction false} CosineInRange(a: Vector, b: Vector, sqrt: real -> real)
    requires |a| == |b| && IsSquareRoot(sqrt)
    ensures -1.0 <= Cosine(a, b, sqrt) <= 1.0
  {
    CauchySchwarz(a, b);
    QuotientInRange(Dot(a, b), NormSquared(a), NormSquared(b), sqrt);
  }

  /** What the quotient is: the inner product, divided by both lengths, whenever neither vector is zero. */
  lemma {:induction false} CosineTimesLengths(a: Vector, b: Vector, sqrt: real -> real)
    requires |a| == |b| && IsSquareRoot(sqrt)
    ensures Cosine(a, b, sqrt) * (sqrt(NormSquared(a)) * sqrt(NormSquared(b))) == Dot(a, b)
    ensures NormSquared(a) == 0.0 || NormSquared(b) == 0.0 ==> Cosine(a, b, sqrt) == 0.0
  {
    hide Dot;
    NormIsNonNegative(a);
    NormIsNonNegative(b);
    var n, m := NormSquared(a), NormSquared(b);
    if n > 0.0 && m > 0.0 {
      RootsArePositive(n, m, sqrt);
    } else if n == 0.0 {
      ZeroNormZeroDot(b, a);
      DotIsSymmetric(a, b);
    } else {
      ZeroNormZeroDot(a, b);
    }
  }

  /** The inner product is the sum of the products: one product for single components, and a sum over parts. */
  lemma {:induction false} DotOfConcat(a: Vector, b: Vector, c: Vector, d: Vector)
    requires |a| == |b| && |c| == |d|
    ensures Dot(a + c, b + d) == Dot(a, b) + Dot(c, d)
    ensures |c| == 1 ==> Dot(c, d) == c[0] * d[0]
  {
    if c == [] {
      assert a + c == a && b + d == b;
    } else {
      var n, m := |a + c| - 1, |c| - 1;
      DotOfConcat(a, b, c[..m], d[..m]);
      assert (a + c)[..n] == a + c[..m] && (b + d)[..n] == b + d[..m];
      assert (a + c)[n] == c[m] && (b + d)[n] == d[m];
    }
  }

  lemma {:induction false} DotIsSymmetric(a: Vector, b: Vector)
    requires |a| == |b|
    ensures Dot(a, b) == Dot(b, a)
  {
    if a != [] {
      DotIsSymmetric(a[..|a| - 1], b[..|b| - 1]);
    }
  }

  lemma {:induction false} CosineIsSymmetric(a: Vector, b: Vector, sqrt: real -> real)
    requires |a| == |b| && IsSquareRoot(sqrt)
    ensures Cosine(a, b, sqrt) == Cosine(b, a, sqrt)
  {
    DotIsSymmetric(a, b);
    if NormSquared(a) > 0.0 && NormSquared(b) > 0.0 {
      RootsArePositive(NormSquared(a), NormSquared(b), sqrt);
      assert sqrt(NormSquared(a)) * sqrt(NormSquared(b)) == sqrt(NormSquared(b)) * sqrt(NormSquared(a));
    }
  }

  lemma {:induction false} CosineWithItself(a: Vector, sqrt: real -> real)
    requires IsSquareRoot(sqrt) && NormSquared(a) != 0.0
    ensures Cosine(a, a, sqrt) == 1.0
  {
    var n := NormSquared(a);
    NormIsNonNegative(a);
    RootsArePositive(n, n, sqrt);
    assert sqrt(n) * sqrt(n) == n;
    assert Quotient(n, n, n, sqrt) == n / n;
    assert n / n == 1.0;
  }

  // ----- scaling -----

  lemma {:induction false} ScaleFront(k: real, a: Vector)
    requires a != []
    ensures Scale(k, a)[..|a| - 1] == Scale(k, a[..|a| - 1])
  {
    var front := a[..|a| - 1];
    forall i | 0 <= i < |front|
      ensures Scale(k, front)[i] == Scale(k, a)[i]
    {
      assert front[i] == a[i];
    }
    assert Scale(k, front) == Scale(k, a)[..|front|];
  }

  lemma {:induction false} DotOfScaled(k: real, a: Vector, b: Vector)
    requires |a| == |b|
    ensures Dot(Scale(k, a), b) == k * Dot(a, b)
  {
    if a != [] {
      DotOfScaled(k, a[..|a| - 1], b[..|b| - 1]);
      ScaleFront(k, a);
    }
  }

  lemma {:induction false} NormOfScaled(k: real, a: Vector)
    ensures NormSquared(Scale(k, a)) == k * (k * NormSquared(a))
  {
    DotOfScaled(k, a, Scale(k, a));
    DotIsSymmetric(a, Scale(k, a));
    DotOfScaled(k, a, a);
  }

  lemma {:induction false} RootIsUnique(x: real, r: real, sqrt: real -> real)
    requires IsSquareRoot(sqrt) && r >= 0.0 && r * r == x
    ensures sqrt(x) == r
  {
    SquareIsNonNegative(r);
    var s := sqrt(x);
    assert s * s == r * r && s >= 0.0;
    assert (s - r) * (s + r) == 0.0;
    ZeroFactor(s - r, s + r);
  }

  lemma {:induction false} ZeroFactor(x: real, y: real)
    requires x * y == 0.0
    ensures x == 0.0 || y == 0.0
  {
  }

  lemma {:induction false} ScaledRoot(k: real, n: real, w: real, sqrt: real -> real)
    requires IsSquareRoot(sqrt) && k > 0.0 && n >= 0.0 && w == k * (k * n)
    ensures (w > 0.0 <==> n > 0.0) && sqrt(w) == k * sqrt(n)
  {
    var s := sqrt(n);
    assert s * s == n;
    assert (k * s) * (k * s) == k * (k * (s * s));
    RootIsUnique(w, k * s, sqrt);
    var m := k * n;
    SignOfProduct(k, n, m);
    SignOfProduct(k, m, w);
  }

  /** Scaling a vector by a positive factor, as normalizing it does, leaves its similarity to any vector unchanged. */
  lemma {:induction false} CosineIgnoresScale(k: real, a: Vector, b: Vector, sqrt: real -> real)
    requires |a| == |b| && IsSquareRoot(sqrt) && k > 0.0
    ensures Cosine(Scale(k, a), b, sqrt) == Cosine(a, b, sqrt)
  {
    hide Dot, NormSquared, Quotient;
    DotOfScaled(k, a, b);
    NormOfScaled(k, a);
    NormIsNonNegative(a);
    ScaledRoot(k, NormSquared(a), NormSquared(Scale(k, a)), sqrt);
    QuotientOfScaled(k, Dot(a, b), Dot(Scale(k, a), b), NormSquared(a), NormSquared(Scale(k, a)), NormSquared(b), sqrt);
  }

  lemma {:induction false} QuotientOfScaled(
      k: real, d: real, e: real, n: real, w: real, m: real, sqrt: real -> real)
    requires IsSquareRoot(sqrt) && k > 0.0 && e == k * d
    requires (w > 0.0 <==> n > 0.0) && sqrt(w) == k * sqrt(n)
    ensures Quotient(e, w, m, sqrt) == Quotient(d, n, m, sqrt)
  {
    if n > 0.0 && m > 0.0 {
      RootsArePositive(n, m, sqrt);
      RootsArePositive(w, m, sqrt);
      CancelFactor(k, d, sqrt(n), sqrt(m));
    }
  }

  lemma {:induction false} SignOfProduct(x: real, y: real, z: real)
    requires x > 0.0 && y >= 0.0 && z == x * y
    ensures z >= 0.0 && (z > 0.0 <==> y > 0.0)
  {
  }

  lemma {:induction false} CancelFactor(k: real, d: real, u: real, v: real)
    requires k > 0.0 && u > 0.0 && v > 0.0
    ensures k * u * v > 0.0 && u * v > 0.0
    ensures (k * d) / (k * u * v) == d / (u * v)
  {
    var q := d / (u * v);
    assert u * v > 0.0;
    assert k * u * v == k * (u * v);
    assert q * (u * v) == d;
    assert (k * u * v) * q == k * d;
  }
}
