/**
 * `cosine_similarity` and the `max(scores, key=scores.get)` selection of the
 * classifier, shared by vectorstore.py and vectorstore_client.py.
 */
module Similarity {
  import opened Wrappers
  import opened VectorMath

  /** A float64 similarity score: a number, or NaN from 0.0 / 0.0. */
  datatype Score = Num(value: real) | NaN

  /**
   * `np.linalg.norm` is `sqrt(NormSq(v))`; the square root is outside the
   * exact reals, so it is a parameter that is assumed to be the true root.
   */
  ghost predicate IsSqrt(sqrt: real -> real)
  {
    forall x :: 0.0 <= x ==> 0.0 <= sqrt(x) && sqrt(x) * sqrt(x) == x
  }

  const NOT_ALIGNED := Exception(ValueError, "shapes not aligned")

  /**
   * `np.dot(a, b) / (np.linalg.norm(a) * np.linalg.norm(b))`. Vectors of
   * different lengths make `np.dot` raise; a zero vector gives 0.0 / 0.0.
   */
  function CosineSimilarity(a: Vector, b: Vector, sqrt: real -> real): (r: Result<Score>)
    requires IsSqrt(sqrt)
    ensures r.Raise? <==> |a| != |b|
    ensures r.Raise? ==> r.exception == NOT_ALIGNED
  {
    if |a| != |b| then Raise(NOT_ALIGNED)
    else
      var p := sqrt(NormSq(a)) * sqrt(NormSq(b));
      if p == 0.0 then Ok(NaN) else Ok(Num(Dot(a, b) / p))
  }

  lemma {:induction false} DotSymmetric(a: Vector, b: Vector)
    requires |a| == |b|
    ensures Dot(a, b) == Dot(b, a)
  {
    if a != [] {
      DotSymmetric(a[1..], b[1..]);
    }
  }

  /** The squared length of p * a - q * b. */
  function Residual(a: Vector, b: Vector, p: real, q: real): real
    requires |a| == |b|
  {
    if a == [] then 0.0 else (p * a[0] - q * b[0]) * (p * a[0] - q * b[0]) + Residual(a[1..], b[1..], p, q)
  }

  lemma SquareNonNegative(x: real)
    ensures x * x >= 0.0
  {
  }

  lemma {:induction false} ResidualNonNegative(a: Vector, b: Vector, p: real, q: real)
    requires |a| == |b|
    ensures Residual(a, b, p, q) >= 0.0
  {
    if a != [] {
      ResidualNonNegative(a[1..], b[1..], p, q);
      SquareNonNegative(p * a[0] - q * b[0]);
    }
  }

  lemma {:induction false} ResidualExpansion(a: Vector, b: Vector, p: real, q: real)
    requires |a| == |b|
    ensures Residual(a, b, p, q) == p * p * NormSq(a) - 2.0 * p * q * Dot(a, b) + q * q * NormSq(b)
  {
    if a != [] {
      ResidualExpansion(a[1..], b[1..], p, q);
      var x, y := a[0], b[0];
      assert (p * x - q * y) * (p * x - q * y) == p * p * (x * x) - 2.0 * p * q * (x * y) + q * q * (y * y);
    }
  }

  lemma NormSqNonNegative(a: Vector)
    ensures NormSq(a) >= 0.0
  {
    ResidualExpansion(a, a, 1.0, 0.0);
    ResidualNonNegative(a, a, 1.0, 0.0);
  }

  /** The residual of B * a - D * b, factored. */
  lemma Factor(A: real, B: real, D: real)
    ensures B * B * A - 2.0 * B * D * D + D * D * B == B * (A * B - D * D)
  {
  }

  /** The case B == 0 of Cauchy-Schwarz: a non-zero D would make some residual negative. */
  lemma DiscriminantZero(A: real, D: real, t: real)
    requires D != 0.0 && t == (A + 1.0) / (2.0 * D)
    ensures A - 2.0 * t * D < 0.0
  {
    assert t * (2.0 * D) == A + 1.0;
  }

  /** The expansion with the norms and the dot product as plain numbers. */
  lemma ResidualExpanded(a: Vector, b: Vector, A: real, B: real, D: real, p: real, q: real)
    requires |a| == |b| && A == NormSq(a) && B == NormSq(b) && D == Dot(a, b)
    ensures Residual(a, b, p, q) == p * p * A - 2.0 * p * q * D + q * q * B
  {
    ResidualExpansion(a, b, p, q);
  }

  /**
   * The Cauchy-Schwarz inequality, squared so that no root is needed, for
   * A and B the squared norms of a and b and D their dot product.
   */
  lemma CauchySchwarz(a: Vector, b: Vector, A: real, B: real, D: real)
    requires |a| == |b| && A == NormSq(a) && B == NormSq(b) && D == Dot(a, b)
    ensures D * D <= A * B
  {
    NormSqNonNegative(b);
    if B > 0.0 {
      ResidualNonNegative(a, b, B, D);
      ResidualExpanded(a, b, A, B, D, B, D);
      DiscriminantPositive(A, B, D, Residual(a, b, B, D));
    } else {
      CauchySchwarzZero(a, b, A, D);
      ZeroProduct(A, B, D);
    }
  }

  /** When b is zero, so is its dot product with any a. */
  lemma CauchySchwarzZero(a: Vector, b: Vector, A: real, D: real)
    requires |a| == |b| && NormSq(b) == 0.0 && A == NormSq(a) && D == Dot(a, b)
    ensures D == 0.0
  {
    if D != 0.0 {
      var t := (A + 1.0) / (2.0 * D);
      ResidualNonNegative(a, b, 1.0, t);
      ResidualExpanded(a, b, A, 0.0, D, 1.0, t);
      DiscriminantZero(A, D, t);
      assert false;
    }
  }

  lemma ZeroProduct(A: real, B: real, D: real)
    requires D == 0.0 && B == 0.0
    ensures D * D <= A * B
  {
  }

  /** The case B > 0 of Cauchy-Schwarz, as a fact about reals: r = B * (A * B - D * D) is not negative. */
  lemma DiscriminantPositive(A: real, B: real, D: real, r: real)
    requires B > 0.0 && r >= 0.0 && r == B * B * A - 2.0 * B * D * D + D * D * B
    ensures D * D <= A * B
  {
    Factor(A, B, D);
    NonNegativeFactor(A * B - D * D, B, r);
  }

  lemma MulPositive(a: real, b: real, p: real)
    requires a > 0.0 && b > 0.0 && p == a * b
    ensures p > 0.0
  {
  }

  lemma NonNegativeFactor(a: real, b: real, p: real)
    requires b > 0.0 && p == a * b && p >= 0.0
    ensures a >= 0.0
  {
    assert a == p / b;
  }

  /** u <= v whenever u * u <= v * v and v is not negative. */
  lemma SquareUpperBound(u: real, v: real, uu: real, vv: real)
    requires v >= 0.0 && uu == u * u && vv == v * v && uu <= vv
    ensures u <= v
  {
    if u + v > 0.0 {
      var g := (v - u) * (v + u);
      assert g == vv - uu;
      NonNegativeFactor(v - u, v + u, g);
    }
  }

  /** u lies in [-v, v] whenever u * u <= v * v and v is not negative. */
  lemma SquareBounds(u: real, v: real, uu: real, vv: real)
    requires v >= 0.0 && uu == u * u && vv == v * v && uu <= vv
    ensures -v <= u <= v
  {
    SquareUpperBound(u, v, uu, vv);
    assert (-u) * (-u) == uu;
    SquareUpperBound(-u, v, uu, vv);
  }

  lemma SqrtOfSquare(sqrt: real -> real, x: real)
    requires IsSqrt(sqrt) && x >= 0.0
    ensures sqrt(x) >= 0.0 && sqrt(x) * sqrt(x) == x
    ensures x > 0.0 ==> sqrt(x) > 0.0
    ensures x == 0.0 ==> sqrt(x) == 0.0
  {
    var r := sqrt(x);
    assert r >= 0.0 && r * r == x;
    if x == 0.0 && r > 0.0 {
      MulPositive(r, r, x);
    }
  }

  lemma DivideBySelf(x: real, y: real)
    requires y != 0.0 && x == y
    ensures x / y == 1.0
  {
  }

  /** From -p <= d <= p and p > 0, the quotient d / p lies in [-1, 1]. */
  lemma QuotientBounds(d: real, p: real)
    requires p > 0.0 && -p <= d <= p
    ensures -1.0 <= d / p <= 1.0
  {
    var c := d / p;
    assert c * p == d;
  }

  /** Cosine similarity does not depend on the order of its arguments. */
  lemma CosineSymmetric(a: Vector, b: Vector, sqrt: real -> real)
    requires IsSqrt(sqrt)
    ensures CosineSimilarity(a, b, sqrt) == CosineSimilarity(b, a, sqrt)
  {
    if |a| == |b| {
      DotSymmetric(a, b);
    }
  }

  /** For non-zero vectors of one length the score is a number in [-1, 1]. */
  lemma CosineBounds(a: Vector, b: Vector, sqrt: real -> real)
    requires IsSqrt(sqrt) && |a| == |b| && NormSq(a) > 0.0 && NormSq(b) > 0.0
    ensures CosineSimilarity(a, b, sqrt).Ok? && CosineSimilarity(a, b, sqrt).value.Num?
    ensures -1.0 <= CosineSimilarity(a, b, sqrt).value.value <= 1.0
  {
    var A, B, D := NormSq(a), NormSq(b), Dot(a, b);
    CauchySchwarz(a, b, A, B, D);
    var na, nb := sqrt(A), sqrt(B);
    SqrtOfSquare(sqrt, A);
    SqrtOfSquare(sqrt, B);
    RatioBounds(A, B, D, na, nb);
  }

  /** The real-number core of CosineBounds: D * D <= A * B bounds D / (sqrt(A) * sqrt(B)). */
  lemma RatioBounds(A: real, B: real, D: real, na: real, nb: real)
    requires na > 0.0 && nb > 0.0 && na * na == A && nb * nb == B && D * D <= A * B
    ensures na * nb > 0.0 && -1.0 <= D / (na * nb) <= 1.0
  {
    var p := na * nb;
    MulPositive(na, nb, p);
    var dd, pp := D * D, p * p;
    assert pp == (na * na) * (nb * nb);
    SquareBounds(D, p, dd, pp);
    QuotientBounds(D, p);
  }

  /** A non-zero vector is fully similar to itself. */
  lemma CosineSelf(v: Vector, sqrt: real -> real)
    requires IsSqrt(sqrt) && NormSq(v) > 0.0
    ensures CosineSimilarity(v, v, sqrt) == Ok(Num(1.0))
  {
    SqrtOfSquare(sqrt, NormSq(v));
    var n := sqrt(NormSq(v));
    var p := n * n;
    assert p == Dot(v, v) && p > 0.0;
    DivideBySelf(Dot(v, v), p);
    var c := CosineSimilarity(v, v, sqrt);
    assert c.Ok? && c.value.Num?;
    assert c.value.value == Dot(v, v) / p;
  }

  /** A zero vector on either side gives NaN rather than a number. */
  lemma CosineZeroVector(a: Vector, b: Vector, sqrt: real -> real)
    requires IsSqrt(sqrt) && |a| == |b| && (NormSq(a) == 0.0 || NormSq(b) == 0.0)
    ensures CosineSimilarity(a, b, sqrt) == Ok(NaN)
  {
    NormSqNonNegative(a);
    NormSqNonNegative(b);
    SqrtOfSquare(sqrt, NormSq(a));
    SqrtOfSquare(sqrt, NormSq(b));
  }

  /** Python's `x > y` on floats, false whenever either side is NaN. */
  predicate Greater(x: Score, y: Score)
  {
    x.Num? && y.Num? && x.value > y.value
  }

  /**
   * The position `max` returns for a non-empty list of keys scored s: it
   * starts with the first and moves to each later item only when that one
   * is strictly greater.
   */
  function ArgMax(s: seq<Score>): (i: nat)
    requires |s| > 0
    ensures i < |s|
  {
    if |s| == 1 then 0
    else
      var m := ArgMax(s[..|s| - 1]);
      if Greater(s[|s| - 1], s[m]) then |s| - 1 else m
  }

  /**
   * Without NaN scores, `max` returns a position of greatest score, and the
   * first one when several tie.
   */
  lemma {:induction false} ArgMaxIsFirstMaximum(s: seq<Score>)
    requires |s| > 0 && forall k :: 0 <= k < |s| ==> s[k].Num?
    ensures forall k :: 0 <= k < |s| ==> s[k].value <= s[ArgMax(s)].value
    ensures forall k :: 0 <= k < ArgMax(s) ==> s[k].value < s[ArgMax(s)].value
  {
    if |s| > 1 {
      var n := |s| - 1;
      ArgMaxIsFirstMaximum(s[..n]);
      assert forall k :: 0 <= k < n ==> s[..n][k] == s[k];
    }
  }

  /** Once `max` sits on a NaN it stays there: no later score compares greater. */
  lemma {:induction false} ArgMaxStuckOnNaN(s: seq<Score>)
    requires |s| > 0 && s[0] == NaN
    ensures ArgMax(s) == 0
  {
    if |s| > 1 {
      ArgMaxStuckOnNaN(s[..|s| - 1]);
    }
  }
}
