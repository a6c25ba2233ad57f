/**
 * The numpy operations the vector store uses (`a - b`, `np.mean(vs, axis=0)`,
 * `np.dot`), over exact reals instead of float64.
 */
module VectorMath {
  import opened Wrappers

  /** An embedding vector. */
  type Vector = seq<real>

  function Dot(a: Vector, b: Vector): real
    requires |a| == |b|
  {
    if a == [] then 0.0 else a[0] * b[0] + Dot(a[1..], b[1..])
  }

  /** The squared Euclidean norm. */
  function NormSq(a: Vector): real
  {
    Dot(a, a)
  }

  /** `a - b`, element-wise. */
  function Sub(a: Vector, b: Vector): (r: Vector)
    requires |a| == |b|
    ensures |r| == |a|
  {
    seq(|a|, i requires 0 <= i < |a| => a[i] - b[i])
  }

  predicate AllOfLength(vs: seq<Vector>, dim: nat)
  {
    forall i :: 0 <= i < |vs| ==> |vs[i]| == dim
  }

  /** The sum of the j-th components of vs. */
  function ComponentSum(vs: seq<Vector>, j: nat): real
    requires forall i :: 0 <= i < |vs| ==> j < |vs[i]|
  {
    if vs == [] then 0.0 else ComponentSum(vs[..|vs| - 1], j) + vs[|vs| - 1][j]
  }

  /** The component-wise mean of non-empty vs, all of length dim. */
  function Mean(vs: seq<Vector>, dim: nat): (m: Vector)
    requires |vs| > 0 && AllOfLength(vs, dim)
    ensures |m| == dim
  {
    seq(dim, j requires 0 <= j < dim => ComponentSum(vs, j) / (|vs| as real))
  }

  const INHOMOGENEOUS := Exception(ValueError, "setting an array element with a sequence")

  /**
   * `np.mean(vs, axis=0)` on a non-empty list: numpy refuses vectors of
   * different lengths (an inhomogeneous array) with a ValueError.
   */
  function NpMean(vs: seq<Vector>): (r: Result<Vector>)
    requires |vs| > 0
    ensures r.Ok? <==> AllOfLength(vs, |vs[0]|)
    ensures r.Raise? ==> r.exception.kind == ValueError
    ensures r.Ok? ==> |r.value| == |vs[0]|
  {
    if AllOfLength(vs, |vs[0]|) then Ok(Mean(vs, |vs[0]|)) else Raise(INHOMOGENEOUS)
  }

  /** On vectors of one length numpy's mean is the component-wise mean. */
  lemma NpMeanOfFit(vs: seq<Vector>, dim: nat)
    requires |vs| > 0 && AllOfLength(vs, dim)
    ensures NpMean(vs) == Ok(Mean(vs, dim))
  {
    assert |vs[0]| == dim;
  }

  /** Component sums split over a concatenation. */
  lemma {:induction false} ComponentSumAppend(a: seq<Vector>, b: seq<Vector>, j: nat)
    requires forall i :: 0 <= i < |a| ==> j < |a[i]|
    requires forall i :: 0 <= i < |b| ==> j < |b[i]|
    ensures forall i :: 0 <= i < |a + b| ==> j < |(a + b)[i]|
    ensures ComponentSum(a + b, j) == ComponentSum(a, j) + ComponentSum(b, j)
  {
    if b != [] {
      var n := |b| - 1;
      ComponentSumAppend(a, b[..n], j);
      assert (a + b)[..|a + b| - 1] == a + b[..n];
    } else {
      assert a + b == a;
    }
  }

  /** Every vector of vs minus g, as `[v - g for v in vs]`. */
  function Centered(vs: seq<Vector>, g: Vector): (cs: seq<Vector>)
    requires AllOfLength(vs, |g|)
    ensures |cs| == |vs| && AllOfLength(cs, |g|)
  {
    seq(|vs|, i requires 0 <= i < |vs| => Sub(vs[i], g))
  }

  /** Subtracting g from each of n vectors subtracts n times g from their sum. */
  lemma {:induction false} ComponentSumCentered(vs: seq<Vector>, g: Vector, j: nat)
    requires AllOfLength(vs, |g|) && j < |g|
    ensures ComponentSum(Centered(vs, g), j) == ComponentSum(vs, j) - (|vs| as real) * g[j]
  {
    if vs != [] {
      var n := |vs| - 1;
      ComponentSumCentered(vs[..n], g, j);
      assert Centered(vs, g)[..n] == Centered(vs[..n], g);
    }
  }

  lemma DivTimes(x: real, n: real)
    requires n > 0.0
    ensures (x / n) * n == x
  {
  }

  /** The mean of n vectors, times n, is their sum. */
  lemma MeanTimesCount(vs: seq<Vector>, dim: nat, j: nat)
    requires |vs| > 0 && AllOfLength(vs, dim) && j < dim
    ensures Mean(vs, dim)[j] * (|vs| as real) == ComponentSum(vs, j)
  {
    assert Mean(vs, dim)[j] == ComponentSum(vs, j) / (|vs| as real);
    DivTimes(ComponentSum(vs, j), |vs| as real);
  }
}
