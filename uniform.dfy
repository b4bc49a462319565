/**
 * The uniform branch of `generate_pdf_cdf` (app.py:17-20): density and
 * cumulative distribution of U(a, b) with a = 0 and b = 5, as exact
 * real-valued functions of x instead of values on a float sample grid.
 */
module UniformDist {
  import D = Distributions

  const A: real := D.UniformA as real
  const B: real := D.UniformB as real

  /** The density: 1/(b - a) on [a, b], 0 elsewhere. */
  function Pdf(x: real): (r: real)
    ensures r > 0.0 <==> A <= x <= B
    ensures r > 0.0 ==> r * (B - A) == 1.0
    ensures r >= 0.0
  {
    if A <= x && x <= B then 1.0 / (B - A) else 0.0
  }

  /** The CDF: 0 below a, 1 above b, the linear ramp (x - a)/(b - a) in between. */
  function Cdf(x: real): (r: real)
    ensures 0.0 <= r <= 1.0
    ensures x <= A ==> r == 0.0
    ensures x >= B ==> r == 1.0
  {
    if x < A then 0.0 else if x > B then 1.0 else (x - A) / (B - A)
  }

  /** The CDF starts at 0 at a and reaches 1 at b. */
  lemma CdfEndpoints()
    ensures Cdf(A) == 0.0 && Cdf(B) == 1.0
  {
  }

  /** The CDF never decreases. */
  lemma CdfMonotone(x: real, y: real)
    requires x <= y
    ensures Cdf(x) <= Cdf(y)
  {
  }

  /** Length of the part of [x, y] that lies inside the support [a, b]. */
  function SupportLength(x: real, y: real): real {
    var lo := if x < A then A else x;
    var hi := if y > B then B else y;
    if lo <= hi then hi - lo else 0.0
  }

  /**
   * The CDF is the integral of the density: between any x <= y it grows by
   * the density's value 1/(b - a) times the length of [x, y] inside [a, b].
   */
  lemma CdfIntegratesPdf(x: real, y: real)
    requires x <= y
    ensures Cdf(y) - Cdf(x) == SupportLength(x, y) * Pdf(A)
  {
  }

  /** Strictly inside the support the CDF strictly increases. */
  lemma CdfStrictOnSupport(x: real, y: real)
    requires A <= x < y <= B
    ensures Cdf(x) < Cdf(y)
  {
  }
}
