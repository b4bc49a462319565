/**
 * The name dispatch of `generate_pdf_cdf` (app.py): which names are drawn,
 * over which sample domain, and in which of the two plotting styles.
 * The chart itself (matplotlib figure, PNG bytes, base64 text) is represented
 * by a `Chart` descriptor that says what was plotted.
 */
module Distributions {
  import opened Wrappers

  /** The six distributions the renderer knows. */
  datatype Dist = Uniform | Rayleigh | Binomial | Poisson | Laplacian | Gaussian

  /** The canonical lowercase name of each distribution, as the dispatch compares it. */
  function Name(d: Dist): string {
    match d
    case Uniform => "uniform"
    case Rayleigh => "rayleigh"
    case Binomial => "binomial"
    case Poisson => "poisson"
    case Laplacian => "laplacian"
    case Gaussian => "gaussian"
  }

  /** Different distributions have different names. */
  lemma NameInjective(d: Dist, e: Dist)
    ensures Name(d) == Name(e) ==> d == e
  {
  }

  /** A string is a canonical name when it is the name of some distribution. */
  ghost predicate IsCanonical(name: string) {
    exists d :: Name(d) == name
  }

  /**
   * The `if/elif/.../else` chain: the distribution whose branch `name`
   * enters, or None when it falls through to the `else` that returns None.
   */
  function Parse(name: string): (r: Option<Dist>)
    ensures r.Some? ==> Name(r.value) == name
    ensures r.None? <==> !IsCanonical(name)
  {
    if name == "uniform" then Some(Uniform)
    else if name == "rayleigh" then Some(Rayleigh)
    else if name == "binomial" then Some(Binomial)
    else if name == "poisson" then Some(Poisson)
    else if name == "laplacian" then Some(Laplacian)
    else if name == "gaussian" then Some(Gaussian)
    else None
  }

  /** Every distribution's name reaches that distribution's branch. */
  lemma ParseName(d: Dist)
    ensures Parse(Name(d)) == Some(d)
  {
  }

  /** Binomial and Poisson are the discrete distributions; the other four are continuous. */
  predicate IsDiscrete(d: Dist) {
    d == Binomial || d == Poisson
  }

  /** `np.arange(lo, hi)` over the integers: lo, lo + 1, ..., hi - 1. */
  function IntRange(lo: int, hi: int): (r: seq<int>)
    ensures |r| == if lo <= hi then hi - lo else 0
    ensures forall i :: 0 <= i < |r| ==> r[i] == lo + i
    decreases hi - lo
  {
    if hi <= lo then [] else [lo] + IntRange(lo + 1, hi)
  }

  /**
   * The sample domain of a chart: `np.linspace(start, stop, count)` for the
   * continuous distributions (the float grid itself is not modelled, only its
   * integer end points and size), or the integer points of `np.arange`.
   */
  datatype Domain = Linspace(start: int, stop: int, count: nat) | Points(xs: seq<int>)

  /** Binomial parameter n (p = 0.5 belongs to the foreign pmf/cdf). */
  const BinomialN: int := 20
  /** Poisson domain end, exclusive. */
  const PoissonStop: int := 20
  /** Uniform parameters a and b. */
  const UniformA: int := 0
  const UniformB: int := 5
  /** Number of samples in every continuous grid. */
  const GridSize: nat := 400

  /** The domain each branch builds before it evaluates pdf and cdf. */
  function DomainOf(d: Dist): Domain {
    match d
    case Uniform => Linspace(UniformA - 2, UniformB + 2, GridSize)
    case Rayleigh => Linspace(0, 10, GridSize)
    case Binomial => Points(IntRange(0, BinomialN + 1))
    case Poisson => Points(IntRange(0, PoissonStop))
    case Laplacian => Linspace(-10, 10, GridSize)
    case Gaussian => Linspace(-10, 10, GridSize)
  }

  /**
   * The discrete distributions are sampled at integer points, the continuous
   * ones on a 400-point grid; binomial at 0..20 (21 points), Poisson at 0..19
   * (20 points), and the uniform grid reaches 2 beyond both ends of [a, b].
   */
  lemma DomainShapes(d: Dist)
    ensures DomainOf(d).Points? <==> IsDiscrete(d)
    ensures DomainOf(d).Linspace? ==> DomainOf(d).count == 400 && DomainOf(d).start < DomainOf(d).stop
    ensures d == Binomial ==> |DomainOf(d).xs| == 21 && forall i :: 0 <= i < 21 ==> DomainOf(d).xs[i] == i
    ensures d == Poisson ==> |DomainOf(d).xs| == 20 && forall i :: 0 <= i < 20 ==> DomainOf(d).xs[i] == i
    ensures d == Uniform ==> DomainOf(d).start == UniformA - 2 && DomainOf(d).stop == UniformB + 2
  {
  }

  /** The names tested at app.py:60 before drawing a line plot with a filled area. */
  const LineNames: seq<string> := ["uniform", "rayleigh", "laplacian", "gaussian"]

  /**
   * What a call draws: the distribution and its domain, whether its branch drew
   * a bar chart with a step CDF, and whether the test at app.py:60 drew a line
   * PDF with a fill and a line CDF. It stands for the returned PNG, which is
   * never empty.
   */
  datatype Chart = Chart(dist: Dist, domain: Domain, drawsBars: bool, drawsLines: bool)

  /** `generate_pdf_cdf(name)`: a chart for an accepted name, None otherwise. */
  function Render(name: string): (r: Option<Chart>)
    ensures r.Some? <==> IsCanonical(name)
    ensures r.Some? ==> Name(r.value.dist) == name && r.value.domain == DomainOf(r.value.dist)
  {
    match Parse(name)
    case None => None
    case Some(d) => Some(Chart(d, DomainOf(d), IsDiscrete(d), name in LineNames))
  }

  /**
   * The two plotting styles split the six names without overlap: every chart
   * draws exactly one of them, bars for the discrete distributions and lines
   * for the continuous ones.
   */
  lemma StyleSplit(d: Dist)
    ensures Render(Name(d)).Some?
    ensures Render(Name(d)).value.drawsBars <==> IsDiscrete(d)
    ensures Render(Name(d)).value.drawsLines <==> !IsDiscrete(d)
  {
    ParseName(d);
  }
}
