/** Boundary (pairwise) and terminal (unary) weights of the two energy models, and the texture penalty. */
module Weights {
  import opened Imaging
  import opened Histograms

  /** A solver capacity: a finite value or positive infinity. */
  datatype Cap = Finite(value: real) | Inf

  /** The energy model chosen per call. */
  datatype Mode = SimpleMode | ProbabilisticMode

  function Abs(x: real): real { if x < 0.0 then -x else x }

  /** Largest per-channel absolute difference between two pixels. */
  function MaxAbsDiff(p: Pixel, q: Pixel): (r: real)
    ensures Abs(p.r - q.r) <= r && Abs(p.g - q.g) <= r && Abs(p.b - q.b) <= r
    ensures r == Abs(p.r - q.r) || r == Abs(p.g - q.g) || r == Abs(p.b - q.b)
    ensures r == 0.0 <==> p == q
  {
    Max(Max(Abs(p.r - q.r), Abs(p.g - q.g)), Abs(p.b - q.b))
  }

  /** Intensity boundary weight: the global range D less the largest channel contrast. */
  function Simple(D: real, p: Pixel, q: Pixel): (r: real)
    ensures r <= D
    ensures r == D <==> p == q
  {
    D - MaxAbsDiff(p, q)
  }

  lemma SimpleSymmetric(D: real, p: Pixel, q: Pixel)
    ensures Simple(D, p, q) == Simple(D, q, p)
  {
  }

  /** For pixels whose channels lie in [lo, hi] and D = hi - lo, the intensity weight lies in [0, D]. */
  lemma SimpleWithinRange(D: real, lo: real, hi: real, p: Pixel, q: Pixel)
    requires D == hi - lo
    requires lo <= PixelMin(p) && PixelMax(p) <= hi
    requires lo <= PixelMin(q) && PixelMax(q) <= hi
    ensures 0.0 <= Simple(D, p, q) <= D
  {
  }

  /** Intensity terminal weight of p against a class of mean intensity `mean`; M is the global maximum. */
  function TermSimple(M: real, mean: real, p: Pixel): (r: real)
    ensures r <= M
    ensures r == M <==> p == Pixel(mean, mean, mean)
  {
    M - MaxAbsDiff(Pixel(mean, mean, mean), p)
  }

  /** A mean and a pixel inside [lo, M] give a terminal weight of at least lo. */
  lemma TermSimpleAtLeastMin(M: real, lo: real, mean: real, p: Pixel)
    requires lo <= mean <= M
    requires lo <= PixelMin(p) && PixelMax(p) <= M
    ensures lo <= TermSimple(M, mean, p)
  {
  }

  /** The facts of the exponential the probabilistic model relies on. */
  ghost predicate ExpFacts(exp: real -> real)
  {
    (forall x :: x <= 0.0 ==> 0.0 < exp(x) <= 1.0) &&
    (forall x, y :: x <= y ==> exp(x) <= exp(y))
  }

  /** Gaussian boundary affinity with sigma = 1: exp(-m^2 / 2) for the largest channel contrast m. */
  function Probabilistic(exp: real -> real, p: Pixel, q: Pixel): real
  {
    Gaussian(exp, MaxAbsDiff(p, q), 1.0)
  }

  /** exp(-m^2 / (2 sigma^2)). */
  function Gaussian(exp: real -> real, m: real, sigma: real): real
    requires sigma != 0.0
  {
    exp(-(m * m) / (2.0 * sigma * sigma))
  }

  lemma ProbabilisticSymmetric(exp: real -> real, p: Pixel, q: Pixel)
    ensures Probabilistic(exp, p, q) == Probabilistic(exp, q, p)
  {
    var m, m' := MaxAbsDiff(p, q), MaxAbsDiff(q, p);
    assert m == m';
  }

  lemma SquareMonotone(a: real, b: real)
    requires 0.0 <= a <= b
    ensures 0.0 <= a * a <= b * b
  {
    assert a * a <= a * b;
    assert a * b <= b * b;
  }

  /** The Gaussian affinity with sigma = 1 is in (0, 1] and does not grow with the contrast m. */
  lemma GaussianBounds(exp: real -> real, m: real, m': real)
    requires ExpFacts(exp)
    requires 0.0 <= m <= m'
    ensures 0.0 < Gaussian(exp, m, 1.0) <= 1.0
    ensures Gaussian(exp, m', 1.0) <= Gaussian(exp, m, 1.0)
  {
    SquareMonotone(m, m');
    var x, x' := -(m * m) / (2.0 * 1.0 * 1.0), -(m' * m') / (2.0 * 1.0 * 1.0);
    assert x' <= x <= 0.0;
    assert 0.0 < exp(x) <= 1.0;
    assert exp(x') <= exp(x);
  }

  /** The probabilistic boundary weight is in (0, 1] and does not grow with contrast. */
  lemma ProbabilisticBounds(exp: real -> real, p: Pixel, q: Pixel, p': Pixel, q': Pixel)
    requires ExpFacts(exp)
    requires MaxAbsDiff(p, q) <= MaxAbsDiff(p', q')
    ensures 0.0 < Probabilistic(exp, p, q) <= 1.0
    ensures Probabilistic(exp, p', q') <= Probabilistic(exp, p, q)
  {
    GaussianBounds(exp, MaxAbsDiff(p, q), MaxAbsDiff(p', q'));
  }

  /** The histogram bin a unit-range channel value falls in: the value times 255, truncated. */
  function Bin(v: real): (k: int)
    requires 0.0 <= v <= 1.0
    ensures 0 <= k < 256
    ensures k as real <= v * 255.0 < k as real + 1.0
  {
    (v * 255.0).Floor
  }

  /** Sum, over the first n channels of p, of the bin that channel falls in. */
  function BinSum(ch: seq<seq<real>>, p: Pixel, n: nat): (pr: real)
    requires n <= 3 && ClassShape(ch) && ClassNonNegative(ch) && InUnitRange(p)
    ensures pr >= 0.0
    ensures pr == 0.0 <==> forall d :: 0 <= d < n ==> ch[d][Bin(p.Channel(d))] == 0.0
  {
    if n == 0 then 0.0 else BinSum(ch, p, n - 1) + ch[n - 1][Bin(p.Channel(n - 1))]
  }

  /** Histogram terminal weight of p. With s it reads the background histogram hist[0], without s the
      object histogram hist[1]. It is infinite exactly when p's three bins are all empty, and otherwise
      the negative logarithm of their sum, clamped at zero. */
  function TermProbabilistic(hist: Hist, p: Pixel, s: bool, log: real -> real): (r: Cap)
    requires HistShape(hist) && ClassNonNegative(hist[0]) && ClassNonNegative(hist[1]) && InUnitRange(p)
    ensures r == Inf <==>
      forall d :: 0 <= d < 3 ==> (if s then hist[0] else hist[1])[d][Bin(p.Channel(d))] == 0.0
    ensures r.Finite? ==> r.value >= 0.0
  {
    var ch := if s then hist[0] else hist[1];
    var pr := BinSum(ch, p, 3);
    if pr == 0.0 then Inf else Finite(Max(-log(pr), 0.0))
  }

  /** Everything a weight reads for one call: the model, the global range D and maximum M, the class
      means O (object) and B (background), the histogram snapshot, and the exponential and logarithm. */
  datatype Energy = Energy(mode: Mode, D: real, M: real, O: real, B: real, hist: Hist,
                           exp: real -> real, log: real -> real)

  predicate ValidEnergy(e: Energy)
  {
    e.mode == ProbabilisticMode ==>
      HistShape(e.hist) && ClassNonNegative(e.hist[0]) && ClassNonNegative(e.hist[1])
  }

  /** The boundary weight of the selected model. */
  function Pairwise(e: Energy, p: Pixel, q: Pixel): real
  {
    match e.mode
    case SimpleMode => Simple(e.D, p, q)
    case ProbabilisticMode => Probabilistic(e.exp, p, q)
  }

  lemma PairwiseSymmetric(e: Energy, p: Pixel, q: Pixel)
    ensures Pairwise(e, p, q) == Pairwise(e, q, p)
  {
    SimpleSymmetric(e.D, p, q);
    ProbabilisticSymmetric(e.exp, p, q);
  }

  /** The terminal weight of the selected model; s selects the source-side weight. The intensity model
      compares with the object mean O for s and with the background mean B otherwise. */
  function Terminal(e: Energy, p: Pixel, s: bool): (r: Cap)
    requires ValidEnergy(e) && InUnitRange(p)
    ensures e.mode == SimpleMode ==> r.Finite? && r.value <= e.M
    ensures e.mode == ProbabilisticMode && r.Finite? ==> r.value >= 0.0
  {
    match e.mode
    case SimpleMode => Finite(TermSimple(e.M, if s then e.O else e.B, p))
    case ProbabilisticMode => TermProbabilistic(e.hist, p, s, e.log)
  }

  /** v clamped into [lo, hi]. */
  function Clip(v: real, lo: real, hi: real): real
    requires lo <= hi
  {
    if v < lo then lo else if v > hi then hi else v
  }

  /** The texture penalty subtracted from a boundary weight: the texture distance clipped to [0, 1],
      or zero when textures are off (the texture tensor is then all zeros). */
  function Penalty(useTextures: bool, dist: real): (c: real)
    ensures 0.0 <= c <= 1.0
    ensures !useTextures ==> c == 0.0
    ensures useTextures && 0.0 <= dist <= 1.0 ==> c == dist
  {
    if useTextures then Clip(dist, 0.0, 1.0) else 0.0
  }
}
