/** The segmenter's state and its operations: annotation, reset, mask clearing, and the segmentation
    call that checks its precondition, builds the grid graph and composites the result. */
module Back {
  import opened Imaging
  import opened Histograms
  import opened Weights
  import opened MaxFlow
  import opened Grid
  import opened Masks

  datatype Option<T> = None | Some(value: T)

  /** The graph-construction loop: for every pixel in row-major order, an edge to the pixel below and
      one to the pixel on the right when present, then the pixel's terminal pair. */
  method BuildGraph(s: Scene) returns (g: GraphFloat)
    requires ValidScene(s)
    ensures fresh(g)
    ensures g.edges == GridEdges(s, s.h) && g.tedges == GridTEdges(s, s.h)
  {
    g := new GraphFloat();
    var i := 0;
    while i < s.h
      invariant 0 <= i <= s.h
      invariant g.edges == GridEdges(s, i) && g.tedges == GridTEdges(s, i)
    {
      EmitRow(g, s, i);
      i := i + 1;
    }
  }

  /** One pass of the outer loop: the edges and terminal pairs of row i, left to right. */
  method EmitRow(g: GraphFloat, s: Scene, i: nat)
    requires ValidScene(s) && i < s.h
    modifies g
    ensures g.edges == old(g.edges) + RowEdges(s, i, s.w)
    ensures g.tedges == old(g.tedges) + RowTEdges(s, i, s.w)
  {
    var j := 0;
    while j < s.w
      invariant 0 <= j <= s.w
      invariant g.edges == old(g.edges) + RowEdges(s, i, j)
      invariant g.tedges == old(g.tedges) + RowTEdges(s, i, j)
    {
      EmitPixel(g, s, i, j);
      j := j + 1;
    }
  }

  /** One step of the loop: the neighbour edges of pixel (i, j), then its terminal pair. */
  method EmitPixel(g: GraphFloat, s: Scene, i: nat, j: nat)
    requires ValidScene(s) && i < s.h && j < s.w
    modifies g
    ensures g.edges == old(g.edges) + PixelEdges(s, i, j)
    ensures g.tedges == old(g.tedges) + [PixelTEdge(s, i, j)]
  {
    if i < s.h - 1 {
      var weight := EdgeWeight(s, (i, j), (i + 1, j));
      g.AddEdge((i, j), (i + 1, j), weight, weight);
    }
    if j < s.w - 1 {
      var weight := EdgeWeight(s, (i, j), (i, j + 1));
      g.AddEdge((i, j), (i, j + 1), weight, weight);
    }
    if (i, j) in s.objSeeds {
      g.AddTedge((i, j), Inf, Finite(0.0));
    } else if (i, j) in s.bgSeeds {
      g.AddTedge((i, j), Finite(0.0), Inf);
    } else {
      g.AddTedge((i, j), Terminal(s.energy, s.roi[i][j], true), Terminal(s.energy, s.roi[i][j], false));
    }
  }

  /** Class ch of the histograms has no data: every bin is zero. */
  predicate ZeroClass(ch: seq<seq<real>>)
    requires ClassShape(ch)
  {
    forall d, k :: 0 <= d < 3 && 0 <= k < 256 ==> ch[d][k] == 0.0
  }

  /** The histogram invariant for one class, about its channels ch, its seed set and its annotation
      count: bins are non-negative; the three channel sums agree; the class has a seed exactly when
      the sums are non-zero; there are no more seeds than annotations; and until the histograms are
      normalised each channel sum is the number of annotations. */
  ghost predicate ClassConsistent(ch: seq<seq<real>>, seeds: set<Coord>, count: nat, norm: bool)
  {
    ClassShape(ch) && ClassNonNegative(ch) &&
    Sum(ch[1]) == Sum(ch[0]) && Sum(ch[2]) == Sum(ch[0]) &&
    (seeds == {} <==> Sum(ch[0]) == 0.0) &&
    |seeds| <= count &&
    (!norm ==> Sum(ch[0]) == count as real)
  }

  /** Under the invariant a class has no seed exactly when every one of its bins is zero, and its
      sums are never negative. */
  lemma NoSeedsIffZero(ch: seq<seq<real>>, seeds: set<Coord>, count: nat, norm: bool)
    requires ClassConsistent(ch, seeds, count, norm)
    ensures seeds == {} <==> ZeroClass(ch)
    ensures Sum(ch[0]) >= 0.0
  {
    forall d | 0 <= d < 3 ensures Sum(ch[d]) >= 0.0 && (Sum(ch[d]) == 0.0 <==> forall k :: 0 <= k < 256 ==> ch[d][k] == 0.0) {
      assert AllNonNegative(ch[d]);
      SumZeroIff(ch[d]);
    }
  }

  /** The histogram invariant about a snapshot h of the histograms, the seed sets pl (background,
      object) and the annotation counts: both classes satisfy ClassConsistent. */
  ghost predicate Consistent(h: Hist, pl: seq<set<Coord>>, counts: seq<nat>, norm: bool)
  {
    HistShape(h) && |pl| == 2 && |counts| == 2 &&
    ClassConsistent(h[0], pl[0], counts[0], norm) && ClassConsistent(h[1], pl[1], counts[1], norm)
  }

  /** A class with no annotations, no seeds and every bin zero satisfies the invariant. */
  lemma EmptyClassConsistent(ch: seq<seq<real>>, norm: bool)
    requires ClassShape(ch) && ZeroClass(ch)
    ensures ClassConsistent(ch, {}, 0, norm)
  {
    forall d | 0 <= d < 3 ensures Sum(ch[d]) == 0.0 {
      SumZeroIff(ch[d]);
    }
  }

  /** The state a fresh or reset segmenter starts from satisfies the invariant. */
  lemma EmptyConsistent()
    ensures Consistent(Empty(), [{}, {}], [0, 0], false)
  {
    var h := Empty();
    EmptyClassConsistent(h[0], false);
    EmptyClassConsistent(h[1], false);
  }

  /** Recording an annotation in a class keeps that class's invariant: the seed joins its set, and the
      channel sums and the annotation count both grow by one. */
  lemma BumpClassConsistent(ch: seq<seq<real>>, seeds: set<Coord>, count: nat, norm: bool,
                            p: Coord, r: nat, g: nat, b: nat)
    requires ClassConsistent(ch, seeds, count, norm) && r < 256 && g < 256 && b < 256
    ensures ClassConsistent(BumpedChannels(ch, r, g, b), seeds + {p}, count + 1, norm)
  {
    BumpedChannelSums(ch, r, g, b);
    NoSeedsIffZero(ch, seeds, count, norm);
    SeedAdded(seeds, count, p);
  }

  /** Recording an annotation keeps the invariant; the other class is untouched. */
  lemma BumpConsistent(h: Hist, pl: seq<set<Coord>>, counts: seq<nat>, norm: bool,
                       obj: nat, y: int, x: int, r: nat, g: nat, b: nat)
    requires Consistent(h, pl, counts, norm) && obj < 2 && r < 256 && g < 256 && b < 256
    ensures Consistent(Bumped(h, obj, r, g, b), pl[obj := pl[obj] + {(y, x)}], counts[obj := counts[obj] + 1], norm)
  {
    BumpClassConsistent(h[obj], pl[obj], counts[obj], norm, (y, x), r, g, b);
  }

  /** Adding a position to a seed set grows it by at most one. */
  lemma SeedAdded(seeds: set<Coord>, n: nat, p: Coord)
    requires |seeds| <= n
    ensures |seeds + {p}| <= n + 1
    ensures seeds + {p} != {}
  {
    if p !in seeds {
      assert |seeds + {p}| == |seeds| + 1;
    } else {
      assert seeds + {p} == seeds;
    }
  }

  /** Adding a seed that is already present leaves the seed sets as they were. */
  lemma SeedReAdded(pl: seq<set<Coord>>, obj: nat, p: Coord)
    requires obj < |pl| && p in pl[obj]
    ensures pl[obj := pl[obj] + {p}] == pl
  {
    assert pl[obj] + {p} == pl[obj];
  }

  /** Normalising a class with seeds keeps its invariant and leaves every channel summing to one. */
  lemma NormalizeClassConsistent(ch: seq<seq<real>>, seeds: set<Coord>, count: nat, norm: bool)
    requires ClassConsistent(ch, seeds, count, norm) && seeds != {}
    ensures ClassConsistent(NormalizedClass(ch), seeds, count, true)
    ensures forall d :: 0 <= d < 3 ==> Sum(NormalizedClass(ch)[d]) == 1.0
  {
    var ch' := NormalizedClass(ch);
    forall d | 0 <= d < 3 ensures Sum(ch'[d]) == 1.0 {
      assert ch'[d] == Scaled(ch[d], Sum(ch[d]));
      ScaledSumsToOne(ch[d]);
    }
    NoSeedsIffZero(ch, seeds, count, norm);
    forall d, k | 0 <= d < 3 && 0 <= k < 256 ensures ch'[d][k] >= 0.0 {
      QuotientSign(ch[d][k], Sum(ch[d]));
    }
  }

  /** Normalising keeps the invariant, and leaves every channel summing to one, once both classes have
      seeds. */
  lemma NormalizeConsistent(h: Hist, pl: seq<set<Coord>>, counts: seq<nat>, norm: bool)
    requires Consistent(h, pl, counts, norm) && forall c :: 0 <= c < 2 ==> pl[c] != {}
    ensures Consistent(Normalized(h), pl, counts, true)
    ensures forall c, d :: 0 <= c < 2 && 0 <= d < 3 ==> Sum(Normalized(h)[c][d]) == 1.0
  {
    NormalizeClassConsistent(h[0], pl[0], counts[0], norm);
    NormalizeClassConsistent(h[1], pl[1], counts[1], norm);
  }

  class Cutter {
    /** The loaded image, its size, its intensity range D and its maximum M. */
    const image: Image
    const height: nat
    const width: nat
    const D: real
    const M: real
    /** hist[0, d, k]: background pixels seen with value k in channel d; hist[1, d, k]: object pixels. */
    const hist: array3<real>
    /** pixelList[0]: background seed positions; pixelList[1]: object seed positions, as (row, column). */
    var pixelList: seq<set<Coord>>
    /** The persistent 8-bit label mask of the whole image. */
    const mask: array2<byte>
    /** The last region segmented. */
    var lastBbox: Option<BBox>
    /** Annotations recorded per class since the last reset, and whether the histograms have been
        normalised since then. */
    ghost var calls: seq<nat>
    ghost var normalized: bool
    /** The histograms as a value; the invariant ties it to the array. */
    ghost var model: Hist

    predicate HistShaped()
    {
      hist.Length0 == 2 && hist.Length1 == 3 && hist.Length2 == 256
    }

    /** Channel d of class c's histogram. */
    function Bins(c: nat, d: nat): (s: seq<real>)
      reads hist
      requires HistShaped() && c < 2 && d < 3
      ensures |s| == 256 && forall k :: 0 <= k < 256 ==> s[k] == hist[c, d, k]
    {
      seq(256, k requires 0 <= k < 256 reads hist => hist[c, d, k])
    }

    /** The histograms as a value. */
    function Snapshot(): (h: Hist)
      reads hist
      requires HistShaped()
      ensures HistShape(h)
      ensures forall c, d, k :: 0 <= c < 2 && 0 <= d < 3 && 0 <= k < 256 ==> h[c][d][k] == hist[c, d, k]
    {
      [[Bins(0, 0), Bins(0, 1), Bins(0, 2)], [Bins(1, 0), Bins(1, 1), Bins(1, 2)]]
    }

    /** The array holds exactly the bins of h. */
    ghost predicate Holds(h: Hist)
      reads hist
    {
      HistShaped() && HistShape(h) &&
      forall c, d, k :: 0 <= c < 2 && 0 <= d < 3 && 0 <= k < 256 ==> hist[c, d, k] == h[c][d][k]
    }

    /** Reading the array back gives the value it holds. */
    lemma SnapshotIs(h: Hist)
      requires Holds(h)
      ensures Snapshot() == h
    {
      var s := Snapshot();
      forall c, d | 0 <= c < 2 && 0 <= d < 3 ensures s[c][d] == h[c][d] {
      }
      forall c | 0 <= c < 2 ensures s[c] == h[c] {
      }
    }

    /** Class c has no data: its histogram's largest bin is zero, which for non-negative bins means
        every bin is zero. */
    predicate NoData(c: nat)
      reads hist
      requires HistShaped() && c < 2
    {
      forall d, k :: 0 <= d < 3 && 0 <= k < 256 ==> hist[c, d, k] == 0.0
    }

    /** The image is a non-empty unit-range picture, and the histogram and mask arrays have their sizes; none of this ever changes. */
    ghost predicate Fixed()
    {
      HistShaped() &&
      height > 0 && width > 0 && Shaped(image, height, width) && UnitImage(image) &&
      mask.Length0 == height && mask.Length1 == width
    }

    /** The fixed sizes, the sizes of the per-class sequences, and the last box lies within the image. */
    ghost predicate Shapes()
      reads this
    {
      Fixed() && |pixelList| == 2 && |calls| == 2 &&
      (lastBbox.Some? ==> InBounds(lastBbox.value, height, width))
    }

    /** The state invariant: the sizes agree, the array holds model, and model, the seed sets and
        the annotation counts satisfy Consistent. */
    ghost predicate Valid()
      reads this, hist
    {
      Shapes() && Holds(model) && Consistent(model, pixelList, calls, normalized)
    }

    /** A class has no data exactly when its seed set is empty. */
    lemma NoDataIffNoSeeds(c: nat)
      requires Valid() && c < 2
      ensures NoData(c) <==> pixelList[c] == {}
    {
      NoSeedsIffZero(model[c], pixelList[c], calls[c], normalized);
      assert NoData(c) <==> ZeroClass(model[c]);
    }

    constructor (img: Image)
      requires ValidImage(img)
      ensures Valid()
      ensures image == img && height == |img| && width == |img[0]|
      ensures D == ImageMax(img) - ImageMin(img) && M == ImageMax(img)
      ensures model == Empty() && Snapshot() == Empty()
      ensures pixelList == [{}, {}] && lastBbox == None
      ensures forall i, j :: 0 <= i < height && 0 <= j < width ==> mask[i, j] == 0
      ensures calls == [0, 0] && !normalized
      ensures fresh(hist) && fresh(mask)
    {
      image := img;
      height, width := |img|, |img[0]|;
      D := ImageMax(img) - ImageMin(img);
      M := ImageMax(img);
      var h := new real[2, 3, 256];
      forall c, d, k | 0 <= c < 2 && 0 <= d < 3 && 0 <= k < 256 {
        h[c, d, k] := 0.0;
      }
      hist := h;
      pixelList := [{}, {}];
      mask := new byte[|img|, |img[0]|]((i, j) => 0);
      lastBbox := None;
      calls, normalized, model := [0, 0], false, Empty();
      new;
      SnapshotIs(Empty());
      EmptyConsistent();
    }

    /** Zero the last painted rectangle of the mask, if any; nothing else changes. */
    method ClearMask()
      requires Valid()
      modifies mask
      ensures Valid()
      ensures lastBbox == None ==> unchanged(mask)
      ensures forall i, j :: 0 <= i < height && 0 <= j < width ==>
        mask[i, j] == if lastBbox.Some? && InRect(lastBbox.value, i, j) then 0 else old(mask[i, j])
    {
      if lastBbox.Some? {
        var b := lastBbox.value;
        forall i, j | b.y <= i < b.y + b.h && b.x <= j < b.x + b.w {
          mask[i, j] := 0;
        }
      }
    }

    /** Record an annotated pixel at column x, row y with channel values r, g, b for class obj. */
    method UpdateData(obj: nat, x: int, y: int, r: nat, g: nat, b: nat)
      requires Valid() && obj < 2 && r < 256 && g < 256 && b < 256
      modifies this, hist
      ensures Valid()
      ensures pixelList == old(pixelList)[obj := old(pixelList[obj]) + {(y, x)}]
      ensures (y, x) in old(pixelList[obj]) ==> pixelList == old(pixelList)
      ensures model == Bumped(old(model), obj, r, g, b)
      ensures calls == old(calls)[obj := old(calls[obj]) + 1]
      ensures normalized == old(normalized) && lastBbox == old(lastBbox)
    {
      BumpConsistent(model, pixelList, calls, normalized, obj, y, x, r, g, b);
      if (y, x) in pixelList[obj] {
        SeedReAdded(pixelList, obj, (y, x));
      }
      Count(model, obj, r, g, b);
      model := Bumped(model, obj, r, g, b);
      pixelList, calls := pixelList[obj := pixelList[obj] + {(y, x)}], calls[obj := calls[obj] + 1];
    }

    /** The counting half of an annotation: one more in bin r, g and b of the three channels of class
        obj, starting from an array that holds h. */
    method Count(ghost h: Hist, obj: nat, r: nat, g: nat, b: nat)
      requires Holds(h) && obj < 2 && r < 256 && g < 256 && b < 256
      modifies hist
      ensures Holds(Bumped(h, obj, r, g, b))
      ensures forall c, d, k :: 0 <= c < 2 && 0 <= d < 3 && 0 <= k < 256 ==>
        hist[c, d, k] == old(hist[c, d, k]) + (if c == obj && k == [r, g, b][d] then 1.0 else 0.0)
    {
      hist[obj, 0, r] := hist[obj, 0, r] + 1.0;
      hist[obj, 1, g] := hist[obj, 1, g] + 1.0;
      hist[obj, 2, b] := hist[obj, 2, b] + 1.0;
    }

    /** Reset: zero every histogram bin and empty both seed sets. */
    method ClearHist()
      requires Valid()
      modifies this, hist
      ensures Valid()
      ensures model == Empty()
      ensures pixelList == [{}, {}]
      ensures calls == [0, 0] && !normalized && lastBbox == old(lastBbox)
    {
      forall c, d, k | 0 <= c < 2 && 0 <= d < 3 && 0 <= k < 256 {
        hist[c, d, k] := 0.0;
      }
      pixelList := pixelList[0 := {}];
      pixelList := pixelList[1 := {}];
      calls, normalized, model := [0, 0], false, Empty();
      EmptyConsistent();
    }

    /** The normalisation the histogram model performs before building its graph. */
    method NormalizeHist()
      requires Valid() && pixelList[0] != {} && pixelList[1] != {}
      modifies this, hist
      ensures Valid() && normalized
      ensures model == Normalized(old(model))
      ensures forall c, d :: 0 <= c < 2 && 0 <= d < 3 ==> Sum(model[c][d]) == 1.0
      ensures pixelList == old(pixelList) && calls == old(calls) && lastBbox == old(lastBbox)
    {
      assert forall c :: 0 <= c < 2 ==> pixelList[c] != {};
      NormalizeConsistent(model, pixelList, calls, normalized);
      DivideBySums(model);
      model, normalized := Normalized(model), true;
    }

    /** Divide every channel of both histograms by its own sum, in place, object class first, starting
        from an array that holds h. */
    method DivideBySums(ghost h: Hist)
      requires Holds(h) && forall c, d :: 0 <= c < 2 && 0 <= d < 3 ==> Sum(h[c][d]) != 0.0
      modifies hist
      ensures Holds(Normalized(h))
    {
      ghost var after := Normalized(h);
      for d := 0 to 3
        invariant forall c, d', k :: 0 <= c < 2 && 0 <= d' < 3 && 0 <= k < 256 ==>
          hist[c, d', k] == if d' < d then after[c][d'][k] else h[c][d'][k]
      {
        assert Bins(1, d) == h[1][d];
        var s1 := Sum(Bins(1, d));
        forall k | 0 <= k < 256 {
          hist[1, d, k] := hist[1, d, k] / s1;
        }
        assert Bins(0, d) == h[0][d];
        var s0 := Sum(Bins(0, d));
        forall k | 0 <= k < 256 {
          hist[0, d, k] := hist[0, d, k] / s0;
        }
      }
    }

    /** What one segmentation call reads once its precondition has passed. */
    function SceneOf(bbox: BBox, mode: Mode, useTextures: bool, texDist: (Coord, Coord) -> real,
                     O: real, B: real, exp: real -> real, log: real -> real): (s: Scene)
      reads this, hist
      requires Valid() && InBounds(bbox, height, width)
      ensures ValidScene(s)
      ensures s.h == bbox.h && s.w == bbox.w && s.objSeeds == pixelList[1] && s.bgSeeds == pixelList[0]
      ensures s.roi == Roi(image, bbox) && s.energy == Energy(mode, D, M, O, B, model, exp, log)
    {
      RoiWithinImageRange(image, bbox);
      SnapshotIs(model);
      Scene(Roi(image, bbox), bbox.h, bbox.w, Energy(mode, D, M, O, B, Snapshot(), exp, log),
            useTextures, texDist, pixelList[1], pixelList[0])
    }

    /** The intensity model's class means index the bbox.h x bbox.w ROI with every recorded seed
        position; an index n into a dimension of size k is valid for -k <= n < k, negative ones
        counting from the end. */
    predicate MeansIndexable(bbox: BBox)
      reads this
    {
      forall c, p :: 0 <= c < |pixelList| && p in pixelList[c] ==>
        -(bbox.h as int) <= p.0 < bbox.h && -(bbox.w as int) <= p.1 < bbox.w
    }

    /** Paint the local mask into the box: each cell becomes the saturating sum of old and local values. */
    method Composite(bbox: BBox, local: seq<seq<byte>>)
      requires Valid() && InBounds(bbox, height, width) && Shaped(local, bbox.h, bbox.w)
      modifies mask
      ensures Valid()
      ensures forall i, j :: 0 <= i < height && 0 <= j < width ==>
        mask[i, j] == if InRect(bbox, i, j) then SatAdd(old(mask[i, j]), local[i - bbox.y][j - bbox.x]) else old(mask[i, j])
    {
      forall i, j | bbox.y <= i < bbox.y + bbox.h && bbox.x <= j < bbox.x + bbox.w {
        mask[i, j] := SatAdd(mask[i, j], local[i - bbox.y][j - bbox.x]);
      }
    }

    /** Segment the region bbox. With no data for a class nothing changes and no graph is built (null).
        In intensity mode the class means then index the ROI with the recorded seed positions, and a
        position outside the ROI's index range fails after the box has been remembered (null again).
        Otherwise the box is remembered, the histogram model normalises the histograms, the graph is
        built, solve partitions it (true meaning the sink side), and the partition is painted into the
        mask with label classnum. O and B are the object and background means the intensity model uses. */
    method Segment(bbox: BBox, classnum: byte, mode: Mode, useTextures: bool,
                   texDist: (Coord, Coord) -> real, O: real, B: real,
                   exp: real -> real, log: real -> real,
                   solve: (seq<Edge>, seq<TEdge>) -> seq<seq<bool>>)
      returns (g: GraphFloat?)
      requires Valid() && InBounds(bbox, height, width)
      requires forall es, ts :: Shaped(solve(es, ts), bbox.h, bbox.w)
      modifies this, hist, mask
      ensures Valid()
      ensures g == null <==> old(NoData(0) || NoData(1)) || (mode == SimpleMode && !old(MeansIndexable(bbox)))
      ensures old(NoData(0) || NoData(1)) <==> old(pixelList[0] == {} || pixelList[1] == {})
      ensures old(NoData(0) || NoData(1)) ==> unchanged(this) && unchanged(hist) && unchanged(mask)
      ensures g == null && !old(NoData(0) || NoData(1)) ==>
        lastBbox == Some(bbox) && pixelList == old(pixelList) && calls == old(calls) &&
        model == old(model) && normalized == old(normalized) && unchanged(hist) && unchanged(mask)
      ensures g != null ==> fresh(g) && lastBbox == Some(bbox) && pixelList == old(pixelList) && calls == old(calls)
      ensures g != null && mode == SimpleMode ==> unchanged(hist) && model == old(model) && normalized == old(normalized)
      ensures g != null && mode == ProbabilisticMode ==> normalized && model == Normalized(old(model))
      ensures g != null ==>
        var s := SceneOf(bbox, mode, useTextures, texDist, O, B, exp, log);
        g.edges == GridEdges(s, s.h) && g.tedges == GridTEdges(s, s.h)
      ensures g != null ==>
        var local := LocalMask(solve(g.edges, g.tedges), classnum);
        Shaped(local, bbox.h, bbox.w) &&
        forall i, j :: 0 <= i < height && 0 <= j < width ==>
          mask[i, j] == if InRect(bbox, i, j) then SatAdd(old(mask[i, j]), local[i - bbox.y][j - bbox.x]) else old(mask[i, j])
    {
      NoDataIffNoSeeds(0);
      NoDataIffNoSeeds(1);
      if NoData(0) || NoData(1) {
        return null;
      }
      if mode == SimpleMode && !MeansIndexable(bbox) {
        lastBbox := Some(bbox);
        return null;
      }
      g := Extract(bbox, classnum, mode, useTextures, texDist, O, B, exp, log, solve);
    }

    /** The first steps past the precondition: remember the region, and in probabilistic mode turn
        the counts into per-channel distributions. */
    method Prepare(bbox: BBox, mode: Mode)
      requires Valid() && InBounds(bbox, height, width) && pixelList[0] != {} && pixelList[1] != {}
      modifies this, hist
      ensures Valid()
      ensures lastBbox == Some(bbox) && pixelList == old(pixelList) && calls == old(calls)
      ensures mode == SimpleMode ==> unchanged(hist) && model == old(model) && normalized == old(normalized)
      ensures mode == ProbabilisticMode ==> normalized && model == Normalized(old(model))
    {
      lastBbox := Some(bbox);
      if mode == ProbabilisticMode {
        NormalizeHist();
      }
    }

    /** The segmentation call past its precondition: both classes have seeds. */
    method Extract(bbox: BBox, classnum: byte, mode: Mode, useTextures: bool,
                   texDist: (Coord, Coord) -> real, O: real, B: real,
                   exp: real -> real, log: real -> real,
                   solve: (seq<Edge>, seq<TEdge>) -> seq<seq<bool>>)
      returns (g: GraphFloat)
      requires Valid() && InBounds(bbox, height, width) && pixelList[0] != {} && pixelList[1] != {}
      requires forall es, ts :: Shaped(solve(es, ts), bbox.h, bbox.w)
      modifies this, hist, mask
      ensures Valid()
      ensures fresh(g) && lastBbox == Some(bbox) && pixelList == old(pixelList) && calls == old(calls)
      ensures mode == SimpleMode ==> unchanged(hist) && model == old(model) && normalized == old(normalized)
      ensures mode == ProbabilisticMode ==> normalized && model == Normalized(old(model))
      ensures var s := SceneOf(bbox, mode, useTextures, texDist, O, B, exp, log);
        g.edges == GridEdges(s, s.h) && g.tedges == GridTEdges(s, s.h)
      ensures var local := LocalMask(solve(g.edges, g.tedges), classnum);
        Shaped(local, bbox.h, bbox.w) &&
        forall i, j :: 0 <= i < height && 0 <= j < width ==>
          mask[i, j] == if InRect(bbox, i, j) then SatAdd(old(mask[i, j]), local[i - bbox.y][j - bbox.x]) else old(mask[i, j])
    {
      Prepare(bbox, mode);
      var s := SceneOf(bbox, mode, useTextures, texDist, O, B, exp, log);
      g := BuildGraph(s);
      var local := LocalMask(solve(g.edges, g.tedges), classnum);
      Composite(bbox, local);
    }
  }
}
