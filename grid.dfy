/** The graph one segmentation call emits for its region of interest, as a function of what it reads,
    and the facts about it: edge counts and shapes, one terminal pair per pixel, hard seed constraints. */
module Grid {
  import opened Imaging
  import opened Weights
  import opened MaxFlow

  /** What graph construction reads: the ROI pixels and size, the energy, the texture switch and the
      texture distance between two ROI pixels, and the object and background seed sets. Seeds are looked
      up by ROI-local (row, column). */
  datatype Scene = Scene(roi: Image, h: nat, w: nat, energy: Energy, useTextures: bool,
                         texDist: (Coord, Coord) -> real, objSeeds: set<Coord>, bgSeeds: set<Coord>)

  predicate ValidScene(s: Scene)
  {
    Shaped(s.roi, s.h, s.w) && UnitImage(s.roi) && ValidEnergy(s.energy)
  }

  predicate InGrid(s: Scene, c: Coord)
  {
    0 <= c.0 < s.h && 0 <= c.1 < s.w
  }

  /** The capacity of the edge between neighbours p and q: model weight less the texture penalty. */
  function EdgeWeight(s: Scene, p: Coord, q: Coord): real
    requires ValidScene(s) && InGrid(s, p) && InGrid(s, q)
  {
    Pairwise(s.energy, s.roi[p.0][p.1], s.roi[q.0][q.1]) - Penalty(s.useTextures, s.texDist(p, q))
  }

  /** The edge p -- q with the same capacity in both directions. */
  function NeighbourEdge(s: Scene, p: Coord, q: Coord): Edge
    requires ValidScene(s) && InGrid(s, p) && InGrid(s, q)
  {
    Edge(p, q, EdgeWeight(s, p, q), EdgeWeight(s, p, q))
  }

  /** The edges pixel (i, j) emits: to the pixel below, then to the pixel on the right, when present. */
  function PixelEdges(s: Scene, i: nat, j: nat): seq<Edge>
    requires ValidScene(s) && i < s.h && j < s.w
  {
    (if i < s.h - 1 then [NeighbourEdge(s, (i, j), (i + 1, j))] else []) +
    (if j < s.w - 1 then [NeighbourEdge(s, (i, j), (i, j + 1))] else [])
  }

  /** The edges of the first n pixels of row i. */
  function RowEdges(s: Scene, i: nat, n: nat): seq<Edge>
    requires ValidScene(s) && i < s.h && n <= s.w
  {
    if n == 0 then [] else RowEdges(s, i, n - 1) + PixelEdges(s, i, n - 1)
  }

  /** The edges of the first m rows, in emission order. */
  function GridEdges(s: Scene, m: nat): seq<Edge>
    requires ValidScene(s) && m <= s.h
  {
    if m == 0 then [] else GridEdges(s, m - 1) + RowEdges(s, m - 1, s.w)
  }

  /** The terminal pair of pixel (i, j): an object seed is tied to the source, otherwise a background seed
      to the sink, otherwise both capacities come from the terminal weights. */
  function PixelTEdge(s: Scene, i: nat, j: nat): TEdge
    requires ValidScene(s) && i < s.h && j < s.w
  {
    if (i, j) in s.objSeeds then TEdge((i, j), Inf, Finite(0.0))
    else if (i, j) in s.bgSeeds then TEdge((i, j), Finite(0.0), Inf)
    else TEdge((i, j), Terminal(s.energy, s.roi[i][j], true), Terminal(s.energy, s.roi[i][j], false))
  }

  /** The terminal pairs of the first n pixels of row i. */
  function RowTEdges(s: Scene, i: nat, n: nat): seq<TEdge>
    requires ValidScene(s) && i < s.h && n <= s.w
  {
    if n == 0 then [] else RowTEdges(s, i, n - 1) + [PixelTEdge(s, i, n - 1)]
  }

  /** The terminal pairs of the first m rows, in emission order. */
  function GridTEdges(s: Scene, m: nat): seq<TEdge>
    requires ValidScene(s) && m <= s.h
  {
    if m == 0 then [] else GridTEdges(s, m - 1) + RowTEdges(s, m - 1, s.w)
  }

  /** e joins a grid pixel to its lower or its right neighbour, with both capacities equal to the
      capacity of that pair. */
  predicate WellFormedEdge(s: Scene, e: Edge)
    requires ValidScene(s)
  {
    InGrid(s, e.p) &&
    ((e.q == (e.p.0 + 1, e.p.1) && e.p.0 < s.h - 1) || (e.q == (e.p.0, e.p.1 + 1) && e.p.1 < s.w - 1)) &&
    e.cap == EdgeWeight(s, e.p, e.q) && e.rcap == e.cap
  }

  lemma PixelEdgesFacts(s: Scene, i: nat, j: nat)
    requires ValidScene(s) && i < s.h && j < s.w
    ensures |PixelEdges(s, i, j)| == (if i < s.h - 1 then 1 else 0) + (if j < s.w - 1 then 1 else 0)
    ensures forall e :: e in PixelEdges(s, i, j) ==> WellFormedEdge(s, e) && e.p == (i, j)
    ensures i < s.h - 1 ==> NeighbourEdge(s, (i, j), (i + 1, j)) in PixelEdges(s, i, j)
    ensures j < s.w - 1 ==> NeighbourEdge(s, (i, j), (i, j + 1)) in PixelEdges(s, i, j)
  {
  }

  lemma {:induction false} RowEdgesCount(s: Scene, i: nat, n: nat)
    requires ValidScene(s) && i < s.h && n <= s.w
    ensures |RowEdges(s, i, n)| == (if i < s.h - 1 then n else 0) + (if n == s.w && n > 0 then n - 1 else n)
  {
    if n > 0 {
      RowEdgesCount(s, i, n - 1);
      PixelEdgesFacts(s, i, n - 1);
    }
  }

  lemma {:induction false} RowEdgesShape(s: Scene, i: nat, n: nat)
    requires ValidScene(s) && i < s.h && n <= s.w
    ensures forall e :: e in RowEdges(s, i, n) ==> WellFormedEdge(s, e) && e.p.0 == i && e.p.1 < n
  {
    if n > 0 {
      var prev, last := RowEdges(s, i, n - 1), PixelEdges(s, i, n - 1);
      RowEdgesShape(s, i, n - 1);
      PixelEdgesFacts(s, i, n - 1);
      assert RowEdges(s, i, n) == prev + last;
      forall e | e in prev + last
        ensures WellFormedEdge(s, e) && e.p.0 == i && e.p.1 < n
      {
        if e in prev { } else { assert e in last; }
      }
    }
  }

  lemma {:induction false} RowHasDown(s: Scene, i: nat, n: nat, j: nat)
    requires ValidScene(s) && i < s.h - 1 && j < n <= s.w
    ensures NeighbourEdge(s, (i, j), (i + 1, j)) in RowEdges(s, i, n)
  {
    assert RowEdges(s, i, n) == RowEdges(s, i, n - 1) + PixelEdges(s, i, n - 1);
    if j < n - 1 {
      RowHasDown(s, i, n - 1, j);
    } else {
      PixelEdgesFacts(s, i, j);
    }
  }

  lemma {:induction false} RowHasRight(s: Scene, i: nat, n: nat, j: nat)
    requires ValidScene(s) && i < s.h && j < n <= s.w && j < s.w - 1
    ensures NeighbourEdge(s, (i, j), (i, j + 1)) in RowEdges(s, i, n)
  {
    assert RowEdges(s, i, n) == RowEdges(s, i, n - 1) + PixelEdges(s, i, n - 1);
    if j < n - 1 {
      RowHasRight(s, i, n - 1, j);
    } else {
      PixelEdgesFacts(s, i, j);
    }
  }

  /** The edge count after the first m of h rows of width w: a right edge for all but the last pixel
      of each row, and a down edge for every pixel of each row but the last row. */
  function EdgeTotal(h: nat, w: nat, m: nat): nat
  {
    m * (if w > 0 then w - 1 else 0) + w * (if m == h && m > 0 then m - 1 else m)
  }

  lemma {:induction false} GridEdgesCount(s: Scene, m: nat)
    requires ValidScene(s) && m <= s.h
    ensures |GridEdges(s, m)| == EdgeTotal(s.h, s.w, m)
  {
    if m > 0 {
      var prev, row := GridEdges(s, m - 1), RowEdges(s, m - 1, s.w);
      assert GridEdges(s, m) == prev + row;
      GridEdgesCount(s, m - 1);
      RowEdgesCount(s, m - 1, s.w);
      CountStep(s.h, s.w, m, |prev|, |row|);
    }
  }

  /** The arithmetic of one outer step of the edge count. */
  lemma CountStep(h: nat, w: nat, m: nat, prev: nat, row: nat)
    requires 0 < m <= h && prev == EdgeTotal(h, w, m - 1)
    requires row == (if m - 1 < h - 1 then w else 0) + (if w > 0 then w - 1 else 0)
    ensures prev + row == EdgeTotal(h, w, m)
  {
    var r := if w > 0 then w - 1 else 0;
    assert m * r == (m - 1) * r + r;
    assert w * m == w * (m - 1) + w;
    assert w * (m - 1) == w * (m - 2) + w;
  }

  lemma {:induction false} GridEdgesShape(s: Scene, m: nat)
    requires ValidScene(s) && m <= s.h
    ensures forall e :: e in GridEdges(s, m) ==> WellFormedEdge(s, e) && e.p.0 < m
  {
    if m > 0 {
      var prev, row := GridEdges(s, m - 1), RowEdges(s, m - 1, s.w);
      GridEdgesShape(s, m - 1);
      RowEdgesShape(s, m - 1, s.w);
      assert GridEdges(s, m) == prev + row;
      forall e | e in prev + row
        ensures WellFormedEdge(s, e) && e.p.0 < m
      {
        if e in prev { } else { assert e in row; }
      }
    }
  }

  /** An edge lies in a concatenation exactly when it lies in one of the parts. */
  lemma InConcat(e: Edge, a: seq<Edge>, b: seq<Edge>)
    ensures e in a + b <==> e in a || e in b
  {
  }

  /** Every edge of row i is an edge of the first m rows once i < m. */
  lemma {:induction false} RowInGrid(s: Scene, m: nat, i: nat, e: Edge)
    requires ValidScene(s) && i < m <= s.h && e in RowEdges(s, i, s.w)
    ensures e in GridEdges(s, m)
  {
    var prev, row := GridEdges(s, m - 1), RowEdges(s, m - 1, s.w);
    assert GridEdges(s, m) == prev + row;
    if i < m - 1 {
      RowInGrid(s, m - 1, i, e);
    }
    InConcat(e, prev, row);
  }

  lemma GridHasDown(s: Scene, m: nat, i: nat, j: nat)
    requires ValidScene(s) && i < m <= s.h && i < s.h - 1 && j < s.w
    ensures NeighbourEdge(s, (i, j), (i + 1, j)) in GridEdges(s, m)
  {
    RowHasDown(s, i, s.w, j);
    RowInGrid(s, m, i, NeighbourEdge(s, (i, j), (i + 1, j)));
  }

  lemma GridHasRight(s: Scene, m: nat, i: nat, j: nat)
    requires ValidScene(s) && i < m <= s.h && j < s.w - 1
    ensures NeighbourEdge(s, (i, j), (i, j + 1)) in GridEdges(s, m)
  {
    RowHasRight(s, i, s.w, j);
    RowInGrid(s, m, i, NeighbourEdge(s, (i, j), (i, j + 1)));
  }

  lemma GridHasAllDown(s: Scene)
    requires ValidScene(s)
    ensures forall i, j :: 0 <= i < s.h - 1 && 0 <= j < s.w ==>
      NeighbourEdge(s, (i, j), (i + 1, j)) in GridEdges(s, s.h)
  {
    forall i, j | 0 <= i < s.h - 1 && 0 <= j < s.w
      ensures NeighbourEdge(s, (i, j), (i + 1, j)) in GridEdges(s, s.h)
    {
      GridHasDown(s, s.h, i, j);
    }
  }

  lemma GridHasAllRight(s: Scene)
    requires ValidScene(s)
    ensures forall i, j :: 0 <= i < s.h && 0 <= j < s.w - 1 ==>
      NeighbourEdge(s, (i, j), (i, j + 1)) in GridEdges(s, s.h)
  {
    forall i, j | 0 <= i < s.h && 0 <= j < s.w - 1
      ensures NeighbourEdge(s, (i, j), (i, j + 1)) in GridEdges(s, s.h)
    {
      GridHasRight(s, s.h, i, j);
    }
  }

  /** An h x w region gets exactly h(w-1) + w(h-1) edges, each joining a pixel to its lower or right
      neighbour with equal capacity both ways, and every such neighbour pair gets its edge. */
  lemma EdgeCount(s: Scene)
    requires ValidScene(s)
    ensures |GridEdges(s, s.h)| == if s.h == 0 || s.w == 0 then 0 else s.h * (s.w - 1) + s.w * (s.h - 1)
    ensures forall e :: e in GridEdges(s, s.h) ==> WellFormedEdge(s, e)
    ensures forall i, j :: 0 <= i < s.h - 1 && 0 <= j < s.w ==>
      NeighbourEdge(s, (i, j), (i + 1, j)) in GridEdges(s, s.h)
    ensures forall i, j :: 0 <= i < s.h && 0 <= j < s.w - 1 ==>
      NeighbourEdge(s, (i, j), (i, j + 1)) in GridEdges(s, s.h)
  {
    GridEdgesCount(s, s.h);
    GridEdgesShape(s, s.h);
    GridHasAllDown(s);
    GridHasAllRight(s);
    if s.h > 0 && s.w > 0 {
      assert s.h * (s.w - 1) + s.w * (s.h - 1) == s.h * (if s.w > 0 then s.w - 1 else 0) + s.w * (s.h - 1);
    }
  }

  /** Every edge capacity is the model's boundary weight less a penalty c with 0 <= c <= 1, and c = 0
      when textures are off. */
  lemma EdgeCapacity(s: Scene, e: Edge)
    requires ValidScene(s) && e in GridEdges(s, s.h)
    ensures InGrid(s, e.p) && InGrid(s, e.q)
    ensures e.cap == e.rcap
    ensures 0.0 <= Pairwise(s.energy, s.roi[e.p.0][e.p.1], s.roi[e.q.0][e.q.1]) - e.cap <= 1.0
    ensures !s.useTextures ==> e.cap == Pairwise(s.energy, s.roi[e.p.0][e.p.1], s.roi[e.q.0][e.q.1])
  {
    GridEdgesShape(s, s.h);
  }

  /** Row-major order of positions. */
  predicate Before(a: Coord, b: Coord)
  {
    a.0 < b.0 || (a.0 == b.0 && a.1 < b.1)
  }

  lemma {:induction false} RowTEdgesFacts(s: Scene, i: nat, n: nat)
    requires ValidScene(s) && i < s.h && n <= s.w
    ensures |RowTEdges(s, i, n)| == n
    ensures forall j :: 0 <= j < n ==> RowTEdges(s, i, n)[j] == PixelTEdge(s, i, j)
  {
    if n > 0 {
      RowTEdgesFacts(s, i, n - 1);
    }
  }

  lemma {:induction false} GridTEdgesCount(s: Scene, m: nat)
    requires ValidScene(s) && m <= s.h
    ensures |GridTEdges(s, m)| == m * s.w
  {
    if m > 0 {
      GridTEdgesCount(s, m - 1);
      RowTEdgesFacts(s, m - 1, s.w);
      assert m * s.w == (m - 1) * s.w + s.w;
    }
  }

  lemma {:induction false} GridTEdgesEntries(s: Scene, m: nat)
    requires ValidScene(s) && m <= s.h
    ensures forall k :: 0 <= k < |GridTEdges(s, m)| ==>
      var t := GridTEdges(s, m)[k];
      InGrid(s, t.node) && t.node.0 < m && t == PixelTEdge(s, t.node.0, t.node.1)
  {
    if m > 0 {
      var prev, row := GridTEdges(s, m - 1), RowTEdges(s, m - 1, s.w);
      GridTEdgesEntries(s, m - 1);
      RowTEdgesFacts(s, m - 1, s.w);
      var all := prev + row;
      assert GridTEdges(s, m) == all;
      forall k | 0 <= k < |all|
        ensures InGrid(s, all[k].node) && all[k].node.0 < m && all[k] == PixelTEdge(s, all[k].node.0, all[k].node.1)
      {
        if k < |prev| {
          assert all[k] == prev[k];
        } else {
          assert all[k] == row[k - |prev|];
        }
      }
    }
  }

  lemma {:induction false} GridTEdgesOrdered(s: Scene, m: nat)
    requires ValidScene(s) && m <= s.h
    ensures forall k1, k2 :: 0 <= k1 < k2 < |GridTEdges(s, m)| ==>
      Before(GridTEdges(s, m)[k1].node, GridTEdges(s, m)[k2].node)
  {
    if m > 0 {
      var prev, row := GridTEdges(s, m - 1), RowTEdges(s, m - 1, s.w);
      GridTEdgesOrdered(s, m - 1);
      GridTEdgesEntries(s, m - 1);
      RowTEdgesFacts(s, m - 1, s.w);
      var all := prev + row;
      assert GridTEdges(s, m) == all;
      forall k1, k2 | 0 <= k1 < k2 < |all|
        ensures Before(all[k1].node, all[k2].node)
      {
        if k2 < |prev| {
          assert all[k1] == prev[k1] && all[k2] == prev[k2];
        } else if k1 < |prev| {
          assert all[k1] == prev[k1] && all[k2] == row[k2 - |prev|];
          assert prev[k1].node.0 < m - 1;
        } else {
          assert all[k1] == row[k1 - |prev|] && all[k2] == row[k2 - |prev|];
        }
      }
    }
  }

  lemma {:induction false} GridTEdgesComplete(s: Scene, m: nat)
    requires ValidScene(s) && m <= s.h
    ensures forall i, j :: 0 <= i < m && 0 <= j < s.w ==> PixelTEdge(s, i, j) in GridTEdges(s, m)
  {
    if m > 0 {
      var prev, row := GridTEdges(s, m - 1), RowTEdges(s, m - 1, s.w);
      GridTEdgesComplete(s, m - 1);
      RowTEdgesFacts(s, m - 1, s.w);
      assert GridTEdges(s, m) == prev + row;
      forall i, j | 0 <= i < m && 0 <= j < s.w
        ensures PixelTEdge(s, i, j) in prev + row
      {
        if i < m - 1 {
          assert PixelTEdge(s, i, j) in prev;
        } else {
          assert row[j] == PixelTEdge(s, i, j);
        }
      }
    }
  }

  /** An h x w region gets exactly h w terminal pairs: one for each pixel, with no pixel twice, each
      being that pixel's terminal pair. */
  lemma TEdgesOnePerPixel(s: Scene)
    requires ValidScene(s)
    ensures |GridTEdges(s, s.h)| == s.h * s.w
    ensures forall i, j :: 0 <= i < s.h && 0 <= j < s.w ==>
      exists k :: 0 <= k < |GridTEdges(s, s.h)| && GridTEdges(s, s.h)[k] == PixelTEdge(s, i, j)
    ensures forall k1, k2 :: 0 <= k1 < |GridTEdges(s, s.h)| && 0 <= k2 < |GridTEdges(s, s.h)| && k1 != k2 ==>
      GridTEdges(s, s.h)[k1].node != GridTEdges(s, s.h)[k2].node
    ensures forall k :: 0 <= k < |GridTEdges(s, s.h)| ==>
      var t := GridTEdges(s, s.h)[k];
      InGrid(s, t.node) && t == PixelTEdge(s, t.node.0, t.node.1)
  {
    GridTEdgesCount(s, s.h);
    GridTEdgesEntries(s, s.h);
    GridTEdgesOrdered(s, s.h);
    GridTEdgesComplete(s, s.h);
    var ts := GridTEdges(s, s.h);
    forall i, j | 0 <= i < s.h && 0 <= j < s.w
      ensures exists k :: 0 <= k < |ts| && ts[k] == PixelTEdge(s, i, j)
    {
      assert PixelTEdge(s, i, j) in ts;
    }
    forall k1, k2 | 0 <= k1 < |ts| && 0 <= k2 < |ts| && k1 != k2
      ensures ts[k1].node != ts[k2].node
    {
      if k1 < k2 { assert Before(ts[k1].node, ts[k2].node); }
      else { assert Before(ts[k2].node, ts[k1].node); }
    }
  }

  /** The capacities of every emitted terminal pair: an object seed gets (inf, 0), checked first so it
      wins over a background seed at the same position; a background seed gets (0, inf); any other pixel
      gets its source-side and sink-side terminal weights. */
  lemma TEdgeCapacities(s: Scene)
    requires ValidScene(s)
    ensures forall k :: 0 <= k < |GridTEdges(s, s.h)| ==>
      var t := GridTEdges(s, s.h)[k];
      InGrid(s, t.node) &&
      (t.node in s.objSeeds ==> t.source == Inf && t.sink == Finite(0.0)) &&
      (t.node !in s.objSeeds && t.node in s.bgSeeds ==> t.source == Finite(0.0) && t.sink == Inf) &&
      (t.node !in s.objSeeds && t.node !in s.bgSeeds ==>
        t.source == Terminal(s.energy, s.roi[t.node.0][t.node.1], true) &&
        t.sink == Terminal(s.energy, s.roi[t.node.0][t.node.1], false))
  {
    GridTEdgesEntries(s, s.h);
  }

  /** seg (true for the sink side, as the solver reports it) severs no infinite terminal link: a node
      with infinite source capacity stays on the source side, one with infinite sink capacity on the
      sink side. A cut of finite capacity has exactly this property. */
  predicate FiniteCut(s: Scene, ts: seq<TEdge>, seg: seq<seq<bool>>)
  {
    Shaped(seg, s.h, s.w) &&
    forall k :: 0 <= k < |ts| && InGrid(s, ts[k].node) ==>
      (ts[k].source == Inf ==> !seg[ts[k].node.0][ts[k].node.1]) &&
      (ts[k].sink == Inf ==> seg[ts[k].node.0][ts[k].node.1])
  }

  /** Under any finite cut of the emitted graph, every object seed in the region lies on the source side,
      and every background seed that is not also an object seed lies on the sink side. */
  lemma HardSeedsFixSide(s: Scene, seg: seq<seq<bool>>)
    requires ValidScene(s) && FiniteCut(s, GridTEdges(s, s.h), seg)
    ensures forall i, j :: 0 <= i < s.h && 0 <= j < s.w && (i, j) in s.objSeeds ==> !seg[i][j]
    ensures forall i, j :: 0 <= i < s.h && 0 <= j < s.w && (i, j) in s.bgSeeds && (i, j) !in s.objSeeds ==>
      seg[i][j]
  {
    TEdgesOnePerPixel(s);
    var ts := GridTEdges(s, s.h);
    forall i, j | 0 <= i < s.h && 0 <= j < s.w
      ensures (i, j) in s.objSeeds ==> !seg[i][j]
      ensures (i, j) in s.bgSeeds && (i, j) !in s.objSeeds ==> seg[i][j]
    {
      var k :| 0 <= k < |ts| && ts[k] == PixelTEdge(s, i, j);
      assert ts[k].node == (i, j);
    }
  }

  /** The partition that puts background seeds (not also object seeds) on the sink side and all other pixels on the source side. */
  function SeedSides(s: Scene): (seg: seq<seq<bool>>)
    ensures Shaped(seg, s.h, s.w)
    ensures forall i, j :: 0 <= i < s.h && 0 <= j < s.w ==>
      seg[i][j] == ((i, j) !in s.objSeeds && (i, j) in s.bgSeeds)
  {
    seq(s.h, i => seq(s.w, j => (i, j) !in s.objSeeds && (i, j) in s.bgSeeds))
  }

  /** With the intensity model a finite cut always exists: only seeds carry infinite capacity. */
  lemma SimpleModeHasFiniteCut(s: Scene)
    requires ValidScene(s) && s.energy.mode == SimpleMode
    ensures FiniteCut(s, GridTEdges(s, s.h), SeedSides(s))
  {
    TEdgesOnePerPixel(s);
  }

  /** With the histogram model, an unseeded pixel whose colour falls in empty bins of both histograms
      gets infinite capacity to both terminals, so no cut of the emitted graph is finite. */
  lemma UnseenColourBlocksFiniteCut(s: Scene, i: nat, j: nat)
    requires ValidScene(s) && s.energy.mode == ProbabilisticMode
    requires i < s.h && j < s.w && (i, j) !in s.objSeeds && (i, j) !in s.bgSeeds
    requires forall c, d :: 0 <= c < 2 && 0 <= d < 3 ==> s.energy.hist[c][d][Bin(s.roi[i][j].Channel(d))] == 0.0
    ensures forall seg :: !FiniteCut(s, GridTEdges(s, s.h), seg)
  {
    TEdgesOnePerPixel(s);
    var ts := GridTEdges(s, s.h);
    var k :| 0 <= k < |ts| && ts[k] == PixelTEdge(s, i, j);
    assert ts[k] == TEdge((i, j), Inf, Inf);
  }
}
