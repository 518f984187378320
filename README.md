# GraphCut segmenter core in Dafny

This project models the `Cutter` class of an interactive graph-cut image segmenter.
- The user paints background and object seeds. Each seed is recorded in one of two seed sets, and its colour is counted in one of two per-channel histograms (2 classes × 3 channels × 256 bins).
- A segmentation call checks that both classes have data, then remembers the region of interest (ROI).
- In the histogram ("probabilistic") mode, it normalises the histograms.
- It then walks the ROI in row-major order. For each pixel it emits a symmetric boundary edge to the pixel below and to the one on the right, then one terminal pair. Object seeds are tied to the source and background seeds to the sink; every other pixel gets its terminal weights.
- An external max-flow solver then partitions the grid. The partition becomes a local label mask, which is composited into the persistent 8-bit mask of the whole image.

Modules:
- `Imaging`: pixels, images, boxes, the ROI, and the global channel extremes.
- `Histograms`: histograms as values; channel sums; annotation, reset and normalisation as functions.
- `Weights`: capacities `Finite(v) | Inf`, the two boundary weights, the two terminal weights, and the texture penalty.
- `MaxFlow`: the solver's graph handle. It only records the edges and terminal pairs it is given.
- `Grid`: the emitted graph as a function of what one call reads (`Scene`), with its counts, shapes, hard seed constraints and finite-cut consequences.
- `Masks`: the local mask, saturating and wrapping 8-bit addition, and seed labelling.
- `Back`: the class `Cutter` with its arrays `hist` (`array3<real>`) and `mask` (`array2<byte>`), its reassigned fields `pixelList` and `lastBbox`, and the graph-construction loop `BuildGraph`.

The state invariant `Cutter.Valid` ties the histogram array to a ghost value `model`. It also requires, for each class:
- every bin is non-negative;
- the three channel sums are equal;
- the class has a seed exactly when the sums are non-zero;
- until the histograms are normalised, every sum equals the number of annotations recorded for that class since the last reset (ghost `calls`).

`Segment` returns the graph it built, or null when the guard aborts or, in intensity mode, when taking the class means would raise an IndexError (`MeansIndexable`). The original returns nothing. The graph is returned so that its contents can be stated.

Two error paths of the code are kept as written:
- Annotation channel values of 256 or more index past the 256 bins (back.py:50-52) and raise an IndexError. The model requires `r, g, b < 256`.
- The code does not check that each class has a seed inside the ROI before taking the class means (back.py:143-144). In intensity mode, taking the means raises an IndexError once a seed position lies outside the ROI's index range. `Segment` models that failure (`MeansIndexable`); the means themselves are parameters.

Compositing is the one place where the model does not follow the code. The code wraps modulo 256 (see Findings). The model composites with the intended saturation, and keeps the code's wrap in `Masks.WrapAdd`.

## Model

| member | source | states |
|---|---|---|
| Imaging.PixelMax | back.py:36-37 | the value is one of the three channels and bounds all three |
| Imaging.PixelMin | back.py:36 | the value is one of the three channels and is below all three |
| Imaging.ImageMax | back.py:37 | the largest channel value of the whole image, folded row by row; its bound and attainment are `ImageMaxIsMax` |
| Imaging.ImageMin | back.py:36 | the smallest channel value of the whole image, folded row by row; its bound and attainment are `ImageMinIsMin` |
| Imaging.RowMaxIsMax | back.py:36-37 | the row maximum bounds every pixel's largest channel and is attained by some pixel of the row |
| Imaging.RowMinIsMin | back.py:36 | the row minimum is below every pixel's smallest channel and is attained by some pixel of the row |
| Imaging.ImageMaxIsMax | back.py:36-37 | the image maximum bounds every channel value in the image and is attained by some pixel |
| Imaging.ImageMinIsMin | back.py:36 | the image minimum is below every channel value in the image and is attained by some pixel |
| Imaging.Roi | back.py:130-131 | the ROI has h rows of w pixels, and ROI pixel (i, j) is image pixel (y + i, x + j) |
| Imaging.RoiWithinImageRange | back.py:131 | every ROI pixel has unit-range channels that lie between the minimum and maximum of the whole image, which is where D and M come from |
| Histograms.Sum | back.py:150-151 | the total of one channel's bins, the divisor `np.sum` computes; its properties are `SumZeroIff`, `SumUpdate` and `SumScaled` |
| Histograms.Scaled | back.py:150-151 | same length; every bin times the divisor gives back the old bin |
| Histograms.SumZeroIff | back.py:125 | a channel of non-negative bins has a non-negative sum, and the sum is zero exactly when every bin is zero |
| Histograms.SumUpdate | back.py:50-52 | replacing one bin changes the channel sum by the difference |
| Histograms.SumScaled | back.py:150-151 | dividing every bin by t divides the sum by t |
| Histograms.Empty | back.py:35 | a 2 × 3 × 256 histogram whose bins are all zero |
| Histograms.BumpedChannels | back.py:50-52 | bins r, g and b of channels 0, 1 and 2 grow by one; every other bin is unchanged |
| Histograms.Bumped | back.py:50-52 | in class obj, bins r, g and b grow by one; every other bin of both classes is unchanged |
| Histograms.BumpedChannelSums | back.py:50-52 | an annotation adds one to each channel sum of its class |
| Histograms.BumpedSums | back.py:50-52 | each channel sum of class obj grows by one; the other class's sums are unchanged |
| Histograms.Normalized | back.py:149-151 | every bin of both classes is divided by the sum of its own channel |
| Histograms.NormalizedClass | back.py:149-151 | every bin of the class is divided by the sum of its own channel |
| Histograms.NormalizedSums | back.py:149-151 | after normalisation every channel of both classes sums to one |
| Histograms.ScaledSumsToOne | back.py:150-151 | a channel divided by its own non-zero sum sums to one |
| Weights.MaxAbsDiff | back.py:61 | the largest per-channel absolute difference: it bounds and equals one of the three differences, and is zero exactly for equal pixels |
| Weights.Simple | back.py:56-61 | the intensity boundary weight is at most D, and equals D exactly for equal pixels |
| Weights.SimpleSymmetric | back.py:61 | the intensity boundary weight is symmetric in p and q |
| Weights.SimpleWithinRange | back.py:61 | for pixels inside [lo, hi] with D = hi - lo, the intensity boundary weight lies in [0, D] |
| Weights.TermSimple | back.py:63-66 | the intensity terminal weight is at most M, and equals M exactly when the pixel equals the class mean on every channel |
| Weights.TermSimpleAtLeastMin | back.py:63-66 | with the mean and the pixel inside [lo, M], the intensity terminal weight is at least lo |
| Weights.Probabilistic | back.py:68-70 | the Gaussian boundary weight exp(-m²/2) of the largest channel contrast m; its symmetry and bounds are the two lemmas below |
| Weights.Gaussian | back.py:69-70 | the Gaussian exp(-m²/(2·sigma²)) of a contrast m; its bounds for sigma = 1 are `GaussianBounds` |
| Weights.ProbabilisticSymmetric | back.py:68-70 | the Gaussian boundary weight is symmetric in p and q |
| Weights.GaussianBounds | back.py:69-70 | with sigma = 1, exp(-m²/2) lies in (0, 1] and does not grow with m |
| Weights.ProbabilisticBounds | back.py:68-70 | the Gaussian boundary weight lies in (0, 1], and a larger contrast gives no larger weight |
| Weights.Bin | back.py:80 | the bin of a unit-range channel value v is in 0..255 and is v·255 truncated |
| Weights.BinSum | back.py:78-81 | the accumulated bin values are non-negative, and zero exactly when every bin read is zero |
| Weights.TermProbabilistic | back.py:72-84 | the histogram terminal weight is Inf exactly when the pixel's three bins in the selected histogram are zero, and otherwise finite and non-negative; s selects hist[0] |
| Weights.Pairwise | back.py:139-147 | the boundary weight `self.w` of the selected mode: `simple` in intensity mode, `probabilistic` in histogram mode |
| Weights.PairwiseSymmetric | back.py:139-147 | the boundary weight of either mode is symmetric |
| Weights.Terminal | back.py:139-147 | in intensity mode the terminal weight is finite and at most M; in histogram mode a finite value is non-negative |
| Weights.Penalty | back.py:133-136 | the texture penalty lies in [0, 1], is 0 with textures off, and is the distance itself when that lies in [0, 1] |
| MaxFlow.GraphFloat.constructor | back.py:153-154 | a new graph has no edges and no terminal pairs |
| MaxFlow.GraphFloat.AddEdge | back.py:168-173 | appends exactly the given edge; the terminal pairs are unchanged |
| MaxFlow.GraphFloat.AddTedge | back.py:176-180 | appends exactly the given terminal pair; the edges are unchanged |
| Grid.EdgeWeight | back.py:166-171 | the capacity of the edge between neighbours p and q, the mode's boundary weight less the texture penalty; its bounds are `EdgeCapacity` |
| Grid.PixelTEdge | back.py:175-180 | the terminal pair of one pixel, with the object test first; the emitted pairs' capacities are `TEdgeCapacities` |
| Grid.NeighbourEdge | back.py:166-173 | the edge between neighbours p and q, added with the same capacity `weight` in both directions |
| Grid.PixelEdges | back.py:165-173 | the edges pixel (i, j) emits: the down edge when a row below exists, then the right edge when a column to the right exists; their facts are `PixelEdgesFacts` |
| Grid.RowEdges | back.py:163-173 | the edges of the first n pixels of row i, in emission order; their count and shape are `RowEdgesCount` and `RowEdgesShape` |
| Grid.GridEdges | back.py:157-173 | the edges of the first m rows, in emission order; the edge list `BuildGraph` and `Segment` are proved to emit, characterised by `EdgeCount` |
| Grid.RowTEdges | back.py:163-180 | the terminal pairs of the first n pixels of row i, in column order; their facts are `RowTEdgesFacts` |
| Grid.GridTEdges | back.py:157-180 | the terminal pairs of the first m rows, in emission order; the list `BuildGraph` and `Segment` are proved to emit, characterised by `TEdgesOnePerPixel` and `TEdgeCapacities` |
| Grid.PixelEdgesFacts | back.py:165-173 | a pixel emits one edge per existing lower or right neighbour, each well formed, starting at the pixel |
| Grid.RowEdgesCount | back.py:163-173 | the number of edges emitted by the first n pixels of a row |
| Grid.RowEdgesShape | back.py:163-173 | every edge of a row is well formed and starts in that row |
| Grid.RowHasDown | back.py:165-168 | a row above the last row emits the down edge of each of its pixels |
| Grid.RowHasRight | back.py:170-173 | a row emits the right edge of each pixel with a right neighbour |
| Grid.GridEdgesCount | back.py:157-173 | the number of edges after the first m rows |
| Grid.GridEdgesShape | back.py:157-173 | every emitted edge is well formed and starts in the rows walked so far |
| Grid.GridHasDown | back.py:157-168 | every down edge of the rows walked so far is emitted |
| Grid.GridHasRight | back.py:157-173 | every right edge of the rows walked so far is emitted |
| Grid.EdgeCount | back.py:154-173 | an h × w ROI gets exactly h(w-1) + w(h-1) edges, each joining a pixel to its lower or right neighbour with equal capacity both ways, and every such neighbour pair gets its edge |
| Grid.EdgeCapacity | back.py:166-173 | each edge's capacity is the boundary weight minus a penalty c, with c in [0, 1] and c = 0 with textures off; forward and reverse capacities are equal |
| Grid.RowTEdgesFacts | back.py:163-180 | a row emits one terminal pair per pixel, in column order |
| Grid.GridTEdgesCount | back.py:157-180 | m rows emit m·w terminal pairs |
| Grid.GridTEdgesEntries | back.py:157-180 | every terminal pair emitted belongs to a pixel of the rows walked so far and is that pixel's pair |
| Grid.GridTEdgesOrdered | back.py:157-180 | terminal pairs are emitted in strict row-major order of their pixels |
| Grid.GridTEdgesComplete | back.py:157-180 | every pixel of the rows walked so far has its terminal pair emitted |
| Grid.TEdgesOnePerPixel | back.py:157-180 | an h × w ROI gets exactly h·w terminal pairs: every pixel has one, no pixel has two, and each is that pixel's pair |
| Grid.TEdgeCapacities | back.py:175-180 | an object seed gets (inf, 0) even when it is also a background seed; a background-only seed gets (0, inf); any other pixel gets its source-side and sink-side terminal weights |
| Grid.HardSeedsFixSide | back.py:175-178 | under any finite cut, object seeds end on the source side and background-only seeds on the sink side |
| Grid.SimpleModeHasFiniteCut | back.py:175-180 | in intensity mode only seeds carry infinite capacity, so a finite cut always exists: the partition `SeedSides`, which puts exactly the background-only seeds on the sink side |
| Grid.UnseenColourBlocksFiniteCut | back.py:72-84 | in histogram mode, an unseeded pixel whose bins are empty in both histograms has no finite cut |
| Masks.LocalMask | back.py:186-188 | the local mask has the shape of the partition |
| Masks.LocalMaskLabels | back.py:186-188 | each local mask cell is 0 or classnum, and is classnum exactly on the source side when classnum is not 0 |
| Masks.SatAdd | back.py:191 | the sum of two mask values clipped to 255: never below either operand, exact when it fits |
| Masks.WrapAdd | back.py:191 | the sum modulo 256, as 8-bit array addition computes it |
| Masks.WrapAddLosesPaint | back.py:191 | whenever the true sum exceeds 255, the wrapped sum is below both operands and differs from the saturated one |
| Masks.WrapAddExample | back.py:191 | 128 + 128 wraps to 0 but saturates to 255 |
| Masks.SeedsLabelled | back.py:175-188 | under any finite cut, the local mask holds classnum at every object seed and 0 at every background-only seed |
| Back.BuildGraph | back.py:153-180 | a fresh graph whose edges and terminal pairs are exactly those of every pixel in row-major order |
| Back.EmitRow | back.py:163-180 | one pass of the inner loop appends the edges and terminal pairs of one row |
| Back.EmitPixel | back.py:165-180 | one step appends the pixel's neighbour edges, then its terminal pair |
| Back.NoSeedsIffZero | back.py:125 | under the invariant, a class has no seed exactly when every bin is zero |
| Back.EmptyClassConsistent | back.py:88-91 | a zeroed class with no seeds and no annotations satisfies the class invariant |
| Back.EmptyConsistent | back.py:88-91 | the fresh and the reset state satisfy the invariant |
| Back.BumpClassConsistent | back.py:49-52 | one annotation keeps the class invariant: the seed joins the set, and the sums and the count grow by one |
| Back.BumpConsistent | back.py:48-52 | one annotation keeps the invariant for both classes |
| Back.SeedAdded | back.py:49 | adding a position grows a seed set by at most one and leaves it non-empty |
| Back.SeedReAdded | back.py:49 | adding a position already present leaves the seed sets unchanged |
| Back.NormalizeClassConsistent | back.py:149-151 | normalising a class that has seeds keeps its invariant and leaves each channel summing to one |
| Back.NormalizeConsistent | back.py:149-151 | normalising keeps the invariant once both classes have seeds, and every channel sums to one |
| Back.Cutter.Snapshot | back.py:35 | the histogram array read back as a value, bin for bin |
| Back.Cutter.SnapshotIs | back.py:35 | an array holding h reads back as h |
| Back.Cutter.NoData | back.py:125 | the guard's test for one class, every bin zero; for non-negative bins this is `np.max(...) == 0`, and `NoDataIffNoSeeds` relates it to the seed set |
| Back.Cutter.MeansIndexable | back.py:143-144 | every recorded seed position indexes the h × w ROI without an IndexError, negative indices counting from the end |
| Back.Cutter.NoDataIffNoSeeds | back.py:125 | the guard's "no data" for a class holds exactly when its seed set is empty |
| Back.Cutter.constructor | back.py:35-40 | zeroed histograms; D and M are the global range and maximum; empty seed sets; zeroed mask of the image size; no last box |
| Back.Cutter.ClearMask | back.py:42-45 | with no last box the mask is unchanged; otherwise exactly the last box is zeroed and every other cell is unchanged |
| Back.Cutter.UpdateData | back.py:48-52 | (y, x) joins seed set obj, and re-adding leaves the sets unchanged; bins r, g, b of class obj grow by one and nothing else changes; the invariant is kept |
| Back.Cutter.Count | back.py:50-52 | the array grows by one at bins r, g, b of class obj and is unchanged elsewhere |
| Back.Cutter.ClearHist | back.py:88-91 | every bin is zero, both seed sets are empty, and the annotation counts restart |
| Back.Cutter.NormalizeHist | back.py:149-151 | the histograms become their normalised value, each channel sums to one, and the invariant is kept |
| Back.Cutter.DivideBySums | back.py:149-151 | the in-place loop leaves every bin divided by its channel's original sum |
| Back.Cutter.SceneOf | back.py:129-147 | what the loop reads: the ROI of the whole image, its size, the two seed sets, and the energy with the image-wide D and M and the current histograms |
| Back.Cutter.Composite | back.py:191 | each cell inside the box becomes the saturating sum of its old value and the local value; cells outside are unchanged |
| Back.Cutter.Prepare | back.py:129-151 | remembers the box; normalises the histograms in histogram mode and leaves them alone in intensity mode |
| Back.Cutter.Extract | back.py:129-191 | the segmentation past the guard: box remembered, histograms as per mode, graph exactly the grid's, mask composited in the box only |
| Back.Cutter.Segment | back.py:114-191 | with no data for a class (equivalently, no seeds) it changes nothing and builds no graph; otherwise, in intensity mode, a seed position outside the ROI's index range fails after the box is remembered, with nothing else changed and no graph; otherwise it performs Extract |

## Left out

- Image loading in the constructor (back.py:26-32): `imread`, `resize`, `img_as_float` and the stacking of grey images are I/O and library work. The constructor takes the loaded image as a non-empty rectangular value with channels in [0, 1].
- Output: `output_image` and `imsave` (back.py:34, 192), the guard's message (back.py:126), the other progress messages and the progress bar (back.py:155-161, 182-190) are I/O and UI.
- The default arguments of the call, `classnum=255`, `mode='simple'` and `use_textures=True` (back.py:114), are not modelled: `Segment` takes every argument explicitly. Its `progress` argument is UI.
- `texture` (back.py:93-110) is floating-point convolution in a foreign library. The texture distance between two ROI pixels is a parameter `texDist`; only its clipping into the penalty is modelled.
- The class means `O` and `B` (back.py:143-144) are `np.mean` over the seed pixels. Their values are parameters. Whether the indexing they do succeeds is modelled (`MeansIndexable`).
- The max-flow solve and `get_grid_segments` (back.py:183, 187) belong to a foreign library. The partition is the result of a parameter `solve`.
- `exp` and `log` are function parameters. The Gaussian bounds assume only the facts named in `Weights.ExpFacts`.
- Reals stand in for 64-bit floats: no rounding, NaN or infinite arithmetic. The literal `float('inf')` capacities are `Cap.Inf`.
- The attributes `self.w`, `self.tw`, `self.O` and `self.B` (back.py:139-147) become the `Energy` value of one call. An unrecognised mode string is not modelled: the code would reuse weight functions left by an earlier call or fail. `Mode` has only the two known values.
- Back.Cutter.Segment: requires the box to lie inside the image. For a box that does not, the slice at back.py:131 shrinks to the part inside the image, but the loop still walks the box's full h × w, so an index past the shrunk slice can raise an IndexError. In intensity mode the first such failure can be the class means (back.py:143-144), when a seed lies outside the shrunk slice. Otherwise it comes at `image[(i+1, j)]`, `image[(i, j+1)]` or the terminal weight (back.py:166, 171, 180). Whether it fails depends on which pixels are read: a 1×1 box whose only pixel is a seed reads no pixel in the loop. By then `last_bbox` has been set (back.py:129) and, in histogram mode, the histograms have been normalised (back.py:149-151). That failure and its partial state change are not modelled.
- Back.Cutter.UpdateData: requires `0 <= obj < 2` and channel values in 0..255. In the code, `obj` of 2 or more raises an IndexError before any change, and a negative `obj` counts from the end of the list. A channel value of 256 or more raises an IndexError after `(y, x)` has already joined the seed set (back.py:49) and after the bins of the earlier channels have been incremented (back.py:50-51). Negative channel values count from the end of the bins. None of these paths is modelled.
- Weights.TermProbabilistic: the finite value is `max(-log(pr), 0)` with `log` a parameter. Its contract states only that the value is non-negative.
- Seeds are matched against ROI-local positions `(i, j)` in the loop (back.py:175-177), while `update_data` records whole-image positions (back.py:49). For a box not at the origin, a recorded seed therefore constrains the ROI pixel at the same numbers, not the pixel that was annotated. The model keeps this as written: `Scene` holds the seed sets unchanged, and `HardSeedsFixSide` is stated for ROI-local positions. It is not listed as a finding: the class means at back.py:143-144 also index the ROI with the recorded positions, and back.py:49 carries a note to check the pixel coordinates, so the intended convention is unclear.
- front.py, main.py and graph.py are not part of this model.

## Findings

| source | as written | input that shows it | evidently intended | confidence | as-written member | corrected member |
|---|---|---|---|---|---|---|
| back.py:191 | `self.mask[...] + mask` adds two `uint8` arrays, which wraps modulo 256 before `np.clip` runs, so the clip never acts | a cell already holding 128, composited again with classnum 128, becomes 0 (background) instead of 255 | the sum clipped to 255, as the `np.clip(…, 0, 255)` shows | not executed; high | Masks.WrapAddLosesPaint | Masks.SatAdd (used by `Back.Cutter.Composite`) |
