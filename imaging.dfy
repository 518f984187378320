/** Pixels, images, regions of interest and the global intensity extremes the segmenter reads. */
module Imaging {

  /** An RGB pixel of floating-point channel values. A grayscale image is stacked into three equal channels on load. */
  datatype Pixel = Pixel(r: real, g: real, b: real)
  {
    /** Channel d of the pixel, in the order r, g, b. */
    function Channel(d: nat): real
      requires d < 3
    {
      if d == 0 then r else if d == 1 then g else b
    }
  }

  /** A (row, column) position. */
  type Coord = (int, int)

  /** An image as a sequence of rows of pixels. */
  type Image = seq<seq<Pixel>>

  /** A region of interest: left column x, top row y, width w and height h. */
  datatype BBox = BBox(x: nat, y: nat, w: nat, h: nat)

  /** m has h rows of w entries each. */
  predicate Shaped<T>(m: seq<seq<T>>, h: nat, w: nat)
  {
    |m| == h && forall i :: 0 <= i < h ==> |m[i]| == w
  }

  /** Every channel lies in [0, 1], the range of a floating-point image produced on load. */
  predicate InUnitRange(p: Pixel)
  {
    0.0 <= p.r <= 1.0 && 0.0 <= p.g <= 1.0 && 0.0 <= p.b <= 1.0
  }

  predicate UnitImage(img: Image)
  {
    forall i, j :: 0 <= i < |img| && 0 <= j < |img[i]| ==> InUnitRange(img[i][j])
  }

  /** A loaded image: non-empty, rectangular, with unit-range channels. */
  predicate ValidImage(img: Image)
  {
    |img| > 0 && |img[0]| > 0 && Shaped(img, |img|, |img[0]|) && UnitImage(img)
  }

  /** The box lies inside an image of h rows and w columns. */
  predicate InBounds(bbox: BBox, h: nat, w: nat)
  {
    bbox.x + bbox.w <= w && bbox.y + bbox.h <= h
  }

  /** Cell (i, j) of the full image lies inside the box. */
  predicate InRect(bbox: BBox, i: int, j: int)
  {
    bbox.y <= i < bbox.y + bbox.h && bbox.x <= j < bbox.x + bbox.w
  }

  function Max(a: real, b: real): real { if a < b then b else a }

  function Min(a: real, b: real): real { if a < b then a else b }

  /** Largest channel of p. */
  function PixelMax(p: Pixel): (r: real)
    ensures p.r <= r && p.g <= r && p.b <= r
    ensures r == p.r || r == p.g || r == p.b
  {
    Max(Max(p.r, p.g), p.b)
  }

  /** Smallest channel of p. */
  function PixelMin(p: Pixel): (r: real)
    ensures r <= p.r && r <= p.g && r <= p.b
    ensures r == p.r || r == p.g || r == p.b
  {
    Min(Min(p.r, p.g), p.b)
  }

  /** Largest channel value in a non-empty row. */
  function RowMax(row: seq<Pixel>): real
    requires |row| > 0
  {
    if |row| == 1 then PixelMax(row[0]) else Max(RowMax(row[..|row| - 1]), PixelMax(row[|row| - 1]))
  }

  /** Smallest channel value in a non-empty row. */
  function RowMin(row: seq<Pixel>): real
    requires |row| > 0
  {
    if |row| == 1 then PixelMin(row[0]) else Min(RowMin(row[..|row| - 1]), PixelMin(row[|row| - 1]))
  }

  predicate RowsNonEmpty(img: Image)
  {
    |img| > 0 && forall i :: 0 <= i < |img| ==> |img[i]| > 0
  }

  /** The largest channel value anywhere in the image. */
  function ImageMax(img: Image): real
    requires RowsNonEmpty(img)
  {
    if |img| == 1 then RowMax(img[0]) else Max(ImageMax(img[..|img| - 1]), RowMax(img[|img| - 1]))
  }

  /** The smallest channel value anywhere in the image. */
  function ImageMin(img: Image): real
    requires RowsNonEmpty(img)
  {
    if |img| == 1 then RowMin(img[0]) else Min(ImageMin(img[..|img| - 1]), RowMin(img[|img| - 1]))
  }

  /** RowMax bounds every pixel's largest channel, and some pixel attains it. */
  lemma {:induction false} RowMaxIsMax(row: seq<Pixel>)
    requires |row| > 0
    ensures forall j :: 0 <= j < |row| ==> PixelMax(row[j]) <= RowMax(row)
    ensures exists j :: 0 <= j < |row| && PixelMax(row[j]) == RowMax(row)
  {
    if |row| > 1 {
      var front := row[..|row| - 1];
      RowMaxIsMax(front);
      assert RowMax(row) == Max(RowMax(front), PixelMax(row[|row| - 1]));
      forall j | 0 <= j < |row| ensures PixelMax(row[j]) <= RowMax(row) {
        if j < |front| { assert front[j] == row[j]; }
      }
      var j :| 0 <= j < |front| && PixelMax(front[j]) == RowMax(front);
      assert front[j] == row[j];
      if RowMax(row) != RowMax(front) {
        j := |row| - 1;
      }
      assert PixelMax(row[j]) == RowMax(row);
    } else {
      assert PixelMax(row[0]) == RowMax(row);
    }
  }

  /** RowMin bounds every pixel's smallest channel from below, and some pixel attains it. */
  lemma {:induction false} RowMinIsMin(row: seq<Pixel>)
    requires |row| > 0
    ensures forall j :: 0 <= j < |row| ==> RowMin(row) <= PixelMin(row[j])
    ensures exists j :: 0 <= j < |row| && PixelMin(row[j]) == RowMin(row)
  {
    if |row| > 1 {
      var front := row[..|row| - 1];
      RowMinIsMin(front);
      assert RowMin(row) == Min(RowMin(front), PixelMin(row[|row| - 1]));
      forall j | 0 <= j < |row| ensures RowMin(row) <= PixelMin(row[j]) {
        if j < |front| { assert front[j] == row[j]; }
      }
      var j :| 0 <= j < |front| && PixelMin(front[j]) == RowMin(front);
      assert front[j] == row[j];
      if RowMin(row) != RowMin(front) {
        j := |row| - 1;
      }
      assert PixelMin(row[j]) == RowMin(row);
    } else {
      assert PixelMin(row[0]) == RowMin(row);
    }
  }

  /** ImageMax bounds every pixel's largest channel, and some pixel attains it. */
  lemma {:induction false} ImageMaxIsMax(img: Image)
    requires RowsNonEmpty(img)
    ensures forall i, j :: 0 <= i < |img| && 0 <= j < |img[i]| ==> PixelMax(img[i][j]) <= ImageMax(img)
    ensures exists i, j :: 0 <= i < |img| && 0 <= j < |img[i]| && PixelMax(img[i][j]) == ImageMax(img)
  {
    var last := |img| - 1;
    RowMaxIsMax(img[last]);
    if |img| > 1 {
      var front := img[..last];
      assert forall i :: 0 <= i < |front| ==> front[i] == img[i];
      ImageMaxIsMax(front);
      var i, j :| 0 <= i < |front| && 0 <= j < |front[i]| && PixelMax(front[i][j]) == ImageMax(front);
      if ImageMax(img) != ImageMax(front) {
        i, j :| i == last && 0 <= j < |img[last]| && PixelMax(img[last][j]) == RowMax(img[last]);
      }
      assert PixelMax(img[i][j]) == ImageMax(img);
    }
  }

  /** ImageMin bounds every pixel's smallest channel from below, and some pixel attains it. */
  lemma {:induction false} ImageMinIsMin(img: Image)
    requires RowsNonEmpty(img)
    ensures forall i, j :: 0 <= i < |img| && 0 <= j < |img[i]| ==> ImageMin(img) <= PixelMin(img[i][j])
    ensures exists i, j :: 0 <= i < |img| && 0 <= j < |img[i]| && PixelMin(img[i][j]) == ImageMin(img)
  {
    var last := |img| - 1;
    RowMinIsMin(img[last]);
    if |img| > 1 {
      var front := img[..last];
      assert forall i :: 0 <= i < |front| ==> front[i] == img[i];
      ImageMinIsMin(front);
      var i, j :| 0 <= i < |front| && 0 <= j < |front[i]| && PixelMin(front[i][j]) == ImageMin(front);
      if ImageMin(img) != ImageMin(front) {
        i, j :| i == last && 0 <= j < |img[last]| && PixelMin(img[last][j]) == RowMin(img[last]);
      }
      assert PixelMin(img[i][j]) == ImageMin(img);
    }
  }

  /** The part of the image inside the box, re-indexed from (0, 0). */
  function Roi(img: Image, bbox: BBox): (roi: Image)
    requires |img| >= bbox.y + bbox.h
    requires forall i :: bbox.y <= i < bbox.y + bbox.h ==> |img[i]| >= bbox.x + bbox.w
    ensures Shaped(roi, bbox.h, bbox.w)
    ensures forall i, j :: 0 <= i < bbox.h && 0 <= j < bbox.w ==> roi[i][j] == img[bbox.y + i][bbox.x + j]
  {
    seq(bbox.h, i requires 0 <= i < bbox.h => img[bbox.y + i][bbox.x .. bbox.x + bbox.w])
  }

  /** Every ROI pixel of a loaded image has unit-range channels lying between the image's extremes. */
  lemma RoiWithinImageRange(img: Image, bbox: BBox)
    requires ValidImage(img) && InBounds(bbox, |img|, |img[0]|)
    ensures UnitImage(Roi(img, bbox))
    ensures forall i, j :: 0 <= i < bbox.h && 0 <= j < bbox.w ==>
      ImageMin(img) <= PixelMin(Roi(img, bbox)[i][j]) && PixelMax(Roi(img, bbox)[i][j]) <= ImageMax(img)
  {
    var roi := Roi(img, bbox);
    ImageMaxIsMax(img);
    ImageMinIsMin(img);
    forall i, j | 0 <= i < bbox.h && 0 <= j < bbox.w
      ensures InUnitRange(roi[i][j])
      ensures ImageMin(img) <= PixelMin(roi[i][j]) && PixelMax(roi[i][j]) <= ImageMax(img)
    {
      assert roi[i][j] == img[bbox.y + i][bbox.x + j];
    }
  }
}
