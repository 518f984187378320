/** The per-region label mask built from the solver's partition, and how it is composited into the
    persistent 8-bit mask. */
module Masks {
  import opened Grid

  /** An unsigned 8-bit mask value. */
  newtype byte = x: int | 0 <= x < 256

  /** classnum on the source side of the partition (seg false) and 0 on the sink side (seg true). */
  function LocalMask(seg: seq<seq<bool>>, classnum: byte): (m: seq<seq<byte>>)
    ensures |m| == |seg| && forall i :: 0 <= i < |seg| ==> |m[i]| == |seg[i]|
  {
    seq(|seg|, i requires 0 <= i < |seg| => seq(|seg[i]|, j requires 0 <= j < |seg[i]| => if seg[i][j] then 0 else classnum))
  }

  /** The local mask takes exactly two values, and tells the partition's sides apart whenever classnum
      is not 0. */
  lemma LocalMaskLabels(seg: seq<seq<bool>>, classnum: byte, i: nat, j: nat)
    requires i < |seg| && j < |seg[i]|
    ensures LocalMask(seg, classnum)[i][j] == 0 || LocalMask(seg, classnum)[i][j] == classnum
    ensures classnum != 0 ==> (LocalMask(seg, classnum)[i][j] == classnum <==> !seg[i][j])
  {
  }

  /** Saturating 8-bit addition: the sum, clipped to 255. */
  function SatAdd(a: byte, b: byte): (r: byte)
    ensures a <= r && b <= r
    ensures a as int + b as int <= 255 ==> r as int == a as int + b as int
    ensures a as int + b as int > 255 ==> r == 255
  {
    if a as int + b as int > 255 then 255 else (a as int + b as int) as byte
  }

  /** 8-bit addition as the array arithmetic performs it: modulo 256. */
  function WrapAdd(a: byte, b: byte): (r: byte)
    ensures (r as int - (a as int + b as int)) % 256 == 0
  {
    ((a as int + b as int) % 256) as byte
  }

  /** Whenever the exact sum leaves the byte range, wrapping yields less than either operand: a cell
      painted by two overlapping extractions loses its label, where saturation would keep it. */
  lemma WrapAddLosesPaint(a: byte, b: byte)
    requires a as int + b as int > 255
    ensures WrapAdd(a, b) < a && WrapAdd(a, b) < b
    ensures WrapAdd(a, b) != SatAdd(a, b)
  {
  }

  /** Two extractions of class 128 over the same cell composite to 0, i.e. to background. */
  lemma WrapAddExample()
    ensures WrapAdd(128, 128) == 0 && SatAdd(128, 128) == 255
  {
  }

  /** Under any finite cut, the local mask holds classnum at every object seed of the region and 0 at
      every background seed that is not also an object seed. */
  lemma SeedsLabelled(s: Scene, seg: seq<seq<bool>>, classnum: byte)
    requires ValidScene(s) && FiniteCut(s, GridTEdges(s, s.h), seg)
    ensures forall i, j :: 0 <= i < s.h && 0 <= j < s.w && (i, j) in s.objSeeds ==>
      LocalMask(seg, classnum)[i][j] == classnum
    ensures forall i, j :: 0 <= i < s.h && 0 <= j < s.w && (i, j) in s.bgSeeds && (i, j) !in s.objSeeds ==>
      LocalMask(seg, classnum)[i][j] == 0
  {
    HardSeedsFixSide(s, seg);
  }
}
