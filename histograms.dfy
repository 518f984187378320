/** The class histograms as values: their shape, channel sums, and the three ways the segmenter
    changes them (counting an annotation, clearing, normalising). */
module Histograms {

  /** Two classes (0 background, 1 object) of three channels of 256 bins. */
  type Hist = seq<seq<seq<real>>>

  predicate ClassShape(ch: seq<seq<real>>)
  {
    |ch| == 3 && forall d :: 0 <= d < 3 ==> |ch[d]| == 256
  }

  predicate HistShape(hist: Hist)
  {
    |hist| == 2 && ClassShape(hist[0]) && ClassShape(hist[1])
  }

  predicate ClassNonNegative(ch: seq<seq<real>>)
    requires ClassShape(ch)
  {
    forall d, k :: 0 <= d < 3 && 0 <= k < 256 ==> ch[d][k] >= 0.0
  }

  /** Total of the bins of one histogram channel. */
  function Sum(s: seq<real>): real
  {
    if |s| == 0 then 0.0 else s[0] + Sum(s[1..])
  }

  predicate AllNonNegative(s: seq<real>)
  {
    forall k :: 0 <= k < |s| ==> s[k] >= 0.0
  }

  /** Every bin divided by t, the in-place normalisation of one channel. */
  function Scaled(s: seq<real>, t: real): (r: seq<real>)
    requires t != 0.0
    ensures |r| == |s|
    ensures forall k :: 0 <= k < |s| ==> r[k] * t == s[k]
  {
    seq(|s|, k requires 0 <= k < |s| => s[k] / t)
  }

  /** A channel of non-negative bins sums to zero exactly when every bin is zero. */
  lemma {:induction false} SumZeroIff(s: seq<real>)
    requires AllNonNegative(s)
    ensures Sum(s) >= 0.0
    ensures Sum(s) == 0.0 <==> forall k :: 0 <= k < |s| ==> s[k] == 0.0
  {
    if |s| > 0 {
      var tail := s[1..];
      assert forall k :: 0 <= k < |tail| ==> tail[k] == s[k + 1];
      SumZeroIff(tail);
      if Sum(s) == 0.0 {
        forall k | 0 <= k < |s| ensures s[k] == 0.0 {
          if k > 0 { assert s[k] == tail[k - 1]; }
        }
      }
    }
  }

  /** Replacing one bin changes the channel's sum by the difference. */
  lemma {:induction false} SumUpdate(s: seq<real>, k: nat, v: real)
    requires k < |s|
    ensures Sum(s[k := v]) == Sum(s) - s[k] + v
  {
    if k == 0 {
      assert s[k := v][1..] == s[1..];
    } else {
      assert s[k := v][1..] == s[1..][k - 1 := v];
      SumUpdate(s[1..], k - 1, v);
    }
  }

  /** Dividing every bin by t divides the sum by t. */
  lemma {:induction false} SumScaled(s: seq<real>, t: real)
    requires t != 0.0
    ensures Sum(Scaled(s, t)) == Sum(s) / t
  {
    if |s| > 0 {
      assert Scaled(s, t)[1..] == Scaled(s[1..], t);
      SumScaled(s[1..], t);
      assert Scaled(s, t)[0] == s[0] / t;
    }
  }

  /** The histograms as they are created and as a reset leaves them: every bin zero. */
  function Empty(): (h: Hist)
    ensures HistShape(h)
    ensures forall c, d, k :: 0 <= c < 2 && 0 <= d < 3 && 0 <= k < 256 ==> h[c][d][k] == 0.0
  {
    seq(2, c => seq(3, d => seq(256, k => 0.0)))
  }

  /** One annotation with channel values r, g, b, counted in one class: one more count in bin r of
      channel 0, bin g of channel 1 and bin b of channel 2. */
  function BumpedChannels(ch: seq<seq<real>>, r: nat, g: nat, b: nat): (ch': seq<seq<real>>)
    requires ClassShape(ch) && r < 256 && g < 256 && b < 256
    ensures ClassShape(ch')
    ensures forall d, k :: 0 <= d < 3 && 0 <= k < 256 ==>
      ch'[d][k] == ch[d][k] + (if k == [r, g, b][d] then 1.0 else 0.0)
  {
    [ch[0][r := ch[0][r] + 1.0], ch[1][g := ch[1][g] + 1.0], ch[2][b := ch[2][b] + 1.0]]
  }

  /** An annotation of class obj: that class's channels bumped, the other class untouched. */
  function Bumped(h: Hist, obj: nat, r: nat, g: nat, b: nat): (h': Hist)
    requires HistShape(h) && obj < 2 && r < 256 && g < 256 && b < 256
    ensures HistShape(h')
    ensures forall c, d, k :: 0 <= c < 2 && 0 <= d < 3 && 0 <= k < 256 ==>
      h'[c][d][k] == h[c][d][k] + (if c == obj && k == [r, g, b][d] then 1.0 else 0.0)
  {
    h[obj := BumpedChannels(h[obj], r, g, b)]
  }

  /** An annotation adds one to every channel sum of its class. */
  lemma BumpedChannelSums(ch: seq<seq<real>>, r: nat, g: nat, b: nat)
    requires ClassShape(ch) && r < 256 && g < 256 && b < 256
    ensures forall d :: 0 <= d < 3 ==> Sum(BumpedChannels(ch, r, g, b)[d]) == Sum(ch[d]) + 1.0
  {
    var ch' := BumpedChannels(ch, r, g, b);
    SumUpdate(ch[0], r, ch[0][r] + 1.0);
    SumUpdate(ch[1], g, ch[1][g] + 1.0);
    SumUpdate(ch[2], b, ch[2][b] + 1.0);
  }

  /** An annotation adds one to every channel sum of its class and leaves the other class alone. */
  lemma BumpedSums(h: Hist, obj: nat, r: nat, g: nat, b: nat)
    requires HistShape(h) && obj < 2 && r < 256 && g < 256 && b < 256
    ensures forall c, d :: 0 <= c < 2 && 0 <= d < 3 ==>
      Sum(Bumped(h, obj, r, g, b)[c][d]) == Sum(h[c][d]) + (if c == obj then 1.0 else 0.0)
  {
    BumpedChannelSums(h[obj], r, g, b);
  }

  /** Every channel of both classes divided by its own sum. */
  function Normalized(h: Hist): (h': Hist)
    requires HistShape(h) && forall c, d :: 0 <= c < 2 && 0 <= d < 3 ==> Sum(h[c][d]) != 0.0
    ensures HistShape(h')
    ensures forall c, d, k :: 0 <= c < 2 && 0 <= d < 3 && 0 <= k < 256 ==>
      h'[c][d][k] == h[c][d][k] / Sum(h[c][d])
  {
    [NormalizedClass(h[0]), NormalizedClass(h[1])]
  }

  /** The three channels of one class, each divided by its own sum. */
  function NormalizedClass(ch: seq<seq<real>>): (ch': seq<seq<real>>)
    requires |ch| == 3 && Sum(ch[0]) != 0.0 && Sum(ch[1]) != 0.0 && Sum(ch[2]) != 0.0
    ensures |ch'| == 3 && forall d :: 0 <= d < 3 ==> |ch'[d]| == |ch[d]|
    ensures forall d, k :: 0 <= d < 3 && 0 <= k < |ch[d]| ==> ch'[d][k] == ch[d][k] / Sum(ch[d])
  {
    [Scaled(ch[0], Sum(ch[0])), Scaled(ch[1], Sum(ch[1])), Scaled(ch[2], Sum(ch[2]))]
  }

  /** After normalisation every channel sums to one. */
  lemma NormalizedSums(h: Hist)
    requires HistShape(h) && forall c, d :: 0 <= c < 2 && 0 <= d < 3 ==> Sum(h[c][d]) != 0.0
    ensures forall c, d :: 0 <= c < 2 && 0 <= d < 3 ==> Sum(Normalized(h)[c][d]) == 1.0
  {
    forall c, d | 0 <= c < 2 && 0 <= d < 3 ensures Sum(Normalized(h)[c][d]) == 1.0 {
      assert Normalized(h)[c][d] == Scaled(h[c][d], Sum(h[c][d]));
      ScaledSumsToOne(h[c][d]);
    }
  }

  /** A channel divided by its own non-zero sum sums to one. */
  lemma ScaledSumsToOne(s: seq<real>)
    requires Sum(s) != 0.0
    ensures Sum(Scaled(s, Sum(s))) == 1.0
  {
    var t := Sum(s);
    SumScaled(s, t);
    assert t / t == 1.0;
  }

  /** A bin divided by a positive sum keeps its sign, and stays non-zero when it was. */
  lemma QuotientSign(v: real, t: real)
    requires t > 0.0
    ensures v >= 0.0 ==> v / t >= 0.0
    ensures v != 0.0 ==> v / t != 0.0
  {
  }
}
