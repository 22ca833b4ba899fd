/**
 * The pixel buffer of a TGA image: `width * height` pixels of `bytespp`
 * bytes each, row-major, each row left to right. The in-place operations of
 * tgaimage.cpp (the two flips and the resampler) all build their result by
 * copying whole pixels of the old buffer into the new one; `Gather` states
 * that shape once: output pixel k is input pixel src[k].
 */
module Pixels {
  import opened Arith
  import opened Bytes

  /**
   * The `bpp` bytes of pixel number p, which start at byte offset p * bpp.
   * Total for convenience: a pixel that does not fit in `s` reads as [].
   */
  function PixelAt(s: seq<byte>, bpp: nat, p: nat): seq<byte>
  {
    Distrib(p, 1, bpp);
    if (p + 1) * bpp <= |s| then s[p * bpp .. (p + 1) * bpp] else []
  }

  /** The pixel at column x of row y of a buffer `w` pixels wide: byte offset (x + y * w) * bpp. */
  function Pix(s: seq<byte>, w: nat, bpp: nat, x: nat, y: nat): seq<byte>
  {
    PixelAt(s, bpp, x + y * w)
  }

  /** Every source index names a pixel that lies inside a buffer of `len` bytes. */
  ghost predicate Fits(src: seq<nat>, bpp: nat, len: nat)
  {
    forall k :: 0 <= k < |src| ==> (src[k] + 1) * bpp <= len
  }

  /** The buffer whose pixel k is pixel src[k] of `s`. */
  function Gather(s: seq<byte>, bpp: nat, src: seq<nat>): (r: seq<byte>)
    requires Fits(src, bpp, |s|)
    ensures |r| == |src| * bpp
  {
    if src == [] then []
    else
      var k := |src| - 1;
      FitsInit(src, bpp, |s|);
      PixelAtLength(s, bpp, src[k]);
      Gather(s, bpp, src[..k]) + PixelAt(s, bpp, src[k])
  }

  /** Dropping the last index keeps the list fitting; the last index fits, and adds bpp bytes. */
  lemma FitsInit(src: seq<nat>, bpp: nat, len: nat)
    requires Fits(src, bpp, len) && |src| >= 1
    ensures Fits(src[..|src| - 1], bpp, len)
    ensures (src[|src| - 1] + 1) * bpp <= len
    ensures (|src| - 1) * bpp + bpp == |src| * bpp
  {
    Distrib(|src| - 1, 1, bpp);
  }

  /** A pixel that fits is bpp bytes long. */
  lemma PixelAtLength(s: seq<byte>, bpp: nat, p: nat)
    requires (p + 1) * bpp <= |s|
    ensures |PixelAt(s, bpp, p)| == bpp
  {
    Distrib(p, 1, bpp);
  }

  lemma BoundedFits(src: seq<nat>, n: nat, bpp: nat)
    requires forall k :: 0 <= k < |src| ==> src[k] < n
    ensures Fits(src, bpp, n * bpp)
  {
    forall k | 0 <= k < |src|
      ensures (src[k] + 1) * bpp <= n * bpp
    {
      MulMonotone(src[k] + 1, n, bpp);
    }
  }

  /** A pixel that lies in the left operand of a concatenation is read from it. */
  lemma PixelOfPrefix(a: seq<byte>, b: seq<byte>, bpp: nat, p: nat)
    requires (p + 1) * bpp <= |a|
    ensures PixelAt(a + b, bpp, p) == PixelAt(a, bpp, p)
  {
    Distrib(p, 1, bpp);
    assert (a + b)[p * bpp .. (p + 1) * bpp] == a[p * bpp .. (p + 1) * bpp];
  }

  /** Pixel (x, y) of a buffer is pixel (x, y) of its first w * h pixels. */
  lemma PixOfTake(s: seq<byte>, n: nat, w: nat, h: nat, bpp: nat, x: nat, y: nat)
    requires n == w * h * bpp <= |s| && x < w && y < h
    ensures Pix(s[..n], w, bpp, x, y) == Pix(s, w, bpp, x, y)
  {
    assert s == s[..n] + s[n..];
    PixOfPrefix(s[..n], s[n..], w, h, bpp, x, y);
  }

  /** Pixel (x, y) of a w x h buffer is unchanged by appending bytes to the buffer. */
  lemma PixOfPrefix(a: seq<byte>, b: seq<byte>, w: nat, h: nat, bpp: nat, x: nat, y: nat)
    requires |a| == w * h * bpp && x < w && y < h
    ensures Pix(a + b, w, bpp, x, y) == Pix(a, w, bpp, x, y)
  {
    var o, xo := RowPixelOffsets(w, h, bpp, x, y);
    PixelOfPrefix(a, b, bpp, x + y * w);
  }

  /** A pixel that lies in the right operand of a concatenation is read from it. */
  lemma PixelOfSuffix(a: seq<byte>, b: seq<byte>, bpp: nat, m: nat, p: nat)
    requires |a| == m * bpp
    ensures PixelAt(a + b, bpp, m + p) == PixelAt(b, bpp, p)
  {
    Distrib(p, 1, bpp);
    Distrib(m, p, bpp);
    Distrib(m + p, 1, bpp);
    if (p + 1) * bpp <= |b| {
      assert (a + b)[(m + p) * bpp .. (m + p + 1) * bpp] == b[p * bpp .. (p + 1) * bpp];
    }
  }

  /** Pixel k of a gathered buffer is the source pixel src[k]. */
  lemma {:induction false} GatherPixel(s: seq<byte>, bpp: nat, src: seq<nat>, k: nat)
    requires Fits(src, bpp, |s|) && k < |src|
    ensures PixelAt(Gather(s, bpp, src), bpp, k) == PixelAt(s, bpp, src[k])
  {
    var n := |src| - 1;
    FitsInit(src, bpp, |s|);
    var g := Gather(s, bpp, src[..n]);
    var last := PixelAt(s, bpp, src[n]);
    assert Gather(s, bpp, src) == g + last;
    if k < n {
      GatherPixel(s, bpp, src[..n], k);
      assert src[..n][k] == src[k];
      MulMonotone(k + 1, n, bpp);
      PixelOfPrefix(g, last, bpp, k);
    } else {
      PixelAtLength(s, bpp, src[n]);
      PixelOfSuffix(g, last, bpp, n, 0);
      PixelAtWhole(last, bpp);
    }
  }

  /** A buffer of exactly one pixel is its own pixel 0. */
  lemma PixelAtWhole(v: seq<byte>, bpp: nat)
    requires |v| == bpp
    ensures PixelAt(v, bpp, 0) == v
  {
  }

  lemma FitsAppend(a: seq<nat>, b: seq<nat>, bpp: nat, len: nat)
    requires Fits(a, bpp, len) && Fits(b, bpp, len)
    ensures Fits(a + b, bpp, len)
  {
    forall k | 0 <= k < |a + b|
      ensures ((a + b)[k] + 1) * bpp <= len
    {
      if k < |a| {
        assert (a + b)[k] == a[k];
      } else {
        assert (a + b)[k] == b[k - |a|];
      }
    }
  }

  /** Gathering along a concatenated index list concatenates the results. */
  lemma {:induction false} GatherAppend(s: seq<byte>, bpp: nat, a: seq<nat>, b: seq<nat>)
    requires Fits(a, bpp, |s|) && Fits(b, bpp, |s|)
    ensures Fits(a + b, bpp, |s|)
    ensures Gather(s, bpp, a + b) == Gather(s, bpp, a) + Gather(s, bpp, b)
  {
    FitsAppend(a, b, bpp, |s|);
    if b == [] {
      assert a + b == a;
    } else {
      var n := |b| - 1;
      var ab := a + b;
      assert ab[..|ab| - 1] == a + b[..n];
      assert ab[|ab| - 1] == b[n];
      assert b[..n] + [b[n]] == b;
      assert Fits(b[..n], bpp, |s|);
      GatherAppend(s, bpp, a, b[..n]);
      assert Gather(s, bpp, ab) == Gather(s, bpp, a + b[..n]) + PixelAt(s, bpp, b[n]);
      assert Gather(s, bpp, b) == Gather(s, bpp, b[..n]) + PixelAt(s, bpp, b[n]);
    }
  }

  /** Two buffers of n pixels that agree on every pixel are equal. */
  lemma {:induction false} SamePixels(a: seq<byte>, b: seq<byte>, bpp: nat, n: nat)
    requires |a| == n * bpp && |b| == n * bpp
    requires forall p :: 0 <= p < n ==> PixelAt(a, bpp, p) == PixelAt(b, bpp, p)
    ensures a == b
  {
    if n > 0 {
      var m := (n - 1) * bpp;
      PixelsInit(a, bpp, n, m);
      PixelsInit(b, bpp, n, m);
      SamePixels(a[..m], b[..m], bpp, n - 1);
    }
  }

  /** A buffer of n pixels is its first n - 1 pixels, which read as before, followed by pixel n - 1. */
  lemma PixelsInit(a: seq<byte>, bpp: nat, n: nat, m: nat)
    requires n > 0 && |a| == n * bpp && m == (n - 1) * bpp
    ensures m <= |a| && |a[..m]| == (n - 1) * bpp
    ensures a == a[..m] + PixelAt(a, bpp, n - 1)
    ensures forall p :: 0 <= p < n - 1 ==> PixelAt(a[..m], bpp, p) == PixelAt(a, bpp, p)
  {
    Distrib(n - 1, 1, bpp);
    assert a == a[..m] + a[m..];
    forall p | 0 <= p < n - 1
      ensures PixelAt(a[..m], bpp, p) == PixelAt(a, bpp, p)
    {
      MulMonotone(p + 1, n - 1, bpp);
      PixelOfPrefix(a[..m], a[m..], bpp, p);
    }
  }

  /** Gathering twice is gathering along the composed index list. */
  lemma GatherCompose(s: seq<byte>, bpp: nat, first: seq<nat>, second: seq<nat>, composed: seq<nat>)
    requires Fits(first, bpp, |s|)
    requires forall k :: 0 <= k < |second| ==> second[k] < |first|
    requires |composed| == |second|
    requires forall k :: 0 <= k < |second| ==> composed[k] == first[second[k]]
    ensures Fits(second, bpp, |Gather(s, bpp, first)|) && Fits(composed, bpp, |s|)
    ensures Gather(Gather(s, bpp, first), bpp, second) == Gather(s, bpp, composed)
  {
    var g := Gather(s, bpp, first);
    BoundedFits(second, |first|, bpp);
    ComposedFits(|s|, bpp, first, second, composed);
    var lhs := Gather(g, bpp, second);
    var rhs := Gather(s, bpp, composed);
    forall p | 0 <= p < |second|
      ensures PixelAt(lhs, bpp, p) == PixelAt(rhs, bpp, p)
    {
      GatherComposeAt(s, bpp, first, second, composed, p);
    }
    SamePixels(lhs, rhs, bpp, |second|);
  }

  /** Indices picked, through second, from a list of indices that fit a buffer fit it as well. */
  lemma ComposedFits(len: nat, bpp: nat, first: seq<nat>, second: seq<nat>, composed: seq<nat>)
    requires Fits(first, bpp, len)
    requires forall k :: 0 <= k < |second| ==> second[k] < |first|
    requires |composed| == |second|
    requires forall k :: 0 <= k < |second| ==> composed[k] == first[second[k]]
    ensures Fits(composed, bpp, len)
  {
    forall k | 0 <= k < |composed|
      ensures (composed[k] + 1) * bpp <= len
    {
      var i := second[k];
      assert composed[k] == first[i];
      assert (first[i] + 1) * bpp <= len;
    }
  }

  /** Pixel p of the composed gathering. */
  lemma GatherComposeAt(s: seq<byte>, bpp: nat, first: seq<nat>, second: seq<nat>, composed: seq<nat>, p: nat)
    requires Fits(first, bpp, |s|) && Fits(second, bpp, |Gather(s, bpp, first)|) && Fits(composed, bpp, |s|)
    requires p < |second| && second[p] < |first| && |composed| == |second| && composed[p] == first[second[p]]
    ensures PixelAt(Gather(Gather(s, bpp, first), bpp, second), bpp, p) == PixelAt(Gather(s, bpp, composed), bpp, p)
  {
    GatherPixel(Gather(s, bpp, first), bpp, second, p);
    GatherPixel(s, bpp, first, second[p]);
    GatherPixel(s, bpp, composed, p);
  }

  /** The identity index list 0, 1, ..., n - 1. */
  function Iota(n: nat): (r: seq<nat>)
    ensures |r| == n && forall k :: 0 <= k < n ==> r[k] == k
  {
    seq(n, k requires 0 <= k < n => k)
  }

  /** Gathering every pixel in order gives back the buffer. */
  lemma GatherIota(s: seq<byte>, bpp: nat, n: nat)
    requires |s| == n * bpp
    ensures Fits(Iota(n), bpp, |s|) && Gather(s, bpp, Iota(n)) == s
  {
    BoundedFits(Iota(n), n, bpp);
    forall p | 0 <= p < n
      ensures PixelAt(Gather(s, bpp, Iota(n)), bpp, p) == PixelAt(s, bpp, p)
    {
      GatherPixel(s, bpp, Iota(n), p);
    }
    SamePixels(Gather(s, bpp, Iota(n)), s, bpp, n);
  }

  // ---------------------------------------------------------------------
  // Vertical flip: rows are "pixels" of w * bpp bytes, taken in reverse order.

  /** The row order h - 1, h - 2, ..., 0. */
  function Reversal(h: nat): (r: seq<nat>)
    ensures |r| == h && forall k :: 0 <= k < h ==> r[k] == h - 1 - k
  {
    seq(h, k requires 0 <= k < h => h - 1 - k)
  }

  /** The buffer with scanline j exchanged with scanline h - 1 - j. */
  function FlipVertical(s: seq<byte>, w: nat, h: nat, bpp: nat): (r: seq<byte>)
    requires |s| == w * h * bpp
    ensures |r| == |s|
  {
    Assoc(h, w, bpp);
    BoundedFits(Reversal(h), h, w * bpp);
    Gather(s, w * bpp, Reversal(h))
  }

  /** Row r of the vertically flipped buffer is row h - 1 - r of the original. */
  lemma FlipVerticalRow(s: seq<byte>, w: nat, h: nat, bpp: nat, r: nat)
    requires |s| == w * h * bpp && r < h
    ensures PixelAt(FlipVertical(s, w, h, bpp), w * bpp, r) == PixelAt(s, w * bpp, h - 1 - r)
  {
    Assoc(h, w, bpp);
    BoundedFits(Reversal(h), h, w * bpp);
    GatherPixel(s, w * bpp, Reversal(h), r);
  }

  /** Flipping vertically twice restores the buffer. */
  lemma FlipVerticalInvolution(s: seq<byte>, w: nat, h: nat, bpp: nat)
    requires |s| == w * h * bpp
    ensures FlipVertical(FlipVertical(s, w, h, bpp), w, h, bpp) == s
  {
    var f := FlipVertical(s, w, h, bpp);
    var ff := FlipVertical(f, w, h, bpp);
    Assoc(h, w, bpp);
    forall r | 0 <= r < h
      ensures PixelAt(ff, w * bpp, r) == PixelAt(s, w * bpp, r)
    {
      FlipVerticalRow(f, w, h, bpp, r);
      FlipVerticalRow(s, w, h, bpp, h - 1 - r);
    }
    SamePixels(ff, s, w * bpp, h);
  }

  /** Pixel (x, y) of the vertically flipped buffer is pixel (x, h - 1 - y) of the original. */
  lemma FlipVerticalPixel(s: seq<byte>, w: nat, h: nat, bpp: nat, x: nat, y: nat)
    requires |s| == w * h * bpp && x < w && y < h
    ensures Pix(FlipVertical(s, w, h, bpp), w, bpp, x, y) == Pix(s, w, bpp, x, h - 1 - y)
  {
    FlipVerticalRow(s, w, h, bpp, y);
    RowPixel(FlipVertical(s, w, h, bpp), w, h, bpp, x, y);
    RowPixel(s, w, h, bpp, x, h - 1 - y);
  }

  // ---------------------------------------------------------------------
  // Horizontal flip: pixel (x, y) comes from pixel (w - 1 - x, y).

  /** Pixel x + y * w is mapped to pixel (w - 1 - x) + y * w. */
  function Mirror(w: nat, h: nat): (r: seq<nat>)
    ensures |r| == w * h
  {
    if w == 0 then [] else seq(w * h, p requires 0 <= p < w * h => MirroredIndex(w, p))
  }

  /** The index of the pixel in the same row as pixel p and at the mirrored column. */
  function MirroredIndex(w: nat, p: nat): nat
    requires w > 0
  {
    var y: nat := p / w;
    MulMonotone(0, y, w);
    y * w + (w - 1 - p % w)
  }

  lemma MirrorAt(w: nat, h: nat, x: nat, y: nat)
    requires x < w && y < h
    ensures x + y * w < w * h
    ensures Mirror(w, h)[x + y * w] == (w - 1 - x) + y * w
  {
    MulMonotone(y + 1, h, w);
    DivModUnique(x + y * w, w, y, x);
  }

  /** Every pixel index p < w * h is x + y * w for a column x < w and a row y < h. */
  lemma Decompose(w: nat, h: nat, p: nat) returns (x: nat, y: nat)
    requires p < w * h
    ensures x < w && y < h && p == x + y * w
  {
    x, y := p % w, p / w;
    if y >= h {
      MulMonotone(h, y, w);
    }
  }

  lemma MirrorInRange(w: nat, h: nat)
    ensures forall p :: 0 <= p < w * h ==> Mirror(w, h)[p] < w * h
  {
    forall p | 0 <= p < w * h
      ensures Mirror(w, h)[p] < w * h
    {
      var x, y := Decompose(w, h, p);
      MirrorAt(w, h, x, y);
      MirrorAt(w, h, w - 1 - x, y);
    }
  }

  /** The buffer with column i exchanged with column w - 1 - i in every row. */
  function FlipHorizontal(s: seq<byte>, w: nat, h: nat, bpp: nat): (r: seq<byte>)
    requires |s| == w * h * bpp
    ensures |r| == |s|
  {
    MirrorInRange(w, h);
    BoundedFits(Mirror(w, h), w * h, bpp);
    Gather(s, bpp, Mirror(w, h))
  }

  /** Pixel (x, y) of the horizontally flipped buffer is pixel (w - 1 - x, y) of the original. */
  lemma FlipHorizontalPixel(s: seq<byte>, w: nat, h: nat, bpp: nat, x: nat, y: nat)
    requires |s| == w * h * bpp && x < w && y < h
    ensures Pix(FlipHorizontal(s, w, h, bpp), w, bpp, x, y) == Pix(s, w, bpp, w - 1 - x, y)
  {
    MirrorInRange(w, h);
    BoundedFits(Mirror(w, h), w * h, bpp);
    assert FlipHorizontal(s, w, h, bpp) == Gather(s, bpp, Mirror(w, h));
    MirrorAt(w, h, x, y);
    MulMonotone(0, y, w);
    var p: nat := x + y * w;
    GatherPixel(s, bpp, Mirror(w, h), p);
  }

  /** Flipping horizontally twice restores the buffer. */
  lemma FlipHorizontalInvolution(s: seq<byte>, w: nat, h: nat, bpp: nat)
    requires |s| == w * h * bpp
    ensures FlipHorizontal(FlipHorizontal(s, w, h, bpp), w, h, bpp) == s
  {
    var f := FlipHorizontal(s, w, h, bpp);
    var ff := FlipHorizontal(f, w, h, bpp);
    forall p | 0 <= p < w * h
      ensures PixelAt(ff, bpp, p) == PixelAt(s, bpp, p)
    {
      var x, y := Decompose(w, h, p);
      FlipHorizontalPixel(f, w, h, bpp, x, y);
      FlipHorizontalPixel(s, w, h, bpp, w - 1 - x, y);
    }
    SamePixels(ff, s, bpp, w * h);
  }

  /** The two flips commute, so orientation normalisation does not depend on their order. */
  lemma FlipsCommute(s: seq<byte>, w: nat, h: nat, bpp: nat)
    requires |s| == w * h * bpp
    ensures FlipHorizontal(FlipVertical(s, w, h, bpp), w, h, bpp)
         == FlipVertical(FlipHorizontal(s, w, h, bpp), w, h, bpp)
  {
    var v := FlipVertical(s, w, h, bpp);
    var hf := FlipHorizontal(s, w, h, bpp);
    var vh := FlipHorizontal(v, w, h, bpp);
    var hv := FlipVertical(hf, w, h, bpp);
    forall p | 0 <= p < w * h
      ensures PixelAt(vh, bpp, p) == PixelAt(hv, bpp, p)
    {
      var x, y := Decompose(w, h, p);
      FlipHorizontalPixel(v, w, h, bpp, x, y);
      RowPixel(v, w, h, bpp, w - 1 - x, y);
      FlipVerticalRow(s, w, h, bpp, y);
      RowPixel(s, w, h, bpp, w - 1 - x, h - 1 - y);
      RowPixel(hv, w, h, bpp, x, y);
      FlipVerticalRow(hf, w, h, bpp, y);
      RowPixel(hf, w, h, bpp, x, h - 1 - y);
      FlipHorizontalPixel(s, w, h, bpp, x, h - 1 - y);
    }
    SamePixels(vh, hv, bpp, w * h);
  }

  /** Pixel (x, y) lies at byte x * bpp of row y, a row being w * bpp bytes. */
  lemma RowPixel(s: seq<byte>, w: nat, h: nat, bpp: nat, x: nat, y: nat)
    requires |s| == w * h * bpp && x < w && y < h
    ensures Pix(s, w, bpp, x, y) == PixelAt(PixelAt(s, w * bpp, y), bpp, x)
  {
    var L := w * bpp;
    var o, xo := RowPixelOffsets(w, h, bpp, x, y);
    PixelAtIs(s, bpp, x + y * w, xo + o);
    PixelAtIs(s, L, y, o);
    var row := s[o .. o + L];
    PixelAtIs(row, bpp, x, xo);
    SliceOfSlice(s, o, L, xo, bpp);
  }

  /** Byte offsets of row y and of column x within it. */
  lemma RowPixelOffsets(w: nat, h: nat, bpp: nat, x: nat, y: nat) returns (o: nat, xo: nat)
    requires x < w && y < h
    ensures o == y * (w * bpp) && xo == x * bpp
    ensures (x + y * w) * bpp == xo + o
    ensures xo + bpp <= w * bpp
    ensures o + w * bpp <= w * h * bpp
  {
    var L := w * bpp;
    o, xo := y * L, x * bpp;
    Distrib(x, y * w, bpp);
    Assoc(y, w, bpp);
    Distrib(x, 1, bpp);
    MulMonotone(x + 1, w, bpp);
    Distrib(y, 1, L);
    MulMonotone(y + 1, h, L);
    Assoc(h, w, bpp);
  }

  lemma SliceOfSlice(s: seq<byte>, o: nat, len: nat, i: nat, n: nat)
    requires o + len <= |s| && i + n <= len
    ensures s[o .. o + len][i .. i + n] == s[o + i .. o + i + n]
  {
    var a, b := s[o .. o + len][i .. i + n], s[o + i .. o + i + n];
    assert |a| == |b|;
    forall k | 0 <= k < n ensures a[k] == b[k] {
      assert a[k] == s[o .. o + len][i + k];
    }
  }

  /** PixelAt reads the `bpp` bytes at the pixel's offset. */
  lemma PixelAtIs(s: seq<byte>, bpp: nat, p: nat, lo: nat)
    requires lo == p * bpp && lo + bpp <= |s|
    ensures PixelAt(s, bpp, p) == s[lo .. lo + bpp]
  {
    Distrib(p, 1, bpp);
  }

  // ---------------------------------------------------------------------
  // Resampling: the error-accumulation pass of scale picks, for output index
  // x of n, the original index i of n0 with i * n < (x + 1) * n0 <= (i + 1) * n.

  /** The original column (or row) that output column (or row) x of n is copied from. */
  function SrcIndex(x: nat, n0: nat, n: nat): nat
    requires n >= 1 && n0 >= 1
  {
    ((x + 1) * n0 - 1) / n
  }

  /** SrcIndex is the unique i whose error interval contains x: i * n < (x + 1) * n0 <= (i + 1) * n. */
  lemma SrcIndexBetween(x: nat, n0: nat, n: nat, i: nat)
    requires n >= 1 && n0 >= 1
    ensures SrcIndex(x, n0, n) == i <==> i * n < (x + 1) * n0 <= (i + 1) * n
  {
    var t := (x + 1) * n0 - 1;
    Distrib(i, 1, n);
    if i * n < (x + 1) * n0 <= (i + 1) * n {
      DivModUnique(t, n, i, t - i * n);
    }
  }

  /** Output indices below n map to original indices below n0. */
  lemma SrcIndexInRange(x: nat, n0: nat, n: nat)
    requires n >= 1 && n0 >= 1 && x < n
    ensures SrcIndex(x, n0, n) < n0
  {
    var i := SrcIndex(x, n0, n);
    SrcIndexBetween(x, n0, n, i);
    MulMonotone(x + 1, n, n0);
    MulCancelLt(i, n0, n);
  }

  /**
   * The error counter of scale: after original index i has added its n,
   * err == (i + 1) * n - k * n0 for the k outputs emitted so far. While
   * err >= n0 the next output, number k, copies original index i.
   */
  lemma SrcIndexByError(k: nat, i: nat, n0: nat, n: nat, err: int)
    requires n0 >= 1 && n >= 1 && i < n0
    requires err == (i + 1) * n - k * n0 && n0 <= err < n0 + n
    ensures SrcIndex(k, n0, n) == i && k < n
    ensures err - n0 == (i + 1) * n - (k + 1) * n0
  {
    Distrib(k, 1, n0);
    Distrib(i, 1, n);
    SrcIndexBetween(k, n0, n, i);
    MulMonotone(i + 1, n0, n);
    MulCancelLe(k + 1, n, n0);
  }

  /** Once all n0 original indices have added their n, exactly n outputs have been emitted. */
  lemma ErrorCountEnd(k: nat, n0: nat, n: nat, err: int)
    requires n0 >= 1 && err == n0 * n - k * n0 && 0 <= err < n0
    ensures k == n
  {
    if k < n {
      MulMonotone(k + 1, n, n0);
      Distrib(k, 1, n0);
    } else if k > n {
      MulMonotone(n + 1, k, n0);
      Distrib(n, 1, n0);
    }
  }

  /** Before original index i < n0 is processed (err >= 0), fewer than n outputs have been emitted. */
  lemma ErrorCountBelow(k: nat, i: nat, n0: nat, n: nat, err: int)
    requires n0 >= 1 && n >= 1 && i < n0 && err == i * n - k * n0 && 0 <= err
    ensures k < n
  {
    if k >= n {
      MulMonotone(n, k, n0);
      MulStrict(i, n0, n);
    }
  }

  /** The source indices never decrease along the output. */
  lemma SrcIndexMonotone(x: nat, x': nat, n0: nat, n: nat)
    requires n >= 1 && n0 >= 1 && x <= x'
    ensures SrcIndex(x, n0, n) <= SrcIndex(x', n0, n)
  {
    var i, i' := SrcIndex(x, n0, n), SrcIndex(x', n0, n);
    SrcIndexBetween(x, n0, n, i);
    SrcIndexBetween(x', n0, n, i');
    MulMonotone(x + 1, x' + 1, n0);
    if i > i' {
      MulMonotone(i' + 1, i, n);
    }
  }

  /** Doubling a dimension repeats every original index twice. */
  lemma SrcIndexDouble(x: nat, n0: nat)
    requires n0 >= 1
    ensures SrcIndex(x, n0, 2 * n0) == x / 2
  {
    var i := x / 2;
    assert x == 2 * i || x == 2 * i + 1;
    assert i * (2 * n0) == 2 * i * n0;
    assert (i + 1) * (2 * n0) == (2 * i + 2) * n0;
    MulStrict(2 * i, x + 1, n0);
    MulMonotone(x + 1, 2 * i + 2, n0);
    SrcIndexBetween(x, n0, 2 * n0, i);
  }

  /** Keeping a dimension maps every index to itself. */
  lemma SrcIndexSame(x: nat, n0: nat)
    requires n0 >= 1
    ensures SrcIndex(x, n0, n0) == x
  {
    Distrib(x, 1, n0);
    SrcIndexBetween(x, n0, n0, x);
  }

  /** Source pixels of one output row: column SrcIndex(x) of original row `row`. */
  function RowSources(w0: nat, w: nat, row: nat): (r: seq<nat>)
    requires w0 >= 1 && w >= 1
    ensures |r| == w
  {
    seq(w, x requires 0 <= x < w => SrcIndex(x, w0, w) + row * w0)
  }

  lemma RowSourcesBound(w0: nat, h0: nat, w: nat, row: nat)
    requires w0 >= 1 && w >= 1 && row < h0
    ensures forall x :: 0 <= x < w ==> RowSources(w0, w, row)[x] < w0 * h0
  {
    assert row * w0 + w0 <= w0 * h0 by {
      MulMonotone(row + 1, h0, w0);
      Distrib(row, 1, w0);
    }
    forall x | 0 <= x < w
      ensures RowSources(w0, w, row)[x] < w0 * h0
    {
      SrcIndexInRange(x, w0, w);
    }
  }

  /** Source pixels of the first `lines` output rows; output row y copies original row SrcIndex(y). */
  function ScaleSources(w0: nat, h0: nat, w: nat, h: nat, lines: nat): (r: seq<nat>)
    requires w0 >= 1 && h0 >= 1 && w >= 1 && h >= 1 && lines <= h
    ensures |r| == lines * w
    ensures forall k :: 0 <= k < |r| ==> r[k] < w0 * h0
  {
    if lines == 0 then []
    else
      var prev := ScaleSources(w0, h0, w, h, lines - 1);
      var row := SrcIndex(lines - 1, h0, h);
      var cur := RowSources(w0, w, row);
      SrcIndexInRange(lines - 1, h0, h);
      RowSourcesBound(w0, h0, w, row);
      Distrib(lines - 1, 1, w);
      BelowAppend(prev, cur, w0 * h0);
      prev + cur
  }

  lemma BelowAppend(a: seq<nat>, b: seq<nat>, n: nat)
    requires forall k :: 0 <= k < |a| ==> a[k] < n
    requires forall k :: 0 <= k < |b| ==> b[k] < n
    ensures forall k :: 0 <= k < |a + b| ==> (a + b)[k] < n
  {
  }

  /** The buffer resampled from w0 x h0 to w x h pixels. */
  function Scaled(s: seq<byte>, w0: nat, h0: nat, bpp: nat, w: nat, h: nat): (r: seq<byte>)
    requires w0 >= 1 && h0 >= 1 && w >= 1 && h >= 1 && |s| == w0 * h0 * bpp
  {
    var src := ScaleSources(w0, h0, w, h, h);
    Assoc(w0, h0, bpp);
    BoundedFits(src, w0 * h0, bpp);
    Gather(s, bpp, src)
  }

  lemma {:induction false} ScaleSourcesAt(w0: nat, h0: nat, w: nat, h: nat, lines: nat, x: nat, y: nat)
    requires w0 >= 1 && h0 >= 1 && w >= 1 && h >= 1 && lines <= h && x < w && y < lines
    ensures x + y * w < |ScaleSources(w0, h0, w, h, lines)|
    ensures ScaleSources(w0, h0, w, h, lines)[x + y * w] == SrcIndex(x, w0, w) + SrcIndex(y, h0, h) * w0
  {
    MulMonotone(y + 1, lines, w);
    Distrib(lines - 1, 1, w);
    if y < lines - 1 {
      ScaleSourcesAt(w0, h0, w, h, lines - 1, x, y);
      MulMonotone(y + 1, lines - 1, w);
    }
  }

  /**
   * The resampled buffer has w * h pixels, and pixel (x, y) is the original
   * pixel (SrcIndex(x, w0, w), SrcIndex(y, h0, h)).
   */
  lemma ScaledPixel(s: seq<byte>, w0: nat, h0: nat, bpp: nat, w: nat, h: nat, x: nat, y: nat)
    requires w0 >= 1 && h0 >= 1 && w >= 1 && h >= 1 && |s| == w0 * h0 * bpp
    requires x < w && y < h
    ensures |Scaled(s, w0, h0, bpp, w, h)| == w * h * bpp
    ensures Pix(Scaled(s, w0, h0, bpp, w, h), w, bpp, x, y)
         == Pix(s, w0, bpp, SrcIndex(x, w0, w), SrcIndex(y, h0, h))
  {
    var src := ScaleSources(w0, h0, w, h, h);
    Assoc(w0, h0, bpp);
    Assoc(h, w, bpp);
    BoundedFits(src, w0 * h0, bpp);
    assert Scaled(s, w0, h0, bpp, w, h) == Gather(s, bpp, src);
    ScaleSourcesAt(w0, h0, w, h, h, x, y);
    MulMonotone(0, y, w);
    var p: nat := x + y * w;
    GatherPixel(s, bpp, src, p);
  }

  /** Scaling to the same dimensions leaves the buffer as it is. */
  lemma ScaledSame(s: seq<byte>, w0: nat, h0: nat, bpp: nat)
    requires w0 >= 1 && h0 >= 1 && |s| == w0 * h0 * bpp
    ensures Scaled(s, w0, h0, bpp, w0, h0) == s
  {
    var r := Scaled(s, w0, h0, bpp, w0, h0);
    Assoc(w0, h0, bpp);
    forall p | 0 <= p < w0 * h0
      ensures PixelAt(r, bpp, p) == PixelAt(s, bpp, p)
    {
      var x, y := Decompose(w0, h0, p);
      ScaledPixel(s, w0, h0, bpp, w0, h0, x, y);
      SrcIndexSame(x, w0);
      SrcIndexSame(y, h0);
    }
    ScaledPixel(s, w0, h0, bpp, w0, h0, 0, 0);
    SamePixels(r, s, bpp, w0 * h0);
  }

  /** Doubling both dimensions turns every original pixel into a 2 x 2 block. */
  lemma ScaledDouble(s: seq<byte>, w0: nat, h0: nat, bpp: nat, x: nat, y: nat)
    requires w0 >= 1 && h0 >= 1 && |s| == w0 * h0 * bpp
    requires x < 2 * w0 && y < 2 * h0
    ensures Pix(Scaled(s, w0, h0, bpp, 2 * w0, 2 * h0), 2 * w0, bpp, x, y) == Pix(s, w0, bpp, x / 2, y / 2)
  {
    ScaledPixel(s, w0, h0, bpp, 2 * w0, 2 * h0, x, y);
    SrcIndexDouble(x, w0);
    SrcIndexDouble(y, h0);
  }

  /**
   * The first x pixels of an output row resampled from original row j:
   * original columns SrcIndex(0), ..., SrcIndex(x - 1) of that row.
   */
  function RowPrefix(s: seq<byte>, w0: nat, h0: nat, bpp: nat, w: nat, j: nat, x: nat): (r: seq<byte>)
    requires w0 >= 1 && w >= 1 && j < h0 && x <= w && |s| == w0 * h0 * bpp
    ensures |r| == x * bpp
  {
    var src := RowSources(w0, w, j)[..x];
    RowSourcesBound(w0, h0, w, j);
    Assoc(w0, h0, bpp);
    BoundedFits(src, w0 * h0, bpp);
    Gather(s, bpp, src)
  }

  /** One more output pixel of the row: a copy of original pixel (SrcIndex(x), j). */
  lemma RowPrefixNext(s: seq<byte>, w0: nat, h0: nat, bpp: nat, w: nat, j: nat, x: nat)
    requires w0 >= 1 && w >= 1 && j < h0 && x < w && |s| == w0 * h0 * bpp
    ensures RowPrefix(s, w0, h0, bpp, w, j, x + 1)
         == RowPrefix(s, w0, h0, bpp, w, j, x) + PixelAt(s, bpp, SrcIndex(x, w0, w) + j * w0)
  {
    var src := RowSources(w0, w, j)[..x + 1];
    assert src[..x] == RowSources(w0, w, j)[..x];
    RowSourcesBound(w0, h0, w, j);
    Assoc(w0, h0, bpp);
    BoundedFits(src, w0 * h0, bpp);
  }

  /** The first `lines` rows of the resampled buffer. */
  function ScaledLines(s: seq<byte>, w0: nat, h0: nat, bpp: nat, w: nat, h: nat, lines: nat): (r: seq<byte>)
    requires w0 >= 1 && h0 >= 1 && w >= 1 && h >= 1 && lines <= h && |s| == w0 * h0 * bpp
    ensures |r| == lines * w * bpp
  {
    var src := ScaleSources(w0, h0, w, h, lines);
    Assoc(w0, h0, bpp);
    Assoc(lines, w, bpp);
    BoundedFits(src, w0 * h0, bpp);
    Gather(s, bpp, src)
  }

  /** Output row `lines` is the whole of original row SrcIndex(lines), resampled. */
  lemma ScaledLinesNext(s: seq<byte>, w0: nat, h0: nat, bpp: nat, w: nat, h: nat, lines: nat)
    requires w0 >= 1 && h0 >= 1 && w >= 1 && h >= 1 && lines < h && |s| == w0 * h0 * bpp
    ensures SrcIndex(lines, h0, h) < h0
    ensures ScaledLines(s, w0, h0, bpp, w, h, lines + 1)
         == ScaledLines(s, w0, h0, bpp, w, h, lines) + RowPrefix(s, w0, h0, bpp, w, SrcIndex(lines, h0, h), w)
  {
    var row := SrcIndex(lines, h0, h);
    SrcIndexInRange(lines, h0, h);
    var prev := ScaleSources(w0, h0, w, h, lines);
    var cur := RowSources(w0, w, row);
    assert cur[..w] == cur;
    Assoc(w0, h0, bpp);
    BoundedFits(prev, w0 * h0, bpp);
    RowSourcesBound(w0, h0, w, row);
    BoundedFits(cur, w0 * h0, bpp);
    GatherAppend(s, bpp, prev, cur);
  }

  // ---------------------------------------------------------------------
  // In-place updates: the flips exchange two pixels (or two rows) at a time.

  /** The buffer with the bytes from offset `off` on replaced by v (memcpy / memmove into s). */
  function Splice(s: seq<byte>, off: nat, v: seq<byte>): (r: seq<byte>)
    requires off + |v| <= |s|
    ensures |r| == |s|
    ensures r[off .. off + |v|] == v
    ensures r[..off] == s[..off] && r[off + |v| ..] == s[off + |v| ..]
  {
    s[..off] + v + s[off + |v| ..]
  }

  /** Writing v over all of s yields v. */
  lemma SpliceWhole(s: seq<byte>, v: seq<byte>)
    requires |v| == |s|
    ensures Splice(s, 0, v) == v
  {
    assert s[..0] + v + s[|v|..] == v;
  }

  /** Writing a at off, then b right after it, writes a + b at off. */
  lemma SpliceAppend(s: seq<byte>, off: nat, a: seq<byte>, b: seq<byte>)
    requires off + |a| + |b| <= |s|
    ensures Splice(Splice(s, off, a), off + |a|, b) == Splice(s, off, a + b)
  {
    assert Splice(s, off, a)[..off + |a|] == s[..off] + a;
  }

  /** A slice is the slice up to a middle point followed by the slice from there on. */
  lemma SliceSplit(u: seq<byte>, a: nat, b: nat, c: nat)
    requires a <= b <= c <= |u|
    ensures u[a .. c] == u[a .. b] + u[b .. c]
  {
  }

  /** Writing a at off, then b at mid just after it, writes ab = a + b at off. */
  lemma SpliceGrow(s: seq<byte>, off: nat, a: seq<byte>, b: seq<byte>, mid: nat, ab: seq<byte>)
    requires mid == off + |a| && mid + |b| <= |s| && ab == a + b
    ensures Splice(Splice(s, off, a), mid, b) == Splice(s, off, ab)
  {
    SpliceAppend(s, off, a, b);
  }

  /** Writing v right after the first `len` bytes of a region from `base` extends that region by v. */
  lemma SpliceExtends(s: seq<byte>, base: nat, len: nat, v: seq<byte>)
    requires base + len + |v| <= |s|
    ensures Splice(s, base + len, v)[..base] == s[..base]
    ensures Splice(s, base + len, v)[base .. base + len + |v|] == s[base .. base + len] + v
  {
    var r := Splice(s, base + len, v);
    assert r[base .. base + len + |v|] == r[base .. base + len] + r[base + len .. base + len + |v|];
    assert r[base .. base + len] == r[..base + len][base..];
  }

  /** The buffer with pixel p replaced by v. */
  function SetPixel(s: seq<byte>, bpp: nat, p: nat, v: seq<byte>): (r: seq<byte>)
    requires |v| == bpp && (p + 1) * bpp <= |s|
    ensures |r| == |s|
  {
    Distrib(p, 1, bpp);
    Splice(s, p * bpp, v)
  }

  /** After SetPixel, pixel p reads v and every other pixel reads as before. */
  lemma SetPixelAt(s: seq<byte>, bpp: nat, p: nat, v: seq<byte>, q: nat)
    requires |v| == bpp && (p + 1) * bpp <= |s|
    ensures PixelAt(SetPixel(s, bpp, p, v), bpp, q) == if q == p then v else PixelAt(s, bpp, q)
  {
    var r := SetPixel(s, bpp, p, v);
    Distrib(p, 1, bpp);
    Distrib(q, 1, bpp);
    if q < p {
      MulMonotone(q + 1, p, bpp);
      if (q + 1) * bpp <= |s| {
        assert r[q * bpp .. (q + 1) * bpp] == r[..p * bpp][q * bpp .. (q + 1) * bpp];
      }
    } else if q > p {
      MulMonotone(p + 1, q, bpp);
      if (q + 1) * bpp <= |s| {
        var o := (p + 1) * bpp;
        assert r[q * bpp .. (q + 1) * bpp] == r[o..][q * bpp - o .. (q + 1) * bpp - o];
        assert s[q * bpp .. (q + 1) * bpp] == s[o..][q * bpp - o .. (q + 1) * bpp - o];
      }
    }
  }

  /**
   * Writing the bytes of pixel q over pixel p, then the old bytes of pixel p
   * over pixel q, exchanges the two pixels.
   */
  lemma ExchangeBySplices(s: seq<byte>, bpp: nat, p: nat, q: nat, o1: nat, o2: nat, c1: seq<byte>, c2: seq<byte>)
    requires o1 == p * bpp && o2 == q * bpp && o1 + bpp <= |s| && o2 + bpp <= |s|
    requires c1 == s[o1 .. o1 + bpp] && c2 == s[o2 .. o2 + bpp]
    ensures (p + 1) * bpp <= |s| && (q + 1) * bpp <= |s|
    ensures |PixelAt(s, bpp, p)| == |PixelAt(s, bpp, q)| == bpp
    ensures Splice(Splice(s, o1, c2), o2, c1)
      == SetPixel(SetPixel(s, bpp, p, PixelAt(s, bpp, q)), bpp, q, PixelAt(s, bpp, p))
  {
    Distrib(p, 1, bpp);
    Distrib(q, 1, bpp);
    PixelAtIs(s, bpp, p, o1);
    PixelAtIs(s, bpp, q, o2);
  }

  /** Exchanging pixels a and b of a gathered buffer exchanges the two source indices. */
  lemma GatherSwap(s: seq<byte>, bpp: nat, src: seq<nat>, a: nat, b: nat)
    requires Fits(src, bpp, |s|) && a < |src| && b < |src| && a != b
    ensures (a + 1) * bpp <= |Gather(s, bpp, src)| && (b + 1) * bpp <= |Gather(s, bpp, src)|
    ensures Fits(src[a := src[b]][b := src[a]], bpp, |s|)
    ensures var g := Gather(s, bpp, src);
      |PixelAt(g, bpp, a)| == |PixelAt(g, bpp, b)| == bpp
      && SetPixel(SetPixel(g, bpp, a, PixelAt(g, bpp, b)), bpp, b, PixelAt(g, bpp, a))
         == Gather(s, bpp, src[a := src[b]][b := src[a]])
  {
    var g := Gather(s, bpp, src);
    var src' := src[a := src[b]][b := src[a]];
    MulMonotone(a + 1, |src|, bpp);
    MulMonotone(b + 1, |src|, bpp);
    Distrib(a, 1, bpp);
    Distrib(b, 1, bpp);
    var pa, pb := PixelAt(g, bpp, a), PixelAt(g, bpp, b);
    var t := SetPixel(g, bpp, a, pb);
    var u := SetPixel(t, bpp, b, pa);
    var g' := Gather(s, bpp, src');
    GatherPixel(s, bpp, src, a);
    GatherPixel(s, bpp, src, b);
    forall p | 0 <= p < |src|
      ensures PixelAt(u, bpp, p) == PixelAt(g', bpp, p)
    {
      GatherSwapAt(s, bpp, src, a, b, pa, pb, t, u, p);
    }
    SamePixels(u, g', bpp, |src|);
  }

  /** Pixel p after exchanging pixels a and b of a gathered buffer. */
  lemma GatherSwapAt(s: seq<byte>, bpp: nat, src: seq<nat>, a: nat, b: nat, pa: seq<byte>, pb: seq<byte>,
                     t: seq<byte>, u: seq<byte>, p: nat)
    requires Fits(src, bpp, |s|) && a < |src| && b < |src| && a != b && p < |src|
    requires (a + 1) * bpp <= |Gather(s, bpp, src)| && (b + 1) * bpp <= |Gather(s, bpp, src)|
    requires Fits(src[a := src[b]][b := src[a]], bpp, |s|)
    requires pa == PixelAt(s, bpp, src[a]) == PixelAt(Gather(s, bpp, src), bpp, a)
    requires pb == PixelAt(s, bpp, src[b]) == PixelAt(Gather(s, bpp, src), bpp, b)
    requires |pa| == |pb| == bpp
    requires t == SetPixel(Gather(s, bpp, src), bpp, a, pb) && u == SetPixel(t, bpp, b, pa)
    ensures PixelAt(u, bpp, p) == PixelAt(Gather(s, bpp, src[a := src[b]][b := src[a]]), bpp, p)
  {
    SetPixelAt(t, bpp, b, pa, p);
    SetPixelAt(Gather(s, bpp, src), bpp, a, pb, p);
    GatherPixel(s, bpp, src[a := src[b]][b := src[a]], p);
    GatherPixel(s, bpp, src, p);
  }

  /**
   * flip_vertically after its first j exchanges: rows r < j and r > h - 1 - j
   * come from row h - 1 - r, the others are still in place.
   */
  function RowsSwapped(h: nat, j: nat): (r: seq<nat>)
    ensures |r| == h && forall k :: 0 <= k < h ==> r[k] < h
  {
    seq(h, k requires 0 <= k < h => if k < j || h - 1 - k < j then h - 1 - k else k)
  }

  /** Exchanging rows j and h - 1 - j advances RowsSwapped by one. */
  lemma RowsSwappedStep(h: nat, j: nat)
    requires j < h / 2
    ensures j < h - 1 - j
    ensures RowsSwapped(h, j)[j] == j && RowsSwapped(h, j)[h - 1 - j] == h - 1 - j
    ensures RowsSwapped(h, j)[j := h - 1 - j][h - 1 - j := j] == RowsSwapped(h, j + 1)
  {
  }

  /** Before the first exchange every row is in place; after h / 2 of them the rows are reversed. */
  lemma RowsSwappedEnds(h: nat)
    ensures RowsSwapped(h, 0) == Iota(h)
    ensures RowsSwapped(h, h / 2) == Reversal(h)
  {
  }

  /** flip_horizontally after i full columns and j rows of column i: the swapped pixels come from their mirror. */
  function ColumnsSwapped(w: nat, h: nat, i: nat, j: nat): (r: seq<nat>)
    ensures |r| == w * h
  {
    seq(w * h, p requires 0 <= p < w * h =>
      var x, y := p % w, p / w;
      if x < i || w - 1 - x < i || ((x == i || x == w - 1 - i) && y < j) then Mirror(w, h)[p] else p)
  }

  lemma ColumnsSwappedAt(w: nat, h: nat, i: nat, j: nat, x: nat, y: nat)
    requires x < w && y < h
    ensures x + y * w < w * h
    ensures ColumnsSwapped(w, h, i, j)[x + y * w]
         == if x < i || w - 1 - x < i || ((x == i || x == w - 1 - i) && y < j) then (w - 1 - x) + y * w else x + y * w
  {
    MirrorAt(w, h, x, y);
    DivModUnique(x + y * w, w, y, x);
  }

  lemma ColumnsSwappedInRange(w: nat, h: nat, i: nat, j: nat)
    ensures forall p :: 0 <= p < w * h ==> ColumnsSwapped(w, h, i, j)[p] < w * h
  {
    forall p | 0 <= p < w * h
      ensures ColumnsSwapped(w, h, i, j)[p] < w * h
    {
      var x, y := Decompose(w, h, p);
      ColumnsSwappedAt(w, h, i, j, x, y);
      MirrorAt(w, h, w - 1 - x, y);
    }
  }

  /** Exchanging pixels (i, j) and (w - 1 - i, j) advances ColumnsSwapped by one row. */
  lemma ColumnsSwappedStep(w: nat, h: nat, i: nat, j: nat)
    requires i < w / 2 && j < h
    ensures i + j * w < w * h && (w - 1 - i) + j * w < w * h && i + j * w != (w - 1 - i) + j * w
    ensures ColumnsSwapped(w, h, i, j)[i + j * w] == i + j * w
    ensures ColumnsSwapped(w, h, i, j)[(w - 1 - i) + j * w] == (w - 1 - i) + j * w
    ensures ColumnsSwapped(w, h, i, j)[i + j * w := (w - 1 - i) + j * w][(w - 1 - i) + j * w := i + j * w]
         == ColumnsSwapped(w, h, i, j + 1)
  {
    var a, b := i + j * w, (w - 1 - i) + j * w;
    ColumnsSwappedAt(w, h, i, j, i, j);
    ColumnsSwappedAt(w, h, i, j, w - 1 - i, j);
    var lhs := ColumnsSwapped(w, h, i, j)[a := b][b := a];
    var rhs := ColumnsSwapped(w, h, i, j + 1);
    forall p | 0 <= p < w * h
      ensures lhs[p] == rhs[p]
    {
      var x, y := Decompose(w, h, p);
      ColumnsSwappedStepAt(w, h, i, j, x, y);
    }
  }

  /** Pixel (x, y) after one more row of column i: the exchanged pair trade sources, every other pixel keeps its own. */
  lemma ColumnsSwappedStepAt(w: nat, h: nat, i: nat, j: nat, x: nat, y: nat)
    requires i < w / 2 && j < h && x < w && y < h
    ensures x + y * w < w * h
    ensures var a, b, p := i + j * w, (w - 1 - i) + j * w, x + y * w;
      ColumnsSwapped(w, h, i, j + 1)[p] == if p == a then b else if p == b then a else ColumnsSwapped(w, h, i, j)[p]
  {
    var p := x + y * w;
    ColumnsSwappedAt(w, h, i, j, x, y);
    ColumnsSwappedAt(w, h, i, j + 1, x, y);
    if p == i + j * w {
      DivModUnique(p, w, y, x);
      DivModUnique(p, w, j, i);
    } else if p == (w - 1 - i) + j * w {
      DivModUnique(p, w, y, x);
      DivModUnique(p, w, j, w - 1 - i);
    }
  }

  /** A finished column (all h rows) is the start of the next one. */
  lemma ColumnsSwappedNext(w: nat, h: nat, i: nat)
    ensures ColumnsSwapped(w, h, i, h) == ColumnsSwapped(w, h, i + 1, 0)
  {
    forall p | 0 <= p < w * h
      ensures ColumnsSwapped(w, h, i, h)[p] == ColumnsSwapped(w, h, i + 1, 0)[p]
    {
      var x, y := Decompose(w, h, p);
      ColumnsSwappedAt(w, h, i, h, x, y);
      ColumnsSwappedAt(w, h, i + 1, 0, x, y);
    }
  }

  /** Before the first exchange every pixel is in place; after w / 2 columns each row is mirrored. */
  lemma ColumnsSwappedEnds(w: nat, h: nat)
    ensures ColumnsSwapped(w, h, 0, 0) == Iota(w * h)
    ensures ColumnsSwapped(w, h, w / 2, 0) == Mirror(w, h)
  {
    forall p | 0 <= p < w * h
      ensures ColumnsSwapped(w, h, 0, 0)[p] == p
      ensures ColumnsSwapped(w, h, w / 2, 0)[p] == Mirror(w, h)[p]
    {
      var x, y := Decompose(w, h, p);
      ColumnsSwappedAt(w, h, 0, 0, x, y);
      ColumnsSwappedAt(w, h, w / 2, 0, x, y);
      MirrorAt(w, h, x, y);
    }
  }

  /** The buffer after the first j scanline exchanges of flip_vertically, lines of L bytes. */
  function RowsFlipped(s: seq<byte>, L: nat, h: nat, j: nat): (r: seq<byte>)
    requires |s| == h * L
    ensures |r| == |s|
  {
    BoundedFits(RowsSwapped(h, j), h, L);
    Gather(s, L, RowsSwapped(h, j))
  }

  /** h / 2 exchanges of lines flip the buffer vertically. */
  lemma RowsFlippedEnds(s: seq<byte>, w: nat, h: nat, bpp: nat)
    requires |s| == w * h * bpp
    ensures |s| == h * (w * bpp)
    ensures RowsFlipped(s, w * bpp, h, h / 2) == FlipVertical(s, w, h, bpp)
  {
    Assoc(h, w, bpp);
    RowsSwappedEnds(h);
  }

  /** No exchange leaves a buffer of h lines of L bytes as it is. */
  lemma RowsFlippedNone(s: seq<byte>, L: nat, h: nat)
    requires |s| == h * L
    ensures RowsFlipped(s, L, h, 0) == s
  {
    RowsSwappedEnds(h);
    GatherIota(s, L, h);
  }

  /** Exchanging lines j and k = h - 1 - j of RowsFlipped(j) gives RowsFlipped(j + 1). */
  lemma RowsFlippedStep(s: seq<byte>, L: nat, h: nat, j: nat, k: nat)
    requires |s| == h * L && j < h / 2 && k == h - 1 - j
    ensures j < k && (j + 1) * L <= |s| && (k + 1) * L <= |s|
    ensures var g := RowsFlipped(s, L, h, j);
      |PixelAt(g, L, j)| == |PixelAt(g, L, k)| == L
      && SetPixel(SetPixel(g, L, j, PixelAt(g, L, k)), L, k, PixelAt(g, L, j))
         == RowsFlipped(s, L, h, j + 1)
  {
    var src: seq<nat> := RowsSwapped(h, j);
    RowsSwappedStep(h, j);
    assert src[j := k][k := j] == RowsSwapped(h, j + 1);
    BoundedFits(src, h, L);
    GatherSwap(s, L, src, j, k);
  }

  /** The buffer after flip_horizontally has finished i columns and j rows of column i. */
  function ColumnsFlipped(s: seq<byte>, w: nat, h: nat, bpp: nat, i: nat, j: nat): (r: seq<byte>)
    requires |s| == w * h * bpp
    ensures |r| == |s|
  {
    ColumnsSwappedInRange(w, h, i, j);
    BoundedFits(ColumnsSwapped(w, h, i, j), w * h, bpp);
    Gather(s, bpp, ColumnsSwapped(w, h, i, j))
  }

  /** No exchange leaves the buffer as it is; w / 2 columns flip it horizontally. */
  lemma ColumnsFlippedEnds(s: seq<byte>, w: nat, h: nat, bpp: nat)
    requires |s| == w * h * bpp
    ensures ColumnsFlipped(s, w, h, bpp, 0, 0) == s
    ensures ColumnsFlipped(s, w, h, bpp, w / 2, 0) == FlipHorizontal(s, w, h, bpp)
  {
    ColumnsSwappedEnds(w, h);
    GatherIota(s, bpp, w * h);
  }

  /** A finished column is the start of the next. */
  lemma ColumnsFlippedNext(s: seq<byte>, w: nat, h: nat, bpp: nat, i: nat)
    requires |s| == w * h * bpp
    ensures ColumnsFlipped(s, w, h, bpp, i, h) == ColumnsFlipped(s, w, h, bpp, i + 1, 0)
  {
    ColumnsSwappedNext(w, h, i);
  }

  /** Exchanging pixels a = (i, j) and b = (w - 1 - i, j) of ColumnsFlipped(i, j) gives ColumnsFlipped(i, j + 1). */
  lemma ColumnsSwapStep(s: seq<byte>, w: nat, h: nat, bpp: nat, i: nat, j: nat, a: int, b: int)
    requires |s| == w * h * bpp && i < w / 2 && j < h
    requires a == i + j * w && b == (w - 1 - i) + j * w
    ensures 0 <= a && 0 <= b && a != b
    ensures (a + 1) * bpp <= |s| && (b + 1) * bpp <= |s|
    ensures var g := ColumnsFlipped(s, w, h, bpp, i, j);
      |PixelAt(g, bpp, a)| == |PixelAt(g, bpp, b)| == bpp
      && SetPixel(SetPixel(g, bpp, a, PixelAt(g, bpp, b)), bpp, b, PixelAt(g, bpp, a))
         == ColumnsFlipped(s, w, h, bpp, i, j + 1)
  {
    var src: seq<nat> := ColumnsSwapped(w, h, i, j);
    ColumnsSwappedStep(w, h, i, j);
    assert src[a := b][b := a] == ColumnsSwapped(w, h, i, j + 1);
    ColumnsSwappedInRange(w, h, i, j);
    BoundedFits(src, w * h, bpp);
    GatherSwap(s, bpp, src, a, b);
  }
}
