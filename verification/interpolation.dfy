/** The two resamplers (`nearestNeighbor`, `bilinearInterpolation`). Each
    allocates a fresh `newWidth` by `newHeight` buffer and fills every pixel
    from clamped source coordinates; the source is never changed. Ratios are
    exact: integer division for nearest-neighbour, reals for bilinear. */
module Interpolation {
  import opened Bytes
  import opened Raster
  import opened Rounding

  /** `Math.max(lo, Math.min(v, hi))`. */
  function Clamp(v: int, lo: int, hi: int): (r: int)
    requires lo <= hi
    ensures lo <= r <= hi
    ensures lo <= v <= hi ==> r == v
    ensures v < lo ==> r == lo
    ensures v > hi ==> r == hi
  {
    if v < lo then lo else if v > hi then hi else v
  }

  // ---------------------------------------------------------------- nearest

  /** Source column (or row) for target coordinate `t` when `srcDim` pixels
      are resampled to `dstDim`: `floor(t * srcDim / dstDim)`, clamped. */
  function NearestCoord(t: nat, srcDim: nat, dstDim: nat): (s: nat)
    requires srcDim >= 1 && dstDim >= 1
    ensures s < srcDim
  {
    Clamp(t * srcDim / dstDim, 0, srcDim - 1)
  }

  /** For every target coordinate the exact ratio already lies in the source,
      so the clamp never changes it. */
  lemma {:induction false} NearestCoordUnclamped(t: nat, srcDim: nat, dstDim: nat)
    requires srcDim >= 1 && dstDim >= 1 && t < dstDim
    ensures t * srcDim / dstDim < srcDim
    ensures NearestCoord(t, srcDim, dstDim) == t * srcDim / dstDim
  {
    var q := t * srcDim / dstDim;
    if q >= srcDim {
      assert q * dstDim <= t * srcDim by { DivModUnique(t * srcDim, dstDim, q, (t * srcDim) % dstDim); }
      assert srcDim * dstDim <= q * dstDim by { MulLe(srcDim, q, dstDim); }
      assert t * srcDim < dstDim * srcDim by { MulLe(t + 1, dstDim, srcDim); }
      assert false;
    }
  }

  /** Index `i` of the output: the loop body for the pixel and channel `i` addresses. */
  function NearestChannel(src: Image, w: nat, h: nat, i: nat): Byte
    requires src.Valid() && w >= 1 && h >= 1 && i < w * h * CHANNELS
  {
    Decompose(w, h, i);
    Sample(src.data, src.width, src.height,
           NearestCoord(ColumnOf(w, i), src.width, w), NearestCoord(RowOf(w, i), src.height, h), ChannelOf(i))
  }

  function NearestNeighbor(src: Image, newWidth: nat, newHeight: nat): (r: Image)
    requires src.Valid() && newWidth >= 1 && newHeight >= 1
    ensures r.Valid() && r.width == newWidth && r.height == newHeight
    ensures forall x: nat, y: nat, c: nat | x < newWidth && y < newHeight && c < CHANNELS ::
      Sample(r.data, newWidth, newHeight, x, y, c)
        == Sample(src.data, src.width, src.height,
                  NearestCoord(x, src.width, newWidth), NearestCoord(y, src.height, newHeight), c)
  {
    var data := seq(newWidth * newHeight * CHANNELS, i requires 0 <= i < newWidth * newHeight * CHANNELS =>
      NearestChannel(src, newWidth, newHeight, i));
    NearestSamples(src, newWidth, newHeight, data);
    Image(newWidth, newHeight, data)
  }

  lemma {:induction false} NearestSamples(src: Image, w: nat, h: nat, data: seq<Byte>)
    requires src.Valid() && w >= 1 && h >= 1 && |data| == w * h * CHANNELS
    requires forall i | 0 <= i < |data| :: data[i] == NearestChannel(src, w, h, i)
    ensures forall x: nat, y: nat, c: nat | x < w && y < h && c < CHANNELS ::
      Sample(data, w, h, x, y, c)
        == Sample(src.data, src.width, src.height, NearestCoord(x, src.width, w), NearestCoord(y, src.height, h), c)
  {
    forall x: nat, y: nat, c: nat | x < w && y < h && c < CHANNELS
      ensures Sample(data, w, h, x, y, c)
        == Sample(src.data, src.width, src.height, NearestCoord(x, src.width, w), NearestCoord(y, src.height, h), c)
    {
      Compose(w, x, y, c);
      OffsetInBounds(w, h, x, y, c);
    }
  }

  /** Resampling to the source's own size reproduces it byte for byte. */
  lemma {:induction false} NearestNeighborIdentity(src: Image)
    requires src.Valid()
    ensures NearestNeighbor(src, src.width, src.height) == src
  {
    var r := NearestNeighbor(src, src.width, src.height);
    forall x: nat, y: nat, c: nat | x < src.width && y < src.height && c < CHANNELS
      ensures Sample(r.data, src.width, src.height, x, y, c) == Sample(src.data, src.width, src.height, x, y, c)
    {
      NearestCoordUnclamped(x, src.width, src.width);
      DivModUnique(x * src.width, src.width, x, 0);
      NearestCoordUnclamped(y, src.height, src.height);
      DivModUnique(y * src.height, src.height, y, 0);
    }
    SamplesDetermineData(r.data, src.data, src.width, src.height);
  }

  // --------------------------------------------------------------- bilinear

  /** `v0 * (1 - t) + v1 * t`: weight 0 gives the first end, weight 1 the
      second, and weight one half their midpoint. */
  function Lerp(v0: real, v1: real, t: real): (r: real)
    ensures t == 0.0 ==> r == v0
    ensures t == 1.0 ==> r == v1
    ensures t == 0.5 ==> r == (v0 + v1) / 2.0
    ensures v0 == v1 ==> r == v0
  {
    v0 * (1.0 - t) + v1 * t
  }

  function Min(a: real, b: real): real { if a <= b then a else b }
  function Max(a: real, b: real): real { if a <= b then b else a }

  /** A weight in [0, 1] blends to a value between the two ends. */
  lemma LerpBetween(v0: real, v1: real, t: real)
    requires 0.0 <= t <= 1.0
    ensures Min(v0, v1) <= Lerp(v0, v1, t) <= Max(v0, v1)
  {
    var d := v1 - v0;
    assert Lerp(v0, v1, t) == v0 + d * t;
    assert d * t + d * (1.0 - t) == d;
    if v0 <= v1 {
      MulNonneg(d, t);
      MulNonneg(d, 1.0 - t);
    } else {
      MulNonneg(-d, t);
      MulNonneg(-d, 1.0 - t);
    }
  }

  lemma MulNonneg(a: real, b: real)
    requires 0.0 <= a && 0.0 <= b
    ensures 0.0 <= a * b
  {
  }

  /** `interpolateChannel`: blend along x on the top and bottom rows, then
      along y. At the four unit-square corners it returns that corner. */
  function InterpolateChannel(p11: real, p21: real, p12: real, p22: real, dx: real, dy: real): (r: real)
    ensures dx == 0.0 && dy == 0.0 ==> r == p11
    ensures dx == 1.0 && dy == 0.0 ==> r == p21
    ensures dx == 0.0 && dy == 1.0 ==> r == p12
    ensures dx == 1.0 && dy == 1.0 ==> r == p22
  {
    Lerp(Lerp(p11, p21, dx), Lerp(p12, p22, dx), dy)
  }

  /** The blend lies between the smallest and largest corner. */
  lemma {:induction false} InterpolateChannelBetween(p11: real, p21: real, p12: real, p22: real, dx: real, dy: real)
    requires 0.0 <= dx <= 1.0 && 0.0 <= dy <= 1.0
    ensures Min(Min(p11, p21), Min(p12, p22)) <= InterpolateChannel(p11, p21, p12, p22, dx, dy)
    ensures InterpolateChannel(p11, p21, p12, p22, dx, dy) <= Max(Max(p11, p21), Max(p12, p22))
  {
    LerpBetween(p11, p21, dx);
    LerpBetween(p12, p22, dx);
    LerpBetween(Lerp(p11, p21, dx), Lerp(p12, p22, dx), dy);
  }

  /** One axis of a bilinear sample: the lower and upper source coordinates
      (`x1`, `x2`) and the fractional weight (`dx`) between them. */
  datatype Span = Span(lo: nat, hi: nat, frac: real)

  /** `t * srcDim / dstDim` as an exact real. */
  function SourcePosition(t: nat, srcDim: nat, dstDim: nat): real
    requires dstDim >= 1
  {
    (t * srcDim) as real / dstDim as real
  }

  /** Span for target coordinate `t`: `x1 = floor(pos)`, `x2 = min(x1 + 1,
      srcDim - 1)`, `dx = pos - x1`; both ends lie in the source and the
      weight in [0, 1). */
  function SpanAt(t: nat, srcDim: nat, dstDim: nat): (s: Span)
    requires srcDim >= 1 && dstDim >= 1 && t < dstDim
    ensures s.lo <= s.hi < srcDim
    ensures s.hi == if s.lo + 1 < srcDim then s.lo + 1 else srcDim - 1
    ensures 0.0 <= s.frac < 1.0
    ensures s.lo as real + s.frac == SourcePosition(t, srcDim, dstDim)
  {
    var pos := SourcePosition(t, srcDim, dstDim);
    PositionInSource(t, srcDim, dstDim);
    var lo := pos.Floor;
    var hi := if lo + 1 <= srcDim - 1 then lo + 1 else srcDim - 1;
    Span(lo, hi, pos - lo as real)
  }

  lemma PositionInSource(t: nat, srcDim: nat, dstDim: nat)
    requires srcDim >= 1 && dstDim >= 1 && t < dstDim
    ensures 0.0 <= SourcePosition(t, srcDim, dstDim) < srcDim as real
  {
    var pos := SourcePosition(t, srcDim, dstDim);
    assert t * srcDim < dstDim * srcDim by { MulLe(t + 1, dstDim, srcDim); }
    assert pos * dstDim as real == (t * srcDim) as real;
  }

  /** `getPixel`: a source sample at clamped coordinates. An in-range
      coordinate is read as is; one off an edge reads the edge pixel, and one
      off two edges reads the corner pixel. */
  function GetSample(src: Image, x: int, y: int, c: nat): (v: Byte)
    requires src.Valid() && c < CHANNELS
    ensures 0 <= x < src.width && 0 <= y < src.height ==> v == Sample(src.data, src.width, src.height, x, y, c)
    ensures x < 0 && 0 <= y < src.height ==> v == Sample(src.data, src.width, src.height, 0, y, c)
    ensures x >= src.width && 0 <= y < src.height ==> v == Sample(src.data, src.width, src.height, src.width - 1, y, c)
    ensures 0 <= x < src.width && y < 0 ==> v == Sample(src.data, src.width, src.height, x, 0, c)
    ensures 0 <= x < src.width && y >= src.height ==> v == Sample(src.data, src.width, src.height, x, src.height - 1, c)
    ensures x < 0 && y < 0 ==> v == Sample(src.data, src.width, src.height, 0, 0, c)
    ensures x >= src.width && y < 0 ==> v == Sample(src.data, src.width, src.height, src.width - 1, 0, c)
    ensures x < 0 && y >= src.height ==> v == Sample(src.data, src.width, src.height, 0, src.height - 1, c)
    ensures x >= src.width && y >= src.height ==> v == Sample(src.data, src.width, src.height, src.width - 1, src.height - 1, c)
  {
    Sample(src.data, src.width, src.height, Clamp(x, 0, src.width - 1), Clamp(y, 0, src.height - 1), c)
  }

  /** The four `getPixel` reads for channel `c` of target pixel `(x, y)`:
      `p11 = (x1, y1)`, `p21 = (x2, y1)`, `p12 = (x1, y2)`, `p22 = (x2, y2)`.
      The span ends already lie in the source, so the reads' clamping never
      moves them: each corner is the source sample at its span ends. */
  function Corners(src: Image, w: nat, h: nat, x: nat, y: nat, c: nat): (p: (Byte, Byte, Byte, Byte))
    requires src.Valid() && w >= 1 && h >= 1 && x < w && y < h && c < CHANNELS
    ensures var sx, sy := SpanAt(x, src.width, w), SpanAt(y, src.height, h);
      && p.0 == Sample(src.data, src.width, src.height, sx.lo, sy.lo, c)
      && p.1 == Sample(src.data, src.width, src.height, sx.hi, sy.lo, c)
      && p.2 == Sample(src.data, src.width, src.height, sx.lo, sy.hi, c)
      && p.3 == Sample(src.data, src.width, src.height, sx.hi, sy.hi, c)
  {
    var sx, sy := SpanAt(x, src.width, w), SpanAt(y, src.height, h);
    (GetSample(src, sx.lo, sy.lo, c), GetSample(src, sx.hi, sy.lo, c),
     GetSample(src, sx.lo, sy.hi, c), GetSample(src, sx.hi, sy.hi, c))
  }

  /** The smallest of four corner samples: `Min` over bytes. */
  function MinCorner(p: (Byte, Byte, Byte, Byte)): (m: Byte)
    ensures m as real == Min(Min(p.0 as real, p.1 as real), Min(p.2 as real, p.3 as real))
  {
    var a := if p.0 <= p.1 then p.0 else p.1;
    var b := if p.2 <= p.3 then p.2 else p.3;
    if a <= b then a else b
  }

  /** The largest of four corner samples: `Max` over bytes. */
  function MaxCorner(p: (Byte, Byte, Byte, Byte)): (m: Byte)
    ensures m as real == Max(Max(p.0 as real, p.1 as real), Max(p.2 as real, p.3 as real))
  {
    var a := if p.0 <= p.1 then p.1 else p.0;
    var b := if p.2 <= p.3 then p.3 else p.2;
    if a <= b then b else a
  }

  /** Channel `c` of target pixel `(x, y)`: the rounded blend of its corners.
      It never leaves the range the corners span, so it is a byte and the
      clamping store of the output array never alters it. */
  function BilinearSample(src: Image, w: nat, h: nat, x: nat, y: nat, c: nat): (v: Byte)
    requires src.Valid() && w >= 1 && h >= 1 && x < w && y < h && c < CHANNELS
    ensures MinCorner(Corners(src, w, h, x, y, c)) <= v <= MaxCorner(Corners(src, w, h, x, y, c))
  {
    var sx, sy := SpanAt(x, src.width, w), SpanAt(y, src.height, h);
    var p := Corners(src, w, h, x, y, c);
    var value := InterpolateChannel(p.0 as real, p.1 as real, p.2 as real, p.3 as real, sx.frac, sy.frac);
    InterpolateChannelBetween(p.0 as real, p.1 as real, p.2 as real, p.3 as real, sx.frac, sy.frac);
    RoundWithin(value, MinCorner(p), MaxCorner(p));
    Round(value)
  }

  /** Index `i` of the bilinear output. */
  function BilinearChannel(src: Image, w: nat, h: nat, i: nat): Byte
    requires src.Valid() && w >= 1 && h >= 1 && i < w * h * CHANNELS
  {
    Decompose(w, h, i);
    BilinearSample(src, w, h, ColumnOf(w, i), RowOf(w, i), ChannelOf(i))
  }

  function BilinearInterpolation(src: Image, newWidth: nat, newHeight: nat): (r: Image)
    requires src.Valid() && newWidth >= 1 && newHeight >= 1
    ensures r.Valid() && r.width == newWidth && r.height == newHeight
    ensures forall x: nat, y: nat, c: nat | x < newWidth && y < newHeight && c < CHANNELS ::
      Sample(r.data, newWidth, newHeight, x, y, c) == BilinearSample(src, newWidth, newHeight, x, y, c)
  {
    var data := seq(newWidth * newHeight * CHANNELS, i requires 0 <= i < newWidth * newHeight * CHANNELS =>
      BilinearChannel(src, newWidth, newHeight, i));
    BilinearSamples(src, newWidth, newHeight, data);
    Image(newWidth, newHeight, data)
  }

  lemma {:induction false} BilinearSamples(src: Image, w: nat, h: nat, data: seq<Byte>)
    requires src.Valid() && w >= 1 && h >= 1 && |data| == w * h * CHANNELS
    requires forall i | 0 <= i < |data| :: data[i] == BilinearChannel(src, w, h, i)
    ensures forall x: nat, y: nat, c: nat | x < w && y < h && c < CHANNELS ::
      Sample(data, w, h, x, y, c) == BilinearSample(src, w, h, x, y, c)
  {
    forall x: nat, y: nat, c: nat | x < w && y < h && c < CHANNELS
      ensures Sample(data, w, h, x, y, c) == BilinearSample(src, w, h, x, y, c)
    {
      Compose(w, x, y, c);
      OffsetInBounds(w, h, x, y, c);
    }
  }

  /** When all four corners agree, the blend is that value exactly. */
  lemma BilinearOfEqualCorners(src: Image, w: nat, h: nat, x: nat, y: nat, c: nat)
    requires src.Valid() && w >= 1 && h >= 1 && x < w && y < h && c < CHANNELS
    requires var p := Corners(src, w, h, x, y, c); p.0 == p.1 == p.2 == p.3
    ensures BilinearSample(src, w, h, x, y, c) == Corners(src, w, h, x, y, c).0
  {
  }

  /** An image whose every pixel is the same stays so at any size. */
  lemma {:induction false} BilinearPreservesConstantImage(src: Image, w: nat, h: nat)
    requires src.Valid() && w >= 1 && h >= 1
    requires forall x: nat, y: nat, c: nat | x < src.width && y < src.height && c < CHANNELS ::
      Sample(src.data, src.width, src.height, x, y, c) == Sample(src.data, src.width, src.height, 0, 0, c)
    ensures forall x: nat, y: nat, c: nat | x < w && y < h && c < CHANNELS ::
      Sample(BilinearInterpolation(src, w, h).data, w, h, x, y, c) == Sample(src.data, src.width, src.height, 0, 0, c)
  {
    forall x: nat, y: nat, c: nat | x < w && y < h && c < CHANNELS
      ensures BilinearSample(src, w, h, x, y, c) == Sample(src.data, src.width, src.height, 0, 0, c)
    {
      BilinearOfEqualCorners(src, w, h, x, y, c);
    }
  }

  /** At the source's own size every position is a grid point: the weights
      vanish and the source comes back unchanged. */
  lemma {:induction false} BilinearIdentity(src: Image)
    requires src.Valid()
    ensures BilinearInterpolation(src, src.width, src.height) == src
  {
    var r := BilinearInterpolation(src, src.width, src.height);
    forall x: nat, y: nat, c: nat | x < src.width && y < src.height && c < CHANNELS
      ensures Sample(r.data, src.width, src.height, x, y, c) == Sample(src.data, src.width, src.height, x, y, c)
    {
      SpanAtGridPoint(x, src.width);
      SpanAtGridPoint(y, src.height);
      var p := Corners(src, src.width, src.height, x, y, c);
      assert p.0 == Sample(src.data, src.width, src.height, x, y, c);
      RoundOfInt(p.0);
    }
    SamplesDetermineData(r.data, src.data, src.width, src.height);
  }

  lemma SpanAtGridPoint(t: nat, dim: nat)
    requires t < dim
    ensures SpanAt(t, dim, dim).lo == t && SpanAt(t, dim, dim).frac == 0.0
  {
    assert (t * dim) as real == t as real * dim as real;
    assert SourcePosition(t, dim, dim) == t as real;
    assert (t as real).Floor == t;
  }
}
