/** The RGBA pixel buffer every decoder and resampler produces: row-major,
    four channels (R, G, B, A) per pixel, no padding, so channel `c` of pixel
    `(x, y)` lives at `(y * width + x) * 4 + c`. */
module Raster {
  import opened Bytes

  const CHANNELS: nat := 4

  /** An `ImageData`: the platform rejects a zero width or height, so every
      buffer that exists has at least one pixel. */
  datatype Image = Image(width: nat, height: nat, data: seq<Byte>) {
    predicate Valid() {
      width >= 1 && height >= 1 && |data| == width * height * CHANNELS
    }
  }

  /** Flat index of channel `c` of pixel `(x, y)` in a buffer `w` pixels wide. */
  function Offset(w: nat, x: nat, y: nat, c: nat): nat {
    (y * w + x) * CHANNELS + c
  }

  /** Euclidean division has exactly one quotient and remainder. */
  lemma DivModUnique(n: int, d: int, q: int, r: int)
    requires 0 < d && 0 <= r < d && n == q * d + r
    ensures n / d == q && n % d == r
  {
    var q', r' := n / d, n % d;
    assert (q - q') * d == r' - r;
    if q' < q {
      assert (q - q') * d >= d by { MulAtLeast(q - q', d); }
    } else if q < q' {
      assert (q' - q) * d >= d by { MulAtLeast(q' - q, d); }
    }
  }

  lemma MulAtLeast(a: int, d: int)
    requires 1 <= a && 0 < d
    ensures a * d >= d
  {
    assert a * d == (a - 1) * d + d;
    assert (a - 1) * d >= 0;
  }

  /** Row-major pixel numbers of a `w` by `h` image are `0 .. w*h - 1`. */
  lemma PixelNumberInBounds(w: nat, h: nat, x: nat, y: nat)
    requires x < w && y < h
    ensures y * w + x < w * h
  {
    assert y * w + x < y * w + w == (y + 1) * w;
    assert (y + 1) * w <= h * w by { MulLe(y + 1, h, w); }
  }

  lemma MulLe(a: nat, b: nat, c: nat)
    requires a <= b
    ensures a * c <= b * c
  {
    assert b * c == a * c + (b - a) * c;
  }

  lemma OffsetInBounds(w: nat, h: nat, x: nat, y: nat, c: nat)
    requires x < w && y < h && c < CHANNELS
    ensures Offset(w, x, y, c) < w * h * CHANNELS
  {
    PixelNumberInBounds(w, h, x, y);
  }

  /** The pixel number `i / 4` of an index of a `w` by `h` buffer is in range. */
  lemma PixelOfIndex(w: nat, h: nat, i: nat)
    requires i < w * h * CHANNELS
    ensures i / CHANNELS < w * h
  {
    DivModUnique(i, CHANNELS, i / CHANNELS, i % CHANNELS);
  }

  /** Column, row and channel addressed by flat index `i`. */
  function ColumnOf(w: nat, i: nat): nat
    requires w > 0
  {
    (i / CHANNELS) % w
  }

  function RowOf(w: nat, i: nat): nat
    requires w > 0
  {
    (i / CHANNELS) / w
  }

  function ChannelOf(i: nat): nat {
    i % CHANNELS
  }

  /** Every index of a `w` by `h` buffer is the offset of exactly one
      in-range (column, row, channel) triple. */
  lemma {:induction false} Decompose(w: nat, h: nat, i: nat)
    requires i < w * h * CHANNELS
    ensures w > 0
    ensures ColumnOf(w, i) < w && RowOf(w, i) < h && ChannelOf(i) < CHANNELS
    ensures Offset(w, ColumnOf(w, i), RowOf(w, i), ChannelOf(i)) == i
  {
    var p := i / CHANNELS;
    assert p < w * h by { DivModUnique(i, CHANNELS, p, i % CHANNELS); }
    if w == 0 {
      assert false;
    }
    var x, y := p % w, p / w;
    assert p == y * w + x;
    if y >= h {
      assert y * w >= h * w by { MulLe(h, y, w); }
      assert false;
    }
  }

  /** Conversely the offset of `(x, y, c)` decomposes back into `(x, y, c)`. */
  lemma {:induction false} Compose(w: nat, x: nat, y: nat, c: nat)
    requires x < w && c < CHANNELS
    ensures ColumnOf(w, Offset(w, x, y, c)) == x
    ensures RowOf(w, Offset(w, x, y, c)) == y
    ensures ChannelOf(Offset(w, x, y, c)) == c
    ensures Offset(w, x, y, c) / CHANNELS == y * w + x
  {
    var p := y * w + x;
    DivModUnique(Offset(w, x, y, c), CHANNELS, p, c);
    DivModUnique(p, w, y, x);
  }

  /** Channel `c` of pixel `(x, y)` in a buffer laid out for a `w` by `h` image. */
  function Sample(data: seq<Byte>, w: nat, h: nat, x: nat, y: nat, c: nat): Byte
    requires |data| == w * h * CHANNELS && x < w && y < h && c < CHANNELS
  {
    OffsetInBounds(w, h, x, y, c);
    data[Offset(w, x, y, c)]
  }

  /** Two buffers of one geometry are equal exactly when every sample is. */
  lemma {:induction false} SamplesDetermineData(a: seq<Byte>, b: seq<Byte>, w: nat, h: nat)
    requires |a| == w * h * CHANNELS && |b| == w * h * CHANNELS
    requires forall x: nat, y: nat, c: nat | x < w && y < h && c < CHANNELS :: Sample(a, w, h, x, y, c) == Sample(b, w, h, x, y, c)
    ensures a == b
  {
    forall i | 0 <= i < |a|
      ensures a[i] == b[i]
    {
      Decompose(w, h, i);
      assert Sample(a, w, h, ColumnOf(w, i), RowOf(w, i), ChannelOf(i)) == a[i];
      assert Sample(b, w, h, ColumnOf(w, i), RowOf(w, i), ChannelOf(i)) == b[i];
    }
  }
}
