/** Decoder for GB7, the viewer's own 7-bit grayscale format with an optional
    1-bit mask (`parseGb7`).

    Layout: a 12-byte header whose byte 5 carries the mask flag in bit 0 and
    whose bytes 6-7 and 8-9 hold the big-endian width and height; then one
    byte per pixel, row-major: bits 0-6 are the gray level, bit 7 the mask. */
module Gb7 {
  import opened Wrappers
  import opened Bytes
  import opened Raster
  import opened Rounding
  import opened ImageInfo
  import opened Bits

  const HEADER_SIZE: nat := 12
  const MAX_GRAY7: nat := 127

  datatype Gb7Error =
    | HeaderUnreadable          // a header read past the end of the buffer
    | Truncated                 // fewer pixel bytes than width * height
    | EmptyImage                // the ImageData constructor rejects a zero dimension

  datatype Decoded = Decoded(image: Image, depth: Depth)

  /** `b & 0x7F`: the 7-bit gray level, the low seven bits of the byte. */
  function Gray7Of(b: Byte): (g: nat)
    ensures g == BitAnd(b, 0x7F)
    ensures g <= MAX_GRAY7
  {
    SplitAt(b, 7);
    DivModUnique(b, 128, ShiftRight(b, 7), BitAnd(b, 0x7F));
    b % 128
  }

  /** `(b >> 7) & 0x01`: the mask bit; with the gray level it makes up the byte. */
  function MaskBitOf(b: Byte): (m: nat)
    ensures m == BitAnd(ShiftRight(b, 7), 0x01)
    ensures m <= 1 && b == m * 128 + Gray7Of(b)
  {
    SplitAt(b, 7);
    DivModUnique(b, 128, ShiftRight(b, 7), BitAnd(b, 0x7F));
    assert BitAnd(0, 1) == 0 && BitAnd(1, 1) == 1;
    b / 128
  }

  /** `view.getUint8(5) & 0x01 === 1`: the header's mask flag. */
  predicate MaskFlag(flags: Byte)
    ensures MaskFlag(flags) <==> BitAnd(flags, 0x01) == 1
  {
    SplitAt(flags, 1);
    flags % 2 == 1
  }

  /** `Math.round(g / 127 * 255)` in integers. */
  function Gray8(g: nat): (v: Byte)
    requires g <= MAX_GRAY7
    ensures g == 0 ==> v == 0
    ensures g == MAX_GRAY7 ==> v == 255
    ensures g == 64 ==> v == 129
  {
    (g * 255 + 63) / 127
  }

  /** The integer form agrees with rounding the exact rescaled value: since 127
      is odd, `g * 255 / 127` is never exactly halfway between two integers. */
  lemma {:induction false} Gray8IsRoundedRescale(g: nat)
    requires g <= MAX_GRAY7
    ensures Gray8(g) == Round(g as real / 127.0 * 255.0)
  {
    var n := g * 255;
    var q, m := (n + 63) / 127, (n + 63) % 127;
    assert n + 63 == 127 * q + m;
    var v := g as real / 127.0 * 255.0;
    assert v == n as real / 127.0;
    assert v + 0.5 == q as real + (m as real + 0.5) / 127.0;
    assert 0.0 < (m as real + 0.5) / 127.0 < 1.0;
  }

  /** Level 64 is 128.50... after rescaling, so it rounds to 129. */
  lemma Gray8OfMidLevel()
    ensures Gray8(64) == 129 && Round(64.0 / 127.0 * 255.0) == 129
  {
    Gray8IsRoundedRescale(64);
  }

  /** The rescaling preserves order. */
  lemma Gray8Monotone(g: nat, g': nat)
    requires g <= g' <= MAX_GRAY7
    ensures Gray8(g) <= Gray8(g')
  {
  }

  /** Output alpha: the mask bit decides only when the header enables the mask. */
  function Alpha(maskFlag: bool, b: Byte): (a: Byte)
    ensures a == 255 || a == 0
    ensures a == 0 <==> maskFlag && MaskBitOf(b) == 0
  {
    if maskFlag && MaskBitOf(b) != 1 then 0 else 255
  }

  /** Byte of the pixel plane that encodes pixel `(x, y)`. */
  function PixelByte(bytes: seq<Byte>, w: nat, h: nat, x: nat, y: nat): Byte
    requires HEADER_SIZE + w * h <= |bytes| && x < w && y < h
  {
    PixelNumberInBounds(w, h, x, y);
    bytes[HEADER_SIZE + y * w + x]
  }

  /** Channel `i % 4` of the pixel `i / 4` as the decoding loop writes it:
      the loop's running plane index equals the pixel number. */
  function Channel(bytes: seq<Byte>, maskFlag: bool, p: nat, c: nat): Byte
    requires HEADER_SIZE + p < |bytes|
  {
    var b := bytes[HEADER_SIZE + p];
    if c < 3 then Gray8(Gray7Of(b)) else Alpha(maskFlag, b)
  }

  /** The width field, bytes 6-7. */
  function Width(bytes: seq<Byte>): nat
    requires |bytes| >= 10
  {
    ReadU16(bytes, 6).value
  }

  /** The height field, bytes 8-9. */
  function Height(bytes: seq<Byte>): nat
    requires |bytes| >= 10
  {
    ReadU16(bytes, 8).value
  }

  /** The pixel loop of `parseGb7`: expands each plane byte into an RGBA pixel. */
  function Expand(bytes: seq<Byte>, w: nat, h: nat, maskFlag: bool): (img: Image)
    requires w >= 1 && h >= 1 && HEADER_SIZE + w * h <= |bytes|
    ensures img.Valid() && img.width == w && img.height == h
    ensures forall x: nat, y: nat, c: nat | x < w && y < h && c < 3 ::
      Sample(img.data, w, h, x, y, c) == Gray8(Gray7Of(PixelByte(bytes, w, h, x, y)))
    ensures forall x: nat, y: nat | x < w && y < h ::
      Sample(img.data, w, h, x, y, 3) == Alpha(maskFlag, PixelByte(bytes, w, h, x, y))
  {
    var data := seq(w * h * CHANNELS, i requires 0 <= i < w * h * CHANNELS =>
      PixelOfIndex(w, h, i);
      Channel(bytes, maskFlag, i / CHANNELS, i % CHANNELS));
    DecodedSamples(bytes, w, h, maskFlag, data);
    Image(w, h, data)
  }

  function Decode(bytes: seq<Byte>): (r: Result<Decoded, Gb7Error>)
    ensures |bytes| < 10 ==> r == Err(HeaderUnreadable)
    ensures |bytes| >= 10 ==>
      (r.Ok? <==> Width(bytes) >= 1 && Height(bytes) >= 1 && HEADER_SIZE + Width(bytes) * Height(bytes) <= |bytes|)
    ensures |bytes| >= 10 && |bytes| < HEADER_SIZE + Width(bytes) * Height(bytes) ==> r == Err(Truncated)
    ensures (|bytes| >= 10 && HEADER_SIZE + Width(bytes) * Height(bytes) <= |bytes|
              && (Width(bytes) == 0 || Height(bytes) == 0)) ==> r == Err(EmptyImage)
    ensures r.Ok? ==>
      var img := r.value.image;
      && img.Valid()
      && img.width == Be16(bytes[6], bytes[7])
      && img.height == Be16(bytes[8], bytes[9])
      && r.value.depth == (if MaskFlag(bytes[5]) then Gray7Mask else Gray7)
      && (forall x: nat, y: nat, c: nat | x < img.width && y < img.height && c < 3 ::
            Sample(img.data, img.width, img.height, x, y, c)
              == Gray8(Gray7Of(PixelByte(bytes, img.width, img.height, x, y))))
      && (forall x: nat, y: nat | x < img.width && y < img.height ::
            Sample(img.data, img.width, img.height, x, y, 3)
              == Alpha(MaskFlag(bytes[5]), PixelByte(bytes, img.width, img.height, x, y)))
  {
    var w :- ReadU16(bytes, 6).ToResult(HeaderUnreadable);
    var h :- ReadU16(bytes, 8).ToResult(HeaderUnreadable);
    // the flag byte precedes the height field, so reading it cannot fail here
    var maskFlag := MaskFlag(bytes[5]);
    if |bytes| < HEADER_SIZE + w * h then Err(Truncated)
    else if w == 0 || h == 0 then Err(EmptyImage)
    else Ok(Decoded(Expand(bytes, w, h, maskFlag), if maskFlag then Gray7Mask else Gray7))
  }

  /** The flat buffer the decoding loop fills holds, at pixel `(x, y)`, the
      gray level and alpha of plane byte `y * w + x`. */
  lemma {:induction false} DecodedSamples(bytes: seq<Byte>, w: nat, h: nat, maskFlag: bool, data: seq<Byte>)
    requires HEADER_SIZE + w * h <= |bytes|
    requires |data| == w * h * CHANNELS
    requires forall i | 0 <= i < |data| ::
      HEADER_SIZE + i / CHANNELS < |bytes| && data[i] == Channel(bytes, maskFlag, i / CHANNELS, i % CHANNELS)
    ensures forall x: nat, y: nat, c: nat | x < w && y < h && c < 3 ::
      Sample(data, w, h, x, y, c) == Gray8(Gray7Of(PixelByte(bytes, w, h, x, y)))
    ensures forall x: nat, y: nat | x < w && y < h ::
      Sample(data, w, h, x, y, 3) == Alpha(maskFlag, PixelByte(bytes, w, h, x, y))
  {
    forall x: nat, y: nat, c: nat | x < w && y < h && c < CHANNELS
      ensures Sample(data, w, h, x, y, c)
        == if c < 3 then Gray8(Gray7Of(PixelByte(bytes, w, h, x, y))) else Alpha(maskFlag, PixelByte(bytes, w, h, x, y))
    {
      Compose(w, x, y, c);
      OffsetInBounds(w, h, x, y, c);
    }
  }

  /** The pixel loop reads nothing but the `w * h` plane bytes. */
  lemma {:induction false} ExpandDependsOnlyOnPlane(a: seq<Byte>, b: seq<Byte>, w: nat, h: nat, maskFlag: bool)
    requires w >= 1 && h >= 1 && HEADER_SIZE + w * h <= |a| && HEADER_SIZE + w * h <= |b|
    requires a[HEADER_SIZE..HEADER_SIZE + w * h] == b[HEADER_SIZE..HEADER_SIZE + w * h]
    ensures Expand(a, w, h, maskFlag) == Expand(b, w, h, maskFlag)
  {
    var ia, ib := Expand(a, w, h, maskFlag), Expand(b, w, h, maskFlag);
    forall x: nat, y: nat | x < w && y < h
      ensures PixelByte(a, w, h, x, y) == PixelByte(b, w, h, x, y)
    {
      PixelNumberInBounds(w, h, x, y);
      assert a[HEADER_SIZE..HEADER_SIZE + w * h][y * w + x] == b[HEADER_SIZE..HEADER_SIZE + w * h][y * w + x];
    }
    SamplesDetermineData(ia.data, ib.data, w, h);
  }

  /** Only the geometry, bit 0 of byte 5 and the first `width * height` plane
      bytes matter: bytes 0-4 and 10-11, the other bits of byte 5 and
      anything past the plane never change the outcome. */
  lemma {:induction false} DecodeDependsOnlyOnFields(a: seq<Byte>, b: seq<Byte>)
    requires |a| >= 10 && |b| >= 10
    requires a[6..10] == b[6..10] && MaskFlag(a[5]) == MaskFlag(b[5])
    requires HEADER_SIZE + Width(a) * Height(a) <= |a| && HEADER_SIZE + Width(a) * Height(a) <= |b|
    requires a[HEADER_SIZE..HEADER_SIZE + Width(a) * Height(a)] == b[HEADER_SIZE..HEADER_SIZE + Width(a) * Height(a)]
    ensures Decode(a) == Decode(b)
  {
    assert a[6] == b[6] && a[7] == b[7] && a[8] == b[8] && a[9] == b[9];
    assert Width(a) == Width(b) && Height(a) == Height(b);
    var w, h := Width(a), Height(a);
    if w >= 1 && h >= 1 {
      ExpandDependsOnlyOnPlane(a, b, w, h, MaskFlag(a[5]));
    }
  }

  /** Bytes appended after a decodable file are ignored. */
  lemma DecodeIgnoresTrailingBytes(a: seq<Byte>, extra: seq<Byte>)
    requires Decode(a).Ok?
    ensures Decode(a + extra) == Decode(a)
  {
    var b := a + extra;
    assert a[6..10] == b[6..10] && a[5] == b[5];
    var n := HEADER_SIZE + Width(a) * Height(a);
    assert a[HEADER_SIZE..n] == b[HEADER_SIZE..n];
    DecodeDependsOnlyOnFields(a, b);
  }
}
