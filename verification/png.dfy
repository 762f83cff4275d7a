/** Header inspector for PNG (`parsePngHeader`): checks the signature of
    section 5.2 of the PNG Specification (Second Edition, ISO/IEC 15948) and
    reads the IHDR chunk, which must come first, at its fixed offset. Pixel
    data is not decoded. */
module Png {
  import opened Wrappers
  import opened Bytes
  import opened ImageInfo

  const SIGNATURE: seq<Byte> := [0x89, 0x50, 0x4E, 0x47, 0x0D, 0x0A, 0x1A, 0x0A]
  const IHDR_TYPE: seq<Byte> := [0x49, 0x48, 0x44, 0x52]   // "IHDR"
  const IHDR_OFFSET: nat := 8
  const IHDR_DATA_LENGTH: nat := 13

  /** Samples per pixel of each colour type, as in the table of section
      11.2.2 of the PNG Specification; other values are not colour types. */
  function SamplesPerPixel(colorType: nat): Option<nat> {
    match colorType
    case 0 => Some(1)   // grayscale
    case 2 => Some(3)   // truecolour
    case 3 => Some(1)   // indexed: one palette index
    case 4 => Some(2)   // grayscale with alpha
    case 6 => Some(4)   // truecolour with alpha
    case _ => None
  }

  /** The inspector's table of bits per pixel by colour type. It agrees with
      the specification's samples per pixel: bits per pixel is the per-sample
      depth times the sample count, and is absent exactly for values that are
      not colour types. */
  function BitsPerPixel(colorType: Byte, bitDepth: Byte): (r: Option<nat>)
    ensures r.None? <==> SamplesPerPixel(colorType).None?
    ensures SamplesPerPixel(colorType).Some? ==> r == Some(bitDepth * SamplesPerPixel(colorType).value)
  {
    match colorType
    case 0 => Some(bitDepth)
    case 2 => Some(bitDepth * 3)
    case 3 => Some(bitDepth)
    case 4 => Some(bitDepth * 2)
    case 6 => Some(bitDepth * 4)
    case _ => None
  }

  /** The description chosen by colour type: it leads with the table's bits
      per pixel, and only a value that is not a colour type gets the generic
      form, which carries the raw colour type and depth. */
  function Describe(colorType: Byte, bitDepth: Byte): (d: Depth)
    ensures d.LeadingBits() == BitsPerPixel(colorType, bitDepth)
    ensures d.PngOther? <==> SamplesPerPixel(colorType).None?
    ensures d.PngOther? ==> d == PngOther(colorType, bitDepth)
    ensures colorType == 0 ==> d.Grayscale?
    ensures colorType == 2 ==> d.Rgb?
    ensures colorType == 3 ==> d.Indexed?
    ensures colorType == 4 ==> d.GrayscaleAlpha?
    ensures colorType == 6 ==> d.Rgba?
  {
    match colorType
    case 0 => Grayscale(bitDepth)
    case 2 => Rgb(bitDepth * 3)
    case 3 => Indexed(bitDepth)
    case 4 => GrayscaleAlpha(bitDepth * 2)
    case 6 => Rgba(bitDepth * 4)
    case _ => PngOther(colorType, bitDepth)
  }

  function ParseHeader(bytes: seq<Byte>): (r: Option<Metadata>)
    ensures r.Some? <==>
      |bytes| >= 26 && bytes[..8] == SIGNATURE && bytes[IHDR_OFFSET + 4..IHDR_OFFSET + 8] == IHDR_TYPE
    ensures r.Some? ==>
      && r.value.width == Be32(bytes[16], bytes[17], bytes[18], bytes[19])
      && r.value.height == Be32(bytes[20], bytes[21], bytes[22], bytes[23])
      && r.value.bitsPerPixel == BitsPerPixel(bytes[25], bytes[24])
      && r.value.depth == Describe(bytes[25], bytes[24])
  {
    if |bytes| < 8 || ReadU32(bytes, 0) != Some(0x8950_4E47) || ReadU32(bytes, 4) != Some(0x0D0A_1A0A) then
      SignatureMatches(bytes);
      None
    else if |bytes| < IHDR_OFFSET + 17 then
      None
    else if ReadU32(bytes, IHDR_OFFSET + 4) != Some(0x4948_4452) then
      ReadU32Matches(bytes, IHDR_OFFSET + 4, 0x4948_4452);
      None
    else
      SignatureMatches(bytes);
      ReadU32Matches(bytes, IHDR_OFFSET + 4, 0x4948_4452);
      // the colour type is the 26th byte: on a 25-byte buffer this read throws
      match ReadU8(bytes, IHDR_OFFSET + 17)
      case None => None
      case Some(colorType) =>
        var width := ReadU32(bytes, IHDR_OFFSET + 8).value;
        var height := ReadU32(bytes, IHDR_OFFSET + 12).value;
        var bitDepth := bytes[IHDR_OFFSET + 16];
        Some(Metadata(width, height, Describe(colorType, bitDepth), BitsPerPixel(colorType, bitDepth)))
  }

  /** The two 32-bit signature comparisons test exactly the eight signature bytes. */
  lemma SignatureMatches(bytes: seq<Byte>)
    ensures (|bytes| >= 8 && ReadU32(bytes, 0) == Some(0x8950_4E47) && ReadU32(bytes, 4) == Some(0x0D0A_1A0A))
            <==> (|bytes| >= 8 && bytes[..8] == SIGNATURE)
  {
    if |bytes| >= 8 {
      ReadU32Matches(bytes, 0, 0x8950_4E47);
      ReadU32Matches(bytes, 4, 0x0D0A_1A0A);
      assert bytes[..8] == bytes[0..4] + bytes[4..8];
    }
  }

  /** The reported bits per pixel is the figure the description leads with,
      and an unknown colour type is the only case without one. */
  lemma ParsedDescriptionAgreesWithBits(bytes: seq<Byte>)
    requires ParseHeader(bytes).Some?
    ensures ParseHeader(bytes).value.bitsPerPixel == ParseHeader(bytes).value.depth.LeadingBits()
    ensures ParseHeader(bytes).value.bitsPerPixel.None? <==> ParseHeader(bytes).value.depth.PngOther?
  {
  }

  /** The first 26 bytes a PNG writer emits: signature, IHDR length and type,
      width, height, bit depth and colour type. */
  function EncodeHeaderPrefix(width: nat, height: nat, bitDepth: Byte, colorType: Byte): (s: seq<Byte>)
    requires width < U32_LIMIT && height < U32_LIMIT
    ensures |s| == 26
  {
    SIGNATURE + EncodeU32(IHDR_DATA_LENGTH) + IHDR_TYPE + EncodeU32(width) + EncodeU32(height) + [bitDepth, colorType]
  }

  /** Inspecting a written header, followed by anything, gives back its fields. */
  lemma {:induction false} ParseEncodedHeader(width: nat, height: nat, bitDepth: Byte, colorType: Byte, rest: seq<Byte>)
    requires width < U32_LIMIT && height < U32_LIMIT
    ensures ParseHeader(EncodeHeaderPrefix(width, height, bitDepth, colorType) + rest)
      == Some(Metadata(width, height, Describe(colorType, bitDepth), BitsPerPixel(colorType, bitDepth)))
  {
    var prefix := SIGNATURE + EncodeU32(IHDR_DATA_LENGTH) + IHDR_TYPE;
    var bytes := EncodeHeaderPrefix(width, height, bitDepth, colorType) + rest;
    assert bytes == prefix + EncodeU32(width) + (EncodeU32(height) + [bitDepth, colorType] + rest);
    ReadU32OfEncode(width, prefix, EncodeU32(height) + [bitDepth, colorType] + rest);
    assert bytes == (prefix + EncodeU32(width)) + EncodeU32(height) + ([bitDepth, colorType] + rest);
    ReadU32OfEncode(height, prefix + EncodeU32(width), [bitDepth, colorType] + rest);
    assert bytes[..8] == SIGNATURE;
    assert bytes[12..16] == IHDR_TYPE;
    assert bytes[24] == bitDepth && bytes[25] == colorType;
  }

  /** A 10 by 20 truecolour image at 8 bits per sample reports 24-bit RGB. */
  lemma TruecolourExample(rest: seq<Byte>)
    ensures ParseHeader(EncodeHeaderPrefix(10, 20, 8, 2) + rest) == Some(Metadata(10, 20, Rgb(24), Some(24)))
  {
    ParseEncodedHeader(10, 20, 8, 2, rest);
  }

  /** Changing any signature byte makes the inspection fail. */
  lemma {:induction false} CorruptSignatureFails(bytes: seq<Byte>, i: nat, b: Byte)
    requires i < 8 <= |bytes| && b != SIGNATURE[i]
    ensures ParseHeader(bytes[i := b]).None?
  {
    assert bytes[i := b][..8][i] == b;
  }
}
