# Image decoding and resampling core, modelled in Dafny

This project models the byte-level core of a browser image viewer:

- the decoder for GB7, the viewer's own 7-bit grayscale format with an optional 1-bit mask (`parseGb7`);
- the PNG and JPEG container-header inspectors (`parsePngHeader`, `parseJpegHeader`), which read geometry and
  bits per pixel without decoding pixels;
- the two resamplers (`nearestNeighbor`, `bilinearInterpolation`).

Everything is a pure function over immutable sequences. Bytes are `Bytes.Byte` (an `int` in 0..255).
An `ImageData` is `Raster.Image`, a flat row-major RGBA buffer where channel `c` of pixel `(x, y)` sits at
`(y * width + x) * 4 + c`. A `DataView` read past the end of the buffer, which throws in the source, is a
`None` from `Bytes.ReadU8/ReadU16/ReadU32`. Both header inspectors catch every internal error and rethrow
one generic error, so they return `Option<Metadata>`. The GB7 decoder lets its errors escape, so it returns a
`Result` whose error says which check failed. Descriptions are the tagged `ImageInfo.Depth` value rather than
localised text.

Modules: `Wrappers` (Option/Result), `Bytes` (big-endian reads and writes), `Bits` (`&` and `>>` on
non-negative integers), `Raster` (buffer layout and index
arithmetic), `Rounding` (`Math.round`), `ImageInfo` (metadata and depth descriptions), `Gb7`, `Png`, `Jpeg`,
`Interpolation`.

Behaviour of the source worth knowing when reading the model:

- Every PNG or JPEG header failure is the same `None`. Both inspectors catch their internal errors and
  rethrow one generic error (`useImageLoader.js:50-53` and `134-137`).
- A GB7 header with zero width or height is an error (`EmptyImage`), because `new ImageData` rejects a zero
  dimension (`Parser.js:17`).
- Bilinear output always lies between its four corner samples, so it is already in [0, 255]
  (`interpolation.js:92-95`).
- GB7 level 64 maps to 129: `64 / 127 * 255` is 128.50..., and `Math.round` rounds it up (`Parser.js:25`).
- The caller (`App.js`) rejects a non-positive resample target before either resampler runs, so the
  resamplers take a positive target size as a precondition.

## Model

| member | source | states |
|---|---|---|
| Bytes.ReadU8 | commit1-lab1/src/hooks/useImageLoader.js:102-103 | a byte read succeeds exactly when the offset is inside the buffer, and yields the byte there |
| Bytes.ReadU16 | commit2-lab2/src/utils/Parser.js:5-6 | a big-endian 16-bit read succeeds exactly when two bytes remain at the offset, and yields a value below 65536 |
| Bytes.ReadU32 | commit1-lab1/src/hooks/useImageLoader.js:100-101 | a big-endian 32-bit read succeeds exactly when four bytes remain, and yields a value below 2^32 |
| Bytes.ReadU16OfEncode | commit1-lab1/src/hooks/useImageLoader.js:24-25 | reading a 16-bit field back from its big-endian encoding, anywhere in a buffer, gives the value |
| Bytes.EncodeOfReadU16 | commit1-lab1/src/hooks/useImageLoader.js:24-25 | a successful 16-bit read determines the two bytes read: encoding the value reproduces them |
| Bytes.ReadU32OfEncode | commit1-lab1/src/hooks/useImageLoader.js:100-101 | reading a 32-bit field back from its big-endian encoding gives the value |
| Bytes.EncodeOfReadU32 | commit1-lab1/src/hooks/useImageLoader.js:100-101 | a successful 32-bit read determines the four bytes read |
| Bytes.ReadU32Matches | commit1-lab1/src/hooks/useImageLoader.js:88-89 | comparing a 32-bit read with a constant is the same as comparing the four bytes with its encoding |
| Raster.PixelNumberInBounds | commit2-lab2/src/utils/Parser.js:16-23 | the running plane index `y*w + x` of an in-range pixel is below `w*h` |
| Raster.OffsetInBounds | commit2-lab2/src/utils/interpolation.js:22-29 | every channel index `(y*w + x)*4 + c` of an in-range pixel lies inside a `w*h*4` buffer |
| Raster.PixelOfIndex | commit2-lab2/src/utils/Parser.js:33-37 | the pixel number `i / 4` of an index of a `w*h*4` buffer is below `w*h` |
| Raster.Decompose | commit2-lab2/src/utils/interpolation.js:24 | every index of a `w*h*4` buffer is the offset of one in-range (column, row, channel) triple |
| Raster.Compose | commit2-lab2/src/utils/interpolation.js:90 | the offset of `(x, y, c)` decomposes back into `x`, `y` and `c`, and its pixel number is `y*w + x` |
| Rounding.Round | commit2-lab2/src/utils/interpolation.js:92-95 | `Math.round` returns the integer within one half of its argument, halves rounding up |
| Rounding.RoundWithin | commit2-lab2/src/utils/interpolation.js:92-95 | rounding a value that lies between two integers stays between them |
| Rounding.RoundOfInt | commit2-lab2/src/utils/interpolation.js:92-95 | rounding an integer returns it unchanged |
| Gb7.Gray8 | commit2-lab2/src/utils/Parser.js:24-25 | the rescaled gray level is a byte, maps 0 to 0, 127 to 255 and 64 to 129 |
| Gb7.Gray8IsRoundedRescale | commit2-lab2/src/utils/Parser.js:25 | the integer formula `(g*255 + 63) / 127` equals `Math.round(g / 127 * 255)` computed over exact reals |
| Gb7.Gray8OfMidLevel | commit2-lab2/src/utils/Parser.js:25 | level 64 rescales to 128.50..., so it becomes 129 |
| Gb7.Gray8Monotone | commit2-lab2/src/utils/Parser.js:25 | a larger 7-bit level never rescales to a smaller 8-bit one |
| Bits.SplitAt | commit2-lab2/src/utils/Parser.js:24-26 | for every non-negative value, `a & (2^k - 1)` is below `2^k`, and adding `2^k` times `a >> k` gives back `a`: the mask and the shift are the remainder and quotient by `2^k` |
| Gb7.Gray7Of | commit2-lab2/src/utils/Parser.js:24 | the gray level equals `b & 0x7F`, with `&` defined bit by bit, and is at most 127 |
| Gb7.MaskBitOf | commit2-lab2/src/utils/Parser.js:26 | the mask bit equals `(b >> 7) & 0x01`, with the operators defined bit by bit, and the byte is `128 * mask + gray` |
| Gb7.MaskFlag | commit2-lab2/src/utils/Parser.js:7 | the header enables the mask exactly when `flags & 0x01`, defined bit by bit, is 1 |
| Gb7.Alpha | commit2-lab2/src/utils/Parser.js:26-31 | alpha is 0 or 255, and it is 0 exactly when the header's mask flag is set and the pixel's bit 7 is clear |
| Gb7.Expand | commit2-lab2/src/utils/Parser.js:16-38 | the pixel loop yields a valid `w` by `h` buffer whose pixel `(x, y)` is gray `Gray8(b & 0x7F)` in R, G and B and `Alpha` in A, for plane byte `b = bytes[12 + y*w + x]` |
| Gb7.Decode | commit2-lab2/src/utils/Parser.js:1-47 | fails under 10 bytes, fails when fewer than `12 + w*h` bytes remain, fails on a zero dimension, and succeeds otherwise. On success: the geometry is the big-endian fields at 6 and 8, each pixel is expanded from its own plane byte, and the description follows the mask flag |
| Gb7.DecodeDependsOnlyOnFields | commit2-lab2/src/utils/Parser.js:5-38 | two inputs that agree on bytes 6-9, on bit 0 of byte 5 and on the `w*h` plane bytes decode identically. Bytes 0-4 and 10-11, the other bits of byte 5 and any trailing bytes never matter |
| Gb7.DecodeIgnoresTrailingBytes | commit2-lab2/src/utils/Parser.js:10-16 | appending bytes to a decodable file does not change the result |
| Png.SignatureMatches | commit1-lab1/src/hooks/useImageLoader.js:86-92 | the two 32-bit signature comparisons accept exactly the eight bytes `89 50 4E 47 0D 0A 1A 0A` |
| Png.ParseHeader | commit1-lab1/src/hooks/useImageLoader.js:83-138 | succeeds exactly when there are at least 26 bytes, the signature matches and bytes 12-15 are `IHDR`. On success: width and height are the big-endian 32-bit fields at 16 and 20, and bits per pixel and description follow the colour type at 25 and bit depth at 24 |
| Png.BitsPerPixel | commit1-lab1/src/hooks/useImageLoader.js:108-132 | the colour-type table equals bit depth times the samples per pixel of section 11.2.2 of the PNG Specification, and is absent exactly for values that are not colour types |
| Png.Describe | commit1-lab1/src/hooks/useImageLoader.js:108-132 | colour types 0, 2, 3, 4 and 6 give grayscale, RGB, indexed, grayscale with alpha and RGBA; the description leads with exactly the table's bits per pixel; only a value that is not a colour type gets the generic form, which carries the raw colour type and depth |
| Png.ParsedDescriptionAgreesWithBits | commit1-lab1/src/hooks/useImageLoader.js:105-133 | the reported bits per pixel is the figure the description leads with. Only an unknown colour type has no figure, and it gets the generic description |
| Png.ParseEncodedHeader | commit1-lab1/src/hooks/useImageLoader.js:93-133 | inspecting a written signature plus IHDR, followed by anything, returns the written width, height and depth |
| Png.TruecolourExample | commit1-lab1/src/hooks/useImageLoader.js:113-116 | a 10 by 20 truecolour header at 8 bits per sample reports 24-bit RGB |
| Png.CorruptSignatureFails | commit1-lab1/src/hooks/useImageLoader.js:86-92 | changing any one signature byte makes the inspection fail |
| Jpeg.IsSof | commit1-lab1/src/hooks/useImageLoader.js:13-19 | the range test with its three exclusions accepts exactly the thirteen start-of-frame markers of Table B.1 of ITU-T T.81 |
| Jpeg.Describe | commit1-lab1/src/hooks/useImageLoader.js:29-42 | 1, 3 and 4 components give grayscale, RGB and CMYK leading with the bits per pixel; any other count gives the generic form with bits and component count |
| Jpeg.FindSof | commit1-lab1/src/hooks/useImageLoader.js:10-48 | the scan loop terminates. Any offset it returns is at or after where it started, has two bytes, and holds a start-of-frame marker |
| Jpeg.FindSofFollowsPath | commit1-lab1/src/hooks/useImageLoader.js:11-47 | what the scan returns ends a chain of segment hops from the start on which no earlier marker is start-of-frame: the first SOF in scan order wins |
| Jpeg.PathDeterminesFindSof | commit1-lab1/src/hooks/useImageLoader.js:11-47 | conversely, any such chain of non-frame segments that ends on a start-of-frame marker is exactly where the scan stops |
| Jpeg.FindSofSkipsSegment | commit1-lab1/src/hooks/useImageLoader.js:45-47 | at a non-frame marker the scan resumes just past the segment, `2 + length` bytes later |
| Jpeg.FindSofSkipsSegments | commit1-lab1/src/hooks/useImageLoader.js:11-47 | the scan passes over any run of well-formed non-frame segments |
| Jpeg.ReadFrame | commit1-lab1/src/hooks/useImageLoader.js:20-43 | the frame header at a marker at `o` is readable exactly when `o + 10` bytes exist, although the explicit check asks only for `o + 8`. Height and width are the big-endian fields at `o+5` and `o+7`. Bits per pixel is precision (`o+4`) times components (`o+9`). The description follows the component count |
| Jpeg.StartsWithSoi | commit1-lab1/src/hooks/useImageLoader.js:7-9 | the 16-bit SOI test accepts exactly the streams whose first two bytes are `FF D8` |
| Jpeg.ParseHeader | commit1-lab1/src/hooks/useImageLoader.js:4-54 | succeeds exactly when the stream starts with `FF D8`, the scan finds a start-of-frame marker, and that marker's frame header is readable. The result is then the frame header read at the first start-of-frame marker |
| Jpeg.ParsedDescriptionAgreesWithBits | commit1-lab1/src/hooks/useImageLoader.js:28-42 | bits per pixel is always reported, and the description either leads with it (1, 3 or 4 components) or names it in the generic form |
| Jpeg.FrameStartReads | commit1-lab1/src/hooks/useImageLoader.js:13-43 | a written frame header is where the scan stops, and it reads back as its width, height, precision times components and description |
| Jpeg.ParseEncodedStream | commit1-lab1/src/hooks/useImageLoader.js:4-54 | SOI, any run of non-frame segments, then a frame header, is inspected as the frame's width, height and depth |
| Jpeg.HuffmanTableThenFrameExample | commit1-lab1/src/hooks/useImageLoader.js:13-19 | a DHT (`FF C4`) segment is skipped rather than taken for a frame. The following 200 by 100, 3-component, 8-bit frame reports 24-bit RGB |
| Interpolation.Clamp | commit2-lab2/src/utils/interpolation.js:15 | `Math.max(lo, Math.min(v, hi))` lies in `[lo, hi]`, leaves in-range values alone, and sends values below or above the range to its ends |
| Interpolation.NearestCoord | commit2-lab2/src/utils/interpolation.js:13-20 | the clamped nearest source coordinate is always inside the source |
| Interpolation.NearestCoordUnclamped | commit2-lab2/src/utils/interpolation.js:13-20 | under exact arithmetic `floor(t * W / w)` already lies in the source for every target coordinate, so the clamp never fires |
| Interpolation.NearestNeighbor | commit2-lab2/src/utils/interpolation.js:1-34 | the output is a valid `newWidth` by `newHeight` buffer. Every output pixel is a verbatim copy of all four channels of the source pixel at the nearest coordinates |
| Interpolation.NearestNeighborIdentity | commit2-lab2/src/utils/interpolation.js:9-29 | resampling to the source's own size reproduces it byte for byte |
| Interpolation.Lerp | commit2-lab2/src/utils/interpolation.js:54-56 | `lerp` returns its first end at weight 0, its second at weight 1, their midpoint at one half, and the common value when both ends agree |
| Interpolation.LerpBetween | commit2-lab2/src/utils/interpolation.js:54-56 | `lerp` with a weight in [0, 1] lies between its two ends |
| Interpolation.InterpolateChannel | commit2-lab2/src/utils/interpolation.js:58-64 | the two-stage blend returns `p11`, `p21`, `p12` or `p22` at the corresponding corner of the unit square |
| Interpolation.InterpolateChannelBetween | commit2-lab2/src/utils/interpolation.js:58-64 | the two-stage blend lies between the smallest and largest of its four corners |
| Interpolation.PositionInSource | commit2-lab2/src/utils/interpolation.js:68-69 | the continuous source position `x * W / w` of a target coordinate lies in `[0, W)` |
| Interpolation.SpanAt | commit2-lab2/src/utils/interpolation.js:68-78 | `0 <= x1 <= x2 <= W-1`, `x2 = min(x1 + 1, W-1)`, `0 <= dx < 1`, and `x1 + dx` is the exact source position |
| Interpolation.GetSample | commit2-lab2/src/utils/interpolation.js:47-52 | `getPixel` reads an in-range coordinate as is, a coordinate off one edge as the pixel on that edge, and a coordinate off two edges as the corner pixel between them |
| Interpolation.Corners | commit2-lab2/src/utils/interpolation.js:80-83 | the four corner reads are the source samples at `(x1, y1)`, `(x2, y1)`, `(x1, y2)` and `(x2, y2)`: their clamping never moves a span end |
| Interpolation.BilinearSample | commit2-lab2/src/utils/interpolation.js:80-95 | each rounded output channel lies between the smallest and largest of its four corner samples, and so in [0, 255] |
| Interpolation.BilinearInterpolation | commit2-lab2/src/utils/interpolation.js:36-100 | the output is a valid `newWidth` by `newHeight` buffer whose every channel is the rounded bilinear blend of its four clamped corners |
| Interpolation.BilinearOfEqualCorners | commit2-lab2/src/utils/interpolation.js:54-64 | when the four corners agree, the output channel is exactly their value |
| Interpolation.BilinearPreservesConstantImage | commit2-lab2/src/utils/interpolation.js:54-95 | a constant image stays constant, with the same pixel value, at any target size |
| Interpolation.SpanAtGridPoint | commit2-lab2/src/utils/interpolation.js:68-78 | at the source's own size the position of `t` is `t` itself, with weight 0 |
| Interpolation.BilinearIdentity | commit2-lab2/src/utils/interpolation.js:68-95 | resampling to the source's own size reproduces it byte for byte |

## Left out

- The `useImageLoader` hook body, `FileReader`, `imgUrlToImageData` and the platform PNG/JPEG pixel codec are I/O
  and platform calls. They are not part of this model.
- `console.error` logging, and the localised wording and number formatting of descriptions. Descriptions are
  the tagged `ImageInfo.Depth` value carrying the numbers.
- Display and UI code: the resize dialog, display scaling, canvas rendering, status bar, file input and `App.js`
  wiring. This includes the method dispatch and the identity short-cut in `App.js`.
- Floating point: the resamplers compute `x * (W / w)` with a float ratio. At exact integer boundaries this can
  differ from the exact `x * W / w` used here (W = 2, w = 98, x = 49 gives 0 instead of 1). `lerp` is likewise
  modelled over exact reals.
- GB7 gray rounding is exact, because `g * 255 / 127` is never within float error of a half.
- The writes into `Uint8ClampedArray` are not modelled. Every value written is proved to be a byte already, so
  its clamping never acts.
- Platform limits on `ImageData` size, and memory exhaustion for huge dimensions, are not modelled. Nor is
  arithmetic overflow: `width * height` of two 16-bit fields is exact in both JavaScript and the model.
- Jpeg.ParseHeader: the distinction between "no SOF marker", "segment length unreadable" and "frame header
  truncated" is not kept, because the source rethrows them all as one error. The unreachable
  `if (byteLength < offset + 2) break` inside the scan loop has no counterpart.
- Png.ParseHeader: likewise one failure for every cause. The explicit length check stops at 25 bytes, but the
  colour-type read needs 26, so success requires 26 bytes.
- Interpolation.NearestNeighbor, Interpolation.BilinearInterpolation: a non-positive target size is a
  precondition rather than an error result. The caller rejects it before calling, and the `ImageData`
  constructor would throw.
