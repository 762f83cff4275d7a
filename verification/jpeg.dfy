/** Header inspector for JPEG (`parseJpegHeader`): after the SOI marker it
    walks marker segments (ITU-T T.81 Annex B: marker codes of Table B.1,
    segment lengths of B.1.1.4) until the first start-of-frame marker, then
    reads the frame header fields of B.2.2. Pixel data is not decoded. */
module Jpeg {
  import opened Wrappers
  import opened Bytes
  import opened ImageInfo

  const SOI: nat := 0xFFD8
  const SCAN_START: nat := 2

  /** The thirteen start-of-frame markers of Table B.1 of ITU-T T.81:
      SOF0-SOF3, SOF5-SOF7, SOF9-SOF11 and SOF13-SOF15. */
  const SOF_MARKERS: set<nat> := {
    0xFFC0, 0xFFC1, 0xFFC2, 0xFFC3, 0xFFC5, 0xFFC6, 0xFFC7,
    0xFFC9, 0xFFCA, 0xFFCB, 0xFFCD, 0xFFCE, 0xFFCF
  }

  /** The inspector's range test: 0xFFC0-0xFFCF except DHT (0xFFC4), JPG
      (0xFFC8) and DAC (0xFFCC), which share the range but carry no frame
      header. It accepts exactly the start-of-frame markers. */
  predicate IsSof(marker: nat)
    ensures IsSof(marker) <==> marker in SOF_MARKERS
  {
    0xFFC0 <= marker <= 0xFFCF && marker != 0xFFC4 && marker != 0xFFC8 && marker != 0xFFCC
  }

  /** The 16-bit marker code at `off`. */
  function MarkerAt(bytes: seq<Byte>, off: nat): nat
    requires off + 2 <= |bytes|
  {
    ReadU16(bytes, off).value
  }

  /** The scan loop from `offset`: the offset of the first start-of-frame
      marker reached by hopping over segments, or `None` when the loop runs
      out of bytes or a segment length cannot be read. */
  function FindSof(bytes: seq<Byte>, offset: nat): (r: Option<nat>)
    ensures r.Some? ==> offset <= r.value && r.value + 2 <= |bytes| && IsSof(MarkerAt(bytes, r.value))
    decreases |bytes| - offset
  {
    // the loop runs while `offset < byteLength - 1`
    if offset + 2 > |bytes| then None
    else if IsSof(MarkerAt(bytes, offset)) then Some(offset)
    else
      match ReadU16(bytes, offset + 2)
      case None => None
      case Some(length) => FindSof(bytes, offset + 2 + length)
  }

  /** The description chosen by component count: gray, RGB and CMYK lead
      with the bits per pixel, any other count gets the generic form. */
  function Describe(bits: nat, components: nat): (d: Depth)
    ensures d.JpegOther? <==> components != 1 && components != 3 && components != 4
    ensures d.JpegOther? ==> d == JpegOther(bits, components)
    ensures !d.JpegOther? ==> d.LeadingBits() == Some(bits)
    ensures components == 1 ==> d.Grayscale?
    ensures components == 3 ==> d.Rgb?
    ensures components == 4 ==> d.Cmyk?
  {
    match components
    case 1 => Grayscale(bits)
    case 3 => Rgb(bits)
    case 4 => Cmyk(bits)
    case _ => JpegOther(bits, components)
  }

  /** The frame-header reads at the start-of-frame marker found at `o`. */
  function ReadFrame(bytes: seq<Byte>, o: nat): (r: Option<Metadata>)
    ensures r.Some? <==> o + 10 <= |bytes|
    ensures r.Some? ==>
      var bits: nat := bytes[o + 4] as nat * bytes[o + 9] as nat;
      && r.value.height == Be16(bytes[o + 5], bytes[o + 6])
      && r.value.width == Be16(bytes[o + 7], bytes[o + 8])
      && r.value.bitsPerPixel == Some(bits)
      && r.value.depth == Describe(bits, bytes[o + 9])
  {
    if |bytes| < o + 8 then None
    else
      var precision := bytes[o + 4];
      var height := Be16(bytes[o + 5], bytes[o + 6]);
      // the explicit check covers only o + 8 bytes; these two reads can still throw
      var width :- ReadU16(bytes, o + 7);
      var components :- ReadU8(bytes, o + 9);
      var bits: nat := precision as nat * components as nat;
      Some(Metadata(width, height, Describe(bits, components), Some(bits)))
  }

  /** The SOI test `getUint16(0) === 0xFFD8` on a buffer of at least two bytes. */
  predicate StartsWithSoi(bytes: seq<Byte>)
    ensures StartsWithSoi(bytes) <==> |bytes| >= 2 && bytes[0] == 0xFF && bytes[1] == 0xD8
  {
    |bytes| >= 2 && ReadU16(bytes, 0) == Some(SOI)
  }

  function ParseHeader(bytes: seq<Byte>): (r: Option<Metadata>)
    ensures r.Some? <==>
      && |bytes| >= 2 && bytes[0] == 0xFF && bytes[1] == 0xD8
      && FindSof(bytes, SCAN_START).Some?
      && FindSof(bytes, SCAN_START).value + 10 <= |bytes|
    ensures r.Some? ==> r == ReadFrame(bytes, FindSof(bytes, SCAN_START).value)
  {
    if !StartsWithSoi(bytes) then None
    else
      var o :- FindSof(bytes, SCAN_START);
      ReadFrame(bytes, o)
  }

  /** Bits per pixel is always reported; the description leads with it for
      one, three or four components and names both numbers otherwise. */
  lemma ParsedDescriptionAgreesWithBits(bytes: seq<Byte>)
    requires ParseHeader(bytes).Some?
    ensures ParseHeader(bytes).value.bitsPerPixel.Some?
    ensures ParseHeader(bytes).value.depth.JpegOther?
      || ParseHeader(bytes).value.depth.LeadingBits() == ParseHeader(bytes).value.bitsPerPixel
    ensures ParseHeader(bytes).value.depth.JpegOther? ==>
      ParseHeader(bytes).value.depth.bits == ParseHeader(bytes).value.bitsPerPixel.value
  {
  }

  /** `path` lists marker offsets the scan visits in order: every offset
      but the last holds a marker that is not start-of-frame and a readable
      segment length, and the next offset lies just past that segment. */
  ghost predicate IsScanPath(bytes: seq<Byte>, path: seq<nat>) {
    && |path| >= 1
    && forall k | 0 < k < |path| :: Hop(bytes, path[k - 1], path[k])
  }

  /** One turn of the scan loop that does not stop: the marker at `from` is
      not start-of-frame and its segment ends at `to`. */
  ghost predicate Hop(bytes: seq<Byte>, from: nat, to: nat) {
    && from + 4 <= |bytes|
    && !IsSof(MarkerAt(bytes, from))
    && to == from + 2 + ReadU16(bytes, from + 2).value
  }

  /** The path ends on a start-of-frame marker. */
  ghost predicate EndsOnSof(bytes: seq<Byte>, path: seq<nat>)
    requires |path| >= 1
  {
    path[|path| - 1] + 2 <= |bytes| && IsSof(MarkerAt(bytes, path[|path| - 1]))
  }

  /** What the scan finds is the end of a path from its start on which no
      earlier marker is a start-of-frame: the first SOF in scan order. */
  lemma {:induction false} FindSofFollowsPath(bytes: seq<Byte>, start: nat)
    requires FindSof(bytes, start).Some?
    ensures exists path ::
      && IsScanPath(bytes, path) && path[0] == start
      && path[|path| - 1] == FindSof(bytes, start).value && EndsOnSof(bytes, path)
    decreases |bytes| - start
  {
    if IsSof(MarkerAt(bytes, start)) {
      assert IsScanPath(bytes, [start]);
    } else {
      var next := start + 2 + ReadU16(bytes, start + 2).value;
      FindSofFollowsPath(bytes, next);
      var rest :| IsScanPath(bytes, rest) && rest[0] == next
        && rest[|rest| - 1] == FindSof(bytes, next).value && EndsOnSof(bytes, rest);
      var path := [start] + rest;
      forall k | 0 < k < |path|
        ensures Hop(bytes, path[k - 1], path[k])
      {
        if k > 1 {
          assert path[k - 1] == rest[k - 2] && path[k] == rest[k - 1];
        }
      }
      assert IsScanPath(bytes, path);
    }
  }

  /** Conversely, a path from `start` to a start-of-frame marker is exactly
      what the scan follows, so the scan stops at its end. */
  lemma {:induction false} PathDeterminesFindSof(bytes: seq<Byte>, path: seq<nat>)
    requires IsScanPath(bytes, path) && EndsOnSof(bytes, path)
    ensures FindSof(bytes, path[0]) == Some(path[|path| - 1])
    decreases |path|
  {
    if |path| > 1 {
      var rest := path[1..];
      assert IsScanPath(bytes, rest) by {
        forall k | 0 < k < |rest|
          ensures Hop(bytes, rest[k - 1], rest[k])
        {
          assert rest[k - 1] == path[k] && rest[k] == path[k + 1];
        }
      }
      assert Hop(bytes, path[0], path[1]);
      PathDeterminesFindSof(bytes, rest);
    }
  }

  /** A marker segment as a writer lays it out: marker, big-endian length
      counting itself, payload. */
  datatype Segment = Segment(marker: nat, payload: seq<Byte>) {
    predicate Valid() {
      marker < U16_LIMIT && |payload| + 2 < U16_LIMIT
    }
  }

  function EncodeSegment(s: Segment): (out: seq<Byte>)
    requires s.Valid()
    ensures |out| == 4 + |s.payload|
  {
    EncodeU16(s.marker) + EncodeU16(|s.payload| + 2) + s.payload
  }

  function EncodeSegments(segs: seq<Segment>): (out: seq<Byte>)
    requires forall k | 0 <= k < |segs| :: segs[k].Valid()
  {
    if segs == [] then [] else EncodeSegment(segs[0]) + EncodeSegments(segs[1..])
  }

  /** The first ten bytes of a frame header segment: marker, length,
      precision, height, width and component count. */
  function EncodeFrameStart(marker: nat, precision: Byte, height: nat, width: nat, components: Byte): (out: seq<Byte>)
    requires marker < U16_LIMIT && height < U16_LIMIT && width < U16_LIMIT
    ensures |out| == 10
  {
    EncodeU16(marker) + EncodeU16(8 + 3 * components) + [precision] + EncodeU16(height) + EncodeU16(width) + [components]
  }

  /** The scan hops over one segment whose marker is not start-of-frame. */
  lemma {:induction false} FindSofSkipsSegment(bytes: seq<Byte>, p: nat, s: Segment, q: nat)
    requires s.Valid() && !IsSof(s.marker) && q == p + |EncodeSegment(s)|
    requires q <= |bytes| && bytes[p..q] == EncodeSegment(s)
    ensures FindSof(bytes, p) == FindSof(bytes, q)
  {
    var e := EncodeSegment(s);
    assert bytes[p] == e[0] && bytes[p + 1] == e[1] && bytes[p + 2] == e[2] && bytes[p + 3] == e[3];
    assert MarkerAt(bytes, p) == s.marker;
    assert ReadU16(bytes, p + 2) == Some(|s.payload| + 2);
  }

  /** A slice holding `x + y` holds `x` and then `y`. */
  lemma SliceOfConcat(bytes: seq<Byte>, p: nat, x: seq<Byte>, y: seq<Byte>)
    requires p + |x| + |y| <= |bytes| && bytes[p..p + |x| + |y|] == x + y
    ensures bytes[p..p + |x|] == x && bytes[p + |x|..p + |x| + |y|] == y
  {
    assert bytes[p..p + |x|] == bytes[p..p + |x| + |y|][..|x|];
    assert bytes[p + |x|..p + |x| + |y|] == bytes[p..p + |x| + |y|][|x|..];
  }

  /** The scan hops over any run of segments none of which is start-of-frame. */
  lemma {:induction false} FindSofSkipsSegments(bytes: seq<Byte>, p: nat, segs: seq<Segment>, q: nat)
    requires forall k | 0 <= k < |segs| :: segs[k].Valid() && !IsSof(segs[k].marker)
    requires q == p + |EncodeSegments(segs)|
    requires q <= |bytes| && bytes[p..q] == EncodeSegments(segs)
    ensures FindSof(bytes, p) == FindSof(bytes, q)
    decreases |segs|
  {
    if segs != [] {
      var first := EncodeSegment(segs[0]);
      var others := EncodeSegments(segs[1..]);
      assert EncodeSegments(segs) == first + others;
      var mid := p + |first|;
      SliceOfConcat(bytes, p, first, others);
      FindSofSkipsSegment(bytes, p, segs[0], mid);
      assert forall k | 0 <= k < |segs[1..]| :: segs[1..][k] == segs[k + 1];
      FindSofSkipsSegments(bytes, mid, segs[1..], q);
    }
  }

  /** A written frame header at `o` is where the scan stops, and it reads
      back as the frame's geometry and depth. */
  lemma {:induction false} FrameStartReads(bytes: seq<Byte>, o: nat, marker: nat, precision: Byte,
                                           height: nat, width: nat, components: Byte)
    requires IsSof(marker) && height < U16_LIMIT && width < U16_LIMIT
    requires o + 10 <= |bytes| && bytes[o..o + 10] == EncodeFrameStart(marker, precision, height, width, components)
    ensures FindSof(bytes, o) == Some(o)
    ensures ReadFrame(bytes, o)
      == Some(Metadata(width, height, Describe(precision * components, components), Some(precision * components)))
  {
    var frame := EncodeFrameStart(marker, precision, height, width, components);
    assert bytes[o] == frame[0] && bytes[o + 1] == frame[1];
    assert MarkerAt(bytes, o) == marker;
    assert bytes[o + 4] == precision && bytes[o + 9] == components;
    assert bytes[o + 5] == height / 256 && bytes[o + 6] == height % 256;
    assert bytes[o + 7] == width / 256 && bytes[o + 8] == width % 256;
  }

  /** Inspecting SOI, any run of non-frame segments, then a frame header,
      gives back the frame's geometry and depth. */
  lemma {:induction false} ParseEncodedStream(segs: seq<Segment>, marker: nat, precision: Byte,
                                               height: nat, width: nat, components: Byte, rest: seq<Byte>)
    requires forall k | 0 <= k < |segs| :: segs[k].Valid() && !IsSof(segs[k].marker)
    requires IsSof(marker) && height < U16_LIMIT && width < U16_LIMIT
    ensures ParseHeader([0xFF, 0xD8] + EncodeSegments(segs) + EncodeFrameStart(marker, precision, height, width, components) + rest)
      == Some(Metadata(width, height, Describe(precision * components, components), Some(precision * components)))
  {
    var frame := EncodeFrameStart(marker, precision, height, width, components);
    var bytes := [0xFF, 0xD8] + EncodeSegments(segs) + frame + rest;
    var o := 2 + |EncodeSegments(segs)|;
    assert bytes[2..o] == EncodeSegments(segs);
    FindSofSkipsSegments(bytes, 2, segs, o);
    assert bytes[o..o + 10] == frame;
    FrameStartReads(bytes, o, marker, precision, height, width, components);
  }

  /** SOI, a DHT segment of length 5, then a baseline frame of 200 by 100
      pixels with three 8-bit components: the DHT marker is skipped, not
      taken for a frame, and the result is 24-bit RGB. */
  lemma HuffmanTableThenFrameExample(rest: seq<Byte>)
    ensures ParseHeader([0xFF, 0xD8] + EncodeSegments([Segment(0xFFC4, [0, 0, 0])])
                        + EncodeFrameStart(0xFFC0, 8, 100, 200, 3) + rest)
      == Some(Metadata(200, 100, Rgb(24), Some(24)))
  {
    ParseEncodedStream([Segment(0xFFC4, [0, 0, 0])], 0xFFC0, 8, 100, 200, 3, rest);
  }
}
