/** What the loader reports about an image besides its pixels. */
module ImageInfo {
  import opened Wrappers

  /** Geometry and depth read from a PNG or JPEG container header;
      `bitsPerPixel` is absent when the colour configuration is unknown. */
  datatype Metadata = Metadata(width: nat, height: nat, depth: Depth, bitsPerPixel: Option<nat>)

  /** The colour-depth description, as a tagged value instead of the loader's
      localised text: each case names the wording the loader uses and carries
      the numbers the text interpolates. */
  datatype Depth =
    | Gray7                                   // GB7 without a mask plane
    | Gray7Mask                               // GB7 with a 1-bit mask
    | Grayscale(bits: nat)                    // "N-bit grayscale"
    | Rgb(bits: nat)                          // "N-bit RGB"
    | Indexed(bits: nat)                      // "N-bit indexed"
    | GrayscaleAlpha(bits: nat)               // "N-bit grayscale with alpha"
    | Rgba(bits: nat)                         // "N-bit RGBA"
    | Cmyk(bits: nat)                         // "N-bit CMYK"
    | PngOther(colorType: nat, bitDepth: nat) // "PNG (colour type T, depth D per channel)"
    | JpegOther(bits: nat, components: nat)   // "JPEG (N bits, K components)"
  {
    /** The "N-bit" figure the description leads with, if it has one. */
    function LeadingBits(): Option<nat>
    {
      match this
      case Grayscale(n) => Some(n)
      case Rgb(n) => Some(n)
      case Indexed(n) => Some(n)
      case GrayscaleAlpha(n) => Some(n)
      case Rgba(n) => Some(n)
      case Cmyk(n) => Some(n)
      case _ => None
    }
  }
}
