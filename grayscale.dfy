/** The grayscale converter: one luma byte per RGB pixel. */
module Grayscale {
  import opened Pixels

  function Min3(a: int, b: int, c: int): int
  {
    if a <= b && a <= c then a else if b <= c then b else c
  }

  function Max3(a: int, b: int, c: int): int
  {
    if a >= b && a >= c then a else if b >= c then b else c
  }

  /**
   * The luma byte of a pixel: 0.3 R + 0.59 G + 0.11 B truncated towards zero,
   * computed as the exact rational floor. The weights sum to 1, so the result
   * lies between the smallest and the largest channel and always fits a byte.
   */
  function Luma(p: RGBPixel): (y: Byte)
    ensures Min3(p.r, p.g, p.b) <= y <= Max3(p.r, p.g, p.b)
  {
    (30 * p.r + 59 * p.g + 11 * p.b) / 100
  }

  /** A pixel whose three channels are equal keeps that value. */
  lemma LumaOfGray(v: Byte)
    ensures Luma(RGBPixel(v, v, v)) == v
  {
    assert 30 * v + 59 * v + 11 * v == 100 * v;
  }

  /** The gray buffer of a pixel buffer, entry for entry. */
  function ToGray(pixels: seq<RGBPixel>): seq<Byte>
  {
    seq(|pixels|, (k: int) requires 0 <= k < |pixels| => Luma(pixels[k]))
  }

  /** Conversion is a per-index map: same length, entry k computed from pixel k alone. */
  lemma ToGrayPointwise(pixels: seq<RGBPixel>)
    ensures |ToGray(pixels)| == |pixels|
    ensures forall k :: 0 <= k < |pixels| ==> ToGray(pixels)[k] == Luma(pixels[k])
  {
  }

  /**
   * rgbToGrayscale: writes gray bytes for the first width * height pixels
   * into grayImage; the rest of grayImage is left as it was.
   */
  method RgbToGrayscale(pixels: array<RGBPixel>, grayImage: array<Byte>, width: int, height: int)
    requires 0 <= width && 0 <= height
    requires width * height <= pixels.Length && width * height <= grayImage.Length
    modifies grayImage
    ensures grayImage[..width * height] == ToGray(pixels[..width * height])
    ensures grayImage[width * height..] == old(grayImage[width * height..])
  {
    var n := width * height;
    for i := 0 to n
      invariant forall k :: 0 <= k < i ==> grayImage[k] == Luma(pixels[k])
      invariant grayImage[n..] == old(grayImage[n..])
    {
      grayImage[i] := Luma(pixels[i]);
    }
  }
}
