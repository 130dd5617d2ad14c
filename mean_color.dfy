/** The mean-colour utility: per-channel averages over the image's pixels. */
module MeanColor {
  import opened Pixels

  /** Sum of channel c over the pixels of ps, accumulated front to back. */
  function ChannelTotal(ps: seq<RGBPixel>, c: Channel): nat
  {
    if |ps| == 0 then 0 else ChannelTotal(ps[..|ps| - 1], c) + ChannelValue(ps[|ps| - 1], c)
  }

  /** The mean of channel c, the quotient the utility reports. */
  function ChannelMean(ps: seq<RGBPixel>, c: Channel): real
    requires |ps| > 0
  {
    ChannelTotal(ps, c) as real / |ps| as real
  }

  /** Each total lies between 0 and 255 times the pixel count. */
  lemma {:induction false} ChannelTotalBounds(ps: seq<RGBPixel>, c: Channel)
    ensures 0 <= ChannelTotal(ps, c) <= 255 * |ps|
  {
    if |ps| > 0 { ChannelTotalBounds(ps[..|ps| - 1], c); }
  }

  /** A channel total depends on that channel alone. */
  lemma {:induction false} ChannelTotalOnlyItsChannel(ps: seq<RGBPixel>, qs: seq<RGBPixel>, c: Channel)
    requires |ps| == |qs|
    requires forall k :: 0 <= k < |ps| ==> ChannelValue(ps[k], c) == ChannelValue(qs[k], c)
    ensures ChannelTotal(ps, c) == ChannelTotal(qs, c)
  {
    if |ps| > 0 { ChannelTotalOnlyItsChannel(ps[..|ps| - 1], qs[..|qs| - 1], c); }
  }

  /** Each mean lies in [0, 255]. */
  lemma ChannelMeanBounds(ps: seq<RGBPixel>, c: Channel)
    requires |ps| > 0
    ensures 0.0 <= ChannelMean(ps, c) <= 255.0
  {
    ChannelTotalBounds(ps, c);
    QuotientAtMost(ChannelTotal(ps, c) as real, |ps| as real, 255.0);
  }

  lemma QuotientAtMost(t: real, n: real, c: real)
    requires 0.0 <= t <= c * n && n > 0.0
    ensures 0.0 <= t / n <= c
  {
    var q := t / n;
    assert q * n == t;
    assert (q - c) * n == t - c * n <= 0.0;
  }

  /** The mean of red depends only on the red channel (likewise green and blue). */
  lemma ChannelMeanOnlyItsChannel(ps: seq<RGBPixel>, qs: seq<RGBPixel>, c: Channel)
    requires |ps| == |qs| > 0
    requires forall k :: 0 <= k < |ps| ==> ChannelValue(ps[k], c) == ChannelValue(qs[k], c)
    ensures ChannelMean(ps, c) == ChannelMean(qs, c)
  {
    ChannelTotalOnlyItsChannel(ps, qs, c);
  }

  /** For a 1 x 1 image the means are the pixel's own channel values. */
  lemma SinglePixelMean(p: RGBPixel, c: Channel)
    ensures ChannelMean([p], c) == ChannelValue(p, c) as real
  {
    assert [p][..0] == [];
    assert ChannelTotal([p], c) == ChannelValue(p, c);
  }

  /**
   * calculateMeanColor: accumulate the three channel totals over the first
   * width * height pixels, then divide each by the pixel count. The division
   * is unguarded, so the pixel count must be positive.
   */
  method CalculateMeanColor(pixels: array<RGBPixel>, width: int, height: int)
    returns (meanRed: real, meanGreen: real, meanBlue: real)
    requires 0 < width * height <= pixels.Length
    ensures meanRed == ChannelMean(pixels[..width * height], Red)
    ensures meanGreen == ChannelMean(pixels[..width * height], Green)
    ensures meanBlue == ChannelMean(pixels[..width * height], Blue)
    ensures 0.0 <= meanRed <= 255.0 && 0.0 <= meanGreen <= 255.0 && 0.0 <= meanBlue <= 255.0
  {
    var totalRed, totalGreen, totalBlue := 0, 0, 0;
    var numPixels := width * height;
    for i := 0 to numPixels
      invariant totalRed == ChannelTotal(pixels[..i], Red)
      invariant totalGreen == ChannelTotal(pixels[..i], Green)
      invariant totalBlue == ChannelTotal(pixels[..i], Blue)
    {
      assert pixels[..i + 1][..i] == pixels[..i];
      totalRed := totalRed + pixels[i].r;
      totalGreen := totalGreen + pixels[i].g;
      totalBlue := totalBlue + pixels[i].b;
    }
    meanRed := totalRed as real / numPixels as real;
    meanGreen := totalGreen as real / numPixels as real;
    meanBlue := totalBlue as real / numPixels as real;
    ChannelMeanBounds(pixels[..numPixels], Red);
    ChannelMeanBounds(pixels[..numPixels], Green);
    ChannelMeanBounds(pixels[..numPixels], Blue);
  }
}
