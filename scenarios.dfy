/**
 * Worked examples over the whole pipeline: luma conversion, the GLCM of a 2 x 2
 * checkerboard, its texture features, the uniform image, and two tables that
 * show how the first-index mean and variance shape the correlation.
 */
module Scenarios {
  import opened Pixels
  import opened Grid
  import opened Grayscale
  import opened Glcm
  import opened Texture
  import opened MeanColor

  const Black := RGBPixel(0, 0, 0)
  const White := RGBPixel(255, 255, 255)

  /** The 2 x 2 gray image with rows [0, 255] and [255, 0]. */
  function Checkerboard(): GrayImage
  {
    GrayImage([0, 255, 255, 0], 2, 2)
  }

  /** A table holding v at (a, b) and (c, d) and zero elsewhere. */
  function TwoCells(a: int, b: int, c: int, d: int, v: real): (t: Table)
    ensures forall i, j :: InGrid(i, j) ==>
      Cell(t, i, j) == if (i == a && j == b) || (i == c && j == d) then v else 0.0
  {
    seq(GrayLevels, (i: int) => seq(GrayLevels, (j: int) => if (i == a && j == b) || (i == c && j == d) then v else 0.0))
  }

  // ---- Grayscale ------------------------------------------------------------------

  /** Black and white pixels become gray levels 0 and 255. */
  lemma CheckerboardGray()
    ensures ToGray([Black, White, White, Black]) == Checkerboard().data
  {
    LumaOfGray(0);
    LumaOfGray(255);
  }

  // ---- The checkerboard's co-occurrence table -------------------------------------------

  /** The row-by-row scan of the checkerboard with the offset (1, 0). */
  lemma CheckerboardScan(a: int, b: int)
    ensures Count(Checkerboard(), Offset(1, 0), a, b, 2)
         == if (a == 0 && b == 255) || (a == 255 && b == 0) then 1 else 0
  {
    var img, off := Checkerboard(), Offset(1, 0);
    assert GrayAt(img, 0, 0) == 0 && GrayAt(img, 1, 0) == 255;
    assert GrayAt(img, 0, 1) == 255 && GrayAt(img, 1, 1) == 0;
    assert Hit(img, off, 0, 0, a, b) <==> a == 0 && b == 255;
    assert Hit(img, off, 0, 1, a, b) <==> a == 255 && b == 0;
    assert !PairInside(img, off, 1, 0) && !PairInside(img, off, 1, 1);
    var first := if a == 0 && b == 255 then 1 else 0;
    var second := if a == 255 && b == 0 then 1 else 0;
    assert RowCount(img, off, a, b, 0, 1) == first;
    assert RowCount(img, off, a, b, 0, 2) == first;
    assert RowCount(img, off, a, b, 1, 1) == second;
    assert RowCount(img, off, a, b, 1, 2) == second;
    assert Count(img, off, a, b, 1) == first;
  }

  /** Distance 1 at angle 0 pairs (0, 0) with (1, 0) and (0, 1) with (1, 1): one pair per row. */
  lemma CheckerboardCounts(a: int, b: int)
    ensures PairCount(Checkerboard(), Direction(1, 0)) == 2
    ensures RawCount(Checkerboard(), Direction(1, 0), a, b)
         == if (a == 0 && b == 255) || (a == 255 && b == 0) then 1 else 0
  {
    assert Direction(1, 0) == Offset(1, 0);
    PairCountClosed(Checkerboard(), Offset(1, 0));
    CheckerboardScan(a, b);
  }

  /** The normalised table holds 0.5 at (0, 255) and at (255, 0). */
  lemma CheckerboardGlcm(a: int, b: int)
    ensures GlcmCell(Checkerboard(), Direction(1, 0), a, b)
         == if (a == 0 && b == 255) || (a == 255 && b == 0) then 0.5 else 0.0
  {
    CheckerboardCounts(a, b);
    GlcmIsFraction(Checkerboard(), Direction(1, 0), a, b);
  }

  /**
   * The features of a table with 0.5 at (0, 255) and (255, 0): contrast
   * 255^2 = 65025, energy 2 * 0.25 = 0.5, and correlation -1, from mean 127.5
   * and variance 127.5^2.
   */
  lemma CheckerboardTableFeatures(t: Table)
    requires forall i, j :: InGrid(i, j) ==>
      Cell(t, i, j) == if (i == 0 && j == 255) || (i == 255 && j == 0) then 0.5 else 0.0
    ensures Contrast(t) == 65025.0 && Energy(t) == 0.5 && Correlation(t) == -1.0
  {
    TwoCellMean(t, 0, 255, 255, 0, 0.5);
    assert Mean(t) == 127.5;
    TwoCellVariance(t, 0, 255, 255, 0, 0.5, 127.5);
    assert Variance(t) == 16256.25;
    TwoCellContrast(t, 0, 255, 255, 0, 0.5);
    TwoCellEnergy(t, 0, 255, 255, 0, 0.5);
    TwoCellCorrelation(t, 0, 255, 255, 0, 0.5, 127.5, 16256.25);
  }

  lemma CheckerboardFeatures()
    ensures var t := GlcmTable(Checkerboard(), Direction(1, 0));
      Contrast(t) == 65025.0 && Energy(t) == 0.5 && Correlation(t) == -1.0
  {
    var t := GlcmTable(Checkerboard(), Direction(1, 0));
    forall i, j | InGrid(i, j)
      ensures Cell(t, i, j) == if (i == 0 && j == 255) || (i == 255 && j == 0) then 0.5 else 0.0
    {
      CheckerboardGlcm(i, j);
    }
    CheckerboardTableFeatures(t);
  }

  /**
   * The same run through the imperative code: convert the pixels, build the
   * table with distance 1 and angle 0, and reduce it.
   */
  method CheckerboardPipeline() returns (contrast: real, correlation: real, energy: real)
    ensures contrast == 65025.0 && energy == 0.5 && correlation == -1.0
  {
    var pixels := new RGBPixel[4][Black, White, White, Black];
    var gray := new Byte[4];
    var glcm := new real[GrayLevels, GrayLevels];
    RgbToGrayscale(pixels, gray, 2, 2);
    assert pixels[..4] == [Black, White, White, Black];
    CheckerboardGray();
    assert gray[..] == Checkerboard().data;
    CalculateGlcm(gray, 2, 2, 1, 0, glcm);
    forall i, j | InGrid(i, j)
      ensures Cell(Snapshot(glcm), i, j) == if (i == 0 && j == 255) || (i == 255 && j == 0) then 0.5 else 0.0
    {
      CheckerboardGlcm(i, j);
    }
    CheckerboardTableFeatures(Snapshot(glcm));
    contrast, correlation, energy := CalculateTextureFeatures(glcm);
  }

  // ---- The uniform image ----------------------------------------------------------

  /**
   * An image of a single gray level with at least one pair: all weight on one
   * diagonal cell, so contrast 0, energy 1 and correlation 0.
   */
  lemma UniformFeatures(img: GrayImage, off: Offset, v: Byte)
    requires WellFormed(img) && Uniform(img, v) && PairCount(img, off) > 0
    ensures var t := GlcmTable(img, off);
      Contrast(t) == 0.0 && Energy(t) == 1.0 && Correlation(t) == 0.0
  {
    var t := GlcmTable(img, off);
    forall i, j | InGrid(i, j) ensures Cell(t, i, j) == if i == v && j == v then 1.0 else 0.0 {
      GlcmUniform(img, off, v, i, j);
    }
    SingleCellFeatures(t, v, v);
  }

  // ---- Correlation with the first-index mean ------------------------------------------

  /**
   * Variance zero forces correlation zero, but not conversely: 0.5 at (0, 1)
   * and (2, 1) gives variance 1 and correlation 0.
   */
  lemma CorrelationZeroWithVariance()
    ensures Variance(TwoCells(0, 1, 2, 1, 0.5)) == 1.0
    ensures Correlation(TwoCells(0, 1, 2, 1, 0.5)) == 0.0
  {
    var t := TwoCells(0, 1, 2, 1, 0.5);
    TwoCellMean(t, 0, 1, 2, 1, 0.5);
    TwoCellVariance(t, 0, 1, 2, 1, 0.5, 1.0);
    TwoCellCorrelation(t, 0, 1, 2, 1, 0.5, 1.0, 1.0);
  }

  /**
   * Because j is centred on the first-index mean, the correlation is not
   * confined to [-1, 1]: 0.5 at (0, 0) and (2, 4) gives correlation 2.
   */
  lemma CorrelationAboveOne()
    ensures Correlation(TwoCells(0, 0, 2, 4, 0.5)) == 2.0
  {
    var t := TwoCells(0, 0, 2, 4, 0.5);
    TwoCellMean(t, 0, 0, 2, 4, 0.5);
    TwoCellVariance(t, 0, 0, 2, 4, 0.5, 1.0);
    TwoCellCorrelation(t, 0, 0, 2, 4, 0.5, 1.0, 1.0);
  }

  // ---- Mean colour ------------------------------------------------------------------

  /** A 1 x 1 image with pixel (10, 20, 30) has means 10, 20 and 30. */
  method OnePixelMeanColor() returns (meanRed: real, meanGreen: real, meanBlue: real)
    ensures meanRed == 10.0 && meanGreen == 20.0 && meanBlue == 30.0
  {
    var pixels := new RGBPixel[1][RGBPixel(10, 20, 30)];
    assert pixels[..1] == [RGBPixel(10, 20, 30)];
    SinglePixelMean(RGBPixel(10, 20, 30), Red);
    SinglePixelMean(RGBPixel(10, 20, 30), Green);
    SinglePixelMean(RGBPixel(10, 20, 30), Blue);
    meanRed, meanGreen, meanBlue := CalculateMeanColor(pixels, 1, 1);
  }
}
