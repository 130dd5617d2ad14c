# GLCM texture features and mean colour, in Dafny

This project models two small image utilities written in C and proves properties of the model.

- `test2.c` converts an RGB image to gray levels and builds a 256 x 256 gray-level co-occurrence matrix (GLCM). The GLCM is a histogram of the gray-level pairs found at a fixed offset, normalised by its total. The program then reduces the matrix to three texture descriptors: contrast, correlation and energy.
- `test1.c` averages each colour channel over the image.

The modules follow the program's stages:

| file | module | models |
|---|---|---|
| `pixels.dfy` | `Pixels` | the `RGBPixel` record of three unsigned bytes |
| `grid.dfy` | `Grid` | `GRAY_LEVELS`, the 256 x 256 table, and sums over it in the row-major order of the nested loops |
| `grayscale.dfy` | `Grayscale` | `rgbToGrayscale` |
| `glcm.dfy` | `Glcm` | `calculateGLCM`: direction selection, clearing, counting, summing, normalising |
| `texture.dfy` | `Texture` | `calculateTextureFeatures`: mean, variance, contrast, correlation, energy |
| `mean_color.dfy` | `MeanColor` | `calculateMeanColor` |
| `scenarios.dfy` | `Scenarios` | worked examples through the whole pipeline |

The C functions work in place on buffers, so each one is a `method` over Dafny arrays:

- `array<RGBPixel>` for the pixel buffer;
- `array<Byte>` for the gray buffer;
- `array2<real>` for `double glcm[256][256]`.

Each method is proved against pure specification functions. The properties the program promises are then proved as lemmas about those functions.

- The GLCM counts are nested recursive functions that follow the scan order: rows `y`, then columns `x`.
- Sums over the table are `Grid.Total` of a summand `Term = (int, int) -> real`.
- `Grid.Snapshot` reads an `array2` as a `Table` value, so a method's result can be stated as a feature of the table it was given.
- `Grid.RowSum` and `Grid.RowsSum` step by the named constant `One` (equal to 1) rather than the literal 1. With the literal, the verifier would evaluate every 256 x 256 sum term by term.

The mean and variance of `calculateTextureFeatures` use the first index only. The correlation centres both indices on that one mean. The model reproduces this. `Scenarios.CorrelationAboveOne` shows one consequence: the correlation can leave [-1, 1].

The standard deviation appears in the source only as `std * std` and in the test `std != 0`. The model therefore carries the variance itself: `std * std` is the variance, and `std != 0` holds exactly when the variance is nonzero.

## Model

| member | source | states |
|---|---|---|
| Grayscale.Luma | test2.c:67 | in the model's exact arithmetic, the gray byte of a pixel lies between its smallest and largest channel, so it always fits a byte |
| Grayscale.LumaOfGray | test2.c:67 | in the model's exact arithmetic, a pixel with three equal channels v becomes gray level v |
| Grayscale.ToGrayPointwise | test2.c:65-68 | the gray buffer has one entry per pixel, and entry k is the luma of pixel k alone |
| Grayscale.RgbToGrayscale | test2.c:65-69 | exactly the first width*height entries of the gray buffer are written, each with the luma of the pixel at the same index; the rest of the buffer is unchanged |
| Glcm.Direction | test2.c:73-77 | the offset that CalculateGlcm is proved against: it lies along one axis, at the given distance for angles 0 and 90 (dx - dy is the distance, so positive means rightwards or upwards) and at (0, 0) for every other angle |
| Glcm.HitTotal | test2.c:89-92 | a scanned position whose partner is inside the image adds exactly one count to the table; one whose partner is outside adds none |
| Glcm.RawSumIsPairCount | test2.c:84-103 | the sum of the counted table equals the number of positions whose partner lies inside the image |
| Glcm.PairCountClosed | test2.c:84-95 | a w x h image has clip(w - abs(dx)) * clip(h - abs(dy)) in-bounds pairs, where clip(n) = max(n, 0) |
| Glcm.PairCountByAngle | test2.c:73-77 | angle 0 gives (w - abs(d)) * h pairs, angle 90 gives w * (h - abs(d)), and any other angle gives w * h (each pixel pairs with itself); each factor is clipped at 0 |
| Glcm.RawCountAtMostPairCount | test2.c:84-95 | no cell counts more than the number of in-bounds pairs |
| Glcm.OtherAngleOnlyDiagonal | test2.c:73-77 | with an angle other than 0 and 90 the offset is (0, 0), so every off-diagonal count is zero |
| Glcm.RawCountUniform | test2.c:84-95 | in an image of one gray level v, cell (v, v) counts every in-bounds pair and all other cells count none |
| Glcm.GlcmNoPairs | test2.c:80-106 | without in-bounds pairs the sum is zero, nothing is divided, and every cell stays 0 |
| Glcm.GlcmOffsetTooLarge | test2.c:73-89 | an offset at least as wide (angle 0) or as tall (angle 90) as the image leaves no pair, and the table is all zero |
| Glcm.GlcmIsFraction | test2.c:105-111 | with pairs, each cell is its count divided by the number of pairs, so it lies in [0, 1] |
| Glcm.GlcmNonNegative | test2.c:80-111 | every cell of the final table is nonnegative |
| Glcm.GlcmTableIsQuotient | test2.c:105-111 | with a nonzero sum, every cell of the final table is its raw count over the sum |
| Glcm.GlcmSumsToOne | test2.c:98-111 | with pairs, the normalised table sums to exactly one |
| Glcm.GlcmUniform | test2.c:84-111 | an image of one gray level v, with pairs, yields 1 at (v, v) and 0 everywhere else |
| Glcm.ClearTable | test2.c:80-82 | every cell of the table is 0 |
| Glcm.CountPairs | test2.c:84-95 | starting from a cleared table, each cell (a, b) ends holding the number of positions whose partner is inside and whose two gray levels are a and b |
| Glcm.SumTable | test2.c:98-103 | the accumulator ends equal to the sum of all cells in row-major order |
| Glcm.NormalizeTable | test2.c:106-110 | every cell is divided by the sum |
| Glcm.CalculateGlcm | test2.c:72-112 | every cell ends equal to its co-occurrence count over the raw sum, or to the count itself when that sum is zero, for the offset the angle selects |
| Texture.ContrastNonNegative | test2.c:139 | a nonnegative table has nonnegative contrast |
| Texture.EnergyNonNegative | test2.c:143 | energy is never negative |
| Texture.VarianceNonNegative | test2.c:129-134 | a nonnegative table has nonnegative variance, so its standard deviation is real |
| Texture.ContrastZeroIff | test2.c:139 | for a nonnegative table, contrast is zero if and only if every off-diagonal cell is zero |
| Texture.MeanBounds | test2.c:122-126 | a nonnegative table summing to one has its first-index mean in [0, 255] |
| Texture.EnergyAtMostOne | test2.c:143 | a nonnegative table summing to one has energy at most one |
| Texture.CorrelationZeroWhenVarianceZero | test2.c:140-142 | with zero variance, the guard keeps every correlation summand out and the correlation is 0 |
| Texture.ZeroTableFeatures | test2.c:116-145 | the all-zero table has mean, variance, contrast, correlation and energy all 0 |
| Texture.SingleCellFeatures | test2.c:122-145 | a table whose only nonzero cell (a, b) holds 1 has energy 1, contrast (a - b)^2, mean a, variance 0 and correlation 0 |
| Texture.TwoCellMean | test2.c:122-126 | a table with v at two cells has mean equal to the sum of their first indices times v |
| Texture.TwoCellVariance | test2.c:129-133 | a table with v at two cells has variance equal to the sum of the two cells' terms |
| Texture.TwoCellContrast | test2.c:139 | a table with v at two cells has contrast equal to the sum of the two weighted cells |
| Texture.TwoCellEnergy | test2.c:143 | a table with v at two cells has energy 2 * v^2 |
| Texture.TwoCellCorrelation | test2.c:140-142 | with nonzero variance, the correlation of a table with v at two cells is the sum of the two cells' summands |
| Texture.TableMean | test2.c:122-126 | the first pass ends with the sum of i * p(i, j) |
| Texture.TableVariance | test2.c:129-133 | the second pass ends with the sum of p(i, j) * (i - mean)^2 |
| Texture.CalculateTextureFeatures | test2.c:115-146 | the outputs equal the contrast, correlation (first-index mean, variance guard) and energy of the table |
| MeanColor.ChannelTotalBounds | test1.c:71-75 | each channel total lies in [0, 255 * number of pixels] |
| MeanColor.ChannelTotalOnlyItsChannel | test1.c:71-75 | a channel total depends on that channel alone |
| MeanColor.ChannelMeanBounds | test1.c:77-79 | each mean lies in [0, 255] |
| MeanColor.ChannelMeanOnlyItsChannel | test1.c:77-79 | the mean of red depends only on the red channel, and likewise for green and blue |
| MeanColor.SinglePixelMean | test1.c:77-79 | for a single pixel, each mean is that pixel's channel value |
| MeanColor.CalculateMeanColor | test1.c:67-80 | the three totals accumulate the r, g and b channels of the first width*height pixels; each mean is its total over the pixel count, in [0, 255] |
| Scenarios.CheckerboardGray | test2.c:65-69 | pixels black, white, white, black become gray levels [0, 255, 255, 0] |
| Scenarios.CheckerboardScan | test2.c:84-93 | scanning that image row by row with the offset (1, 0) counts one pair at (0, 255) in the first row, one at (255, 0) in the second, and nothing at any other cell |
| Scenarios.CheckerboardCounts | test2.c:84-95 | for that 2 x 2 image, distance 1 and angle 0 give two pairs, one at (0, 255) and one at (255, 0) |
| Scenarios.CheckerboardGlcm | test2.c:72-112 | the normalised table holds 0.5 at (0, 255) and at (255, 0) and 0 elsewhere |
| Scenarios.CheckerboardTableFeatures | test2.c:115-146 | that table has contrast 65025, energy 0.5 and correlation -1 |
| Scenarios.CheckerboardFeatures | test2.c:72-146 | the features of the checkerboard's GLCM are contrast 65025, energy 0.5 and correlation -1 |
| Scenarios.CheckerboardPipeline | test2.c:165-173 | converting, building the GLCM with distance 1 and angle 0, and reducing it gives contrast 65025, energy 0.5 and correlation -1 |
| Scenarios.UniformFeatures | test2.c:84-146 | a uniform image with pairs has contrast 0, energy 1 and correlation 0 |
| Scenarios.CorrelationZeroWithVariance | test2.c:129-142 | zero correlation does not force zero variance: a table with variance 1 has correlation 0 |
| Scenarios.CorrelationAboveOne | test2.c:122-142 | with the first-index mean used for both indices, the correlation can be 2 |
| Scenarios.OnePixelMeanColor | test1.c:67-80 | a 1 x 1 image with pixel (10, 20, 30) reports means 10, 20 and 30 |

## Left out

- `readPPMImage` (test2.c:12-62, test1.c:9-64) is left out. It reads the image file with `fopen`, `fscanf` and `fread` and allocates with `malloc`. This is stream I/O.
- Both `main` functions (test2.c:148-181, test1.c:82-98) are left out. They are fixed file paths, allocation and `printf` formatting. `Scenarios.CheckerboardPipeline` makes the same calls as test2.c:165-173 on a fixed image.
- IEEE-754 doubles: every `double` is a Dafny `real`, so rounding in the sums, the divisions and the normalised table is not modelled.
- Grayscale.Luma: this is the exact rational floor of (30 R + 59 G + 11 B) / 100. In doubles, the C expression `0.3 * r + 0.59 * g + 0.11 * b` often lands just below the exact value. When the exact value is an integer, the cast then truncates to one less. For those channel triples the C byte is one less than the model's. For (1, 1, 1) the sum is 0.9999999999999999 and C writes 0, which is below the smallest channel, so the bounds in Luma's contract hold for the model only.
- Grayscale.LumaOfGray: this is a fact about the model only. In binary64 doubles, the C expression gives v - 1 for 67 of the 256 gray levels v, the first ones being 1, 2, 4, 5, 8, 10 and 16. It gives v for the other 189, including 0 and 255.
- `sqrt` (test2.c:134) is not modelled. The model carries the variance instead, as explained above. A negative variance would make the C `std` a NaN. That can only happen with negative table entries, and the model does not reproduce it.
- Texture.CorrelationZeroWhenVarianceZero: this proves only one direction. Zero variance gives zero correlation. The converse does not hold, as `Scenarios.CorrelationZeroWithVariance` shows.
- C `int` and `long long` overflow is not modelled. This covers `width * height`, `y * width + x` and the channel totals. Dimensions are unbounded integers.
- Grayscale.RgbToGrayscale and Glcm.CalculateGlcm require nonnegative width and height, so the model does not describe calls with a negative dimension. In C, a negative width or height makes the scan loops of calculateGLCM (test2.c:84-85) run zero times, so the sum is 0 and the table stays all zero. rgbToGrayscale (test2.c:66) writes nothing when width * height is negative. It converts width * height pixels when both dimensions are negative.
- MeanColor.CalculateMeanColor requires `width * height > 0`. The division by the pixel count is unguarded in the source.
- The GLCM builder and the texture reduction are each one C function. In the model they are split into phase methods called in the source's order: `ClearTable`, `CountPairs`, `SumTable` and `NormalizeTable`, then `TableMean`, `TableVariance` and the final pass in `CalculateTextureFeatures`.
