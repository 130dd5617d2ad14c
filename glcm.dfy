/**
 * The GLCM builder: a 256 x 256 histogram of the gray-level pairs found at a
 * fixed offset, normalised by its total unless that total is zero.
 */
module Glcm {
  import opened Pixels
  import opened Grid

  /** The displacement (dx, dy) from a pixel to its partner. */
  datatype Offset = Offset(dx: int, dy: int)

  /**
   * The angle selects the offset: 0 is horizontal (distance, 0), 90 is
   * vertical (0, -distance, towards the row above); every other angle
   * leaves (0, 0). The offset always lies along one axis, `distance` away for
   * the two named angles, rightwards or upwards when `distance` is positive,
   * and nowhere for the rest.
   */
  function Direction(distance: int, angle: int): (o: Offset)
    ensures o.dx == 0 || o.dy == 0
    ensures Abs(o.dx) + Abs(o.dy) == if angle == 0 || angle == 90 then Abs(distance) else 0
    ensures o.dx - o.dy == if angle == 0 || angle == 90 then distance else 0
  {
    if angle == 0 then Offset(distance, 0)
    else if angle == 90 then Offset(0, -distance)
    else Offset(0, 0)
  }

  /** A gray buffer in row-major order together with its dimensions. */
  datatype GrayImage = GrayImage(data: seq<Byte>, width: nat, height: nat)

  /** The buffer holds at least width * height gray bytes. */
  predicate WellFormed(img: GrayImage)
  {
    img.width * img.height <= |img.data|
  }

  predicate Inside(img: GrayImage, x: int, y: int)
  {
    0 <= x < img.width && 0 <= y < img.height
  }

  /** Row-major index arithmetic: (x, y) inside a w x h image has index y * w + x below w * h. */
  lemma {:induction false} IndexInRange(w: nat, h: nat, x: int, y: int)
    requires 0 <= x < w && 0 <= y < h
    ensures 0 <= y * w + x < w * h
  {
    if y < h - 1 {
      IndexInRange(w, h - 1, x, y);
    }
    assert w * h == w * (h - 1) + w;
  }

  /** gray(x, y): the byte at index y * width + x. */
  function GrayAt(img: GrayImage, x: int, y: int): Byte
    requires WellFormed(img) && Inside(img, x, y)
  {
    IndexInRange(img.width, img.height, x, y);
    img.data[y * img.width + x]
  }

  /** The partner of (x, y) lies inside the image, so the pair is counted. */
  predicate PairInside(img: GrayImage, off: Offset, x: int, y: int)
  {
    Inside(img, x + off.dx, y + off.dy)
  }

  /** Position (x, y) contributes one count to cell (a, b). */
  predicate Hit(img: GrayImage, off: Offset, x: int, y: int, a: int, b: int)
    requires WellFormed(img) && Inside(img, x, y)
  {
    PairInside(img, off, x, y) && GrayAt(img, x, y) == a && GrayAt(img, x + off.dx, y + off.dy) == b
  }

  // ---- Counting, in the scan order: rows y, then columns x ----------------------

  /** Positions x < n of row y that contribute to cell (a, b). */
  function RowCount(img: GrayImage, off: Offset, a: int, b: int, y: int, n: nat): nat
    requires WellFormed(img) && 0 <= y < img.height && n <= img.width
  {
    if n == 0 then 0
    else RowCount(img, off, a, b, y, n - 1) + (if Hit(img, off, n - 1, y, a, b) then 1 else 0)
  }

  /** Positions in rows y < m that contribute to cell (a, b). */
  function Count(img: GrayImage, off: Offset, a: int, b: int, m: nat): nat
    requires WellFormed(img) && m <= img.height
  {
    if m == 0 then 0
    else Count(img, off, a, b, m - 1) + RowCount(img, off, a, b, m - 1, img.width)
  }

  /** Positions x < n of row y whose partner lies inside the image. */
  function RowPairs(img: GrayImage, off: Offset, y: int, n: nat): nat
  {
    if n == 0 then 0
    else RowPairs(img, off, y, n - 1) + (if PairInside(img, off, n - 1, y) then 1 else 0)
  }

  /** Positions in rows y < m whose partner lies inside the image. */
  function Pairs(img: GrayImage, off: Offset, m: nat): nat
  {
    if m == 0 then 0 else Pairs(img, off, m - 1) + RowPairs(img, off, m - 1, img.width)
  }

  /** The number of in-bounds pairs of the whole image. */
  function PairCount(img: GrayImage, off: Offset): nat
  {
    Pairs(img, off, img.height)
  }

  /** The raw (unnormalised) count in cell (a, b). */
  function RawCount(img: GrayImage, off: Offset, a: int, b: int): nat
    requires WellFormed(img)
  {
    Count(img, off, a, b, img.height)
  }

  function HitTerm(img: GrayImage, off: Offset, x: int, y: int): Term
    requires WellFormed(img) && Inside(img, x, y)
  {
    (a: int, b: int) => if Hit(img, off, x, y, a, b) then 1.0 else 0.0
  }

  function RowCountTerm(img: GrayImage, off: Offset, y: int, n: nat): Term
    requires WellFormed(img) && 0 <= y < img.height && n <= img.width
  {
    (a: int, b: int) => RowCount(img, off, a, b, y, n) as real
  }

  function CountTerm(img: GrayImage, off: Offset, m: nat): Term
    requires WellFormed(img) && m <= img.height
  {
    (a: int, b: int) => Count(img, off, a, b, m) as real
  }

  /** The raw table as summands: cell (a, b) holds its count. */
  function RawTerm(img: GrayImage, off: Offset): Term
    requires WellFormed(img)
  {
    CountTerm(img, off, img.height)
  }

  /** The sum of the raw table, which the builder divides by. */
  function RawSum(img: GrayImage, off: Offset): real
    requires WellFormed(img)
  {
    Total(RawTerm(img, off))
  }

  /** The final value of cell (a, b): the count over the raw sum, or the count itself when that sum is zero. */
  function GlcmCell(img: GrayImage, off: Offset, a: int, b: int): real
    requires WellFormed(img)
  {
    var sum := RawSum(img, off);
    if sum == 0.0 then RawCount(img, off, a, b) as real
    else RawCount(img, off, a, b) as real / sum
  }

  /** The final table as a value. */
  function GlcmTable(img: GrayImage, off: Offset): (t: Table)
    requires WellFormed(img)
    ensures |t| == GrayLevels
    ensures forall a, b :: InGrid(a, b) ==> Cell(t, a, b) == GlcmCell(img, off, a, b)
  {
    seq(GrayLevels, (a: int) => seq(GrayLevels, (b: int) => GlcmCell(img, off, a, b)))
  }

  // ---- The raw sum is the number of in-bounds pairs ----------------------------------

  /** An in-bounds position hits exactly one cell of the table; an out-of-bounds one none. */
  lemma HitTotal(img: GrayImage, off: Offset, x: int, y: int)
    requires WellFormed(img) && Inside(img, x, y)
    ensures Total(HitTerm(img, off, x, y)) == if PairInside(img, off, x, y) then 1.0 else 0.0
  {
    var f := HitTerm(img, off, x, y);
    if PairInside(img, off, x, y) {
      var a, b := GrayAt(img, x, y), GrayAt(img, x + off.dx, y + off.dy);
      forall i, j | InGrid(i, j) && (i != a || j != b) ensures f(i, j) == 0.0 {
        assert !Hit(img, off, x, y, i, j);
      }
      assert f(a, b) == 1.0;
      TotalPoint(f, a, b);
    } else {
      TotalZero(f);
    }
  }

  /** Advancing the scan by one column adds that position's hit to every cell. */
  lemma RowCountStep(img: GrayImage, off: Offset, y: int, n: nat)
    requires WellFormed(img) && 0 <= y < img.height && 0 < n <= img.width
    ensures Total(RowCountTerm(img, off, y, n))
         == Total(RowCountTerm(img, off, y, n - 1)) + Total(HitTerm(img, off, n - 1, y))
  {
    var f, g, h := RowCountTerm(img, off, y, n), RowCountTerm(img, off, y, n - 1), HitTerm(img, off, n - 1, y);
    forall a, b | InGrid(a, b) ensures f(a, b) == g(a, b) + h(a, b) {
    }
    TotalAdd(f, g, h);
  }

  /** Advancing the scan by one row adds that row's counts to every cell. */
  lemma CountStep(img: GrayImage, off: Offset, m: nat)
    requires WellFormed(img) && 0 < m <= img.height
    ensures Total(CountTerm(img, off, m))
         == Total(CountTerm(img, off, m - 1)) + Total(RowCountTerm(img, off, m - 1, img.width))
  {
    var f, g, h := CountTerm(img, off, m), CountTerm(img, off, m - 1), RowCountTerm(img, off, m - 1, img.width);
    forall a, b | InGrid(a, b) ensures f(a, b) == g(a, b) + h(a, b) {
    }
    TotalAdd(f, g, h);
  }

  lemma {:induction false} RowCountTotal(img: GrayImage, off: Offset, y: int, n: nat)
    requires WellFormed(img) && 0 <= y < img.height && n <= img.width
    ensures Total(RowCountTerm(img, off, y, n)) == RowPairs(img, off, y, n) as real
  {
    if n == 0 {
      TotalZero(RowCountTerm(img, off, y, n));
    } else {
      RowCountStep(img, off, y, n);
      RowCountTotal(img, off, y, n - 1);
      HitTotal(img, off, n - 1, y);
    }
  }

  lemma {:induction false} CountTotal(img: GrayImage, off: Offset, m: nat)
    requires WellFormed(img) && m <= img.height
    ensures Total(CountTerm(img, off, m)) == Pairs(img, off, m) as real
  {
    if m == 0 {
      TotalZero(CountTerm(img, off, m));
    } else {
      CountStep(img, off, m);
      CountTotal(img, off, m - 1);
      RowCountTotal(img, off, m - 1, img.width);
    }
  }

  /** The raw total equals the number of positions whose partner is inside the image. */
  lemma RawSumIsPairCount(img: GrayImage, off: Offset)
    requires WellFormed(img)
    ensures RawSum(img, off) == PairCount(img, off) as real
  {
    CountTotal(img, off, img.height);
  }

  // ---- The number of in-bounds pairs in closed form ------------------------------

  function Min(a: int, b: int): int { if a <= b then a else b }

  function Max(a: int, b: int): int { if a <= b then b else a }

  function Abs(n: int): nat { if n < 0 then -n else n }

  /** n, or 0 when n is negative. */
  function Clip(n: int): nat { if n < 0 then 0 else n }

  /** The number of x with 0 <= x < n and lo <= x < hi. */
  function InRange(n: int, lo: int, hi: int): nat
  {
    Clip(Min(n, hi) - Max(0, lo))
  }

  lemma InRangeStep(n: nat, lo: int, hi: int)
    requires n > 0
    ensures InRange(n, lo, hi) == InRange(n - 1, lo, hi) + if lo <= n - 1 < hi then 1 else 0
  {
  }

  /** The whole of [0, n) shifted by d keeps n - |d| positions inside [0, n). */
  lemma InRangeShift(n: nat, d: int)
    ensures InRange(n, -d, n - d) == Clip(n - Abs(d))
  {
  }

  lemma MulSucc(c: nat, k: nat)
    ensures c * (k + 1) == c * k + c
  {
  }

  /** Among x < n, the positions x with 0 <= x + dx < width. */
  lemma {:induction false} RowPairsClosed(img: GrayImage, off: Offset, y: int, n: nat)
    ensures RowPairs(img, off, y, n)
         == if 0 <= y + off.dy < img.height then InRange(n, -off.dx, img.width - off.dx) else 0
  {
    if n > 0 {
      RowPairsClosed(img, off, y, n - 1);
      InRangeStep(n, -off.dx, img.width - off.dx);
    }
  }

  /** Among rows y < m, the rows with 0 <= y + dy < height, each holding the same number of pairs. */
  lemma {:induction false} PairsClosed(img: GrayImage, off: Offset, m: nat)
    ensures Pairs(img, off, m)
         == InRange(img.width, -off.dx, img.width - off.dx) * InRange(m, -off.dy, img.height - off.dy)
  {
    if m > 0 {
      var c := InRange(img.width, -off.dx, img.width - off.dx);
      var k := InRange(m - 1, -off.dy, img.height - off.dy);
      PairsClosed(img, off, m - 1);
      RowPairsClosed(img, off, m - 1, img.width);
      InRangeStep(m, -off.dy, img.height - off.dy);
      MulSucc(c, k);
    }
  }

  /** A w x h image has (w - |dx|) * (h - |dy|) in-bounds pairs, or none when the offset is wider or taller than the image. */
  lemma PairCountClosed(img: GrayImage, off: Offset)
    ensures PairCount(img, off) == Clip(img.width - Abs(off.dx)) * Clip(img.height - Abs(off.dy))
  {
    PairsClosed(img, off, img.height);
    InRangeShift(img.width, off.dx);
    InRangeShift(img.height, off.dy);
  }

  /** The pair counts of the three kinds of direction the builder knows. */
  lemma PairCountByAngle(img: GrayImage, distance: int, angle: int)
    ensures angle == 0 ==> PairCount(img, Direction(distance, angle)) == Clip(img.width - Abs(distance)) * img.height
    ensures angle == 90 ==> PairCount(img, Direction(distance, angle)) == img.width * Clip(img.height - Abs(distance))
    ensures angle != 0 && angle != 90 ==> PairCount(img, Direction(distance, angle)) == img.width * img.height
  {
    PairCountClosed(img, Direction(distance, angle));
  }

  // ---- Counts per cell ------------------------------------------------------------

  lemma {:induction false} RowCountAtMostRowPairs(img: GrayImage, off: Offset, a: int, b: int, y: int, n: nat)
    requires WellFormed(img) && 0 <= y < img.height && n <= img.width
    ensures RowCount(img, off, a, b, y, n) <= RowPairs(img, off, y, n)
  {
    if n > 0 {
      RowCountAtMostRowPairs(img, off, a, b, y, n - 1);
    }
  }

  lemma {:induction false} CountAtMostPairs(img: GrayImage, off: Offset, a: int, b: int, m: nat)
    requires WellFormed(img) && m <= img.height
    ensures Count(img, off, a, b, m) <= Pairs(img, off, m)
  {
    if m > 0 {
      CountAtMostPairs(img, off, a, b, m - 1);
      RowCountAtMostRowPairs(img, off, a, b, m - 1, img.width);
    }
  }

  /** No cell counts more than the in-bounds pairs. */
  lemma RawCountAtMostPairCount(img: GrayImage, off: Offset, a: int, b: int)
    requires WellFormed(img)
    ensures RawCount(img, off, a, b) <= PairCount(img, off)
  {
    CountAtMostPairs(img, off, a, b, img.height);
  }

  lemma {:induction false} RowCountOffDiagonalZero(img: GrayImage, a: int, b: int, y: int, n: nat)
    requires WellFormed(img) && 0 <= y < img.height && n <= img.width && a != b
    ensures RowCount(img, Offset(0, 0), a, b, y, n) == 0
  {
    if n > 0 {
      RowCountOffDiagonalZero(img, a, b, y, n - 1);
    }
  }

  lemma {:induction false} CountOffDiagonalZero(img: GrayImage, a: int, b: int, m: nat)
    requires WellFormed(img) && m <= img.height && a != b
    ensures Count(img, Offset(0, 0), a, b, m) == 0
  {
    if m > 0 {
      CountOffDiagonalZero(img, a, b, m - 1);
      RowCountOffDiagonalZero(img, a, b, m - 1, img.width);
    }
  }

  /**
   * An angle other than 0 and 90 pairs every pixel with itself, so only the
   * diagonal of the table can be nonzero.
   */
  lemma OtherAngleOnlyDiagonal(img: GrayImage, distance: int, angle: int, a: int, b: int)
    requires WellFormed(img) && angle != 0 && angle != 90 && a != b
    ensures RawCount(img, Direction(distance, angle), a, b) == 0
  {
    CountOffDiagonalZero(img, a, b, img.height);
  }

  /** Every pixel of the image has gray level v. */
  predicate Uniform(img: GrayImage, v: Byte)
  {
    forall k :: 0 <= k < img.width * img.height && k < |img.data| ==> img.data[k] == v
  }

  lemma {:induction false} RowCountUniform(img: GrayImage, off: Offset, v: Byte, a: int, b: int, y: int, n: nat)
    requires WellFormed(img) && Uniform(img, v) && 0 <= y < img.height && n <= img.width
    ensures RowCount(img, off, a, b, y, n) == if a == v && b == v then RowPairs(img, off, y, n) else 0
  {
    if n > 0 {
      RowCountUniform(img, off, v, a, b, y, n - 1);
      var x := n - 1;
      if PairInside(img, off, x, y) {
        IndexInRange(img.width, img.height, x, y);
        IndexInRange(img.width, img.height, x + off.dx, y + off.dy);
      }
    }
  }

  lemma {:induction false} CountUniform(img: GrayImage, off: Offset, v: Byte, a: int, b: int, m: nat)
    requires WellFormed(img) && Uniform(img, v) && m <= img.height
    ensures Count(img, off, a, b, m) == if a == v && b == v then Pairs(img, off, m) else 0
  {
    if m > 0 {
      CountUniform(img, off, v, a, b, m - 1);
      RowCountUniform(img, off, v, a, b, m - 1, img.width);
    }
  }

  /** In an image of a single gray level v every pair lands in cell (v, v). */
  lemma RawCountUniform(img: GrayImage, off: Offset, v: Byte, a: int, b: int)
    requires WellFormed(img) && Uniform(img, v)
    ensures RawCount(img, off, a, b) == if a == v && b == v then PairCount(img, off) else 0
  {
    CountUniform(img, off, v, a, b, img.height);
  }

  // ---- The normalised table ---------------------------------------------------------

  lemma DivSelf(x: real)
    requires x > 0.0
    ensures x / x == 1.0
  {
  }

  /** Without in-bounds pairs nothing is counted and the table stays all zero. */
  lemma GlcmNoPairs(img: GrayImage, off: Offset, a: int, b: int)
    requires WellFormed(img) && PairCount(img, off) == 0
    ensures GlcmCell(img, off, a, b) == 0.0
  {
    RawSumIsPairCount(img, off);
    RawCountAtMostPairCount(img, off, a, b);
  }

  /**
   * An offset at least as wide (angle 0) or as tall (angle 90) as the image
   * leaves no pair inside it, so every cell ends at zero.
   */
  lemma GlcmOffsetTooLarge(img: GrayImage, distance: int, angle: int, a: int, b: int)
    requires WellFormed(img)
    requires (angle == 0 && img.width <= Abs(distance)) || (angle == 90 && img.height <= Abs(distance))
    ensures PairCount(img, Direction(distance, angle)) == 0
    ensures GlcmCell(img, Direction(distance, angle), a, b) == 0.0
  {
    PairCountByAngle(img, distance, angle);
    GlcmNoPairs(img, Direction(distance, angle), a, b);
  }

  /** With pairs, every cell is the fraction of the pairs that land in it. */
  lemma GlcmIsFraction(img: GrayImage, off: Offset, a: int, b: int)
    requires WellFormed(img) && PairCount(img, off) > 0
    ensures GlcmCell(img, off, a, b) == RawCount(img, off, a, b) as real / PairCount(img, off) as real
    ensures 0.0 <= GlcmCell(img, off, a, b) <= 1.0
  {
    RawSumIsPairCount(img, off);
    RawCountAtMostPairCount(img, off, a, b);
  }

  /** Every cell of the final table is nonnegative. */
  lemma GlcmNonNegative(img: GrayImage, off: Offset, a: int, b: int)
    requires WellFormed(img)
    ensures GlcmCell(img, off, a, b) >= 0.0
  {
    RawSumIsPairCount(img, off);
  }

  /** With a nonzero raw sum, every cell of the final table is its raw count over that sum. */
  lemma GlcmTableIsQuotient(img: GrayImage, off: Offset)
    requires WellFormed(img) && RawSum(img, off) != 0.0
    ensures forall a, b :: InGrid(a, b) ==>
      CellTerm(GlcmTable(img, off))(a, b) == RawTerm(img, off)(a, b) / RawSum(img, off)
  {
    var f, g := CellTerm(GlcmTable(img, off)), RawTerm(img, off);
    forall a, b | InGrid(a, b) ensures f(a, b) == g(a, b) / RawSum(img, off) {
      assert f(a, b) == GlcmCell(img, off, a, b);
      assert g(a, b) == RawCount(img, off, a, b) as real;
    }
  }

  /** With pairs, the normalised table sums to one. */
  lemma GlcmSumsToOne(img: GrayImage, off: Offset)
    requires WellFormed(img) && PairCount(img, off) > 0
    ensures Total(CellTerm(GlcmTable(img, off))) == 1.0
  {
    var sum := RawSum(img, off);
    RawSumIsPairCount(img, off);
    GlcmTableIsQuotient(img, off);
    TotalDivide(CellTerm(GlcmTable(img, off)), RawTerm(img, off), sum);
    DivSelf(sum);
  }

  /** An image of a single gray level v, with pairs, puts all its weight on cell (v, v). */
  lemma GlcmUniform(img: GrayImage, off: Offset, v: Byte, a: int, b: int)
    requires WellFormed(img) && Uniform(img, v) && PairCount(img, off) > 0
    ensures GlcmCell(img, off, a, b) == if a == v && b == v then 1.0 else 0.0
  {
    RawSumIsPairCount(img, off);
    RawCountUniform(img, off, v, a, b);
    var pairs := PairCount(img, off) as real;
    assert pairs > 0.0;
    if a == v && b == v {
      assert GlcmCell(img, off, a, b) == pairs / pairs;
      DivSelf(pairs);
    } else {
      assert GlcmCell(img, off, a, b) == 0.0 / pairs;
    }
  }

  // ---- The builder --------------------------------------------------------------------

  /** Sets every cell of the table to zero. */
  method ClearTable(glcm: array2<real>)
    requires glcm.Length0 == GrayLevels && glcm.Length1 == GrayLevels
    modifies glcm
    ensures forall i, j :: InGrid(i, j) ==> glcm[i, j] == 0.0
  {
    for i := 0 to GrayLevels
      invariant forall i', j :: 0 <= i' < i && 0 <= j < GrayLevels ==> glcm[i', j] == 0.0
    {
      for j := 0 to GrayLevels
        invariant forall i', j' :: 0 <= i' < i && 0 <= j' < GrayLevels ==> glcm[i', j'] == 0.0
        invariant forall j' :: 0 <= j' < j ==> glcm[i, j'] == 0.0
      {
        glcm[i, j] := 0.0;
      }
    }
  }

  /**
   * Scans the image row by row and adds one to cell (gray(x, y), gray(x + dx, y + dy))
   * for every position whose partner is inside the image.
   */
  method CountPairs(grayImage: array<Byte>, width: int, height: int, off: Offset, glcm: array2<real>)
    requires 0 <= width && 0 <= height && width * height <= grayImage.Length
    requires glcm.Length0 == GrayLevels && glcm.Length1 == GrayLevels
    requires forall i, j :: InGrid(i, j) ==> glcm[i, j] == 0.0
    modifies glcm
    ensures forall a, b :: InGrid(a, b) ==> glcm[a, b] == RawCount(GrayImage(grayImage[..], width, height), off, a, b) as real
  {
    ghost var img := GrayImage(grayImage[..], width, height);
    for y := 0 to height
      invariant forall a, b :: InGrid(a, b) ==> glcm[a, b] == Count(img, off, a, b, y) as real
    {
      for x := 0 to width
        invariant forall a, b :: InGrid(a, b) ==>
          glcm[a, b] == (Count(img, off, a, b, y) + RowCount(img, off, a, b, y, x)) as real
      {
        var newX := x + off.dx;
        var newY := y + off.dy;
        if newX >= 0 && newX < width && newY >= 0 && newY < height {
          IndexInRange(width, height, x, y);
          IndexInRange(width, height, newX, newY);
          var currentValue := grayImage[y * width + x];
          var newValue := grayImage[newY * width + newX];
          assert GrayAt(img, x, y) == currentValue && GrayAt(img, newX, newY) == newValue;
          glcm[currentValue, newValue] := glcm[currentValue, newValue] + 1.0;
        }
      }
    }
  }

  /** The sum of all cells, accumulated in row-major order. */
  method SumTable(glcm: array2<real>) returns (sum: real)
    requires glcm.Length0 == GrayLevels && glcm.Length1 == GrayLevels
    ensures sum == Total(CellTerm(Snapshot(glcm)))
  {
    ghost var f := CellTerm(Snapshot(glcm));
    sum := 0.0;
    for i := 0 to GrayLevels
      invariant sum == RowsSum(f, i)
    {
      for j := 0 to GrayLevels
        invariant sum == RowsSum(f, i) + RowSum(f, i, j)
      {
        sum := sum + glcm[i, j];
      }
    }
  }

  /** Divides every cell by sum. */
  method NormalizeTable(glcm: array2<real>, sum: real)
    requires glcm.Length0 == GrayLevels && glcm.Length1 == GrayLevels && sum != 0.0
    modifies glcm
    ensures forall i, j :: InGrid(i, j) ==> glcm[i, j] == old(glcm[i, j]) / sum
  {
    for i := 0 to GrayLevels
      invariant forall i', j :: 0 <= i' < i && 0 <= j < GrayLevels ==> glcm[i', j] == old(glcm[i', j]) / sum
      invariant forall i', j :: i <= i' < GrayLevels && 0 <= j < GrayLevels ==> glcm[i', j] == old(glcm[i', j])
    {
      for j := 0 to GrayLevels
        invariant forall i', j' :: 0 <= i' < i && 0 <= j' < GrayLevels ==> glcm[i', j'] == old(glcm[i', j']) / sum
        invariant forall i', j' :: i < i' < GrayLevels && 0 <= j' < GrayLevels ==> glcm[i', j'] == old(glcm[i', j'])
        invariant forall j' :: 0 <= j' < j ==> glcm[i, j'] == old(glcm[i, j']) / sum
        invariant forall j' :: j <= j' < GrayLevels ==> glcm[i, j'] == old(glcm[i, j'])
      {
        glcm[i, j] := glcm[i, j] / sum;
      }
    }
  }

  /**
   * calculateGLCM: picks the offset from the angle, clears the table, counts
   * the pairs, and divides by the sum of the counts unless that sum is zero.
   */
  method CalculateGlcm(grayImage: array<Byte>, width: int, height: int, distance: int, angle: int, glcm: array2<real>)
    requires 0 <= width && 0 <= height && width * height <= grayImage.Length
    requires glcm.Length0 == GrayLevels && glcm.Length1 == GrayLevels
    modifies glcm
    ensures forall a, b :: InGrid(a, b) ==>
      glcm[a, b] == GlcmCell(GrayImage(grayImage[..], width, height), Direction(distance, angle), a, b)
  {
    var dx, dy := 0, 0;
    if angle == 0 {
      dx, dy := distance, 0;
    } else if angle == 90 {
      dx, dy := 0, -distance;
    }
    ghost var img := GrayImage(grayImage[..], width, height);
    ghost var off := Direction(distance, angle);
    assert Offset(dx, dy) == off;

    ClearTable(glcm);
    CountPairs(grayImage, width, height, Offset(dx, dy), glcm);
    var sum := SumTable(glcm);
    TotalEqual(CellTerm(Snapshot(glcm)), RawTerm(img, off));
    assert sum == RawSum(img, off);

    if sum != 0.0 {
      NormalizeTable(glcm, sum);
    }
  }
}
