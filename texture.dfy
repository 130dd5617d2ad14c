/**
 * The texture reduction: contrast, correlation and energy of a 256 x 256
 * co-occurrence table.
 *
 * The mean and the variance use the first index only: the mean is the sum of
 * i * p(i, j) and the variance the sum of p(i, j) * (i - mean)^2, and the
 * correlation uses that one mean for both i and j. The standard deviation is
 * the square root of the variance and appears only squared and in a test
 * against zero, so the model carries the variance itself: std * std is the
 * variance, and std != 0 exactly when the variance is nonzero.
 */
module Texture {
  import opened Grid

  ghost predicate NonNegative(t: Table)
  {
    forall i, j :: InGrid(i, j) ==> Cell(t, i, j) >= 0.0
  }

  /** The cells sum to one, as a normalised table does. */
  predicate Normalised(t: Table)
  {
    Total(CellTerm(t)) == 1.0
  }

  function MeanTerm(t: Table): Term
  {
    (i: int, j: int) => i as real * Cell(t, i, j)
  }

  /** mean: the sum of i * p(i, j). */
  function Mean(t: Table): real
  {
    Total(MeanTerm(t))
  }

  function VarianceTerm(t: Table, mean: real): Term
  {
    (i: int, j: int) => Cell(t, i, j) * (i as real - mean) * (i as real - mean)
  }

  /** std * std: the sum of p(i, j) * (i - mean)^2. */
  function Variance(t: Table): real
  {
    Total(VarianceTerm(t, Mean(t)))
  }

  /** (i - j)^2, computed in integers before it multiplies the cell. */
  function ContrastWeight(i: int, j: int): int
  {
    (i - j) * (i - j)
  }

  function ContrastTerm(t: Table): Term
  {
    (i: int, j: int) => ContrastWeight(i, j) as real * Cell(t, i, j)
  }

  /** contrast: the sum of (i - j)^2 * p(i, j). */
  function Contrast(t: Table): real
  {
    Total(ContrastTerm(t))
  }

  /** The correlation summand of cell (i, j) holding p. */
  function CorrelationSummand(i: int, j: int, p: real, mean: real, variance: real): real
    requires variance != 0.0
  {
    (i as real - mean) * (j as real - mean) * p / variance
  }

  /** The correlation summands, all zero when the variance is zero. */
  function CorrelationTerm(t: Table, mean: real, variance: real): Term
  {
    (i: int, j: int) => if variance != 0.0 then CorrelationSummand(i, j, Cell(t, i, j), mean, variance) else 0.0
  }

  /** correlation: the sum of (i - mean) * (j - mean) * p(i, j) / (std * std), or 0 when std is 0. */
  function Correlation(t: Table): real
  {
    Total(CorrelationTerm(t, Mean(t), Variance(t)))
  }

  function EnergyTerm(t: Table): Term
  {
    (i: int, j: int) => Cell(t, i, j) * Cell(t, i, j)
  }

  /** energy: the sum of p(i, j)^2. */
  function Energy(t: Table): real
  {
    Total(EnergyTerm(t))
  }

  // ---- Signs and bounds -----------------------------------------------------------

  lemma ScaleMonotone(c: real, x: real, y: real)
    requires c >= 0.0 && x <= y
    ensures c * x <= c * y && x * c <= y * c
  {
  }

  /** Every contrast summand is nonnegative at a nonnegative cell, and zero only on the diagonal or at a zero cell. */
  lemma ContrastTermSign(t: Table, i: int, j: int)
    requires Cell(t, i, j) >= 0.0
    ensures ContrastTerm(t)(i, j) >= 0.0
    ensures ContrastTerm(t)(i, j) == 0.0 <==> i == j || Cell(t, i, j) == 0.0
  {
    var w := ContrastWeight(i, j) as real;
    assert w >= 0.0;
    assert i != j ==> w > 0.0;
    ScaleMonotone(Cell(t, i, j), 0.0, w);
  }

  /** A nonnegative table has nonnegative contrast. */
  lemma ContrastNonNegative(t: Table)
    requires NonNegative(t)
    ensures Contrast(t) >= 0.0
  {
    forall i, j | InGrid(i, j) ensures ContrastTerm(t)(i, j) >= 0.0 {
      ContrastTermSign(t, i, j);
    }
    TotalNonNegative(ContrastTerm(t));
  }

  /** Energy is a sum of squares, so never negative. */
  lemma EnergyNonNegative(t: Table)
    ensures Energy(t) >= 0.0
  {
    TotalNonNegative(EnergyTerm(t));
  }

  /** A nonnegative table has nonnegative variance, so its standard deviation is a real number. */
  lemma VarianceNonNegative(t: Table)
    requires NonNegative(t)
    ensures Variance(t) >= 0.0
  {
    var m := Mean(t);
    forall i, j | InGrid(i, j) ensures VarianceTerm(t, m)(i, j) >= 0.0 {
      var d := i as real - m;
      assert d * d >= 0.0;
      assert Cell(t, i, j) * d * d == Cell(t, i, j) * (d * d);
    }
    TotalNonNegative(VarianceTerm(t, m));
  }

  /** For a nonnegative table, contrast is zero exactly when every off-diagonal cell is zero. */
  lemma ContrastZeroIff(t: Table)
    requires NonNegative(t)
    ensures Contrast(t) == 0.0 <==> forall i, j :: InGrid(i, j) && i != j ==> Cell(t, i, j) == 0.0
  {
    var f := ContrastTerm(t);
    forall i, j | InGrid(i, j) ensures f(i, j) >= 0.0 && (f(i, j) == 0.0 <==> i == j || Cell(t, i, j) == 0.0) {
      ContrastTermSign(t, i, j);
    }
    TotalZeroIff(f);
  }

  /** A nonnegative normalised table has its mean among the gray levels 0 to 255. */
  lemma MeanBounds(t: Table)
    requires NonNegative(t) && Normalised(t)
    ensures 0.0 <= Mean(t) <= (GrayLevels - 1) as real
  {
    var top: Term := (i: int, j: int) => (GrayLevels - 1) as real * Cell(t, i, j);
    forall i, j | InGrid(i, j) ensures 0.0 <= MeanTerm(t)(i, j) <= top(i, j) {
      var p := Cell(t, i, j);
      assert MeanTerm(t)(i, j) == i as real * p && top(i, j) == (GrayLevels - 1) as real * p;
      ScaleMonotone(p, 0.0, i as real);
      ScaleMonotone(p, i as real, (GrayLevels - 1) as real);
    }
    TotalNonNegative(MeanTerm(t));
    TotalMonotone(MeanTerm(t), top);
    TotalScale(top, CellTerm(t), (GrayLevels - 1) as real);
  }

  /** A cell between 0 and 1, squared, is at most itself. */
  lemma EnergyTermAtMostCell(t: Table, i: int, j: int)
    requires 0.0 <= Cell(t, i, j) <= 1.0
    ensures EnergyTerm(t)(i, j) <= CellTerm(t)(i, j)
  {
    var p := Cell(t, i, j);
    ScaleMonotone(p, p, 1.0);
    assert p * p <= p * 1.0 == p;
    assert EnergyTerm(t)(i, j) == p * p;
    assert CellTerm(t)(i, j) == p;
  }

  /** In a nonnegative normalised table every cell is at most one. */
  lemma CellAtMostOne(t: Table, i: int, j: int)
    requires NonNegative(t) && Normalised(t) && InGrid(i, j)
    ensures 0.0 <= Cell(t, i, j) <= 1.0
  {
    TotalAtLeastPoint(CellTerm(t), i, j);
  }

  /** A nonnegative normalised table has energy at most one. */
  lemma EnergyAtMostOne(t: Table)
    requires NonNegative(t) && Normalised(t)
    ensures Energy(t) <= 1.0
  {
    forall i, j | InGrid(i, j) ensures EnergyTerm(t)(i, j) <= CellTerm(t)(i, j) {
      CellAtMostOne(t, i, j);
      EnergyTermAtMostCell(t, i, j);
    }
    TotalMonotone(EnergyTerm(t), CellTerm(t));
  }

  // ---- Degenerate tables --------------------------------------------------------------

  /** Without spread along the first index the correlation guard holds every summand at zero. */
  lemma CorrelationZeroWhenVarianceZero(t: Table)
    requires Variance(t) == 0.0
    ensures Correlation(t) == 0.0
  {
    TotalZero(CorrelationTerm(t, Mean(t), Variance(t)));
  }

  /** The all-zero table has every feature zero. */
  lemma ZeroTableFeatures(t: Table)
    requires forall i, j :: InGrid(i, j) ==> Cell(t, i, j) == 0.0
    ensures Mean(t) == 0.0 && Variance(t) == 0.0
    ensures Contrast(t) == 0.0 && Correlation(t) == 0.0 && Energy(t) == 0.0
  {
    TotalZero(MeanTerm(t));
    TotalZero(VarianceTerm(t, Mean(t)));
    TotalZero(ContrastTerm(t));
    TotalZero(EnergyTerm(t));
    CorrelationZeroWhenVarianceZero(t);
  }

  /** At a zero cell every feature's summand is zero. */
  lemma ZeroCellTerms(t: Table, mean: real, variance: real, i: int, j: int)
    requires Cell(t, i, j) == 0.0
    ensures MeanTerm(t)(i, j) == 0.0 && VarianceTerm(t, mean)(i, j) == 0.0
    ensures ContrastTerm(t)(i, j) == 0.0 && EnergyTerm(t)(i, j) == 0.0
    ensures CorrelationTerm(t, mean, variance)(i, j) == 0.0
  {
    var x, y := i as real - mean, j as real - mean;
    assert VarianceTerm(t, mean)(i, j) == 0.0 * x * x;
    assert variance != 0.0 ==> CorrelationTerm(t, mean, variance)(i, j) == x * y * 0.0 / variance;
  }

  /**
   * A table whose only nonzero cell is (a, b), holding 1: energy 1, contrast
   * (a - b)^2, mean a, no variance and so no correlation.
   */
  lemma SingleCellFeatures(t: Table, a: int, b: int)
    requires InGrid(a, b) && Cell(t, a, b) == 1.0
    requires forall i, j :: InGrid(i, j) && (i != a || j != b) ==> Cell(t, i, j) == 0.0
    ensures Energy(t) == 1.0
    ensures Contrast(t) == ((a - b) * (a - b)) as real
    ensures Mean(t) == a as real && Variance(t) == 0.0 && Correlation(t) == 0.0
  {
    var m := a as real;
    forall i, j | InGrid(i, j) && (i != a || j != b)
      ensures EnergyTerm(t)(i, j) == 0.0 && ContrastTerm(t)(i, j) == 0.0
      ensures MeanTerm(t)(i, j) == 0.0 && VarianceTerm(t, m)(i, j) == 0.0
    {
      ZeroCellTerms(t, m, 0.0, i, j);
    }
    TotalPoint(EnergyTerm(t), a, b);
    TotalPoint(ContrastTerm(t), a, b);
    TotalPoint(MeanTerm(t), a, b);
    assert VarianceTerm(t, m)(a, b) == 1.0 * 0.0 * 0.0;
    TotalPoint(VarianceTerm(t, m), a, b);
    CorrelationZeroWhenVarianceZero(t);
  }

  // ---- Tables with two nonzero cells --------------------------------------------------
  //
  // A table holding v at two distinct cells (a, b) and (c, d) and zero
  // elsewhere: each feature is the sum of the two cells' summands.

  lemma TwoCellMean(t: Table, a: int, b: int, c: int, d: int, v: real)
    requires InGrid(a, b) && InGrid(c, d) && (a != c || b != d)
    requires Cell(t, a, b) == v && Cell(t, c, d) == v
    requires forall i, j :: InGrid(i, j) && (i != a || j != b) && (i != c || j != d) ==> Cell(t, i, j) == 0.0
    ensures Mean(t) == a as real * v + c as real * v
  {
    var f := MeanTerm(t);
    forall i, j | InGrid(i, j) && (i != a || j != b) && (i != c || j != d) ensures f(i, j) == 0.0 {
      ZeroCellTerms(t, 0.0, 0.0, i, j);
    }
    assert f(a, b) == a as real * v && f(c, d) == c as real * v;
    TotalTwoPoints(f, a, b, c, d);
  }

  lemma TwoCellVariance(t: Table, a: int, b: int, c: int, d: int, v: real, m: real)
    requires InGrid(a, b) && InGrid(c, d) && (a != c || b != d)
    requires Cell(t, a, b) == v && Cell(t, c, d) == v
    requires forall i, j :: InGrid(i, j) && (i != a || j != b) && (i != c || j != d) ==> Cell(t, i, j) == 0.0
    ensures Total(VarianceTerm(t, m)) == v * (a as real - m) * (a as real - m) + v * (c as real - m) * (c as real - m)
  {
    var f := VarianceTerm(t, m);
    forall i, j | InGrid(i, j) && (i != a || j != b) && (i != c || j != d) ensures f(i, j) == 0.0 {
      ZeroCellTerms(t, m, 0.0, i, j);
    }
    assert f(a, b) == v * (a as real - m) * (a as real - m);
    assert f(c, d) == v * (c as real - m) * (c as real - m);
    TotalTwoPoints(f, a, b, c, d);
  }

  lemma TwoCellContrast(t: Table, a: int, b: int, c: int, d: int, v: real)
    requires InGrid(a, b) && InGrid(c, d) && (a != c || b != d)
    requires Cell(t, a, b) == v && Cell(t, c, d) == v
    requires forall i, j :: InGrid(i, j) && (i != a || j != b) && (i != c || j != d) ==> Cell(t, i, j) == 0.0
    ensures Contrast(t) == ContrastWeight(a, b) as real * v + ContrastWeight(c, d) as real * v
  {
    var f := ContrastTerm(t);
    forall i, j | InGrid(i, j) && (i != a || j != b) && (i != c || j != d) ensures f(i, j) == 0.0 {
      ZeroCellTerms(t, 0.0, 0.0, i, j);
    }
    assert f(a, b) == ContrastWeight(a, b) as real * v;
    assert f(c, d) == ContrastWeight(c, d) as real * v;
    TotalTwoPoints(f, a, b, c, d);
  }

  lemma TwoCellEnergy(t: Table, a: int, b: int, c: int, d: int, v: real)
    requires InGrid(a, b) && InGrid(c, d) && (a != c || b != d)
    requires Cell(t, a, b) == v && Cell(t, c, d) == v
    requires forall i, j :: InGrid(i, j) && (i != a || j != b) && (i != c || j != d) ==> Cell(t, i, j) == 0.0
    ensures Energy(t) == v * v + v * v
  {
    var f := EnergyTerm(t);
    forall i, j | InGrid(i, j) && (i != a || j != b) && (i != c || j != d) ensures f(i, j) == 0.0 {
      ZeroCellTerms(t, 0.0, 0.0, i, j);
    }
    assert f(a, b) == v * v && f(c, d) == v * v;
    TotalTwoPoints(f, a, b, c, d);
  }

  lemma TwoCellCorrelation(t: Table, a: int, b: int, c: int, d: int, v: real, m: real, s: real)
    requires InGrid(a, b) && InGrid(c, d) && (a != c || b != d)
    requires Cell(t, a, b) == v && Cell(t, c, d) == v
    requires forall i, j :: InGrid(i, j) && (i != a || j != b) && (i != c || j != d) ==> Cell(t, i, j) == 0.0
    requires s != 0.0
    ensures Total(CorrelationTerm(t, m, s)) == CorrelationSummand(a, b, v, m, s) + CorrelationSummand(c, d, v, m, s)
  {
    var f := CorrelationTerm(t, m, s);
    forall i, j | InGrid(i, j) && (i != a || j != b) && (i != c || j != d) ensures f(i, j) == 0.0 {
      ZeroCellTerms(t, m, s, i, j);
    }
    assert f(a, b) == CorrelationSummand(a, b, v, m, s);
    assert f(c, d) == CorrelationSummand(c, d, v, m, s);
    TotalTwoPoints(f, a, b, c, d);
  }

  // ---- The reduction ----------------------------------------------------------------------

  /** The first pass: mean, accumulated in row-major order. */
  method TableMean(glcm: array2<real>) returns (mean: real)
    requires glcm.Length0 == GrayLevels && glcm.Length1 == GrayLevels
    ensures mean == Mean(Snapshot(glcm))
  {
    ghost var t := Snapshot(glcm);
    ghost var f := MeanTerm(t);
    mean := 0.0;
    for i := 0 to GrayLevels
      invariant mean == RowsSum(f, i)
    {
      for j := 0 to GrayLevels
        invariant mean == RowsSum(f, i) + RowSum(f, i, j)
      {
        var p := glcm[i, j];
        MeanStep(t, i, j, p);
        mean := mean + i as real * p;
      }
      RowsSumNext(f, i);
    }
  }

  /** The second pass: the sum of p(i, j) * (i - mean)^2, which is std * std. */
  method TableVariance(glcm: array2<real>, mean: real) returns (variance: real)
    requires glcm.Length0 == GrayLevels && glcm.Length1 == GrayLevels
    ensures variance == Total(VarianceTerm(Snapshot(glcm), mean))
  {
    ghost var t := Snapshot(glcm);
    ghost var f := VarianceTerm(t, mean);
    variance := 0.0;
    for i := 0 to GrayLevels
      invariant variance == RowsSum(f, i)
    {
      for j := 0 to GrayLevels
        invariant variance == RowsSum(f, i) + RowSum(f, i, j)
      {
        var p := glcm[i, j];
        VarianceStep(t, mean, i, j, p);
        variance := variance + p * (i as real - mean) * (i as real - mean);
      }
      RowsSumNext(f, i);
    }
  }

  /** Extending row i by the cell (i, j) holding p adds i * p to the mean. */
  lemma MeanStep(t: Table, i: int, j: nat, p: real)
    requires Cell(t, i, j) == p
    ensures RowSum(MeanTerm(t), i, j + 1) == RowSum(MeanTerm(t), i, j) + i as real * p
  {
    RowSumNext(MeanTerm(t), i, j);
  }

  /** Extending row i by the cell (i, j) holding p adds p * (i - mean)^2 to the variance. */
  lemma VarianceStep(t: Table, mean: real, i: int, j: nat, p: real)
    requires Cell(t, i, j) == p
    ensures RowSum(VarianceTerm(t, mean), i, j + 1) == RowSum(VarianceTerm(t, mean), i, j) + p * (i as real - mean) * (i as real - mean)
  {
    RowSumNext(VarianceTerm(t, mean), i, j);
  }

  /** Extending row i by the cell (i, j) holding p adds its contrast summand. */
  lemma ContrastStep(t: Table, i: int, j: nat, p: real)
    requires Cell(t, i, j) == p
    ensures RowSum(ContrastTerm(t), i, j + 1) == RowSum(ContrastTerm(t), i, j) + ContrastWeight(i, j) as real * p
  {
    RowSumNext(ContrastTerm(t), i, j);
  }

  /** Extending row i by the cell (i, j) holding p adds its correlation summand, if the variance is nonzero. */
  lemma CorrelationStep(t: Table, i: int, j: nat, p: real, mean: real, variance: real)
    requires Cell(t, i, j) == p
    ensures RowSum(CorrelationTerm(t, mean, variance), i, j + 1)
         == RowSum(CorrelationTerm(t, mean, variance), i, j)
          + if variance != 0.0 then CorrelationSummand(i, j, p, mean, variance) else 0.0
  {
    RowSumNext(CorrelationTerm(t, mean, variance), i, j);
  }

  /** Extending row i by the cell (i, j) holding p adds p^2 to the energy. */
  lemma EnergyStep(t: Table, i: int, j: nat, p: real)
    requires Cell(t, i, j) == p
    ensures RowSum(EnergyTerm(t), i, j + 1) == RowSum(EnergyTerm(t), i, j) + p * p
  {
    RowSumNext(EnergyTerm(t), i, j);
  }

  /**
   * calculateTextureFeatures: the mean pass, the variance pass, then one
   * pass accumulating contrast, correlation and energy together.
   */
  method CalculateTextureFeatures(glcm: array2<real>) returns (contrast: real, correlation: real, energy: real)
    requires glcm.Length0 == GrayLevels && glcm.Length1 == GrayLevels
    ensures contrast == Contrast(Snapshot(glcm))
    ensures correlation == Correlation(Snapshot(glcm))
    ensures energy == Energy(Snapshot(glcm))
  {
    ghost var t := Snapshot(glcm);
    contrast, correlation, energy := 0.0, 0.0, 0.0;
    var mean := TableMean(glcm);
    var variance := TableVariance(glcm, mean);
    ghost var c, r, e := ContrastTerm(t), CorrelationTerm(t, mean, variance), EnergyTerm(t);

    for i := 0 to GrayLevels
      invariant contrast == RowsSum(c, i)
      invariant correlation == RowsSum(r, i)
      invariant energy == RowsSum(e, i)
    {
      for j := 0 to GrayLevels
        invariant contrast == RowsSum(c, i) + RowSum(c, i, j)
        invariant correlation == RowsSum(r, i) + RowSum(r, i, j)
        invariant energy == RowsSum(e, i) + RowSum(e, i, j)
      {
        var p := glcm[i, j];
        ContrastStep(t, i, j, p);
        CorrelationStep(t, i, j, p, mean, variance);
        EnergyStep(t, i, j, p);
        contrast := contrast + ContrastWeight(i, j) as real * p;
        if variance != 0.0 {
          correlation := correlation + CorrelationSummand(i, j, p, mean, variance);
        }
        energy := energy + p * p;
      }
      RowsSumNext(c, i);
      RowsSumNext(r, i);
      RowsSumNext(e, i);
    }
  }
}
