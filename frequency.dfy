/** The exact parts of the frequency-domain filter program: the in-place
    transpose of an N x N spectrum, the centring shift, the ideal,
    Gaussian and Butterworth low- and high-pass filters with the trackbar
    dispatch, and the recursive shape of the radix-2 transform. Values are
    complex numbers over exact reals; the transcendental functions the
    program calls (`exp`, the twiddle factors) are parameters. */
module Frequency {
  import opened Grids
  import opened ComplexNumbers

  /** The side of every image and spectrum the program accepts. */
  const N := 512

  type Spectrum = seq<seq<Complex>>

  // ---------------------------------------------------------------------
  // Transpose

  /** FFT::transpose: the square spectrum is transposed in place by
      swapping (i, j) with (j, i) for every j < i. */
  method Transpose(X: array2<Complex>)
    requires X.Length0 == N && X.Length1 == N
    modifies X
    ensures forall i :: 0 <= i < N ==> X[i, i] == old(X[i, i])
    ensures Cells(X) == Transposed(old(Cells(X)), N, N)
  {
    TransposeSquare(X);
  }

  /** Two transposes give the spectrum back, as transform2d relies on. */
  lemma TransposeInvolution(g: Spectrum)
    requires IsGrid(g, N, N)
    ensures Transposed(Transposed(g, N, N), N, N) == g
  {
    TransposedTwice(g, N, N);
  }

  // ---------------------------------------------------------------------
  // The centring shift

  /** The index map `(N/2 + i) % N` of shift2d and the filters. */
  function ShiftOf(i: int): (s: int)
    requires 0 <= i < N
    ensures s == if i < N / 2 then i + N / 2 else i - N / 2
  {
    (N / 2 + i) % N
  }

  /** The shift is its own inverse on [0, N), hence a bijection: every
      output cell of shift2d is written exactly once. */
  lemma ShiftInvolution(i: int)
    requires 0 <= i < N
    ensures 0 <= ShiftOf(i) < N && ShiftOf(ShiftOf(i)) == i
  {
  }

  /** The centred coordinate `(N/2 + i) % N - N/2`: `i` in the first half,
      `i - N` in the second, always in [-N/2, N/2). */
  function Centred(i: int): (c: int)
    requires 0 <= i < N
    ensures c == if i < N / 2 then i else i - N
    ensures -N / 2 <= c < N / 2
  {
    ShiftOf(i) - N / 2
  }

  /** The squared distance of cell (i, j) from the centre of the spectrum. */
  function Dist2(i: int, j: int): nat
    requires 0 <= i < N && 0 <= j < N
  {
    Centred(i) * Centred(i) + Centred(j) * Centred(j)
  }

  /** Only the zero-frequency cell (0, 0) lies at distance zero from the
      centre. */
  lemma DistZero(i: int, j: int)
    requires 0 <= i < N && 0 <= j < N
    ensures Dist2(i, j) == 0 <==> i == 0 && j == 0
  {
    var a, b := Centred(i), Centred(j);
    if a != 0 {
      assert a * a > 0;
    }
    if b != 0 {
      assert b * b > 0;
    }
  }

  /** The spectrum with all zero entries that every filter starts from. */
  function Zeros(): (z: Spectrum)
    ensures IsGrid(z, N, N)
  {
    seq(N, _ => seq(N, _ => Zero))
  }

  /** shift2d: each value, mapped through `mag` (the program's
      `log(1 + abs(z))`), is written to the shifted position. */
  method Shift2d(X: Spectrum, mag: Complex -> Complex) returns (ret: Spectrum)
    requires IsGrid(X, N, N)
    ensures IsGrid(ret, N, N)
    ensures forall i, j :: 0 <= i < N && 0 <= j < N ==> ret[ShiftOf(i)][ShiftOf(j)] == mag(X[i][j])
    ensures forall i, j :: 0 <= i < N && 0 <= j < N ==> ret[i][j] == mag(X[ShiftOf(i)][ShiftOf(j)])
  {
    ret := Zeros();
    for i := 0 to N
      invariant IsGrid(ret, N, N)
      invariant forall p, q :: 0 <= p < i && 0 <= q < N ==> ret[ShiftOf(p)][ShiftOf(q)] == mag(X[p][q])
    {
      for j := 0 to N
        invariant IsGrid(ret, N, N)
        invariant forall p, q :: ((0 <= p < i && 0 <= q < N) || (p == i && 0 <= q < j)) ==>
          ret[ShiftOf(p)][ShiftOf(q)] == mag(X[p][q])
      {
        ret := ret[ShiftOf(i) := ret[ShiftOf(i)][ShiftOf(j) := mag(X[i][j])]];
      }
    }
    forall i, j | 0 <= i < N && 0 <= j < N
      ensures ret[i][j] == mag(X[ShiftOf(i)][ShiftOf(j)])
    {
      assert ret[ShiftOf(ShiftOf(i))][ShiftOf(ShiftOf(j))] == mag(X[ShiftOf(i)][ShiftOf(j)]);
    }
  }

  // ---------------------------------------------------------------------
  // Filters, cell by cell

  /** `abs(Complex(dx, dy)) > cutoff`: the distance is the square root of
      `d2`, so it exceeds a nonnegative cutoff exactly when `d2` exceeds
      the cutoff squared, and exceeds any negative cutoff. */
  predicate Beyond(d2: nat, cutoff: int) {
    cutoff < 0 || d2 > cutoff * cutoff
  }

  /** The Butterworth ratio `(d / cutoff)^4` with `d * d == d2`. */
  function Ratio(d2: nat, cutoff: int): (r: real)
    requires cutoff != 0
    ensures r >= 0.0 && (d2 == 0 ==> r == 0.0)
  {
    var c2 := (cutoff * cutoff) as real;
    (d2 as real / c2) * (d2 as real / c2)
  }

  /** The Butterworth low-pass factor `1 / (1 + (d/c)^4)`. */
  function LowFactor(d2: nat, cutoff: int): real
    requires cutoff != 0
  {
    1.0 / (1.0 + Ratio(d2, cutoff))
  }

  /** The Butterworth high-pass factor `(d/c)^4 / (1 + (d/c)^4)`. */
  function HighFactor(d2: nat, cutoff: int): real
    requires cutoff != 0
  {
    Ratio(d2, cutoff) / (1.0 + Ratio(d2, cutoff))
  }

  /** The two Butterworth factors add up to one, lie in [0, 1], and at
      the centre the low-pass factor is 1 and the high-pass factor is 0. */
  lemma ButterworthFactors(d2: nat, cutoff: int)
    requires cutoff != 0
    ensures LowFactor(d2, cutoff) + HighFactor(d2, cutoff) == 1.0
    ensures 0.0 < LowFactor(d2, cutoff) <= 1.0 && 0.0 <= HighFactor(d2, cutoff) < 1.0
    ensures d2 == 0 ==> LowFactor(d2, cutoff) == 1.0 && HighFactor(d2, cutoff) == 0.0
  {
    var r := Ratio(d2, cutoff);
    assert 1.0 / (1.0 + r) + r / (1.0 + r) == (1.0 + r) / (1.0 + r);
  }

  /** The low-pass factor never increases with the distance. */
  lemma LowFactorDecreasing(d2: nat, e2: nat, cutoff: int)
    requires cutoff != 0 && d2 <= e2
    ensures LowFactor(e2, cutoff) <= LowFactor(d2, cutoff)
  {
    var c2 := (cutoff * cutoff) as real;
    var a, b := d2 as real / c2, e2 as real / c2;
    assert a <= b;
    assert a * a <= b * b;
  }

  /** The Gaussian low-pass factor `exp(-d2 / (2 stdDev^2))`, with the
      exponential function given. */
  function GaussFactor(d2: nat, stdDev: int, exp: real -> real): real
    requires stdDev != 0
  {
    exp(-(d2 as real) / (2.0 * (stdDev * stdDev) as real))
  }

  function IdealLowAt(x: Complex, d2: nat, cutoff: int): Complex {
    if Beyond(d2, cutoff) then Zero else x
  }

  function IdealHighAt(x: Complex, d2: nat, cutoff: int): Complex {
    if Beyond(d2, cutoff) then x else Zero
  }

  function GaussianLowAt(x: Complex, d2: nat, stdDev: int, exp: real -> real): Complex
    requires stdDev != 0
  {
    Scale(x, GaussFactor(d2, stdDev, exp))
  }

  function GaussianHighAt(x: Complex, d2: nat, stdDev: int, exp: real -> real): Complex
    requires stdDev != 0
  {
    Scale(x, 1.0 - GaussFactor(d2, stdDev, exp))
  }

  /** `X / (1 + (d/c)^4)`. */
  function ButterworthLowAt(x: Complex, d2: nat, cutoff: int): Complex
    requires cutoff != 0
  {
    DivReal(x, 1.0 + Ratio(d2, cutoff))
  }

  /** `X * (d/c)^4 / (1 + (d/c)^4)`. */
  function ButterworthHighAt(x: Complex, d2: nat, cutoff: int): Complex
    requires cutoff != 0
  {
    DivReal(Scale(x, Ratio(d2, cutoff)), 1.0 + Ratio(d2, cutoff))
  }

  /** The Butterworth filters scale a value by their factors. */
  lemma ButterworthScales(x: Complex, d2: nat, cutoff: int)
    requires cutoff != 0
    ensures ButterworthLowAt(x, d2, cutoff) == Scale(x, LowFactor(d2, cutoff))
    ensures ButterworthHighAt(x, d2, cutoff) == Scale(x, HighFactor(d2, cutoff))
  {
    var r := Ratio(d2, cutoff);
    assert x.re / (1.0 + r) == x.re * (1.0 / (1.0 + r));
    assert x.im / (1.0 + r) == x.im * (1.0 / (1.0 + r));
    assert (x.re * r) / (1.0 + r) == x.re * (r / (1.0 + r));
    assert (x.im * r) / (1.0 + r) == x.im * (r / (1.0 + r));
  }

  // ---------------------------------------------------------------------
  // Filters over a spectrum

  /** The spectrum whose cell (i, j) is `f(X[i][j], Dist2(i, j))`: what
      each filter computes, with `f` its rule for one cell. */
  function Pointwise(X: Spectrum, f: (Complex, nat) -> Complex): (Y: Spectrum)
    requires IsGrid(X, N, N)
    ensures IsGrid(Y, N, N)
    ensures forall i, j :: 0 <= i < N && 0 <= j < N ==> Y[i][j] == f(X[i][j], Dist2(i, j))
  {
    seq(N, i requires 0 <= i < N =>
      seq(N, j requires 0 <= j < N => f(X[i][j], Dist2(i, j))))
  }

  function IdealLow(X: Spectrum, cutoff: int): (Y: Spectrum)
    requires IsGrid(X, N, N)
    ensures IsGrid(Y, N, N)
    ensures forall i, j :: 0 <= i < N && 0 <= j < N ==> Y[i][j] == IdealLowAt(X[i][j], Dist2(i, j), cutoff)
  {
    Pointwise(X, (x: Complex, d2: nat) => IdealLowAt(x, d2, cutoff))
  }

  function IdealHigh(X: Spectrum, cutoff: int): (Y: Spectrum)
    requires IsGrid(X, N, N)
    ensures IsGrid(Y, N, N)
    ensures forall i, j :: 0 <= i < N && 0 <= j < N ==> Y[i][j] == IdealHighAt(X[i][j], Dist2(i, j), cutoff)
  {
    Pointwise(X, (x: Complex, d2: nat) => IdealHighAt(x, d2, cutoff))
  }

  function GaussianLow(X: Spectrum, stdDev: int, exp: real -> real): (Y: Spectrum)
    requires IsGrid(X, N, N) && stdDev != 0
    ensures IsGrid(Y, N, N)
    ensures forall i, j :: 0 <= i < N && 0 <= j < N ==> Y[i][j] == GaussianLowAt(X[i][j], Dist2(i, j), stdDev, exp)
  {
    Pointwise(X, (x: Complex, d2: nat) => GaussianLowAt(x, d2, stdDev, exp))
  }

  function GaussianHigh(X: Spectrum, stdDev: int, exp: real -> real): (Y: Spectrum)
    requires IsGrid(X, N, N) && stdDev != 0
    ensures IsGrid(Y, N, N)
    ensures forall i, j :: 0 <= i < N && 0 <= j < N ==> Y[i][j] == GaussianHighAt(X[i][j], Dist2(i, j), stdDev, exp)
  {
    Pointwise(X, (x: Complex, d2: nat) => GaussianHighAt(x, d2, stdDev, exp))
  }

  function ButterworthLow(X: Spectrum, cutoff: int): (Y: Spectrum)
    requires IsGrid(X, N, N) && cutoff != 0
    ensures IsGrid(Y, N, N)
    ensures forall i, j :: 0 <= i < N && 0 <= j < N ==> Y[i][j] == ButterworthLowAt(X[i][j], Dist2(i, j), cutoff)
  {
    Pointwise(X, (x: Complex, d2: nat) => ButterworthLowAt(x, d2, cutoff))
  }

  function ButterworthHigh(X: Spectrum, cutoff: int): (Y: Spectrum)
    requires IsGrid(X, N, N) && cutoff != 0
    ensures IsGrid(Y, N, N)
    ensures forall i, j :: 0 <= i < N && 0 <= j < N ==> Y[i][j] == ButterworthHighAt(X[i][j], Dist2(i, j), cutoff)
  {
    Pointwise(X, (x: Complex, d2: nat) => ButterworthHighAt(x, d2, cutoff))
  }

  /** The loop every filter runs: a zero spectrum, then each cell set from
      the input cell and its distance from the centre. */
  method Fill(X: Spectrum, f: (Complex, nat) -> Complex) returns (ret: Spectrum)
    requires IsGrid(X, N, N)
    ensures ret == Pointwise(X, f)
  {
    ret := Zeros();
    for i := 0 to N
      invariant IsGrid(ret, N, N)
      invariant forall p, q :: 0 <= p < i && 0 <= q < N ==> ret[p][q] == f(X[p][q], Dist2(p, q))
    {
      for j := 0 to N
        invariant IsGrid(ret, N, N)
        invariant forall p, q :: ((0 <= p < i && 0 <= q < N) || (p == i && 0 <= q < j)) ==>
          ret[p][q] == f(X[p][q], Dist2(p, q))
      {
        ret := ret[i := ret[i][j := f(X[i][j], Dist2(i, j))]];
      }
    }
    GridExtensionality(ret, Pointwise(X, f), N, N);
  }

  /** Filter::LowPass::ideal: keeps the values within the cutoff distance. */
  method LowPassIdeal(X: Spectrum, cutoff: int) returns (ret: Spectrum)
    requires IsGrid(X, N, N)
    ensures ret == IdealLow(X, cutoff)
  {
    ret := Fill(X, (x: Complex, d2: nat) => IdealLowAt(x, d2, cutoff));
  }

  /** Filter::HighPass::ideal: keeps the values beyond the cutoff distance. */
  method HighPassIdeal(X: Spectrum, cutoff: int) returns (ret: Spectrum)
    requires IsGrid(X, N, N)
    ensures ret == IdealHigh(X, cutoff)
  {
    ret := Fill(X, (x: Complex, d2: nat) => IdealHighAt(x, d2, cutoff));
  }

  /** Filter::LowPass::gaussian. */
  method LowPassGaussian(X: Spectrum, stdDev: int, exp: real -> real) returns (ret: Spectrum)
    requires IsGrid(X, N, N) && stdDev != 0
    ensures ret == GaussianLow(X, stdDev, exp)
  {
    ret := Fill(X, (x: Complex, d2: nat) => GaussianLowAt(x, d2, stdDev, exp));
  }

  /** Filter::HighPass::gaussian. */
  method HighPassGaussian(X: Spectrum, stdDev: int, exp: real -> real) returns (ret: Spectrum)
    requires IsGrid(X, N, N) && stdDev != 0
    ensures ret == GaussianHigh(X, stdDev, exp)
  {
    ret := Fill(X, (x: Complex, d2: nat) => GaussianHighAt(x, d2, stdDev, exp));
  }

  /** Filter::LowPass::butterworth. */
  method LowPassButterworth(X: Spectrum, cutoff: int) returns (ret: Spectrum)
    requires IsGrid(X, N, N) && cutoff != 0
    ensures ret == ButterworthLow(X, cutoff)
  {
    ret := Fill(X, (x: Complex, d2: nat) => ButterworthLowAt(x, d2, cutoff));
  }

  /** Filter::HighPass::butterworth. */
  method HighPassButterworth(X: Spectrum, cutoff: int) returns (ret: Spectrum)
    requires IsGrid(X, N, N) && cutoff != 0
    ensures ret == ButterworthHigh(X, cutoff)
  {
    ret := Fill(X, (x: Complex, d2: nat) => ButterworthHighAt(x, d2, cutoff));
  }

  // ---------------------------------------------------------------------
  // Properties of the filters

  /** Each ideal filter keeps a value or zeroes it, the two are exact
      complements, and a value is kept by low-pass exactly when it lies
      within the cutoff distance. */
  lemma IdealComplement(X: Spectrum, cutoff: int, i: int, j: int)
    requires IsGrid(X, N, N) && 0 <= i < N && 0 <= j < N
    ensures Add(IdealLow(X, cutoff)[i][j], IdealHigh(X, cutoff)[i][j]) == X[i][j]
    ensures IdealLow(X, cutoff)[i][j] == (if Beyond(Dist2(i, j), cutoff) then Zero else X[i][j])
    ensures IdealHigh(X, cutoff)[i][j] == (if Beyond(Dist2(i, j), cutoff) then X[i][j] else Zero)
  {
  }

  /** Filtering twice with the same ideal filter changes nothing more, and
      low-pass after high-pass leaves nothing. */
  lemma IdealIdempotent(X: Spectrum, cutoff: int)
    requires IsGrid(X, N, N)
    ensures IdealLow(IdealLow(X, cutoff), cutoff) == IdealLow(X, cutoff)
    ensures IdealHigh(IdealHigh(X, cutoff), cutoff) == IdealHigh(X, cutoff)
    ensures IdealLow(IdealHigh(X, cutoff), cutoff) == Zeros()
  {
    var L, H := IdealLow(X, cutoff), IdealHigh(X, cutoff);
    GridExtensionality(IdealLow(L, cutoff), L, N, N);
    GridExtensionality(IdealHigh(H, cutoff), H, N, N);
    GridExtensionality(IdealLow(H, cutoff), Zeros(), N, N);
  }

  /** Scaling a value by `g` and by `1 - g` splits it into two parts. */
  lemma ScaleSplits(x: Complex, g: real)
    ensures Add(Scale(x, g), Scale(x, 1.0 - g)) == x
  {
    assert x.re * g + x.re * (1.0 - g) == x.re;
    assert x.im * g + x.im * (1.0 - g) == x.im;
  }

  lemma SquarePositive(s: int)
    requires s != 0
    ensures s * s > 0
  {
  }

  /** At the centre the Gaussian factor is `exp(0)`. */
  lemma GaussFactorAtCentre(stdDev: int, exp: real -> real)
    requires stdDev != 0
    ensures GaussFactor(0, stdDev, exp) == exp(0.0)
  {
    SquarePositive(stdDev);
    var c := 2.0 * (stdDev * stdDev) as real;
    assert c > 0.0;
    assert -(0 as real) / c == 0.0;
  }

  /** The Gaussian pair are complements for any exponential. */
  lemma GaussianComplement(X: Spectrum, stdDev: int, exp: real -> real, i: int, j: int)
    requires IsGrid(X, N, N) && stdDev != 0 && 0 <= i < N && 0 <= j < N
    ensures Add(GaussianLow(X, stdDev, exp)[i][j], GaussianHigh(X, stdDev, exp)[i][j]) == X[i][j]
  {
    var x, g := X[i][j], GaussFactor(Dist2(i, j), stdDev, exp);
    assert GaussianLow(X, stdDev, exp)[i][j] == Scale(x, g);
    assert GaussianHigh(X, stdDev, exp)[i][j] == Scale(x, 1.0 - g);
    ScaleSplits(x, g);
  }

  /** At the centre the Gaussian filters scale by `exp(0)` and
      `1 - exp(0)`: with the true exponential the low-pass keeps the
      centre value and the high-pass removes it. */
  lemma GaussianCentre(X: Spectrum, stdDev: int, exp: real -> real)
    requires IsGrid(X, N, N) && stdDev != 0
    ensures GaussianLow(X, stdDev, exp)[0][0] == Scale(X[0][0], exp(0.0))
    ensures GaussianHigh(X, stdDev, exp)[0][0] == Scale(X[0][0], 1.0 - exp(0.0))
  {
    var x := X[0][0];
    DistZero(0, 0);
    GaussianAtCentre(x, stdDev, exp);
  }

  lemma GaussianAtCentre(x: Complex, stdDev: int, exp: real -> real)
    requires stdDev != 0
    ensures GaussianLowAt(x, 0, stdDev, exp) == Scale(x, exp(0.0))
    ensures GaussianHighAt(x, 0, stdDev, exp) == Scale(x, 1.0 - exp(0.0))
  {
    GaussFactorAtCentre(stdDev, exp);
  }

  /** The Butterworth pair are complements and scale each value by the
      factors of ButterworthFactors, which lie in [0, 1]. */
  lemma ButterworthComplement(X: Spectrum, cutoff: int, i: int, j: int)
    requires IsGrid(X, N, N) && cutoff != 0 && 0 <= i < N && 0 <= j < N
    ensures Add(ButterworthLow(X, cutoff)[i][j], ButterworthHigh(X, cutoff)[i][j]) == X[i][j]
    ensures ButterworthLow(X, cutoff)[i][j] == Scale(X[i][j], LowFactor(Dist2(i, j), cutoff))
    ensures ButterworthHigh(X, cutoff)[i][j] == Scale(X[i][j], HighFactor(Dist2(i, j), cutoff))
  {
    var x, d2 := X[i][j], Dist2(i, j);
    ButterworthScales(x, d2, cutoff);
    ButterworthFactors(d2, cutoff);
    var lo := LowFactor(d2, cutoff);
    assert HighFactor(d2, cutoff) == 1.0 - lo;
    ScaleSplits(x, lo);
  }

  /** At the centre the Butterworth low-pass keeps the value and the
      high-pass removes it. */
  lemma ButterworthCentre(X: Spectrum, cutoff: int)
    requires IsGrid(X, N, N) && cutoff != 0
    ensures ButterworthLow(X, cutoff)[0][0] == X[0][0]
    ensures ButterworthHigh(X, cutoff)[0][0] == Zero
  {
    var x := X[0][0];
    calc {
      ButterworthLow(X, cutoff)[0][0];
      { DistZero(0, 0); }
      ButterworthLowAt(x, 0, cutoff);
      { ButterworthAtCentre(x, cutoff); }
      x;
    }
    calc {
      ButterworthHigh(X, cutoff)[0][0];
      { DistZero(0, 0); }
      ButterworthHighAt(x, 0, cutoff);
      { ButterworthAtCentre(x, cutoff); }
      Zero;
    }
  }

  lemma ButterworthAtCentre(x: Complex, cutoff: int)
    requires cutoff != 0
    ensures ButterworthLowAt(x, 0, cutoff) == x && ButterworthHighAt(x, 0, cutoff) == Zero
  {
    assert Ratio(0, cutoff) == 0.0;
  }

  // ---------------------------------------------------------------------
  // The trackbar dispatch

  /** The spectrum callBack displays for a filter position (0..2 low-pass
      ideal, Gaussian, Butterworth; 3..5 the high-pass ones; anything
      else the input) and a cutoff position 0..9. */
  function Selected(X: Spectrum, filterPos: int, freqPos: int, exp: real -> real): (Y: Spectrum)
    requires IsGrid(X, N, N) && 0 <= freqPos <= 9
    ensures IsGrid(Y, N, N)
  {
    var wide, narrow := 20 * (freqPos + 1), 10 * (freqPos + 1);
    if filterPos == 0 then IdealLow(X, wide)
    else if filterPos == 3 then IdealHigh(X, wide)
    else if filterPos == 1 then GaussianLow(X, wide, exp)
    else if filterPos == 4 then GaussianHigh(X, wide, exp)
    else if filterPos == 2 then ButterworthLow(X, narrow)
    else if filterPos == 5 then ButterworthHigh(X, narrow)
    else X
  }

  /** The switch of callBack. */
  method FilterSpectrum(X: Spectrum, filterPos: int, freqPos: int, exp: real -> real) returns (Y: Spectrum)
    requires IsGrid(X, N, N) && 0 <= freqPos <= 9
    ensures Y == Selected(X, filterPos, freqPos, exp)
  {
    var wide, narrow := 20 * (freqPos + 1), 10 * (freqPos + 1);
    if filterPos == 0 {
      Y := LowPassIdeal(X, wide);
    } else if filterPos == 3 {
      Y := HighPassIdeal(X, wide);
    } else if filterPos == 1 {
      Y := LowPassGaussian(X, wide, exp);
    } else if filterPos == 4 {
      Y := HighPassGaussian(X, wide, exp);
    } else if filterPos == 2 {
      Y := LowPassButterworth(X, narrow);
    } else if filterPos == 5 {
      Y := HighPassButterworth(X, narrow);
    } else {
      Y := X;
    }
  }

  /** Filter position `p` and `p + 3` are a low-pass and a high-pass
      filter that add up to the input, and any position outside 0..5
      passes the spectrum through. */
  lemma SelectedPairs(X: Spectrum, filterPos: int, freqPos: int, exp: real -> real, i: int, j: int)
    requires IsGrid(X, N, N) && 0 <= freqPos <= 9 && 0 <= i < N && 0 <= j < N
    ensures 0 <= filterPos <= 2 ==>
      Add(Selected(X, filterPos, freqPos, exp)[i][j], Selected(X, filterPos + 3, freqPos, exp)[i][j]) == X[i][j]
    ensures !(0 <= filterPos <= 5) ==> Selected(X, filterPos, freqPos, exp) == X
  {
    if filterPos == 0 {
      IdealComplement(X, 20 * (freqPos + 1), i, j);
    } else if filterPos == 1 {
      GaussianComplement(X, 20 * (freqPos + 1), exp, i, j);
    } else if filterPos == 2 {
      ButterworthComplement(X, 10 * (freqPos + 1), i, j);
    }
  }

  // ---------------------------------------------------------------------
  // The shape of the radix-2 transform

  /** `x[slice(0, n/2, 2)]`. */
  function Evens(x: seq<Complex>): (e: seq<Complex>)
    ensures |e| == |x| / 2
  {
    seq(|x| / 2, k requires 0 <= k < |x| / 2 => x[2 * k])
  }

  /** `x[slice(1, n/2, 2)]`. */
  function Odds(x: seq<Complex>): (o: seq<Complex>)
    ensures |o| == |x| / 2
  {
    seq(|x| / 2, k requires 0 <= k < |x| / 2 => x[2 * k + 1])
  }

  /** FFT::transform with the twiddle factor `twiddle(k, n)` given: a
      single value is returned as it is; otherwise the halves of even and
      odd positions are transformed and combined in butterflies. Entry
      n - 1 of an odd length is never written and stays zero. */
  function Fft(x: seq<Complex>, twiddle: (int, int) -> Complex): (X: seq<Complex>)
    requires |x| >= 1
    ensures |X| == |x|
    ensures |x| == 1 ==> X == x
    decreases |x|
  {
    if |x| == 1 then x
    else
      var n := |x|;
      var even, odd := Fft(Evens(x), twiddle), Fft(Odds(x), twiddle);
      seq(n, k requires 0 <= k < n =>
        if k < n / 2 then Add(even[k], Mul(twiddle(k, n), odd[k]))
        else if k < 2 * (n / 2) then Sub(even[k - n / 2], Mul(twiddle(k - n / 2, n), odd[k - n / 2]))
        else Zero)
  }

  /** FFT::transform, recursion and butterfly loop. The input must not be
      empty: for an empty input the program recurses without end. */
  method Transform(x: seq<Complex>, twiddle: (int, int) -> Complex) returns (X: seq<Complex>)
    requires |x| >= 1
    ensures X == Fft(x, twiddle)
    decreases |x|
  {
    var n := |x|;
    X := seq(n, _ => Zero);
    if n == 1 {
      return x;
    }
    var even := Transform(Evens(x), twiddle);
    var odd := Transform(Odds(x), twiddle);
    ghost var F := Fft(x, twiddle);
    var h := n / 2;
    for k := 0 to h
      invariant |X| == n
      invariant forall p :: 0 <= p < n ==> X[p] == if Butterflied(p, k, h) then F[p] else Zero
    {
      var t := Mul(twiddle(k, n), odd[k]);
      X := X[k := Add(even[k], t)][k + h := Sub(even[k], t)];
    }
    assert forall p :: 0 <= p < n ==> X[p] == F[p];
  }

  /** Entry `p` has been set once the butterflies for k < `done` have run
      over halves of length `h`. */
  predicate Butterflied(p: int, done: int, h: int) {
    (0 <= p < h && p < done) || (h <= p < h + done)
  }

  /** `n` is a power of two. */
  predicate PowerOfTwo(n: nat) {
    n == 1 || (n >= 2 && n % 2 == 0 && PowerOfTwo(n / 2))
  }

  lemma SumAppend(s: seq<Complex>, a: Complex)
    ensures Sum(s + [a]) == Add(Sum(s), a)
  {
    assert (s + [a])[..|s|] == s;
  }

  /** The sum of an even-length sequence is the sum of its even positions
      plus the sum of its odd positions. */
  lemma {:induction false} SumOfHalves(x: seq<Complex>)
    requires |x| % 2 == 0
    ensures Sum(x) == Add(Sum(Evens(x)), Sum(Odds(x)))
    decreases |x|
  {
    if |x| > 0 {
      var n := |x|;
      var front := x[..n - 2];
      SumOfHalves(front);
      assert Evens(x) == Evens(front) + [x[n - 2]];
      assert Odds(x) == Odds(front) + [x[n - 1]];
      assert x == front + [x[n - 2]] + [x[n - 1]];
      SumAppend(front, x[n - 2]);
      SumAppend(front + [x[n - 2]], x[n - 1]);
      SumAppend(Evens(front), x[n - 2]);
      SumAppend(Odds(front), x[n - 1]);
    }
  }

  /** With a twiddle factor of one at k = 0, the zero-frequency entry of
      the transform of a power-of-two length input is the sum of the input. */
  lemma {:induction false} DcIsSum(x: seq<Complex>, twiddle: (int, int) -> Complex)
    requires |x| >= 1 && PowerOfTwo(|x|)
    requires forall n :: twiddle(0, n) == One
    ensures Fft(x, twiddle)[0] == Sum(x)
    decreases |x|
  {
    if |x| == 1 {
      assert x == [] + [x[0]];
      SumAppend([], x[0]);
    } else {
      DcIsSum(Evens(x), twiddle);
      DcIsSum(Odds(x), twiddle);
      SumOfHalves(x);
    }
  }

  /** `1i * conj(z)` twice gives `z` back, so inverseTransform's pre- and
      post-swaps undo each other. */
  lemma SwapPartsInvolution(z: Complex)
    ensures SwapParts(SwapParts(z)) == z
  {
  }
}
