/** The sampling grid (`Coordinates`) and the centered, physically scaled 2-d
    Fourier transform pair (`FFT2`, `IFFT2`) of fourier.py.

    The library helpers are modelled by the index formulas they are documented
    with: `linspace`, `fftfreq`, and `fftshift`/`ifftshift` as rolls. The raw
    `fft2`/`ifft2` are a parameter `Dft` whose algorithm is not modelled; only the
    facts the round trip needs are assumed of it (see `Dft.Valid`). */
module Fourier {
  import opened ComplexNumbers
  import opened Matrices

  // ---------------------------------------------------------------------------
  // Library helpers on sequences
  // ---------------------------------------------------------------------------

  /** `np.linspace(start, stop, n)`: n samples from start to stop inclusive. */
  function Linspace(start: real, stop: real, n: int): (x: seq<real>)
    requires 2 <= n
    ensures |x| == n
    ensures x[0] == start && x[n - 1] == stop
    ensures forall i :: 0 <= i < n - 1 ==> x[i + 1] - x[i] == (stop - start) / ((n - 1) as real)
    ensures start < stop ==> forall i, j :: 0 <= i < j < n ==> x[i] < x[j]
  {
    var step := (stop - start) / ((n - 1) as real);
    var x := seq(n, i requires 0 <= i < n => start + (i as real) * step);
    assert x[n - 1] == start + ((n - 1) as real) * step;
    assert ((n - 1) as real) * step == stop - start;
    forall i, j | 0 <= i < j < n && start < stop
      ensures x[i] < x[j]
    {
      assert 0.0 < step;
      assert x[j] - x[i] == ((j - i) as real) * step;
    }
    x
  }

  /** `fftfreq(n, d)`: bin i holds i/(n*d) for i <= (n-1)/2 and (i-n)/(n*d) for the rest. */
  function FftFreq(n: int, d: real): (f: seq<real>)
    requires 1 <= n && d != 0.0
    ensures |f| == n
  {
    var val := FrequencyStep(n, d);
    seq(n, i requires 0 <= i < n => FreqIndex(n, i) as real * val)
  }

  /** The frequency resolution 1/(n*d) of n samples spaced d apart. */
  function FrequencyStep(n: int, d: real): real
    requires 1 <= n && d != 0.0
  {
    assert (n as real) * d != 0.0;
    1.0 / ((n as real) * d)
  }

  /** The signed bin number of fftfreq's entry i: i for i <= (n-1)/2, else i - n. */
  function FreqIndex(n: int, i: int): int {
    if i <= (n - 1) / 2 then i else i - n
  }

  /** `np.roll(s, k)` for 0 <= k <= |s|, computed as numpy does, by
      concatenating the last k entries with the rest: entry i of the result is
      entry (i - k) mod |s| of s. */
  function Roll<T>(s: seq<T>, k: int): (r: seq<T>)
    requires 0 <= k <= |s|
    ensures |r| == |s|
  {
    s[|s| - k..] + s[..|s| - k]
  }

  lemma RollAt<T>(s: seq<T>, k: int, i: int)
    requires 0 <= k <= |s| && 0 <= i < |s|
    ensures Roll(s, k)[i] == if i < k then s[i - k + |s|] else s[i - k]
  {
  }

  /** One-dimensional `fftshift`: a roll by n/2, moving index 0 to the centre. */
  function FftShift<T>(s: seq<T>): (r: seq<T>)
    ensures |r| == |s|
  {
    Roll(s, |s| / 2)
  }

  /** One-dimensional `ifftshift`: a roll by -(n/2), that is by n - n/2. */
  function IfftShift<T>(s: seq<T>): (r: seq<T>)
    ensures |r| == |s|
  {
    Roll(s, |s| - |s| / 2)
  }

  /** `ifftshift` undoes `fftshift` and vice versa, for odd and even n alike. */
  lemma ShiftsInverse1<T>(s: seq<T>)
    ensures IfftShift(FftShift(s)) == s
    ensures FftShift(IfftShift(s)) == s
  {
    var n, h := |s|, |s| / 2;
    assert FftShift(s) == s[n - h..] + s[..n - h];
    assert IfftShift(FftShift(s)) == s[..n - h] + s[n - h..];
    assert IfftShift(s) == s[h..] + s[..h];
    assert FftShift(IfftShift(s)) == s[..h] + s[h..];
  }

  /** Applies a sequence operation to every row. */
  function MapRows<T>(m: Matrix<T>, op: seq<T> -> seq<T>): (r: Matrix<T>)
    ensures |r| == |m| && forall i :: 0 <= i < |m| ==> r[i] == op(m[i])
  {
    seq(|m|, i requires 0 <= i < |m| => op(m[i]))
  }

  /** `fftshift` of a 2-d array (all axes): the 1-d shift along each row, then
      along the columns (the two rolls commute). */
  function FftShift2<T>(m: Matrix<T>): (r: Matrix<T>)
    ensures IsSquare(m, |m|) ==> IsSquare(r, |m|)
  {
    FftShift(MapRows(m, FftShift))
  }

  /** `ifftshift` of a 2-d array. */
  function IfftShift2<T>(m: Matrix<T>): (r: Matrix<T>)
    ensures IsSquare(m, |m|) ==> IsSquare(r, |m|)
  {
    IfftShift(MapRows(m, IfftShift))
  }

  /** A row-wise operation commutes with a permutation of the rows. */
  lemma MapRowsRoll<T>(m: Matrix<T>, op: seq<T> -> seq<T>, k: int)
    requires 0 <= k <= |m|
    ensures MapRows(Roll(m, k), op) == Roll(MapRows(m, op), k)
  {
    var l, r := MapRows(Roll(m, k), op), Roll(MapRows(m, op), k);
    forall i | 0 <= i < |m|
      ensures l[i] == r[i]
    {
      RollAt(m, k, i);
      RollAt(MapRows(m, op), k, i);
    }
  }

  lemma MapRowsInverse<T>(m: Matrix<T>)
    ensures MapRows(MapRows(m, FftShift), IfftShift) == m
    ensures MapRows(MapRows(m, IfftShift), FftShift) == m
  {
    forall i | 0 <= i < |m|
      ensures MapRows(MapRows(m, FftShift), IfftShift)[i] == m[i]
      ensures MapRows(MapRows(m, IfftShift), FftShift)[i] == m[i]
    {
      ShiftsInverse1(m[i]);
    }
  }

  /** The 2-d shifts are inverse permutations of the entries. */
  lemma ShiftsInverse<T>(m: Matrix<T>)
    ensures IfftShift2(FftShift2(m)) == m
    ensures FftShift2(IfftShift2(m)) == m
  {
    var n, h := |m|, |m| / 2;
    var f, g := MapRows(m, FftShift), MapRows(m, IfftShift);
    calc {
      IfftShift2(FftShift2(m));
    ==
      IfftShift(MapRows(FftShift(f), IfftShift));
    == { MapRowsRoll(f, IfftShift, h); }
      IfftShift(FftShift(MapRows(f, IfftShift)));
    == { ShiftsInverse1(MapRows(f, IfftShift)); }
      MapRows(f, IfftShift);
    == { MapRowsInverse(m); }
      m;
    }
    calc {
      FftShift2(IfftShift2(m));
    ==
      FftShift(MapRows(IfftShift(g), FftShift));
    == { MapRowsRoll(g, FftShift, n - h); }
      FftShift(IfftShift(MapRows(g, FftShift)));
    == { ShiftsInverse1(MapRows(g, FftShift)); }
      MapRows(g, FftShift);
    == { MapRowsInverse(m); }
      m;
    }
  }

  lemma RollScaleM(c: real, m: Matrix<Complex>, k: int)
    requires 0 <= k <= |m|
    ensures Roll(ScaleM(c, m), k) == ScaleM(c, Roll(m, k))
  {
    var l, r := Roll(ScaleM(c, m), k), ScaleM(c, Roll(m, k));
    forall i | 0 <= i < |m|
      ensures l[i] == r[i]
    {
      RollAt(ScaleM(c, m), k, i);
      RollAt(m, k, i);
    }
  }

  lemma RollRowScale(c: real, s: seq<Complex>, k: int)
    requires 0 <= k <= |s|
    ensures Roll(seq(|s|, j requires 0 <= j < |s| => Scale(c, s[j])), k)
         == seq(|s|, j requires 0 <= j < |s| => Scale(c, Roll(s, k)[j]))
  {
    var t := seq(|s|, j requires 0 <= j < |s| => Scale(c, s[j]));
    forall j | 0 <= j < |s|
      ensures Roll(t, k)[j] == Scale(c, Roll(s, k)[j])
    {
      RollAt(t, k, j);
      RollAt(s, k, j);
    }
  }

  /** The shifts commute with a real scale factor. */
  lemma ShiftsScaleM(c: real, m: Matrix<Complex>)
    ensures FftShift2(ScaleM(c, m)) == ScaleM(c, FftShift2(m))
    ensures IfftShift2(ScaleM(c, m)) == ScaleM(c, IfftShift2(m))
  {
    var n, h := |m|, |m| / 2;
    RowsFftShiftScale(c, m);
    RowsIfftShiftScale(c, m);
    RollScaleM(c, MapRows(m, FftShift), h);
    RollScaleM(c, MapRows(m, IfftShift), n - h);
  }

  lemma RowsFftShiftScale(c: real, m: Matrix<Complex>)
    ensures MapRows(ScaleM(c, m), FftShift) == ScaleM(c, MapRows(m, FftShift))
  {
    forall i | 0 <= i < |m|
      ensures MapRows(ScaleM(c, m), FftShift)[i] == ScaleM(c, MapRows(m, FftShift))[i]
    {
      ScaleMRow(c, m, i);
      ScaleMRow(c, MapRows(m, FftShift), i);
      RollRowScale(c, m[i], |m[i]| / 2);
    }
  }

  lemma RowsIfftShiftScale(c: real, m: Matrix<Complex>)
    ensures MapRows(ScaleM(c, m), IfftShift) == ScaleM(c, MapRows(m, IfftShift))
  {
    forall i | 0 <= i < |m|
      ensures MapRows(ScaleM(c, m), IfftShift)[i] == ScaleM(c, MapRows(m, IfftShift))[i]
    {
      ScaleMRow(c, m, i);
      ScaleMRow(c, MapRows(m, IfftShift), i);
      RollRowScale(c, m[i], |m[i]| - |m[i]| / 2);
    }
  }

  lemma ScaleMRow(c: real, m: Matrix<Complex>, i: int)
    requires 0 <= i < |m|
    ensures ScaleM(c, m)[i] == seq(|m[i]|, j requires 0 <= j < |m[i]| => Scale(c, m[i][j]))
  {
  }

  // ---------------------------------------------------------------------------
  // The raw transform pair and the centered, scaled transforms
  // ---------------------------------------------------------------------------

  /** The library's unnormalized 2-d transform `fft2` and its inverse `ifft2`. */
  datatype Dft = Dft(fwd: Matrix<Complex> -> Matrix<Complex>, inv: Matrix<Complex> -> Matrix<Complex>)
  {
    /** What is assumed of the library pair: it keeps the n-by-n shape, each
        transform undoes the other, and both are linear (here: they commute
        with a real scalar factor). */
    ghost predicate Valid() {
      && (forall m {:trigger fwd(m)} :: IsSquare(m, |m|) ==> IsSquare(fwd(m), |m|) && inv(fwd(m)) == m)
      && (forall m {:trigger inv(m)} :: IsSquare(m, |m|) ==> IsSquare(inv(m), |m|) && fwd(inv(m)) == m)
      && (forall c, m {:trigger inv(ScaleM(c, m))} :: IsSquare(m, |m|) ==> inv(ScaleM(c, m)) == ScaleM(c, inv(m)))
      && (forall c, m {:trigger fwd(ScaleM(c, m))} :: IsSquare(m, |m|) ==> fwd(ScaleM(c, m)) == ScaleM(c, fwd(m)))
    }
  }

  /** `FFT2(data, h)`: shift the centre to index 0, transform, shift the zero
      frequency back to the centre, scale by h^2. */
  function FFT2(t: Dft, data: Matrix<Complex>, h: real): (r: Matrix<Complex>)
    requires t.Valid() && 0 < |data| && IsSquare(data, |data|)
    ensures IsSquare(r, |data|)
  {
    ScaleM(h * h, FftShift2(t.fwd(IfftShift2(data))))
  }

  /** `IFFT2(data, h)`: the same sequence with the inverse transform, scaled by 1/h^2. */
  function IFFT2(t: Dft, data: Matrix<Complex>, h: real): (r: Matrix<Complex>)
    requires t.Valid() && 0 < |data| && IsSquare(data, |data|) && h != 0.0
    ensures IsSquare(r, |data|)
  {
    ScaleM(1.0 / (h * h), FftShift2(t.inv(IfftShift2(data))))
  }

  /** The centered pair is a round trip in both directions: the shifts are
      inverse permutations and the scales h^2 and 1/h^2 cancel. */
  lemma RoundTrip(t: Dft, f: Matrix<Complex>, h: real)
    requires t.Valid() && 0 < |f| && IsSquare(f, |f|) && h != 0.0
    ensures IFFT2(t, FFT2(t, f, h), h) == f
    ensures FFT2(t, IFFT2(t, f, h), h) == f
  {
    var g := IfftShift2(f);
    var a, b := h * h, 1.0 / (h * h);
    assert b * a == 1.0 && a * b == 1.0;
    // forward then backward
    var y := t.fwd(g);
    calc {
      IFFT2(t, FFT2(t, f, h), h);
    ==
      ScaleM(b, FftShift2(t.inv(IfftShift2(ScaleM(a, FftShift2(y))))));
    == { ShiftsScaleM(a, FftShift2(y)); ShiftsInverse(y); }
      ScaleM(b, FftShift2(t.inv(ScaleM(a, y))));
    ==
      ScaleM(b, FftShift2(ScaleM(a, g)));
    == { ShiftsScaleM(a, g); }
      ScaleM(b, ScaleM(a, FftShift2(g)));
    == { ScaleMScaleM(b, a, FftShift2(g)); ScaleMOne(FftShift2(g)); }
      FftShift2(g);
    == { ShiftsInverse(f); }
      f;
    }
    // backward then forward
    var z := t.inv(g);
    calc {
      FFT2(t, IFFT2(t, f, h), h);
    ==
      ScaleM(a, FftShift2(t.fwd(IfftShift2(ScaleM(b, FftShift2(z))))));
    == { ShiftsScaleM(b, FftShift2(z)); ShiftsInverse(z); }
      ScaleM(a, FftShift2(t.fwd(ScaleM(b, z))));
    ==
      ScaleM(a, FftShift2(ScaleM(b, g)));
    == { ShiftsScaleM(b, g); }
      ScaleM(a, ScaleM(b, FftShift2(g)));
    == { ScaleMScaleM(a, b, FftShift2(g)); ScaleMOne(FftShift2(g)); }
      FftShift2(g);
    == { ShiftsInverse(f); }
      f;
    }
  }

  // ---------------------------------------------------------------------------
  // The sampling grid
  // ---------------------------------------------------------------------------

  /** The fields of a `Coordinates` object. */
  datatype Coordinates = Coordinates(
    x: seq<real>, dx: real, nu: seq<real>, dnu: real,
    posExtent: seq<real>, freqExtent: seq<real>)
  {
    /** The number of samples per axis. */
    function N(): nat {
      |x|
    }

    /** What every element relies on: both axes have N >= 2 samples and the
        stated spacing, used as the transform resolution, is not zero. */
    predicate WellFormed() {
      2 <= |x| && |nu| == |x| && dx != 0.0
    }
  }

  /** The spacing 2*x_max/(N-1) that `Coordinates` states and the transforms use. */
  function StatedStep(xMax: real, n: int): real
    requires 2 <= n
  {
    2.0 * xMax / ((n - 1) as real)
  }

  /** `Coordinates(x_min, x_max, N)`. The code divides by N - 1 and by dx = 2*x_max/(N-1),
      so N >= 2 and x_max != 0 are required; nothing else is checked. */
  function NewCoordinates(xMin: real, xMax: real, n: int): (c: Coordinates)
    requires 2 <= n && xMax != 0.0
  {
    var x := Linspace(xMin, xMax, n);
    var dx := StatedStep(xMax, n);
    var nu := FftShift(FftFreq(n, dx));
    var dnu := FrequencyStep(n, dx);
    var nuMin, nuMax := nu[0], nu[n - 1];
    Coordinates(x, dx, nu, dnu, [xMin, xMax, xMin, xMax], [nuMin, nuMax, nuMin, nuMax])
  }

  /** The stated spacing 2*x_max/(N-1) is nonzero, and positive when x_max is. */
  lemma StatedSpacing(xMax: real, n: int)
    requires 2 <= n && xMax != 0.0
    ensures StatedStep(xMax, n) != 0.0
    ensures 0.0 < xMax ==> 0.0 < StatedStep(xMax, n)
  {
    var m := (n - 1) as real;
    assert (2.0 * xMax / m) * m == 2.0 * xMax;
  }

  /** A grid built by `Coordinates(x_min, x_max, N)` has N samples per axis and a nonzero spacing. */
  lemma NewCoordinatesWellFormed(xMin: real, xMax: real, n: int)
    requires 2 <= n && xMax != 0.0
    ensures NewCoordinates(xMin, xMax, n).WellFormed() && NewCoordinates(xMin, xMax, n).N() == n
  {
    var c := NewCoordinates(xMin, xMax, n);
    StatedSpacing(xMax, n);
    assert |c.nu| == n;
  }

  lemma DivEqIff(p: real, q: real, m: real)
    requires m != 0.0
    ensures p / m == q / m <==> p == q
  {
    if p / m == q / m {
      assert p == (p / m) * m && q == (q / m) * m;
    }
  }

  /** The stated spacing dx = 2*x_max/(N-1) equals the actual step of the
      position axis exactly when the window is symmetric, x_min = -x_max. */
  lemma StatedSpacingIsStepIffSymmetric(xMin: real, xMax: real, n: int)
    requires 2 <= n && xMax != 0.0
    ensures var c := NewCoordinates(xMin, xMax, n);
      c.dx == c.x[1] - c.x[0] <==> xMin == -xMax
  {
    var c := NewCoordinates(xMin, xMax, n);
    var m := (n - 1) as real;
    assert c.x[1] - c.x[0] == (xMax - xMin) / m;
    assert c.dx == 2.0 * xMax / m;
    DivEqIff(2.0 * xMax, xMax - xMin, m);
  }

  /** The sampling relation dnu * N * dx = 1. */
  lemma FrequencySpacingTimesWindow(xMin: real, xMax: real, n: int)
    requires 2 <= n && xMax != 0.0
    ensures var c := NewCoordinates(xMin, xMax, n);
      c.dnu * (n as real) * c.dx == 1.0
  {
    var c := NewCoordinates(xMin, xMax, n);
    assert (n as real) * c.dx != 0.0;
  }

  /** Bin i of fftshift(fftfreq(n, d)) is (i - n/2)/(n*d), with integer n/2. */
  lemma ShiftedFrequencyBin(n: int, d: real, i: int)
    requires 1 <= n && d != 0.0 && 0 <= i < n
    ensures FftShift(FftFreq(n, d))[i] == ((i - n / 2) as real) * FrequencyStep(n, d)
  {
    var h := n / 2;
    var src := if i < h then i - h + n else i - h;
    ShiftIndex(n, i);
    FftShiftAt(FftFreq(n, d), i, src);
    FftFreqAt(n, d, src);
  }

  lemma FftShiftAt<T>(s: seq<T>, i: int, src: int)
    requires 0 <= i < |s| && src == if i < |s| / 2 then i - |s| / 2 + |s| else i - |s| / 2
    ensures FftShift(s)[i] == s[src]
  {
    RollAt(s, |s| / 2, i);
  }

  lemma FftFreqAt(n: int, d: real, k: int)
    requires 1 <= n && d != 0.0 && 0 <= k < n
    ensures FftFreq(n, d)[k] == (FreqIndex(n, k) as real) * FrequencyStep(n, d)
  {
  }

  /** Entry i of fftshift(s) is entry src of s, and fftfreq's bin number at src is i - n/2. */
  lemma ShiftIndex(n: int, i: int)
    requires 1 <= n && 0 <= i < n
    ensures var h := n / 2;
      var src := if i < h then i - h + n else i - h;
      0 <= src < n && FreqIndex(n, src) == i - h
  {
    var h := n / 2;
    assert n == 2 * h || n == 2 * h + 1;
    assert (n - 1) / 2 == if n == 2 * h then h - 1 else h;
  }

  /** Bin i of nu = fftshift(fftfreq(N, dx)) is (i - N/2)*dnu (integer N/2). */
  lemma FrequencyBin(xMin: real, xMax: real, n: int, i: int)
    requires 2 <= n && xMax != 0.0 && 0 <= i < n
    ensures var c := NewCoordinates(xMin, xMax, n);
      c.nu[i] == ((i - n / 2) as real) * c.dnu
  {
    var c := NewCoordinates(xMin, xMax, n);
    StatedSpacing(xMax, n);
    assert c.nu == FftShift(FftFreq(n, c.dx)) && c.dnu == FrequencyStep(n, c.dx);
    GridFrequencyBin(c, n, i);
  }

  lemma GridFrequencyBin(c: Coordinates, n: int, i: int)
    requires 1 <= n && c.dx != 0.0 && 0 <= i < n
    requires c.nu == FftShift(FftFreq(n, c.dx)) && c.dnu == FrequencyStep(n, c.dx)
    ensures c.nu[i] == ((i - n / 2) as real) * c.dnu
  {
    ShiftedFrequencyBin(n, c.dx, i);
  }

  /** Consecutive samples differ by `step`. */
  predicate EvenlySpaced(q: seq<real>, step: real) {
    forall i :: 0 <= i < |q| - 1 ==> q[i + 1] - q[i] == step
  }

  predicate StrictlyAscending(q: seq<real>) {
    forall i, j :: 0 <= i < j < |q| ==> q[i] < q[j]
  }

  /** A sampled axis q[i] = (i - h)*d has constant step d and, for d > 0, ascends. */
  lemma AffineAxis(q: seq<real>, h: int, d: real)
    requires forall i :: 0 <= i < |q| ==> q[i] == ((i - h) as real) * d
    ensures EvenlySpaced(q, d)
    ensures 0.0 < d ==> StrictlyAscending(q)
  {
    forall i | 0 <= i < |q| - 1
      ensures q[i + 1] - q[i] == d
    {
      assert q[i + 1] == ((i - h) as real) * d + d;
    }
    if 0.0 < d {
      forall i, j | 0 <= i < j < |q|
        ensures q[i] < q[j]
      {
        assert q[j] - q[i] == ((j - i) as real) * d;
      }
    }
  }

  /** fftshift(fftfreq(n, d)) is zero at index n/2, steps by 1/(n*d) and, for d > 0, ascends. */
  lemma ShiftedFrequencyAxis(n: int, d: real)
    requires 1 <= n && d != 0.0
    ensures var q, step := FftShift(FftFreq(n, d)), FrequencyStep(n, d);
      && q[n / 2] == 0.0
      && EvenlySpaced(q, step)
      && (0.0 < d ==> StrictlyAscending(q))
  {
    ShiftedFrequencyBins(n, d);
    PositiveStep(n, d);
    AffineAxis(FftShift(FftFreq(n, d)), n / 2, FrequencyStep(n, d));
  }

  lemma ShiftedFrequencyBins(n: int, d: real)
    requires 1 <= n && d != 0.0
    ensures forall i :: 0 <= i < n ==> FftShift(FftFreq(n, d))[i] == ((i - n / 2) as real) * FrequencyStep(n, d)
  {
    forall i | 0 <= i < n
      ensures FftShift(FftFreq(n, d))[i] == ((i - n / 2) as real) * FrequencyStep(n, d)
    {
      ShiftedFrequencyBin(n, d, i);
    }
  }

  lemma GridFrequencyAxis(c: Coordinates, n: int)
    requires 1 <= n && c.dx != 0.0
    requires c.nu == FftShift(FftFreq(n, c.dx)) && c.dnu == FrequencyStep(n, c.dx)
    ensures c.nu[n / 2] == 0.0 && EvenlySpaced(c.nu, c.dnu) && (0.0 < c.dx ==> StrictlyAscending(c.nu))
  {
    ShiftedFrequencyAxis(n, c.dx);
  }


  lemma PositiveStep(n: int, d: real)
    requires 1 <= n
    ensures 0.0 < d ==> 0.0 < FrequencyStep(n, d)
  {
    if 0.0 < d {
      assert 0.0 < (n as real) * d;
    }
  }

  /** The frequency axis is zero-centred at index N/2, has constant step dnu
      and is strictly ascending when x_max > 0. */
  lemma FrequencyAxis(xMin: real, xMax: real, n: int)
    requires 2 <= n && xMax != 0.0
    ensures var c := NewCoordinates(xMin, xMax, n);
      && c.nu[n / 2] == 0.0
      && EvenlySpaced(c.nu, c.dnu)
      && (0.0 < xMax ==> StrictlyAscending(c.nu))
  {
    var c := NewCoordinates(xMin, xMax, n);
    assert c.nu == FftShift(FftFreq(n, c.dx)) && c.dnu == FrequencyStep(n, c.dx);
    StatedSpacing(xMax, n);
    GridFrequencyAxis(c, n);
  }

  lemma EndBins(nu: seq<real>, ext: seq<real>, n: int, d: real)
    requires 2 <= n && |nu| == n && ext == [nu[0], nu[n - 1], nu[0], nu[n - 1]]
    requires nu[0] == ((0 - n / 2) as real) * d && nu[n - 1] == ((n - 1 - n / 2) as real) * d
    ensures ext == ExtentOfBins(n, d)
  {
    var e := ExtentOfBins(n, d);
    assert ((0 - n / 2) as real) * d == e[0];
    assert forall k :: 0 <= k < 4 ==> ext[k] == e[k];
  }

  /** The frequency extent is bounded by the end bins -(N/2)*dnu and (N-1-N/2)*dnu:
      symmetric for odd N, one bin longer on the negative side for even N. */
  lemma FrequencyExtent(xMin: real, xMax: real, n: int)
    requires 2 <= n && xMax != 0.0
    ensures NewCoordinates(xMin, xMax, n).freqExtent == ExtentOfBins(n, NewCoordinates(xMin, xMax, n).dnu)
    ensures var c := NewCoordinates(xMin, xMax, n);
      && (n % 2 == 1 ==> c.freqExtent[0] == -c.freqExtent[1])
      && (n % 2 == 0 ==> c.freqExtent[0] == -c.freqExtent[1] - c.dnu)
  {
    var c := NewCoordinates(xMin, xMax, n);
    FrequencyBin(xMin, xMax, n, 0);
    FrequencyBin(xMin, xMax, n, n - 1);
    EndBins(c.nu, c.freqExtent, n, c.dnu);
    ExtentParity(n, c.dnu);
  }

  /** The lower end is the mirror of the upper end for odd n, and one bin further out for even n. */
  lemma ExtentParity(n: int, d: real)
    requires 2 <= n
    ensures var e := ExtentOfBins(n, d);
      && (n % 2 == 1 ==> e[0] == -e[1])
      && (n % 2 == 0 ==> e[0] == -e[1] - d)
  {
    var h := n / 2;
    if n % 2 == 1 {
      assert n - 1 - h == h;
    } else {
      assert n - 1 - h == h - 1;
      assert ((h - 1) as real) * d == (h as real) * d - d;
    }
  }

  /** The extent [lo, hi, lo, hi] spanned by the lowest and highest of n shifted bins. */
  function ExtentOfBins(n: int, d: real): seq<real> {
    [-((n / 2) as real) * d, ((n - 1 - n / 2) as real) * d, -((n / 2) as real) * d, ((n - 1 - n / 2) as real) * d]
  }

  /** The position axis runs from x_min to x_max in constant steps
      (x_max - x_min)/(N-1), and the position extent is its bounding box. */
  lemma PositionAxisSamples(xMin: real, xMax: real, n: int)
    requires 2 <= n && xMax != 0.0
    ensures var c := NewCoordinates(xMin, xMax, n);
      && |c.x| == n && c.x[0] == xMin && c.x[n - 1] == xMax
      && (forall i :: 0 <= i < n - 1 ==> c.x[i + 1] - c.x[i] == (xMax - xMin) / ((n - 1) as real))
      && (xMin < xMax ==> forall i, j :: 0 <= i < j < n ==> c.x[i] < c.x[j])
      && c.posExtent == [c.x[0], c.x[n - 1], c.x[0], c.x[n - 1]]
  {
  }

  // ---------------------------------------------------------------------------
  // Axes for broadcasting
  // ---------------------------------------------------------------------------

  /** An axis as a column vector, `a[:, np.newaxis]`, of shape (N, 1). */
  function Column(a: seq<real>): (col: seq<seq<real>>)
    ensures |col| == |a| && forall i :: 0 <= i < |a| ==> col[i] == [a[i]]
  {
    seq(|a|, i requires 0 <= i < |a| => [a[i]])
  }

  /** `get_position_axis`: x as a row of shape (N,) and as a column of shape (N, 1). */
  function PositionAxes(c: Coordinates): (rc: (seq<real>, seq<seq<real>>))
  {
    (c.x, Column(c.x))
  }

  /** `get_frequency_axis`: nu as a row and as a column. */
  function FrequencyAxes(c: Coordinates): (rc: (seq<real>, seq<seq<real>>))
  {
    (c.nu, Column(c.nu))
  }

  /** numpy broadcasting of a row (shape (M,)) against a column (shape (N, 1)):
      an N-by-M array whose entry [i][j] combines row[j] with col[i][0]. */
  function Broadcast(row: seq<real>, col: seq<seq<real>>, g: (real, real) -> real): (r: Matrix<real>)
    requires forall i :: 0 <= i < |col| ==> |col[i]| == 1
    ensures |r| == |col| && forall i :: 0 <= i < |col| ==> |r[i]| == |row|
  {
    seq(|col|, i requires 0 <= i < |col| => seq(|row|, j requires 0 <= j < |row| => g(row[j], col[i][0])))
  }

  /** Broadcasting the position axes puts the coordinate pair (x[j], x[i]) at
      entry [i][j]: the row index is y, the column index is x. */
  lemma PositionGrid(c: Coordinates, g: (real, real) -> real)
    ensures var (x, y) := PositionAxes(c);
      var m := Broadcast(x, y, g);
      IsSquare(m, c.N()) && forall i, j :: 0 <= i < c.N() && 0 <= j < c.N() ==> m[i][j] == g(c.x[j], c.x[i])
  {
  }

  /** The same for the frequency axes: entry [i][j] gets (nu[j], nu[i]). */
  lemma FrequencyGrid(c: Coordinates, g: (real, real) -> real)
    ensures var (nuX, nuY) := FrequencyAxes(c);
      var m := Broadcast(nuX, nuY, g);
      IsSquare(m, |c.nu|) && forall i, j :: 0 <= i < |c.nu| && 0 <= j < |c.nu| ==> m[i][j] == g(c.nu[j], c.nu[i])
  {
  }
}
