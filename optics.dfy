/** The optical elements of optics.py and the space-lens-space imaging system.

    Every element computes its kernel once, when it is built, and `Propagate`
    returns a new field; nothing is updated in place. Kernels that need an
    exponential or a square root take them from the parameter `Numerics`, of
    which only a few algebraic facts are assumed. */
module Optics {
  import opened ComplexNumbers
  import opened Matrices
  import opened Fourier

  /** `np.pi`. */
  const PI: real := 3.141592653589793

  datatype Option<T> = None | Some(value: T)

  /** `np.exp` of an imaginary argument (`exp(1j * t)`), `np.exp` and `np.sqrt` on reals. */
  datatype Numerics = Numerics(expI: real -> Complex, exp: real -> real, sqrt: real -> real)
  {
    /** What is assumed of them: exp(i t) is a unit-modulus homomorphism, exp is
        positive, below 1 for negative arguments and exp(0) = 1, and sqrt is the
        non-negative square root. */
    ghost predicate Valid() {
      PhaseValid() && ExpValid() && SqrtValid()
    }

    ghost predicate PhaseValid() {
      && expI(0.0) == One
      && (forall u, v {:trigger Mul(expI(u), expI(v))} :: Mul(expI(u), expI(v)) == expI(u + v))
      && (forall t :: Norm2(expI(t)) == 1.0)
    }

    ghost predicate ExpValid() {
      && exp(0.0) == 1.0
      && (forall u :: 0.0 < exp(u))
      && (forall u :: u < 0.0 ==> exp(u) < 1.0)
    }

    ghost predicate SqrtValid() {
      forall y :: 0.0 <= y ==> 0.0 <= sqrt(y) && sqrt(y) * sqrt(y) == y
    }
  }

  // ---------------------------------------------------------------------------
  // The squared radius on the grid, `x**2 + y**2`
  // ---------------------------------------------------------------------------

  function SumOfSquares(u: real, v: real): real {
    u * u + v * v
  }

  /** `x**2 + y**2` for `x, y = coordinates.get_position_axis()`. */
  function PositionRadius2(c: Coordinates): (r: Matrix<real>)
    ensures IsSquare(r, c.N())
    ensures forall i, j :: 0 <= i < c.N() && 0 <= j < c.N() ==> r[i][j] == c.x[j] * c.x[j] + c.x[i] * c.x[i]
  {
    var (x, y) := PositionAxes(c);
    PositionGrid(c, SumOfSquares);
    Broadcast(x, y, SumOfSquares)
  }

  /** `nu_x**2 + nu_y**2` for `nu_x, nu_y = coordinates.get_frequency_axis()`. */
  function FrequencyRadius2(c: Coordinates): (r: Matrix<real>)
    ensures IsSquare(r, |c.nu|)
    ensures forall i, j :: 0 <= i < |c.nu| && 0 <= j < |c.nu| ==> r[i][j] == c.nu[j] * c.nu[j] + c.nu[i] * c.nu[i]
  {
    var (nuX, nuY) := FrequencyAxes(c);
    FrequencyGrid(c, SumOfSquares);
    Broadcast(nuX, nuY, SumOfSquares)
  }

  // Signs of squares are established through out-parameters: a fact such as
  // 0 < d * d is normalised by the solver into d != 0 and is then of no use
  // for a variable equal to d * d, whereas 0 < q for an out-parameter q is kept.

  /** The product of two positive numbers, together with its sign. */
  lemma PositiveProduct(a: real, b: real) returns (p: real)
    requires 0.0 < a && 0.0 < b
    ensures p == a * b && 0.0 < p
  {
    p := a * b;
  }

  /** The square of a number, together with its sign. */
  lemma NonNegativeSquare(d: real) returns (q: real)
    ensures q == d * d && 0.0 <= q
  {
    if d != 0.0 {
      q := PositiveSquare(d);
    } else {
      q := d * d;
    }
  }

  /** The square of a nonzero number, together with its sign. */
  lemma PositiveSquare(d: real) returns (q: real)
    requires d != 0.0
    ensures q == d * d && 0.0 < q
  {
    if d < 0.0 {
      q := PositiveProduct(-d, -d);
    } else {
      q := PositiveProduct(d, d);
    }
  }

  /** x^2 + y^2 is non-negative, and zero exactly at the origin. */
  lemma SumOfSquaresSign(u: real, v: real) returns (r: real)
    ensures r == u * u + v * v
    ensures 0.0 <= r && (r == 0.0 <==> u == 0.0 && v == 0.0)
  {
    if u != 0.0 {
      var p := PositiveSquare(u);
      r := p + v * v;
    } else if v != 0.0 {
      var p := PositiveSquare(v);
      r := u * u + p;
    } else {
      r := u * u + v * v;
    }
  }

  // ---------------------------------------------------------------------------
  // FreeSpace
  // ---------------------------------------------------------------------------

  /** Propagation over a distance L by the angular spectrum: a phase per spatial frequency. */
  datatype FreeSpace = FreeSpace(L: real, kz: real, coordinates: Coordinates, kernel: Matrix<Complex>)
  {
    predicate Ready() {
      coordinates.WellFormed() && IsSquare(kernel, coordinates.N())
    }

    /** `propagate`: to the frequency domain, multiply by the kernel, and back. */
    function Propagate(t: Dft, field: Matrix<Complex>): (r: Matrix<Complex>)
      requires t.Valid() && Ready() && IsSquare(field, coordinates.N())
      ensures IsSquare(r, coordinates.N())
    {
      var h := coordinates.dx;
      IFFT2(t, Hadamard(FFT2(t, field, h), kernel), h)
    }
  }

  /** The phase 2*pi^2*(nu_x^2 + nu_y^2)*L/k_z. */
  function FreeSpacePhase(r: real, L: real, kz: real): real
    requires kz != 0.0
  {
    2.0 * PI * PI * r * L / kz
  }

  /** `FreeSpace.get_kernel`: exp(i*2*pi^2*(nu_x^2 + nu_y^2)*L/k_z). */
  function FreeSpaceKernel(num: Numerics, L: real, kz: real, c: Coordinates): (k: Matrix<Complex>)
    requires kz != 0.0
    ensures IsSquare(k, |c.nu|)
    ensures forall i, j :: 0 <= i < |c.nu| && 0 <= j < |c.nu| ==>
      k[i][j] == num.expI(FreeSpacePhase(FrequencyRadius2(c)[i][j], L, kz))
  {
    MapM(FrequencyRadius2(c), r => num.expI(FreeSpacePhase(r, L, kz)))
  }

  /** `FreeSpace(L, k_z, coordinates)`. */
  function NewFreeSpace(num: Numerics, L: real, kz: real, c: Coordinates): (s: FreeSpace)
    requires kz != 0.0
    ensures s.L == L && s.kz == kz && s.coordinates == c
    ensures c.WellFormed() ==> s.Ready()
  {
    FreeSpace(L, kz, c, FreeSpaceKernel(num, L, kz, c))
  }

  /** The kernel is a pure phase: modulus 1 at every frequency sample. */
  lemma FreeSpaceLossless(num: Numerics, L: real, kz: real, c: Coordinates)
    requires num.Valid() && kz != 0.0
    ensures var k := NewFreeSpace(num, L, kz, c).kernel;
      forall i, j :: 0 <= i < |c.nu| && 0 <= j < |c.nu| ==> Norm2(k[i][j]) == 1.0
  {
  }

  /** Over distance 0 the kernel is all ones, so the field comes back unchanged. */
  lemma FreeSpaceZeroDistance(num: Numerics, t: Dft, kz: real, c: Coordinates, field: Matrix<Complex>)
    requires num.Valid() && t.Valid() && kz != 0.0 && c.WellFormed() && IsSquare(field, c.N())
    ensures forall i, j :: 0 <= i < c.N() && 0 <= j < c.N() ==> NewFreeSpace(num, 0.0, kz, c).kernel[i][j] == One
    ensures NewFreeSpace(num, 0.0, kz, c).Propagate(t, field) == field
  {
    var s := NewFreeSpace(num, 0.0, kz, c);
    var h := c.dx;
    var g := FFT2(t, field, h);
    forall i, j | 0 <= i < c.N() && 0 <= j < c.N()
      ensures s.kernel[i][j] == One
    {
      assert FreeSpacePhase(c.nu[j] * c.nu[j] + c.nu[i] * c.nu[i], 0.0, kz) == 0.0;
    }
    HadamardOnes(g, s.kernel);
    RoundTrip(t, field, h);
  }

  lemma FreeSpacePhaseSum(r: real, a: real, b: real, kz: real)
    requires kz != 0.0
    ensures FreeSpacePhase(r, a, kz) + FreeSpacePhase(r, b, kz) == FreeSpacePhase(r, a + b, kz)
  {
    var p := 2.0 * PI * PI * r;
    assert p * a / kz + p * b / kz == p * (a + b) / kz;
  }

  /** The kernel for a + b is the product of the kernels for a and b. */
  lemma FreeSpaceKernelProduct(num: Numerics, a: real, b: real, kz: real, c: Coordinates)
    requires num.Valid() && kz != 0.0
    ensures Hadamard(FreeSpaceKernel(num, a, kz, c), FreeSpaceKernel(num, b, kz, c)) == FreeSpaceKernel(num, a + b, kz, c)
  {
    var ka, kb, kab := FreeSpaceKernel(num, a, kz, c), FreeSpaceKernel(num, b, kz, c), FreeSpaceKernel(num, a + b, kz, c);
    var n := |c.nu|;
    forall i, j | 0 <= i < n && 0 <= j < n
      ensures Hadamard(ka, kb)[i][j] == kab[i][j]
    {
      FreeSpaceKernelProductAt(num, a, b, kz, c, i, j);
    }
    SquareExt(Hadamard(ka, kb), kab, n);
  }

  lemma FreeSpaceKernelProductAt(num: Numerics, a: real, b: real, kz: real, c: Coordinates, i: int, j: int)
    requires num.Valid() && kz != 0.0 && 0 <= i < |c.nu| && 0 <= j < |c.nu|
    ensures Mul(FreeSpaceKernel(num, a, kz, c)[i][j], FreeSpaceKernel(num, b, kz, c)[i][j]) == FreeSpaceKernel(num, a + b, kz, c)[i][j]
  {
    FreeSpacePhaseProduct(num, FrequencyRadius2(c)[i][j], a, b, kz);
  }

  lemma FreeSpacePhaseProduct(num: Numerics, r: real, a: real, b: real, kz: real)
    requires num.Valid() && kz != 0.0
    ensures Mul(num.expI(FreeSpacePhase(r, a, kz)), num.expI(FreeSpacePhase(r, b, kz))) == num.expI(FreeSpacePhase(r, a + b, kz))
  {
    FreeSpacePhaseSum(r, a, b, kz);
    ExpIProduct(num, FreeSpacePhase(r, a, kz), FreeSpacePhase(r, b, kz));
  }

  lemma ExpIProduct(num: Numerics, u: real, v: real)
    requires num.Valid()
    ensures Mul(num.expI(u), num.expI(v)) == num.expI(u + v)
  {
  }

  /** Propagating over a and then over b is propagating over a + b. */
  lemma FreeSpaceComposition(num: Numerics, t: Dft, a: real, b: real, kz: real, c: Coordinates, field: Matrix<Complex>)
    requires num.Valid() && t.Valid() && kz != 0.0 && c.WellFormed() && IsSquare(field, c.N())
    ensures NewFreeSpace(num, b, kz, c).Propagate(t, NewFreeSpace(num, a, kz, c).Propagate(t, field))
         == NewFreeSpace(num, a + b, kz, c).Propagate(t, field)
  {
    var ka, kb, kab := FreeSpaceKernel(num, a, kz, c), FreeSpaceKernel(num, b, kz, c), FreeSpaceKernel(num, a + b, kz, c);
    var h := c.dx;
    var g := FFT2(t, field, h);
    var ga := Hadamard(g, ka);
    calc {
      NewFreeSpace(num, b, kz, c).Propagate(t, NewFreeSpace(num, a, kz, c).Propagate(t, field));
    ==
      IFFT2(t, Hadamard(FFT2(t, IFFT2(t, ga, h), h), kb), h);
    == { RoundTrip(t, ga, h); }
      IFFT2(t, Hadamard(ga, kb), h);
    == { HadamardAssoc(g, ka, kb); FreeSpaceKernelProduct(num, a, b, kz, c); }
      IFFT2(t, Hadamard(g, kab), h);
    ==
      NewFreeSpace(num, a + b, kz, c).Propagate(t, field);
    }
  }

  // ---------------------------------------------------------------------------
  // Lens
  // ---------------------------------------------------------------------------

  /** A thin lens of focal length f: a quadratic phase in the position domain. */
  datatype Lens = Lens(f: real, kz: real, coordinates: Coordinates, kernel: Matrix<Complex>)
  {
    predicate Ready() {
      IsSquare(kernel, coordinates.N())
    }

    /** `propagate`: `field * kernel`. */
    function Propagate(field: Matrix<Complex>): (r: Matrix<Complex>)
      requires Ready() && IsSquare(field, coordinates.N())
      ensures IsSquare(r, coordinates.N())
    {
      Hadamard(field, kernel)
    }
  }

  /** The phase k_z*(x^2 + y^2)/(2f). */
  function LensPhase(r: real, f: real, kz: real): real
    requires f != 0.0
  {
    kz * r / (2.0 * f)
  }

  /** `Lens.get_kernel`: exp(i*k_z*(x^2 + y^2)/(2f)). */
  function LensKernel(num: Numerics, f: real, kz: real, c: Coordinates): (k: Matrix<Complex>)
    requires f != 0.0
    ensures IsSquare(k, c.N())
    ensures forall i, j :: 0 <= i < c.N() && 0 <= j < c.N() ==>
      k[i][j] == num.expI(LensPhase(PositionRadius2(c)[i][j], f, kz))
  {
    MapM(PositionRadius2(c), r => num.expI(LensPhase(r, f, kz)))
  }

  /** `Lens(f, k_z, coordinates)`. */
  function NewLens(num: Numerics, f: real, kz: real, c: Coordinates): (l: Lens)
    requires f != 0.0
    ensures l.f == f && l.kz == kz && l.coordinates == c && l.Ready()
  {
    Lens(f, kz, c, LensKernel(num, f, kz, c))
  }

  /** A lens changes only the phase: the intensity |field|^2 is kept at every sample. */
  lemma LensKeepsIntensity(num: Numerics, f: real, kz: real, c: Coordinates, field: Matrix<Complex>)
    requires num.Valid() && f != 0.0 && IsSquare(field, c.N())
    ensures var r := NewLens(num, f, kz, c).Propagate(field);
      forall i, j :: 0 <= i < c.N() && 0 <= j < c.N() ==> Norm2(r[i][j]) == Norm2(field[i][j])
  {
    var l := NewLens(num, f, kz, c);
    LensLossless(num, f, kz, c);
    forall i, j | 0 <= i < c.N() && 0 <= j < c.N()
      ensures Norm2(l.Propagate(field)[i][j]) == Norm2(field[i][j])
    {
      UnitFactorKeepsNorm(field[i][j], l.kernel[i][j]);
    }
  }

  /** The lens kernel is a pure phase: modulus 1 at every sample. */
  lemma LensLossless(num: Numerics, f: real, kz: real, c: Coordinates)
    requires num.Valid() && f != 0.0
    ensures var k := NewLens(num, f, kz, c).kernel;
      forall i, j :: 0 <= i < c.N() && 0 <= j < c.N() ==> Norm2(k[i][j]) == 1.0
  {
  }

  lemma UnitFactorKeepsNorm(z: Complex, u: Complex)
    requires Norm2(u) == 1.0
    ensures Norm2(Mul(z, u)) == Norm2(z)
  {
    Norm2Mul(z, u);
  }

  lemma LensPhaseSum(r: real, f1: real, f2: real, kz: real)
    requires f1 != 0.0 && f2 != 0.0 && f1 + f2 != 0.0
    ensures f1 * f2 / (f1 + f2) != 0.0
    ensures LensPhase(r, f1, kz) + LensPhase(r, f2, kz) == LensPhase(r, f1 * f2 / (f1 + f2), kz)
  {
    var f, q := f1 * f2 / (f1 + f2), kz * r;
    assert f * (f1 + f2) == f1 * f2;
    assert f != 0.0;
    calc {
      q / (2.0 * f1) + q / (2.0 * f2);
    ==
      q * (f1 + f2) / (2.0 * f1 * f2);
    ==
      q / (2.0 * f);
    }
  }

  /** The kernel for focal length f1*f2/(f1 + f2) is the product of the kernels for f1 and f2. */
  lemma LensKernelProduct(num: Numerics, f1: real, f2: real, kz: real, c: Coordinates)
    requires num.Valid() && f1 != 0.0 && f2 != 0.0 && f1 + f2 != 0.0
    ensures f1 * f2 / (f1 + f2) != 0.0
    ensures Hadamard(LensKernel(num, f1, kz, c), LensKernel(num, f2, kz, c)) == LensKernel(num, f1 * f2 / (f1 + f2), kz, c)
  {
    var f := f1 * f2 / (f1 + f2);
    LensPhaseSum(0.0, f1, f2, kz);
    var k1, k2, k := LensKernel(num, f1, kz, c), LensKernel(num, f2, kz, c), LensKernel(num, f, kz, c);
    forall i, j | 0 <= i < c.N() && 0 <= j < c.N()
      ensures Hadamard(k1, k2)[i][j] == k[i][j]
    {
      LensKernelProductAt(num, f1, f2, kz, c, i, j);
    }
    SquareExt(Hadamard(k1, k2), k, c.N());
  }

  lemma LensKernelProductAt(num: Numerics, f1: real, f2: real, kz: real, c: Coordinates, i: int, j: int)
    requires num.Valid() && f1 != 0.0 && f2 != 0.0 && f1 + f2 != 0.0 && 0 <= i < c.N() && 0 <= j < c.N()
    ensures f1 * f2 / (f1 + f2) != 0.0
    ensures Mul(LensKernel(num, f1, kz, c)[i][j], LensKernel(num, f2, kz, c)[i][j]) == LensKernel(num, f1 * f2 / (f1 + f2), kz, c)[i][j]
  {
    LensPhaseProduct(num, PositionRadius2(c)[i][j], f1, f2, kz);
  }

  lemma LensPhaseProduct(num: Numerics, r: real, f1: real, f2: real, kz: real)
    requires num.Valid() && f1 != 0.0 && f2 != 0.0 && f1 + f2 != 0.0
    ensures f1 * f2 / (f1 + f2) != 0.0
    ensures Mul(num.expI(LensPhase(r, f1, kz)), num.expI(LensPhase(r, f2, kz))) == num.expI(LensPhase(r, f1 * f2 / (f1 + f2), kz))
  {
    LensPhaseSum(r, f1, f2, kz);
    ExpIProduct(num, LensPhase(r, f1, kz), LensPhase(r, f2, kz));
  }

  /** Two thin lenses in contact act as one lens with 1/f = 1/f1 + 1/f2. */
  lemma ThinLensCombination(num: Numerics, f1: real, f2: real, kz: real, c: Coordinates, field: Matrix<Complex>)
    requires num.Valid() && f1 != 0.0 && f2 != 0.0 && f1 + f2 != 0.0 && IsSquare(field, c.N())
    ensures f1 * f2 / (f1 + f2) != 0.0
    ensures NewLens(num, f2, kz, c).Propagate(NewLens(num, f1, kz, c).Propagate(field))
         == NewLens(num, f1 * f2 / (f1 + f2), kz, c).Propagate(field)
  {
    LensKernelProduct(num, f1, f2, kz, c);
    HadamardAssoc(field, LensKernel(num, f1, kz, c), LensKernel(num, f2, kz, c));
  }

  // ---------------------------------------------------------------------------
  // Apertures
  // ---------------------------------------------------------------------------

  /** `(x**2 + y**2 > -1).astype(float)`: the kernel of an element built with D = None. */
  function NoApertureKernel(c: Coordinates): (k: Matrix<real>)
    ensures IsSquare(k, c.N())
    ensures forall i, j :: 0 <= i < c.N() && 0 <= j < c.N() ==>
      k[i][j] == if PositionRadius2(c)[i][j] > -1.0 then 1.0 else 0.0
  {
    MapM(PositionRadius2(c), r => if r > -1.0 then 1.0 else 0.0)
  }

  /** Without a diameter every grid point passes: the kernel is all ones. */
  lemma NoApertureAllOnes(c: Coordinates)
    ensures forall i, j :: 0 <= i < c.N() && 0 <= j < c.N() ==> NoApertureKernel(c)[i][j] == 1.0
  {
    forall i, j | 0 <= i < c.N() && 0 <= j < c.N()
      ensures NoApertureKernel(c)[i][j] == 1.0
    {
      var r := SumOfSquaresSign(c.x[j], c.x[i]);
    }
  }

  /** `(x**2 + y**2 <= D**2/4).astype(float)`: the indicator of the disc of diameter d. */
  function DiscKernel(c: Coordinates, d: real): (k: Matrix<real>)
    ensures IsSquare(k, c.N())
    ensures forall i, j :: 0 <= i < c.N() && 0 <= j < c.N() ==> k[i][j] == 0.0 || k[i][j] == 1.0
    ensures forall i, j :: 0 <= i < c.N() && 0 <= j < c.N() ==>
      (k[i][j] == 1.0 <==> c.x[j] * c.x[j] + c.x[i] * c.x[i] <= d * d / 4.0)
    ensures forall i, j :: 0 <= i < c.N() && 0 <= j < c.N() ==> k[i][j] == k[j][i]
  {
    MapM(PositionRadius2(c), r => if r <= d * d / 4.0 then 1.0 else 0.0)
  }

  /** A hard-edged circular stop of diameter D, or no stop at all when D = None. */
  datatype CircularAperture = CircularAperture(D: Option<real>, coordinates: Coordinates, kernel: Matrix<real>)
  {
    predicate Ready() {
      IsSquare(kernel, coordinates.N())
    }

    /** `propagate`: `field * kernel`. */
    function Propagate(field: Matrix<Complex>): (r: Matrix<Complex>)
      requires Ready() && IsSquare(field, coordinates.N())
      ensures IsSquare(r, coordinates.N())
    {
      Hadamard(field, Lift(kernel))
    }
  }

  /** `CircularAperture.get_kernel`. */
  function CircularApertureKernel(D: Option<real>, c: Coordinates): (k: Matrix<real>)
    ensures IsSquare(k, c.N())
  {
    match D
    case None => NoApertureKernel(c)
    case Some(d) => DiscKernel(c, d)
  }

  /** `CircularAperture(D, coordinates)`. */
  function NewCircularAperture(D: Option<real>, c: Coordinates): (ap: CircularAperture)
    ensures ap.D == D && ap.coordinates == c && ap.Ready()
  {
    CircularAperture(D, c, CircularApertureKernel(D, c))
  }

  /** Every kernel entry of a circular aperture is 0.0 or 1.0. */
  lemma CircularApertureBinary(D: Option<real>, c: Coordinates)
    ensures var k := NewCircularAperture(D, c).kernel;
      forall i, j :: 0 <= i < c.N() && 0 <= j < c.N() ==> k[i][j] == 0.0 || k[i][j] == 1.0
  {
    if D.None? {
      NoApertureAllOnes(c);
    }
  }

  /** Inside the disc the field passes unchanged; outside it is zeroed. */
  lemma CircularApertureMasks(d: real, c: Coordinates, field: Matrix<Complex>)
    requires IsSquare(field, c.N())
    ensures var r := NewCircularAperture(Some(d), c).Propagate(field);
      forall i, j :: 0 <= i < c.N() && 0 <= j < c.N() ==>
        r[i][j] == if c.x[j] * c.x[j] + c.x[i] * c.x[i] <= d * d / 4.0 then field[i][j] else Zero
  {
    var ap := NewCircularAperture(Some(d), c);
    forall i, j | 0 <= i < c.N() && 0 <= j < c.N()
      ensures ap.Propagate(field)[i][j] == if c.x[j] * c.x[j] + c.x[i] * c.x[i] <= d * d / 4.0 then field[i][j] else Zero
    {
      CircularApertureMasksAt(d, c, field, i, j);
    }
  }

  lemma CircularApertureMasksAt(d: real, c: Coordinates, field: Matrix<Complex>, i: int, j: int)
    requires IsSquare(field, c.N()) && 0 <= i < c.N() && 0 <= j < c.N()
    ensures NewCircularAperture(Some(d), c).Propagate(field)[i][j]
         == if c.x[j] * c.x[j] + c.x[i] * c.x[i] <= d * d / 4.0 then field[i][j] else Zero
  {
    var k := DiscKernel(c, d);
    if k[i][j] == 1.0 {
      MulOne(field[i][j]);
    } else {
      MulZero(field[i][j]);
    }
  }

  /** With D = None the aperture passes every field unchanged. */
  lemma NoCircularApertureIdentity(c: Coordinates, field: Matrix<Complex>)
    requires IsSquare(field, c.N())
    ensures NewCircularAperture(None, c).Propagate(field) == field
  {
    var ap := NewCircularAperture(None, c);
    NoApertureAllOnes(c);
    forall i, j | 0 <= i < c.N() && 0 <= j < c.N()
      ensures ap.Propagate(field)[i][j] == field[i][j]
    {
      MulOne(field[i][j]);
    }
    SquareExt(ap.Propagate(field), field, c.N());
  }

  lemma MaskTwice(z: Complex, m: real)
    requires m == 0.0 || m == 1.0
    ensures Mul(Mul(z, FromReal(m)), FromReal(m)) == Mul(z, FromReal(m))
  {
    MulOne(z);
    MulOne(Mul(z, FromReal(m)));
  }

  /** Multiplying twice by a 0/1 mask is multiplying once. */
  lemma MaskIdempotent(field: Matrix<Complex>, k: Matrix<real>)
    requires IsSquare(field, |field|) && IsSquare(k, |field|)
    requires forall i, j :: 0 <= i < |field| && 0 <= j < |field| ==> k[i][j] == 0.0 || k[i][j] == 1.0
    ensures Hadamard(Hadamard(field, Lift(k)), Lift(k)) == Hadamard(field, Lift(k))
  {
    var once := Hadamard(field, Lift(k));
    var twice := Hadamard(once, Lift(k));
    forall i, j | 0 <= i < |field| && 0 <= j < |field|
      ensures twice[i][j] == once[i][j]
    {
      MaskTwice(field[i][j], k[i][j]);
    }
    SquareExt(twice, once, |field|);
  }

  /** Applying the aperture twice is applying it once. */
  lemma CircularApertureIdempotent(D: Option<real>, c: Coordinates, field: Matrix<Complex>)
    requires IsSquare(field, c.N())
    ensures var ap := NewCircularAperture(D, c);
      ap.Propagate(ap.Propagate(field)) == ap.Propagate(field)
  {
    var ap := NewCircularAperture(D, c);
    CircularApertureBinary(D, c);
    MaskIdempotent(field, ap.kernel);
  }

  /** On the grid x_min = -1, x_max = 1, N = 129, a stop of diameter 1 passes the
      centre sample x = y = 0 and blocks the sample x = y = 0.90625 nearest to
      (0.9, 0.9). */
  lemma CircularApertureOnSampleGrid()
    ensures var c := NewCoordinates(-1.0, 1.0, 129);
      var k := NewCircularAperture(Some(1.0), c).kernel;
      && c.x[64] == 0.0 && c.x[122] == 0.90625
      && k[64][64] == 1.0 && k[122][122] == 0.0
  {
    var c := NewCoordinates(-1.0, 1.0, 129);
    assert c.x == Linspace(-1.0, 1.0, 129);
    assert c.x[64] == -1.0 + 64.0 * (2.0 / 128.0);
    assert c.x[122] == -1.0 + 122.0 * (2.0 / 128.0);
  }

  /** `np.exp(-(x**2 + y**2)/(D**2/4))`: a Gaussian stop of diameter d. */
  function GaussianProfileKernel(num: Numerics, c: Coordinates, d: real): (k: Matrix<real>)
    requires d != 0.0
    ensures IsSquare(k, c.N())
    ensures forall i, j :: 0 <= i < c.N() && 0 <= j < c.N() ==>
      k[i][j] == num.exp(-PositionRadius2(c)[i][j] / (d * d / 4.0))
  {
    MapM(PositionRadius2(c), r => num.exp(-r / (d * d / 4.0)))
  }

  /** A soft stop with a Gaussian transmission profile, or none when D = None. */
  datatype GaussianAperture = GaussianAperture(D: Option<real>, coordinates: Coordinates, kernel: Matrix<real>)
  {
    predicate Ready() {
      IsSquare(kernel, coordinates.N())
    }

    /** `propagate`: `field * kernel`. */
    function Propagate(field: Matrix<Complex>): (r: Matrix<Complex>)
      requires Ready() && IsSquare(field, coordinates.N())
      ensures IsSquare(r, coordinates.N())
    {
      Hadamard(field, Lift(kernel))
    }
  }

  /** `GaussianAperture.get_kernel`; a diameter of 0 would divide by zero. */
  function GaussianApertureKernel(num: Numerics, D: Option<real>, c: Coordinates): (k: Matrix<real>)
    requires D.Some? ==> D.value != 0.0
    ensures IsSquare(k, c.N())
  {
    match D
    case None => NoApertureKernel(c)
    case Some(d) => GaussianProfileKernel(num, c, d)
  }

  /** `GaussianAperture(D, coordinates)`. */
  function NewGaussianAperture(num: Numerics, D: Option<real>, c: Coordinates): (ap: GaussianAperture)
    requires D.Some? ==> D.value != 0.0
    ensures ap.D == D && ap.coordinates == c && ap.Ready()
  {
    GaussianAperture(D, c, GaussianApertureKernel(num, D, c))
  }

  /** With D = None the Gaussian aperture, like the circular one, passes every field unchanged. */
  lemma NoGaussianApertureIdentity(num: Numerics, c: Coordinates, field: Matrix<Complex>)
    requires IsSquare(field, c.N())
    ensures NewGaussianAperture(num, None, c).Propagate(field) == field
  {
    var ap := NewGaussianAperture(num, None, c);
    NoApertureAllOnes(c);
    forall i, j | 0 <= i < c.N() && 0 <= j < c.N()
      ensures ap.Propagate(field)[i][j] == field[i][j]
    {
      MulOne(field[i][j]);
    }
    SquareExt(ap.Propagate(field), field, c.N());
  }

  /** Every sample of m lies in (0, a], equals a exactly at the centre x = y = 0,
      and m is symmetric in x and y. */
  predicate CenterPeaked(m: Matrix<real>, c: Coordinates, a: real) {
    IsSquare(m, c.N()) &&
    forall i, j :: 0 <= i < c.N() && 0 <= j < c.N() ==>
      && 0.0 < m[i][j] <= a
      && (m[i][j] == a <==> c.x[i] == 0.0 && c.x[j] == 0.0)
      && m[i][j] == m[j][i]
  }

  lemma GaussianFactor(num: Numerics, r: real, q: real)
    requires num.ExpValid() && 0.0 <= r && 0.0 < q
    ensures 0.0 < num.exp(-r / q) <= 1.0
    ensures num.exp(-r / q) == 1.0 <==> r == 0.0
  {
    if r == 0.0 {
      assert -r / q == 0.0;
    } else {
      assert -r / q < 0.0;
    }
  }

  /** The Gaussian stop transmits a fraction in (0, 1] at each sample, all of it
      exactly at the centre x = y = 0, and is symmetric in x and y. */
  lemma GaussianApertureProfile(num: Numerics, d: real, c: Coordinates)
    requires num.Valid() && d != 0.0
    ensures CenterPeaked(NewGaussianAperture(num, Some(d), c).kernel, c, 1.0)
  {
    var k := NewGaussianAperture(num, Some(d), c).kernel;
    forall i, j | 0 <= i < c.N() && 0 <= j < c.N()
      ensures 0.0 < k[i][j] <= 1.0
      ensures k[i][j] == 1.0 <==> c.x[i] == 0.0 && c.x[j] == 0.0
      ensures k[i][j] == k[j][i]
    {
      GaussianProfileAt(num, d, c, i, j);
    }
  }

  lemma GaussianProfileAt(num: Numerics, d: real, c: Coordinates, i: int, j: int)
    requires num.Valid() && d != 0.0 && 0 <= i < c.N() && 0 <= j < c.N()
    ensures var k := GaussianProfileKernel(num, c, d);
      && 0.0 < k[i][j] <= 1.0
      && (k[i][j] == 1.0 <==> c.x[i] == 0.0 && c.x[j] == 0.0)
      && k[i][j] == k[j][i]
  {
    var r := PositionRadius2(c);
    assert r[j][i] == r[i][j];
    GaussianProfileValue(num, r[i][j], c.x[j], c.x[i], d);
  }

  /** exp(-r/(d^2/4)) for r = u^2 + v^2 lies in (0, 1] and is 1 only at u = v = 0. */
  lemma GaussianProfileValue(num: Numerics, r: real, u: real, v: real, d: real)
    requires num.Valid() && d != 0.0 && r == u * u + v * v
    ensures var e := num.exp(-r / (d * d / 4.0));
      0.0 < e <= 1.0 && (e == 1.0 <==> u == 0.0 && v == 0.0)
  {
    var q := PositiveSquare(d);
    var s := SumOfSquaresSign(u, v);
    GaussianFactor(num, r, q / 4.0);
  }

  // ---------------------------------------------------------------------------
  // SpaceLensSpaceSystem
  // ---------------------------------------------------------------------------

  /** Free space over a, a thin lens of focal length f with a circular stop of
      diameter D in its plane, then free space over b. */
  datatype SpaceLensSpaceSystem = SpaceLensSpaceSystem(
    a: real, b: real, f: real, D: Option<real>, coordinates: Coordinates,
    spaceA: FreeSpace, lens: Lens, aperture: CircularAperture, spaceB: FreeSpace)
  {
    /** Every stage is ready and samples the system's own grid. */
    predicate Ready() {
      && coordinates.WellFormed()
      && spaceA.Ready() && spaceA.coordinates == coordinates
      && lens.Ready() && lens.coordinates == coordinates
      && aperture.Ready() && aperture.coordinates == coordinates
      && spaceB.Ready() && spaceB.coordinates == coordinates
    }

    /** `propagate`: distance a, the lens, the aperture, distance b, in that order. */
    function Propagate(t: Dft, field: Matrix<Complex>): (r: Matrix<Complex>)
      requires t.Valid() && Ready() && IsSquare(field, coordinates.N())
      ensures IsSquare(r, coordinates.N())
    {
      var afterA := spaceA.Propagate(t, field);
      var afterLens := lens.Propagate(afterA);
      var afterStop := aperture.Propagate(afterLens);
      spaceB.Propagate(t, afterStop)
    }
  }

  /** `SpaceLensSpaceSystem(a, b, f, D, k_z, coordinates)`. */
  function NewSpaceLensSpaceSystem(num: Numerics, a: real, b: real, f: real, D: Option<real>, kz: real, c: Coordinates): (sys: SpaceLensSpaceSystem)
    requires kz != 0.0 && f != 0.0
    ensures sys.a == a && sys.b == b && sys.f == f && sys.D == D && sys.coordinates == c
    ensures sys.spaceA == NewFreeSpace(num, a, kz, c) && sys.lens == NewLens(num, f, kz, c)
    ensures sys.aperture == NewCircularAperture(D, c) && sys.spaceB == NewFreeSpace(num, b, kz, c)
    ensures c.WellFormed() ==> sys.Ready()
  {
    SpaceLensSpaceSystem(a, b, f, D, c, NewFreeSpace(num, a, kz, c), NewLens(num, f, kz, c),
      NewCircularAperture(D, c), NewFreeSpace(num, b, kz, c))
  }

  /** A lens and a stop in the same plane act in either order. */
  lemma LensApertureCommute(num: Numerics, f: real, kz: real, D: Option<real>, c: Coordinates, field: Matrix<Complex>)
    requires f != 0.0 && IsSquare(field, c.N())
    ensures var l, ap := NewLens(num, f, kz, c), NewCircularAperture(D, c);
      ap.Propagate(l.Propagate(field)) == l.Propagate(ap.Propagate(field))
  {
    var l, ap := NewLens(num, f, kz, c), NewCircularAperture(D, c);
    var lhs, rhs := ap.Propagate(l.Propagate(field)), l.Propagate(ap.Propagate(field));
    forall i, j | 0 <= i < c.N() && 0 <= j < c.N()
      ensures lhs[i][j] == rhs[i][j]
    {
      var z, p, m := field[i][j], l.kernel[i][j], FromReal(ap.kernel[i][j]);
      calc {
        lhs[i][j];
      ==
        Mul(Mul(z, p), m);
      == { MulAssoc(z, p, m); MulComm(p, m); MulAssoc(z, m, p); }
        Mul(Mul(z, m), p);
      ==
        rhs[i][j];
      }
    }
    SquareExt(lhs, rhs, c.N());
  }

  /** The stop may equally be placed just before the lens. */
  lemma SystemApertureBeforeLens(num: Numerics, t: Dft, a: real, b: real, f: real, D: Option<real>, kz: real, c: Coordinates, field: Matrix<Complex>)
    requires t.Valid() && kz != 0.0 && f != 0.0 && c.WellFormed() && IsSquare(field, c.N())
    ensures var sys := NewSpaceLensSpaceSystem(num, a, b, f, D, kz, c);
      sys.Propagate(t, field)
      == sys.spaceB.Propagate(t, sys.lens.Propagate(sys.aperture.Propagate(sys.spaceA.Propagate(t, field))))
  {
    var sys := NewSpaceLensSpaceSystem(num, a, b, f, D, kz, c);
    LensApertureCommute(num, f, kz, D, c, sys.spaceA.Propagate(t, field));
  }

  /** Without a stop (D = None) the system is free space, lens, free space. */
  lemma SystemWithoutAperture(num: Numerics, t: Dft, a: real, b: real, f: real, kz: real, c: Coordinates, field: Matrix<Complex>)
    requires t.Valid() && kz != 0.0 && f != 0.0 && c.WellFormed() && IsSquare(field, c.N())
    ensures NewSpaceLensSpaceSystem(num, a, b, f, None, kz, c).Propagate(t, field)
         == NewFreeSpace(num, b, kz, c).Propagate(t, NewLens(num, f, kz, c).Propagate(NewFreeSpace(num, a, kz, c).Propagate(t, field)))
  {
    var sys := NewSpaceLensSpaceSystem(num, a, b, f, None, kz, c);
    NoCircularApertureIdentity(c, sys.lens.Propagate(sys.spaceA.Propagate(t, field)));
  }

  /** With a = b = 0 only the lens and the stop act on the field. */
  lemma SystemZeroDistances(num: Numerics, t: Dft, f: real, D: Option<real>, kz: real, c: Coordinates, field: Matrix<Complex>)
    requires num.Valid() && t.Valid() && kz != 0.0 && f != 0.0 && c.WellFormed() && IsSquare(field, c.N())
    ensures NewSpaceLensSpaceSystem(num, 0.0, 0.0, f, D, kz, c).Propagate(t, field)
         == NewCircularAperture(D, c).Propagate(NewLens(num, f, kz, c).Propagate(field))
  {
    var sys := NewSpaceLensSpaceSystem(num, 0.0, 0.0, f, D, kz, c);
    FreeSpaceZeroDistance(num, t, kz, c, field);
    FreeSpaceZeroDistance(num, t, kz, c, sys.aperture.Propagate(sys.lens.Propagate(field)));
  }

  /** Propagating a further distance d after the system is the system with b + d. */
  lemma SystemFurther(num: Numerics, t: Dft, a: real, b: real, d: real, f: real, D: Option<real>, kz: real, c: Coordinates, field: Matrix<Complex>)
    requires num.Valid() && t.Valid() && kz != 0.0 && f != 0.0 && c.WellFormed() && IsSquare(field, c.N())
    ensures NewFreeSpace(num, d, kz, c).Propagate(t, NewSpaceLensSpaceSystem(num, a, b, f, D, kz, c).Propagate(t, field))
         == NewSpaceLensSpaceSystem(num, a, b + d, f, D, kz, c).Propagate(t, field)
  {
    var sys := NewSpaceLensSpaceSystem(num, a, b, f, D, kz, c);
    FreeSpaceComposition(num, t, b, d, kz, c, sys.aperture.Propagate(sys.lens.Propagate(sys.spaceA.Propagate(t, field))));
  }

  /** Without a stop and with a = b = 0 the system keeps the intensity at every sample. */
  lemma SystemLosslessAtLens(num: Numerics, t: Dft, f: real, kz: real, c: Coordinates, field: Matrix<Complex>)
    requires num.Valid() && t.Valid() && kz != 0.0 && f != 0.0 && c.WellFormed() && IsSquare(field, c.N())
    ensures var r := NewSpaceLensSpaceSystem(num, 0.0, 0.0, f, None, kz, c).Propagate(t, field);
      forall i, j :: 0 <= i < c.N() && 0 <= j < c.N() ==> Norm2(r[i][j]) == Norm2(field[i][j])
  {
    SystemZeroDistances(num, t, f, None, kz, c, field);
    NoCircularApertureIdentity(c, NewLens(num, f, kz, c).Propagate(field));
    LensKeepsIntensity(num, f, kz, c, field);
  }

  // ---------------------------------------------------------------------------
  // Gaussian point spread functions
  // ---------------------------------------------------------------------------

  /** The beam parameters shared by both PSF classes: waist w0, Rayleigh range zR
      and the width w after defocus delta. */
  datatype Widths = Widths(w0: real, zR: real, w: real)

  /** `w0 = 4b/(Dk)`, `zR = 8b^2/(D^2 k)`, `w = w0*sqrt(1 + (b^2 delta/zR)^2)`; b, D
      and k must be nonzero or the code divides by zero. */
  function PsfWidths(num: Numerics, delta: real, k: real, b: real, D: real): (p: Widths)
    requires b != 0.0 && D != 0.0 && k != 0.0
  {
    NonzeroProduct(D, k);
    NonzeroProduct(D, D * k);
    NonzeroProduct(8.0 * b, b);
    var w0 := 4.0 * b / (D * k);
    var zR := 8.0 * b * b / (D * D * k);
    NonzeroQuotient(8.0 * b * b, D * D * k);
    var z := b * b * delta / zR;
    Widths(w0, zR, w0 * num.sqrt(1.0 + z * z))
  }

  lemma NonzeroProduct(x: real, y: real)
    requires x != 0.0 && y != 0.0
    ensures x * y != 0.0
  {
  }

  lemma SquareNonzero(d: real)
    requires d != 0.0
    ensures d * d != 0.0
  {
    var q := PositiveSquare(d);
  }

  lemma NonzeroQuotient(x: real, y: real)
    requires x != 0.0 && y != 0.0
    ensures x / y != 0.0
  {
    assert (x / y) * y == x;
  }

  lemma SqrtAtLeastOne(num: Numerics, y: real)
    requires num.Valid() && 1.0 <= y
    ensures 1.0 <= num.sqrt(y)
  {
    var s := num.sqrt(y);
    if s < 1.0 {
      MulLe(s, s, 1.0);
      assert false;
    }
  }

  lemma MulLe(a: real, b: real, c: real)
    requires 0.0 <= a && b <= c
    ensures a * b <= a * c
  {
    assert a * c - a * b == a * (c - b);
  }

  /** The widths obey the Gaussian-beam relations: zR = k*w0^2/2,
      w^2 = w0^2*(1 + (b^2 delta/zR)^2), and for positive b, D, k, w >= w0 > 0. */
  lemma PsfWidthRelations(num: Numerics, delta: real, k: real, b: real, D: real)
    requires num.Valid() && b != 0.0 && D != 0.0 && k != 0.0
    ensures var p := PsfWidths(num, delta, k, b, D);
      && p.zR != 0.0
      && p.zR == k * p.w0 * p.w0 / 2.0
      && p.w * p.w == p.w0 * p.w0 * (1.0 + (b * b * delta / p.zR) * (b * b * delta / p.zR))
      && p.w0 != 0.0 && p.w != 0.0
      && (0.0 < b && 0.0 < D && 0.0 < k ==> 0.0 < p.w0 <= p.w)
  {
    var p := PsfWidths(num, delta, k, b, D);
    WaistRayleigh(k, b, D);
    var z := b * b * delta / p.zR;
    var zz := NonNegativeSquare(z);
    SqrtAtLeastOne(num, 1.0 + z * z);
    EffectiveWidth(p.w0, num.sqrt(1.0 + z * z), 1.0 + z * z);
    if 0.0 < b && 0.0 < D && 0.0 < k {
      PositiveWaist(k, b, D);
    }
  }

  lemma EffectiveWidth(w0: real, s: real, y: real)
    requires w0 != 0.0 && 1.0 <= s && s * s == y
    ensures (w0 * s) * (w0 * s) == w0 * w0 * y
    ensures w0 * s != 0.0
    ensures 0.0 < w0 ==> w0 <= w0 * s
  {
    assert (w0 * s) * (w0 * s) == (w0 * w0) * (s * s);
    NonzeroProduct(w0, s);
    if 0.0 < w0 {
      MulLe(w0, 1.0, s);
    }
  }

  lemma PositiveWaist(k: real, b: real, D: real)
    requires 0.0 < b && 0.0 < D && 0.0 < k
    ensures 0.0 < 4.0 * b / (D * k)
  {
    assert 0.0 < D * k;
  }

  lemma WaistRayleigh(k: real, b: real, D: real)
    requires b != 0.0 && D != 0.0 && k != 0.0
    ensures var w0, zR := 4.0 * b / (D * k), 8.0 * b * b / (D * D * k);
      w0 != 0.0 && zR != 0.0 && zR == k * w0 * w0 / 2.0
  {
    NonzeroProduct(D, k);
    NonzeroProduct(D, D * k);
    NonzeroProduct(8.0 * b, b);
    var w0, zR := 4.0 * b / (D * k), 8.0 * b * b / (D * D * k);
    NonzeroQuotient(4.0 * b, D * k);
    NonzeroQuotient(8.0 * b * b, D * D * k);
    assert w0 * (D * k) == 4.0 * b;
    assert zR * (D * D * k) == 8.0 * b * b;
    assert (k * w0 * w0 / 2.0) * (D * D * k) == (w0 * (D * k)) * (w0 * (D * k)) / 2.0;
    assert (k * w0 * w0 / 2.0) * (D * D * k) == 8.0 * b * b;
  }

  /** A value in (0, 1] times a value in (0, 1] lies in (0, 1]. */
  lemma UnitProduct(a: real, e: real) returns (p: real)
    requires 0.0 < a <= 1.0 && 0.0 < e <= 1.0
    ensures p == a * e && 0.0 < p <= 1.0
  {
    p := PositiveProduct(a, e);
    MulLe(a, e, 1.0);
  }

  /** For positive b, D, k the amplitude ratio w0/w lies in (0, 1]. */
  lemma WidthRatio(num: Numerics, delta: real, k: real, b: real, D: real)
    requires num.Valid() && 0.0 < b && 0.0 < D && 0.0 < k
    ensures var p := PsfWidths(num, delta, k, b, D);
      0.0 < p.w && 0.0 < p.w0 / p.w <= 1.0
  {
    var p := PsfWidths(num, delta, k, b, D);
    PsfWidthRelations(num, delta, k, b, D);
    assert p.w0 / p.w * p.w == p.w0;
  }

  /** A Gaussian beam profile a*exp(-s*(x**2 + y**2)/w**2) sampled on the grid:
      s = 1 for the amplitude PSF and s = 2 for the intensity PSF. */
  function GaussianBeam(num: Numerics, c: Coordinates, a: real, s: real, w: real): (k: Matrix<real>)
    requires w != 0.0
    ensures IsSquare(k, c.N())
    ensures forall i, j :: 0 <= i < c.N() && 0 <= j < c.N() ==>
      k[i][j] == BeamSample(num, a, s, w, PositionRadius2(c)[i][j])
  {
    MapM(PositionRadius2(c), r => BeamSample(num, a, s, w, r))
  }

  /** The beam a*exp(-s*r/w^2) at squared radius r. */
  function BeamSample(num: Numerics, a: real, s: real, w: real, r: real): real
    requires w != 0.0
  {
    SquareNonzero(w);
    a * num.exp(-s * r / (w * w))
  }

  /** `GaussianPSF.get_kernel`: `(w0/w) * exp(-(x**2 + y**2)/w**2)`. */
  function GaussianPsfKernel(num: Numerics, c: Coordinates, p: Widths): (k: Matrix<real>)
    requires p.w != 0.0
    ensures IsSquare(k, c.N())
  {
    GaussianBeam(num, c, p.w0 / p.w, 1.0, p.w)
  }

  /** The defocus blur of a coherent field by a Gaussian amplitude PSF, applied in
      the frequency domain. */
  datatype GaussianPSF = GaussianPSF(delta: real, k: real, D: real, widths: Widths, coordinates: Coordinates, kernel: Matrix<real>)
  {
    predicate Ready() {
      coordinates.WellFormed() && IsSquare(kernel, coordinates.N())
    }

    /** `propagate`: to the frequency domain, multiply by the kernel, and back. */
    function Propagate(t: Dft, field: Matrix<Complex>): (r: Matrix<Complex>)
      requires t.Valid() && Ready() && IsSquare(field, coordinates.N())
      ensures IsSquare(r, coordinates.N())
    {
      var h := coordinates.dx;
      IFFT2(t, Hadamard(FFT2(t, field, h), Lift(kernel)), h)
    }
  }

  /** `GaussianPSF(delta, k, b, D, coordinates)`. */
  function NewGaussianPSF(num: Numerics, delta: real, k: real, b: real, D: real, c: Coordinates): (psf: GaussianPSF)
    requires num.Valid() && b != 0.0 && D != 0.0 && k != 0.0
    ensures psf.delta == delta && psf.k == k && psf.D == D && psf.coordinates == c
    ensures psf.widths == PsfWidths(num, delta, k, b, D)
    ensures psf.widths.w != 0.0 && psf.kernel == GaussianPsfKernel(num, c, psf.widths)
    ensures c.WellFormed() ==> psf.Ready()
  {
    PsfWidthRelations(num, delta, k, b, D);
    var p := PsfWidths(num, delta, k, b, D);
    GaussianPSF(delta, k, D, p, c, GaussianPsfKernel(num, c, p))
  }

  /** For positive b, D, k the amplitude kernel lies in (0, 1], takes its largest
      value w0/w exactly at the centre, and is symmetric in x and y. */
  lemma GaussianPsfProfile(num: Numerics, delta: real, k: real, b: real, D: real, c: Coordinates)
    requires num.Valid() && 0.0 < b && 0.0 < D && 0.0 < k
    ensures var psf := NewGaussianPSF(num, delta, k, b, D, c);
      var m, a := psf.kernel, psf.widths.w0 / psf.widths.w;
      0.0 < a <= 1.0 && CenterPeaked(m, c, a)
  {
    var p := PsfWidths(num, delta, k, b, D);
    WidthRatio(num, delta, k, b, D);
    GaussianBeamProfile(num, c, p.w0 / p.w, 1.0, p.w);
  }

  /** The peak (w0/w)**2 of the intensity kernel. */
  function IntensityPeak(p: Widths): real
    requires p.w != 0.0
  {
    (p.w0 / p.w) * (p.w0 / p.w)
  }

  /** `GaussianIntensityPSF.get_kernel`: `(w0/w)**2 * exp(-2*(x**2 + y**2)/w**2)`. */
  function GaussianIntensityKernel(num: Numerics, c: Coordinates, p: Widths): (k: Matrix<real>)
    requires p.w != 0.0
    ensures IsSquare(k, c.N())
  {
    GaussianBeam(num, c, IntensityPeak(p), 2.0, p.w)
  }

  /** The defocus blur of an intensity image by a Gaussian intensity PSF. */
  datatype GaussianIntensityPSF = GaussianIntensityPSF(delta: real, k: real, D: real, widths: Widths, coordinates: Coordinates, kernel: Matrix<real>)
  {
    predicate Ready() {
      coordinates.WellFormed() && IsSquare(kernel, coordinates.N())
    }

    /** The complex result of the convolution, before the modulus is taken. */
    function Blurred(t: Dft, img: Matrix<real>): (r: Matrix<Complex>)
      requires t.Valid() && Ready() && IsSquare(img, coordinates.N())
      ensures IsSquare(r, coordinates.N())
    {
      var h := coordinates.dx;
      IFFT2(t, Hadamard(FFT2(t, Lift(img), h), FFT2(t, Lift(kernel), h)), h)
    }

    /** `propagate`: the modulus of the convolution of the image with the kernel. */
    function Propagate(t: Dft, num: Numerics, img: Matrix<real>): (r: Matrix<real>)
      requires t.Valid() && Ready() && IsSquare(img, coordinates.N())
      ensures IsSquare(r, coordinates.N())
    {
      Modulus(num, Blurred(t, img))
    }
  }

  /** `np.abs` on a complex array: sqrt(re^2 + im^2) per entry. */
  function Modulus(num: Numerics, m: Matrix<Complex>): (r: Matrix<real>)
    ensures |r| == |m|
    ensures forall i :: 0 <= i < |m| ==> |r[i]| == |m[i]|
    ensures forall i, j :: 0 <= i < |m| && 0 <= j < |m[i]| ==> r[i][j] == num.sqrt(Norm2(m[i][j]))
  {
    MapM(m, z => num.sqrt(Norm2(z)))
  }

  /** Every entry of `np.abs(m)` is non-negative and squares to |m[i][j]|^2. */
  lemma ModulusNonNegative(num: Numerics, m: Matrix<Complex>)
    requires num.SqrtValid()
    ensures var r := Modulus(num, m);
      forall i, j :: 0 <= i < |m| && 0 <= j < |m[i]| ==> 0.0 <= r[i][j] && r[i][j] * r[i][j] == Norm2(m[i][j])
  {
    forall i, j | 0 <= i < |m| && 0 <= j < |m[i]|
      ensures 0.0 <= num.sqrt(Norm2(m[i][j])) && num.sqrt(Norm2(m[i][j])) * num.sqrt(Norm2(m[i][j])) == Norm2(m[i][j])
    {
      var n := SumOfSquaresSign(m[i][j].re, m[i][j].im);
    }
  }

  /** `GaussianIntensityPSF(delta, k, b, D, coordinates)`. */
  function NewGaussianIntensityPSF(num: Numerics, delta: real, k: real, b: real, D: real, c: Coordinates): (psf: GaussianIntensityPSF)
    requires num.Valid() && b != 0.0 && D != 0.0 && k != 0.0
    ensures psf.delta == delta && psf.k == k && psf.D == D && psf.coordinates == c
    ensures psf.widths == PsfWidths(num, delta, k, b, D)
    ensures psf.widths.w != 0.0 && psf.kernel == GaussianIntensityKernel(num, c, psf.widths)
    ensures c.WellFormed() ==> psf.Ready()
  {
    PsfWidthRelations(num, delta, k, b, D);
    var p := PsfWidths(num, delta, k, b, D);
    GaussianIntensityPSF(delta, k, D, p, c, GaussianIntensityKernel(num, c, p))
  }

  /** For positive b, D, k the intensity kernel lies in (0, (w0/w)^2] with (w0/w)^2 <= 1,
      takes its largest value exactly at the centre, and is symmetric in x and y. */
  lemma GaussianIntensityProfile(num: Numerics, delta: real, k: real, b: real, D: real, c: Coordinates)
    requires num.Valid() && 0.0 < b && 0.0 < D && 0.0 < k
    ensures var psf := NewGaussianIntensityPSF(num, delta, k, b, D, c);
      0.0 < IntensityPeak(psf.widths) <= 1.0 && CenterPeaked(psf.kernel, c, IntensityPeak(psf.widths))
  {
    WidthRatio(num, delta, k, b, D);
    IntensityKernelProfile(num, c, PsfWidths(num, delta, k, b, D));
  }

  lemma IntensityKernelProfile(num: Numerics, c: Coordinates, p: Widths)
    requires num.ExpValid() && 0.0 < p.w && 0.0 < p.w0 / p.w <= 1.0
    ensures 0.0 < IntensityPeak(p) <= 1.0 && CenterPeaked(GaussianIntensityKernel(num, c, p), c, IntensityPeak(p))
  {
    var a := UnitPeak(p);
    GaussianBeamProfile(num, c, a, 2.0, p.w);
  }

  /** (w0/w)^2 lies in (0, 1] when w0/w does. */
  lemma UnitPeak(p: Widths) returns (a: real)
    requires 0.0 < p.w && 0.0 < p.w0 / p.w <= 1.0
    ensures a == IntensityPeak(p) && 0.0 < a <= 1.0
  {
    a := UnitProduct(p.w0 / p.w, p.w0 / p.w);
  }

  /** The intensity PSF returns an N-by-N image of non-negative values, the modulus
      of the complex convolution at each sample. */
  lemma IntensityPsfNonNegative(num: Numerics, t: Dft, psf: GaussianIntensityPSF, img: Matrix<real>)
    requires num.SqrtValid() && t.Valid() && psf.Ready() && IsSquare(img, psf.coordinates.N())
    ensures var r, z := psf.Propagate(t, num, img), psf.Blurred(t, img);
      && IsSquare(r, psf.coordinates.N())
      && forall i, j :: 0 <= i < psf.coordinates.N() && 0 <= j < psf.coordinates.N() ==>
        0.0 <= r[i][j] && r[i][j] * r[i][j] == Norm2(z[i][j])
  {
    ModulusNonNegative(num, psf.Blurred(t, img));
  }

  /** Every sample of a beam with a, s > 0 lies in (0, a], equals a exactly at the
      centre, and the profile is symmetric in x and y. */
  lemma GaussianBeamProfile(num: Numerics, c: Coordinates, a: real, s: real, w: real)
    requires num.ExpValid() && 0.0 < a && 0.0 < s && w != 0.0
    ensures CenterPeaked(GaussianBeam(num, c, a, s, w), c, a)
  {
    forall i, j | 0 <= i < c.N() && 0 <= j < c.N()
      ensures var m := GaussianBeam(num, c, a, s, w);
        && 0.0 < m[i][j] <= a
        && (m[i][j] == a <==> c.x[i] == 0.0 && c.x[j] == 0.0)
        && m[i][j] == m[j][i]
    {
      GaussianBeamAt(num, c, a, s, w, i, j);
    }
  }

  lemma GaussianBeamAt(num: Numerics, c: Coordinates, a: real, s: real, w: real, i: int, j: int)
    requires num.ExpValid() && 0.0 < a && 0.0 < s && w != 0.0
    requires 0 <= i < c.N() && 0 <= j < c.N()
    ensures var m := GaussianBeam(num, c, a, s, w);
      && 0.0 < m[i][j] <= a
      && (m[i][j] == a <==> c.x[i] == 0.0 && c.x[j] == 0.0)
      && m[i][j] == m[j][i]
  {
    var m := GaussianBeamEntry(num, c, a, s, w, i, j);
    GaussianBeamSymmetric(num, c, a, s, w, i, j);
  }

  /** One sample of the beam, with its bounds. */
  lemma GaussianBeamEntry(num: Numerics, c: Coordinates, a: real, s: real, w: real, i: int, j: int) returns (m: real)
    requires num.ExpValid() && 0.0 < a && 0.0 < s && w != 0.0
    requires 0 <= i < c.N() && 0 <= j < c.N()
    ensures m == GaussianBeam(num, c, a, s, w)[i][j]
    ensures 0.0 < m <= a && (m == a <==> c.x[i] == 0.0 && c.x[j] == 0.0)
  {
    var k, r := GaussianBeam(num, c, a, s, w), PositionRadius2(c);
    m := GaussianBeamValue(num, r[i][j], c.x[j], c.x[i], a, s, w);
  }

  lemma GaussianBeamSymmetric(num: Numerics, c: Coordinates, a: real, s: real, w: real, i: int, j: int)
    requires w != 0.0 && 0 <= i < c.N() && 0 <= j < c.N()
    ensures GaussianBeam(num, c, a, s, w)[i][j] == GaussianBeam(num, c, a, s, w)[j][i]
  {
    var k, r := GaussianBeam(num, c, a, s, w), PositionRadius2(c);
    assert r[j][i] == r[i][j];
  }

  /** a*exp(-s*r/w^2) for r = u^2 + v^2, a, s > 0 and w != 0 lies in (0, a] and
      equals a only at u = v = 0. */
  lemma GaussianBeamValue(num: Numerics, r: real, u: real, v: real, a: real, s: real, w: real) returns (m: real)
    requires num.ExpValid() && 0.0 < a && 0.0 < s && w != 0.0 && r == u * u + v * v
    ensures m == BeamSample(num, a, s, w, r)
    ensures 0.0 < m <= a && (m == a <==> u == 0.0 && v == 0.0)
  {
    var n := SumOfSquaresSign(u, v);
    var sr := NonNegativeProduct(s, r);
    var q := PositiveSquare(w);
    assert -s * r / (w * w) == -sr / q;
    GaussianFactor(num, sr, q);
    m := ScaledFactor(a, num.exp(-sr / q));
  }

  /** s*r for s > 0 and r >= 0 is non-negative, and zero exactly when r is. */
  lemma NonNegativeProduct(s: real, r: real) returns (p: real)
    requires 0.0 < s && 0.0 <= r
    ensures p == s * r && 0.0 <= p && (p == 0.0 <==> r == 0.0)
  {
    if r == 0.0 {
      p := s * r;
    } else {
      p := PositiveProduct(s, r);
    }
  }

  /** a * e for a > 0 and e in (0, 1] lies in (0, a], and equals a only for e = 1. */
  lemma ScaledFactor(a: real, e: real) returns (p: real)
    requires 0.0 < a && 0.0 < e <= 1.0
    ensures p == a * e
    ensures 0.0 < p <= a && (p == a <==> e == 1.0)
  {
    p := PositiveProduct(a, e);
    MulLe(a, e, 1.0);
    if p == a {
      assert a * (e - 1.0) == 0.0;
      NonzeroProductOrZero(a, e - 1.0);
    }
  }

  lemma NonzeroProductOrZero(x: real, y: real)
    requires x != 0.0 && x * y == 0.0
    ensures y == 0.0
  {
    if y != 0.0 {
      NonzeroProduct(x, y);
    }
  }
}
