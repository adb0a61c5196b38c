# ZStackingOptics core in Dafny

A Fourier-optics simulator propagates a sampled complex field through optical
elements. This project models its core in exact real arithmetic:

- the sampling grid `Coordinates` (position axis, stated spacing `dx`, frequency
  axis `nu`, `dnu` and the plotting extents);
- the centered, scaled transform pair `FFT2`/`IFFT2`;
- the elements `FreeSpace`, `Lens`, `CircularAperture` and `GaussianAperture`;
- the four-stage `SpaceLensSpaceSystem`;
- the two Gaussian point spread functions `GaussianPSF` and `GaussianIntensityPSF`.

The code is pure: each element computes its kernel once when it is built, and
every `propagate` returns a new array. The model therefore uses datatypes,
functions and lemmas:

- `complex.dfy` (module `ComplexNumbers`): complex numbers over `real`.
- `matrices.dfy` (module `Matrices`): N-by-N arrays as `seq<seq<T>>`, with numpy's elementwise operations.
- `fourier.dfy` (module `Fourier`): `Coordinates`, the library index formulas (`linspace`, `fftfreq`, `fftshift`/`ifftshift` as rolls), and `FFT2`/`IFFT2`.
- `optics.dfy` (module `Optics`): the elements, the system and the PSFs.

Array entry `[i][j]` is row `i` and column `j`, as in numpy. Broadcasting the
axes gives that entry the point `(x[j], x[i])`.

Three pieces of the numerics are parameters rather than code:

- The raw `fft2`/`ifft2` are a pair `Dft` (module Fourier). `Dft.Valid` assumes of it exactly this:
  - it keeps the N-by-N shape;
  - each transform undoes the other;
  - both commute with a real scalar factor.
- `np.exp` of an imaginary argument, `np.exp` and `np.sqrt` form a record `Numerics` (module Optics). `Numerics.Valid` assumes of it exactly this:
  - `exp(i·t)` has modulus 1, `exp(i·0) = 1`, and `exp(i·u)·exp(i·v) = exp(i·(u+v))`;
  - `exp` is positive, `exp(0) = 1`, and `exp(u) < 1` for `u < 0`;
  - `sqrt(y)` is the non-negative number whose square is `y`, for `y >= 0`.
- `np.pi` is the constant `3.141592653589793`.

## Model

| member | source | states |
|---|---|---|
| `Fourier.Linspace` | fourier.py:9 | N samples; first is x_min, last is x_max; constant step (x_max−x_min)/(N−1); strictly increasing when x_min < x_max |
| `Fourier.PositionAxisSamples` | fourier.py:9-18 | the grid built by `Coordinates` (`Fourier.NewCoordinates`) has that position axis, and its `pos_extent` is `[x[0], x[N−1], x[0], x[N−1]]`, i.e. `[x_min, x_max, x_min, x_max]` |
| `Fourier.NewCoordinatesWellFormed` | fourier.py:7-14 | for N ≥ 2 and x_max ≠ 0, the grid `Fourier.NewCoordinates` builds satisfies: both axes have N samples and dx ≠ 0, which every element relies on |
| `Fourier.StatedSpacingIsStepIffSymmetric` | fourier.py:9-10 | the stated `dx = 2·x_max/(N−1)` equals the real step x[1]−x[0] if and only if x_min = −x_max |
| `Fourier.FrequencySpacingTimesWindow` | fourier.py:10-14 | dnu·N·dx = 1 |
| `Fourier.ShiftedFrequencyBin` | fourier.py:13 | bin i of `Fourier.FftShift(Fourier.FftFreq(n, d))`, the models of fftshift and fftfreq, is (i − n/2)/(n·d), with integer division n/2, for odd and even n |
| `Fourier.FrequencyBin` | fourier.py:13-14 | nu[i] = (i − N/2)·dnu for every index of the grid's frequency axis |
| `Fourier.ShiftedFrequencyAxis` | fourier.py:13 | `FftShift(FftFreq(n, d))` is 0 at index n/2, has constant step 1/(n·d), and ascends strictly for d > 0 |
| `Fourier.FrequencyAxis` | fourier.py:13-14 | nu[N/2] = 0; nu has constant step dnu; nu is strictly ascending when x_max > 0 |
| `Fourier.FrequencyExtent` | fourier.py:15-19 | freq_extent is [−(N/2)·dnu, (N−1−N/2)·dnu] twice; its lower end is −(upper end) for odd N and −(upper end) − dnu for even N |
| `Fourier.PositionGrid` | fourier.py:21-24 | `Fourier.PositionAxes` (`get_position_axis`), combined by `Fourier.Broadcast` (numpy's row-against-column broadcast), gives entry [i][j] the pair (x[j], x[i]) on an N-by-N grid |
| `Fourier.FrequencyGrid` | fourier.py:26-29 | `Fourier.FrequencyAxes` (`get_frequency_axis`), combined by `Fourier.Broadcast`, gives entry [i][j] the pair (nu[j], nu[i]) |
| `Fourier.RollAt` | fourier.py:37 | entry i of `Fourier.Roll(s, k)`, numpy's roll by k, is s[i−k], wrapping around past the front |
| `Fourier.ShiftsInverse1` | fourier.py:37 | in one dimension, `Fourier.IfftShift` undoes `Fourier.FftShift` and `FftShift` undoes `IfftShift`, for every length |
| `Fourier.ShiftsInverse` | fourier.py:37-46 | the 2-d shifts over both axes, `Fourier.IfftShift2` and `Fourier.FftShift2`, are mutually inverse |
| `Fourier.ShiftsScaleM` | fourier.py:37-46 | `FftShift2` and `IfftShift2` commute with multiplying by a real h² or 1/h² |
| `Fourier.FFT2` | fourier.py:31-38 | for every raw pair `Fourier.Dft` t (fft2, ifft2) with `t.Valid()`, h²·fftshift(fft2(ifftshift(data))) keeps the N-by-N shape |
| `Fourier.IFFT2` | fourier.py:40-47 | for every `Fourier.Dft` t with `t.Valid()`, (1/h²)·fftshift(ifft2(ifftshift(data))) keeps the N-by-N shape |
| `Fourier.RoundTrip` | fourier.py:31-47 | for every `Fourier.Dft` t with `t.Valid()`, IFFT2(FFT2(f, h), h) = f and FFT2(IFFT2(f, h), h) = f for every N-by-N f and h ≠ 0 |
| `Optics.PositionRadius2` | optics.py:29-30 | `x**2 + y**2` on the grid: entry [i][j] is x[j]² + x[i]², N-by-N |
| `Optics.FrequencyRadius2` | optics.py:12-13 | `nu_x**2 + nu_y**2`: entry [i][j] is nu[j]² + nu[i]² |
| `Optics.FreeSpaceKernel` | optics.py:11-13 | entry [i][j] is exp(i·2π²·(nu[j]² + nu[i]²)·L/k_z) |
| `Optics.NewFreeSpace` | optics.py:5-9 | keeps L, k_z and the grid; is ready on a well-formed grid |
| `Optics.FreeSpace.Propagate` | optics.py:15-19 | IFFT2(FFT2(field, dx)·kernel, dx) is again N-by-N |
| `Optics.FreeSpaceLossless` | optics.py:11-13 | every free-space kernel entry has modulus 1 |
| `Optics.FreeSpaceZeroDistance` | optics.py:11-19 | over L = 0 every kernel entry is 1, and propagate returns the field unchanged |
| `Optics.FreeSpaceKernelProduct` | optics.py:11-13 | kernel(a)·kernel(b) = kernel(a+b), elementwise |
| `Optics.FreeSpaceComposition` | optics.py:15-19 | propagating over a and then over b equals propagating over a+b |
| `Optics.LensKernel` | optics.py:28-30 | entry [i][j] is exp(i·k_z·(x[j]² + x[i]²)/(2f)) |
| `Optics.NewLens` | optics.py:22-26 | keeps f, k_z and the grid; its kernel is N-by-N |
| `Optics.Lens.Propagate` | optics.py:32-33 | field·kernel is N-by-N |
| `Optics.LensKeepsIntensity` | optics.py:28-33 | a lens keeps \|field[i][j]\|² at every sample |
| `Optics.LensKernelProduct` | optics.py:28-30 | lens kernels for f1 and f2 multiply to the kernel for f1·f2/(f1+f2) |
| `Optics.ThinLensCombination` | optics.py:28-33 | two lenses in a row act as one lens with 1/f = 1/f1 + 1/f2 |
| `Optics.NoApertureKernel` | optics.py:43-44 | entry [i][j] is 1.0 if x[j]² + x[i]² > −1, else 0.0 |
| `Optics.NoApertureAllOnes` | optics.py:43-44 | the `D = None` kernel is all ones, since a sum of squares always exceeds −1 |
| `Optics.DiscKernel` | optics.py:45 | every entry is 0.0 or 1.0; it is 1.0 if and only if x[j]² + x[i]² ≤ D²/4; the kernel is symmetric |
| `Optics.CircularApertureKernel` | optics.py:41-45 | the kernel is N-by-N in both branches |
| `Optics.NewCircularAperture` | optics.py:36-39 | keeps D and the grid; its kernel is N-by-N |
| `Optics.CircularAperture.Propagate` | optics.py:47-48 | field·kernel is N-by-N |
| `Optics.CircularApertureBinary` | optics.py:41-45 | in both branches every kernel entry is 0.0 or 1.0 |
| `Optics.CircularApertureMasks` | optics.py:45-48 | entries inside the disc x² + y² ≤ D²/4 pass unchanged; all others become 0 |
| `Optics.NoCircularApertureIdentity` | optics.py:43-48 | with D = None, propagate returns the field unchanged |
| `Optics.CircularApertureIdempotent` | optics.py:41-48 | applying the aperture twice equals applying it once |
| `Optics.CircularApertureOnSampleGrid` | optics.py:45 | on the grid (−1, 1, 129), a stop of diameter 1 passes the centre sample (0, 0) and blocks the sample (0.90625, 0.90625) |
| `Optics.GaussianProfileKernel` | optics.py:60 | entry [i][j] is exp(−(x[j]² + x[i]²)/(D²/4)) |
| `Optics.GaussianApertureKernel` | optics.py:56-60 | the kernel is N-by-N in both branches |
| `Optics.NewGaussianAperture` | optics.py:51-54 | keeps D and the grid; its kernel is N-by-N |
| `Optics.GaussianAperture.Propagate` | optics.py:62-63 | field·kernel is N-by-N |
| `Optics.NoGaussianApertureIdentity` | optics.py:58-63 | with D = None, the Gaussian aperture returns the field unchanged |
| `Optics.GaussianApertureProfile` | optics.py:60 | transmission is in (0, 1] at every sample; it is 1 exactly at x = y = 0; it is symmetric in x and y |
| `Optics.NewSpaceLensSpaceSystem` | optics.py:66-78 | stages are FreeSpace(a), Lens(f), CircularAperture(D) and FreeSpace(b) on one grid; the system is ready on a well-formed grid |
| `Optics.SpaceLensSpaceSystem.Propagate` | optics.py:80-91 | space_a, then lens, then aperture, then space_b; the result is N-by-N |
| `Optics.LensApertureCommute` | optics.py:32-33 | lens then aperture equals aperture then lens, since both are elementwise products |
| `Optics.SystemApertureBeforeLens` | optics.py:80-91 | the system equals space_b(lens(aperture(space_a(field)))) |
| `Optics.SystemWithoutAperture` | optics.py:71-91 | with D = None the system is space_b(lens(space_a(field))) |
| `Optics.SystemZeroDistances` | optics.py:72-91 | with a = b = 0 the system is aperture(lens(field)) |
| `Optics.SystemFurther` | optics.py:80-91 | propagating a further d after the system equals the system with back distance b + d |
| `Optics.SystemLosslessAtLens` | optics.py:72-91 | with a = b = 0 and D = None the system keeps \|field[i][j]\|² at every sample |
| `Optics.WaistRayleigh` | optics.py:98-99 | the waist and Rayleigh range of `Optics.PsfWidths`, w0 = 4b/(Dk) and zR = 8b²/(D²k) are nonzero and satisfy zR = k·w0²/2 |
| `Optics.PsfWidthRelations` | optics.py:98-100 | the widths `Optics.PsfWidths` computes satisfy: zR = k·w0²/2; w² = w0²·(1 + (b²δ/zR)²); w0, w ≠ 0; for positive b, D, k, 0 < w0 ≤ w |
| `Optics.WidthRatio` | optics.py:98-100 | for positive b, D, k: w > 0 and 0 < w0/w ≤ 1 |
| `Optics.GaussianBeam` | optics.py:106 | entry [i][j] is a·exp(−s·(x[j]² + x[i]²)/w²); s = 1 at line 106 and s = 2 at line 129 |
| `Optics.GaussianBeamProfile` | optics.py:106 | for a, s > 0 every sample is in (0, a]; it equals a exactly at x = y = 0; the profile is symmetric |
| `Optics.GaussianPsfKernel` | optics.py:104-107 | (w0/w)·exp(−(x² + y²)/w²) is N-by-N |
| `Optics.NewGaussianPSF` | optics.py:94-102 | keeps δ, k, D and the grid; widths are those of lines 98-100; kernel is that of lines 104-107; ready on a well-formed grid |
| `Optics.GaussianPSF.Propagate` | optics.py:109-113 | IFFT2(FFT2(field, dx)·kernel, dx) is N-by-N |
| `Optics.GaussianPsfProfile` | optics.py:98-107 | for positive b, D, k: 0 < w0/w ≤ 1; every kernel entry is in (0, w0/w]; it equals w0/w exactly at the centre; the kernel is symmetric |
| `Optics.GaussianIntensityKernel` | optics.py:127-130 | (w0/w)²·exp(−2(x² + y²)/w²) is N-by-N |
| `Optics.NewGaussianIntensityPSF` | optics.py:117-125 | keeps δ, k, D and the grid; widths are those of lines 121-123; kernel is that of lines 127-130; ready on a well-formed grid |
| `Optics.GaussianIntensityProfile` | optics.py:121-130 | for positive b, D, k: 0 < (w0/w)² ≤ 1; every kernel entry is in (0, (w0/w)²]; it equals (w0/w)² exactly at the centre; the kernel is symmetric |
| `Optics.GaussianIntensityPSF.Blurred` | optics.py:132-136 | IFFT2(FFT2(img, dx)·FFT2(kernel, dx), dx) is N-by-N |
| `Optics.GaussianIntensityPSF.Propagate` | optics.py:132-137 | the modulus of that convolution is N-by-N |
| `Optics.Modulus` | optics.py:137 | `np.abs`: entry [i][j] is sqrt(\|m[i][j]\|²) |
| `Optics.ModulusNonNegative` | optics.py:137 | every entry of np.abs(m) is ≥ 0, and its square is \|m[i][j]\|² |
| `Optics.IntensityPsfNonNegative` | optics.py:132-137 | the intensity PSF returns an N-by-N image whose entries are ≥ 0; each is the modulus of the complex convolution at that sample |

## Left out

- `fft2`/`ifft2`: their algorithm is not modelled. The facts in `Dft.Valid` are assumed instead. One of them, commuting with a real scalar, is linearity, which the library transform has.
- Discrete Parseval or energy identities for `FreeSpace`: these need a concrete DFT.
- Transcendental values: `exp`, `exp(i·t)` and `sqrt` are known only through `Numerics.Valid`. No kernel value is computed beyond what those facts imply.
- Floating-point rounding, NaN and infinities: the model uses exact reals and an exact `np.pi` constant.
- Validation: the code checks nothing. Where it would divide by zero, the model puts a precondition instead of an error result:
  - N ≥ 2 and x_max ≠ 0 for `Coordinates`;
  - k_z ≠ 0 for `FreeSpace`;
  - f ≠ 0 for `Lens`;
  - D ≠ 0 for the Gaussian aperture;
  - b, D, k ≠ 0 for both PSFs;
  - propagated fields are N-by-N.
- Meaningless inputs need no precondition, because the code computes a value for them, and so does the model:
  - x_min ≥ x_max;
  - a negative D.
- The code raises no errors of its own, and the model adds no error results.
- `np.roll` is modelled by concatenation, for shifts between 0 and the length. `fftshift` rolls by N/2. `ifftshift` rolls by −(N/2) in numpy; the model uses the equal roll by N − N/2.
- `fourrier_field *= ...` at optics.py:17, 111 and 135 acts on a fresh local array. It is modelled as a plain elementwise product.
- "`propagate` does not change the caller's field" holds by construction: every value is immutable.
- `GaussianPSF.propagate` multiplies the transformed field by the kernel sampled on the position grid, as the code does (optics.py:106, 111). Whether a transformed PSF was meant is not decided here.
- plotters.py (figure plumbing) is not part of this model.
