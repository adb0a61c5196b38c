/** Exact complex arithmetic over the reals: the scalar type of every optical field.
    Floating-point rounding is not modelled. */
module ComplexNumbers {

  datatype Complex = Complex(re: real, im: real)

  const Zero: Complex := Complex(0.0, 0.0)
  const One: Complex := Complex(1.0, 0.0)

  /** A real number promoted to a complex one, as numpy promotes a float array
      that is multiplied with a complex array. */
  function FromReal(r: real): Complex {
    Complex(r, 0.0)
  }

  function Mul(a: Complex, b: Complex): Complex {
    Complex(a.re * b.re - a.im * b.im, a.re * b.im + a.im * b.re)
  }

  /** Product with a real scalar, as in `resolution**2 * array`. */
  function Scale(c: real, z: Complex): Complex {
    Complex(c * z.re, c * z.im)
  }

  /** The squared modulus |z|^2. */
  function Norm2(z: Complex): real {
    z.re * z.re + z.im * z.im
  }

  lemma MulComm(a: Complex, b: Complex)
    ensures Mul(a, b) == Mul(b, a)
  {
  }

  lemma MulAssoc(a: Complex, b: Complex, c: Complex)
    ensures Mul(Mul(a, b), c) == Mul(a, Mul(b, c))
  {
    var l, r := Mul(Mul(a, b), c), Mul(a, Mul(b, c));
    assert l.re == a.re * b.re * c.re - a.im * b.im * c.re - a.re * b.im * c.im - a.im * b.re * c.im;
    assert r.re == a.re * b.re * c.re - a.re * b.im * c.im - a.im * b.re * c.im - a.im * b.im * c.re;
    assert l.im == a.re * b.re * c.im - a.im * b.im * c.im + a.re * b.im * c.re + a.im * b.re * c.re;
    assert r.im == a.re * b.re * c.im - a.im * b.im * c.im + a.re * b.im * c.re + a.im * b.re * c.re;
  }

  lemma MulOne(z: Complex)
    ensures Mul(z, One) == z && Mul(One, z) == z
  {
  }

  lemma MulZero(z: Complex)
    ensures Mul(z, FromReal(0.0)) == Zero
  {
  }

  /** The squared modulus is multiplicative. */
  lemma Norm2Mul(a: Complex, b: Complex)
    ensures Norm2(Mul(a, b)) == Norm2(a) * Norm2(b)
  {
    var p, q, r, s := a.re, a.im, b.re, b.im;
    calc {
      Norm2(Mul(a, b));
    ==
      (p * r - q * s) * (p * r - q * s) + (p * s + q * r) * (p * s + q * r);
    ==
      p * p * r * r + q * q * s * s + p * p * s * s + q * q * r * r;
    ==
      (p * p + q * q) * (r * r + s * s);
    }
  }

  lemma ScaleScale(a: real, b: real, z: Complex)
    ensures Scale(a, Scale(b, z)) == Scale(a * b, z)
  {
  }
}
