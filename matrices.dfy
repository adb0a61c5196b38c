/** N-by-N arrays as nested sequences, and the elementwise operations numpy
    performs on them (`a * b`, `c * a`, `astype`). */
module Matrices {
  import opened ComplexNumbers

  /** m[i][j] is row i, column j, as numpy indexes a 2-d array. */
  type Matrix<T> = seq<seq<T>>

  predicate IsSquare<T>(m: Matrix<T>, n: nat) {
    |m| == n && forall i :: 0 <= i < n ==> |m[i]| == n
  }

  /** Applies h to every entry. */
  function MapM<T, U>(m: Matrix<T>, h: T -> U): (r: Matrix<U>)
    ensures |r| == |m|
    ensures forall i :: 0 <= i < |m| ==> |r[i]| == |m[i]|
    ensures forall i, j :: 0 <= i < |m| && 0 <= j < |m[i]| ==> r[i][j] == h(m[i][j])
  {
    seq(|m|, i requires 0 <= i < |m| => seq(|m[i]|, j requires 0 <= j < |m[i]| => h(m[i][j])))
  }

  /** numpy's `a * b` on two complex arrays of one shape. */
  function Hadamard(a: Matrix<Complex>, b: Matrix<Complex>): (r: Matrix<Complex>)
    requires IsSquare(a, |a|) && IsSquare(b, |a|)
    ensures IsSquare(r, |a|)
    ensures forall i, j :: 0 <= i < |a| && 0 <= j < |a| ==> r[i][j] == Mul(a[i][j], b[i][j])
  {
    seq(|a|, i requires 0 <= i < |a| => seq(|a|, j requires 0 <= j < |a| => Mul(a[i][j], b[i][j])))
  }

  /** numpy's `c * a` for a real scalar c. */
  function ScaleM(c: real, m: Matrix<Complex>): (r: Matrix<Complex>)
    ensures |r| == |m|
    ensures forall i :: 0 <= i < |m| ==> |r[i]| == |m[i]|
    ensures forall i, j :: 0 <= i < |m| && 0 <= j < |m[i]| ==> r[i][j] == Scale(c, m[i][j])
  {
    seq(|m|, i requires 0 <= i < |m| => seq(|m[i]|, j requires 0 <= j < |m[i]| => Scale(c, m[i][j])))
  }

  /** A real array promoted to a complex one. */
  function Lift(m: Matrix<real>): (r: Matrix<Complex>)
    ensures |r| == |m|
    ensures forall i :: 0 <= i < |m| ==> |r[i]| == |m[i]|
    ensures forall i, j :: 0 <= i < |m| && 0 <= j < |m[i]| ==> r[i][j] == FromReal(m[i][j])
  {
    MapM(m, FromReal)
  }

  /** Two n-by-n matrices with equal entries are equal. */
  lemma SquareExt<T>(a: Matrix<T>, b: Matrix<T>, n: nat)
    requires IsSquare(a, n) && IsSquare(b, n)
    requires forall i, j :: 0 <= i < n && 0 <= j < n ==> a[i][j] == b[i][j]
    ensures a == b
  {
    forall i | 0 <= i < n
      ensures a[i] == b[i]
    {
    }
  }

  lemma ScaleMScaleM(a: real, b: real, m: Matrix<Complex>)
    ensures ScaleM(a, ScaleM(b, m)) == ScaleM(a * b, m)
  {
    forall i | 0 <= i < |m|
      ensures ScaleM(a, ScaleM(b, m))[i] == ScaleM(a * b, m)[i]
    {
      forall j | 0 <= j < |m[i]|
        ensures ScaleM(a, ScaleM(b, m))[i][j] == ScaleM(a * b, m)[i][j]
      {
        ScaleScale(a, b, m[i][j]);
      }
    }
  }

  lemma ScaleMOne(m: Matrix<Complex>)
    ensures ScaleM(1.0, m) == m
  {
    forall i | 0 <= i < |m|
      ensures ScaleM(1.0, m)[i] == m[i]
    {
    }
  }

  /** Elementwise products may be regrouped. */
  lemma HadamardAssoc(a: Matrix<Complex>, b: Matrix<Complex>, c: Matrix<Complex>)
    requires IsSquare(a, |a|) && IsSquare(b, |a|) && IsSquare(c, |a|)
    ensures Hadamard(Hadamard(a, b), c) == Hadamard(a, Hadamard(b, c))
  {
    forall i | 0 <= i < |a|
      ensures Hadamard(Hadamard(a, b), c)[i] == Hadamard(a, Hadamard(b, c))[i]
    {
      forall j | 0 <= j < |a|
        ensures Hadamard(Hadamard(a, b), c)[i][j] == Hadamard(a, Hadamard(b, c))[i][j]
      {
        MulAssoc(a[i][j], b[i][j], c[i][j]);
      }
    }
  }

  /** Multiplying by an all-ones kernel changes nothing. */
  lemma HadamardOnes(a: Matrix<Complex>, k: Matrix<Complex>)
    requires IsSquare(a, |a|) && IsSquare(k, |a|)
    requires forall i, j :: 0 <= i < |a| && 0 <= j < |a| ==> k[i][j] == One
    ensures Hadamard(a, k) == a
  {
    forall i | 0 <= i < |a|
      ensures Hadamard(a, k)[i] == a[i]
    {
      forall j | 0 <= j < |a|
        ensures Hadamard(a, k)[i][j] == a[i][j]
      {
        MulOne(a[i][j]);
      }
    }
  }
}
