// Complex numbers over the mathematical reals: the entries of the
// tight-binding Hamiltonian (numpy's dtype=complex, without rounding).
module ComplexNumbers {

  datatype Complex = Complex(re: real, im: real)

  const Zero: Complex := Complex(0.0, 0.0)
  const One: Complex := Complex(1.0, 0.0)

  /** A real number seen as a complex number with no imaginary part. */
  function Real(x: real): Complex {
    Complex(x, 0.0)
  }

  function Add(z: Complex, w: Complex): Complex {
    Complex(z.re + w.re, z.im + w.im)
  }

  function Neg(z: Complex): Complex {
    Complex(-z.re, -z.im)
  }

  function Mul(z: Complex, w: Complex): Complex {
    Complex(z.re * w.re - z.im * w.im, z.re * w.im + z.im * w.re)
  }

  function Conj(z: Complex): Complex {
    Complex(z.re, -z.im)
  }

  /** Conjugation commutes with a real scaling and a real shift: conj(x + y*w) == x + y*conj(w). */
  lemma ConjRealAffine(x: real, y: real, w: Complex)
    ensures Conj(Add(Real(x), Mul(Real(y), w))) == Add(Real(x), Mul(Real(y), Conj(w)))
  {
  }
}
