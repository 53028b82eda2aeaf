/** The complex numbers the frequency-domain program computes with
    (`std::complex<double>`), idealised over Dafny's exact `real`: the
    model states what the arithmetic means, not how doubles round it. */
module ComplexNumbers {

  datatype Complex = Complex(re: real, im: real)

  const Zero := Complex(0.0, 0.0)
  const One := Complex(1.0, 0.0)
  /** The imaginary unit `1i`. */
  const I := Complex(0.0, 1.0)

  function Add(a: Complex, b: Complex): Complex {
    Complex(a.re + b.re, a.im + b.im)
  }

  function Sub(a: Complex, b: Complex): Complex {
    Complex(a.re - b.re, a.im - b.im)
  }

  function Mul(a: Complex, b: Complex): Complex {
    Complex(a.re * b.re - a.im * b.im, a.re * b.im + a.im * b.re)
  }

  /** A complex value times a real one. */
  function Scale(a: Complex, r: real): Complex {
    Complex(a.re * r, a.im * r)
  }

  /** A complex value divided by a non-zero real one. */
  function DivReal(a: Complex, r: real): Complex
    requires r != 0.0
  {
    Complex(a.re / r, a.im / r)
  }

  function Conj(a: Complex): Complex {
    Complex(a.re, -a.im)
  }

  /** `1i * conj(z)`: the product exchanges the real and the imaginary part,
      so applying it twice gives `z` back. */
  function SwapParts(z: Complex): (w: Complex)
    ensures w.re == z.im && w.im == z.re
  {
    Mul(I, Conj(z))
  }

  /** The sum of a sequence of complex values, left to right. */
  function Sum(xs: seq<Complex>): Complex {
    if xs == [] then Zero else Add(Sum(xs[..|xs| - 1]), xs[|xs| - 1])
  }
}
