/** Exact complex numbers and the ring laws the two FFTs rely on. */
module Complexes {
  datatype Complex = Complex(re: real, im: real)

  const ZERO := Complex(0.0, 0.0)
  const ONE := Complex(1.0, 0.0)
  const MINUS_ONE := Complex(-1.0, 0.0)

  function Add(a: Complex, b: Complex): Complex {
    Complex(a.re + b.re, a.im + b.im)
  }

  function Sub(a: Complex, b: Complex): Complex {
    Complex(a.re - b.re, a.im - b.im)
  }

  function Mul(a: Complex, b: Complex): Complex {
    Complex(a.re * b.re - a.im * b.im, a.re * b.im + a.im * b.re)
  }

  /** The power w^k. */
  function Pow(w: Complex, k: nat): Complex {
    if k == 0 then ONE else Mul(Pow(w, k - 1), w)
  }

  lemma MulAssociative(a: Complex, b: Complex, c: Complex)
    ensures Mul(Mul(a, b), c) == Mul(a, Mul(b, c))
  {
  }

  lemma MulCommutative(a: Complex, b: Complex)
    ensures Mul(a, b) == Mul(b, a)
  {
  }

  lemma MulDistributes(a: Complex, b: Complex, c: Complex)
    ensures Mul(a, Add(b, c)) == Add(Mul(a, b), Mul(a, c))
  {
  }

  lemma MulOne(a: Complex)
    ensures Mul(a, ONE) == a && Mul(ONE, a) == a
  {
  }

  lemma AddMinus(a: Complex, b: Complex, c: Complex)
    ensures Add(a, Mul(Mul(b, MINUS_ONE), c)) == Sub(a, Mul(b, c))
  {
  }

  lemma PowTwo(w: Complex)
    ensures Pow(w, 2) == Mul(w, w)
  {
    hide Mul;
    assert Pow(w, 1) == Mul(Pow(w, 0), w);
    MulOne(w);
  }

  // The proofs below treat Mul as an unknown operation with the laws above: its
  // definition in reals would only distract the solver.

  lemma {:induction false} PowSum(w: Complex, a: nat, b: nat)
    ensures Pow(w, a + b) == Mul(Pow(w, a), Pow(w, b))
  {
    hide Mul;
    if b == 0 {
      MulOne(Pow(w, a));
    } else {
      PowSum(w, a, b - 1);
      MulAssociative(Pow(w, a), Pow(w, b - 1), w);
    }
  }

  lemma {:induction false} PowOfOne(k: nat)
    ensures Pow(ONE, k) == ONE
  {
    hide Mul;
    if k != 0 {
      PowOfOne(k - 1);
      MulOne(ONE);
    }
  }

  lemma {:induction false} PowPow(w: Complex, a: nat, b: nat)
    ensures Pow(w, a * b) == Pow(Pow(w, a), b)
  {
    hide Mul;
    if b == 0 {
      assert a * b == 0;
    } else {
      PowPow(w, a, b - 1);
      assert a * b == a * (b - 1) + a;
      PowSum(w, a * (b - 1), a);
    }
  }

  /** i squared is -1, and first powers are the number itself. */
  lemma ImaginaryUnit(w: Complex)
    ensures Mul(Complex(0.0, 1.0), Complex(0.0, 1.0)) == Complex(-1.0, 0.0) == MINUS_ONE
    ensures Pow(w, 0) == Complex(1.0, 0.0) && Pow(w, 1) == w
  {
    assert Pow(w, 1) == Mul(Pow(w, 0), w);
  }
}
