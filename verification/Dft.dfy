/**
  * The discrete Fourier transform as a plain sum, and the two facts about it that
  * a radix-2 step needs: the even/odd split and periodicity of the half transforms.
  */
module Dft {
  import opened Complexes

  /** x[0]*w^(0*k) + ... + x[n-1]*w^((n-1)*k). */
  function PartialSum(x: seq<Complex>, w: Complex, k: nat, n: nat): Complex
    requires n <= |x|
  {
    if n == 0 then ZERO else Add(PartialSum(x, w, k, n - 1), Mul(x[n - 1], Pow(w, (n - 1) * k)))
  }

  function Bin(x: seq<Complex>, w: Complex, k: nat): Complex {
    PartialSum(x, w, k, |x|)
  }

  /** The transform of x with respect to the root w: the specification of both FFTs. */
  function Transform(x: seq<Complex>, w: Complex): (y: seq<Complex>)
    ensures |y| == |x|
  {
    seq(|x|, k requires 0 <= k < |x| => Bin(x, w, k))
  }

  lemma RingStep(e: Complex, o: Complex, w: Complex, a: Complex, b: Complex, p: Complex)
    ensures Add(Add(Add(e, Mul(w, o)), Mul(a, p)), Mul(b, Mul(p, w))) ==
            Add(Add(e, Mul(a, p)), Mul(w, Add(o, Mul(b, p))))
  {
    MulDistributes(w, o, Mul(b, p));
    MulCommutative(w, Mul(b, p));
    MulAssociative(b, p, w);
  }

  lemma SumZero(a: Complex)
    ensures Add(ZERO, Mul(a, ZERO)) == ZERO
  {
  }

  /** The even/odd split of a sum of 2h terms, at any frequency k. */
  lemma {:induction false} SumSplits(x: seq<Complex>, e: seq<Complex>, o: seq<Complex>, w: Complex, k: nat, h: nat)
    requires |e| == |o| && |x| == 2 * |e| && h <= |e|
    requires forall t :: 0 <= t < |e| ==> e[t] == x[2 * t] && o[t] == x[2 * t + 1]
    ensures PartialSum(x, w, k, 2 * h) ==
            Add(PartialSum(e, Pow(w, 2), k, h), Mul(Pow(w, k), PartialSum(o, Pow(w, 2), k, h)))
  {
    hide Mul, Add, Pow;
    if h == 0 {
      assert ZERO == Add(ZERO, Mul(Pow(w, k), ZERO)) by { SumZero(Pow(w, k)); }
    } else {
      var g := h - 1;
      SumSplits(x, e, o, w, k, g);
      var p := Pow(w, (2 * g) * k);
      assert (2 * g) * k == 2 * (g * k);
      PowPow(w, 2, g * k);
      assert (2 * g + 1) * k == (2 * g) * k + k;
      PowSum(w, (2 * g) * k, k);
      RingStep(PartialSum(e, Pow(w, 2), k, g), PartialSum(o, Pow(w, 2), k, g), Pow(w, k), e[g], o[g], p);
      assert PartialSum(x, w, k, 2 * g + 1) == Add(PartialSum(x, w, k, 2 * g), Mul(x[2 * g], p));
      assert PartialSum(x, w, k, 2 * h) ==
        Add(PartialSum(x, w, k, 2 * g + 1), Mul(x[2 * g + 1], Pow(w, (2 * g + 1) * k)));
    }
  }

  /** If v^h == 1, frequencies k and k+h of a v-transform agree. */
  lemma {:induction false} SumPeriodic(x: seq<Complex>, v: Complex, k: nat, h: nat, n: nat)
    requires n <= |x| && Pow(v, h) == ONE
    ensures PartialSum(x, v, k + h, n) == PartialSum(x, v, k, n)
  {
    hide Mul, Add;
    if n != 0 {
      SumPeriodic(x, v, k, h, n - 1);
      var j := n - 1;
      assert j * (k + h) == j * k + h * j;
      PowSum(v, j * k, h * j);
      PowPow(v, h, j);
      PowOfOne(j);
      MulOne(Pow(v, j * k));
    }
  }

  lemma MinusOneSquared()
    ensures Mul(MINUS_ONE, MINUS_ONE) == ONE
  {
  }

  /** One butterfly: both halves of a transform of size 2h from the two transforms of size h. */
  lemma CooleyTukey(x: seq<Complex>, e: seq<Complex>, o: seq<Complex>, w: Complex, k: nat)
    requires |e| == |o| && |x| == 2 * |e| && k < |e|
    requires forall t :: 0 <= t < |e| ==> e[t] == x[2 * t] && o[t] == x[2 * t + 1]
    requires Pow(w, |e|) == MINUS_ONE
    ensures Bin(x, w, k) == Add(Bin(e, Pow(w, 2), k), Mul(Pow(w, k), Bin(o, Pow(w, 2), k)))
    ensures Bin(x, w, k + |e|) == Sub(Bin(e, Pow(w, 2), k), Mul(Pow(w, k), Bin(o, Pow(w, 2), k)))
  {
    hide Mul, Add, Sub;
    var h := |e|;
    SumSplits(x, e, o, w, k, h);
    SumSplits(x, e, o, w, k + h, h);
    assert Pow(Pow(w, 2), h) == ONE by {
      PowPow(w, 2, h);
      PowPow(w, h, 2);
      assert 2 * h == h * 2;
      PowTwo(MINUS_ONE);
      MinusOneSquared();
    }
    SumPeriodic(e, Pow(w, 2), k, h, h);
    SumPeriodic(o, Pow(w, 2), k, h, h);
    PowSum(w, k, h);
    AddMinus(Bin(e, Pow(w, 2), k), Pow(w, k), Bin(o, Pow(w, 2), k));
  }

  /** The sum for two terms, spelled out. */
  lemma BinOfTwo(a: Complex, b: Complex, w: Complex, k: nat)
    ensures Bin([a, b], w, k) == Add(a, Mul(b, Pow(w, k)))
  {
    var x := [a, b];
    assert PartialSum(x, w, k, 1) == Add(ZERO, Mul(a, Pow(w, 0)));
    assert PartialSum(x, w, k, 2) == Add(PartialSum(x, w, k, 1), Mul(b, Pow(w, k)));
  }
}
