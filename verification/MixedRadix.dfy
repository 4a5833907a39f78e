/** The recursive mixed-radix FFT with its tight 2N input and 8N output buffers. */
module MixedRadix {
  import opened Complexes
  import opened Arith
  import Dft

  /** Table entry i as the twiddle cos - i*sin that both routines read from the two tables. */
  function Twiddle(cosLut: seq<real>, sinLut: seq<real>, i: nat): Complex
    requires i < |cosLut| == |sinLut|
  {
    Complex(cosLut[i], -sinLut[i])
  }

  /** What the construction of the tables provides. */
  ghost predicate LutLaws(cosLut: seq<real>, sinLut: seq<real>): (b: bool)
    ensures b ==> 0 < |cosLut| == |sinLut|
  {
    var l := |cosLut|;
    && l > 0 && |sinLut| == l
    && Twiddle(cosLut, sinLut, 0) == ONE
    && (forall i, j :: 0 <= i < l && 0 <= j < l ==>
      Mul(Twiddle(cosLut, sinLut, i), Twiddle(cosLut, sinLut, j)) == Twiddle(cosLut, sinLut, (i + j) % l))
    && (l % 2 == 0 ==> Twiddle(cosLut, sinLut, l / 2) == MINUS_ONE)
  }

  function Root(cosLut: seq<real>, sinLut: seq<real>): Complex
    requires 0 < |cosLut| == |sinLut|
  {
    Twiddle(cosLut, sinLut, 1 % |cosLut|)
  }

  /** The root of unity of a transform of size n that divides the table size. */
  function RootOf(cosLut: seq<real>, sinLut: seq<real>, n: nat): Complex
    requires n > 0 && 0 < |cosLut| == |sinLut|
  {
    Pow(Root(cosLut, sinLut), |cosLut| / n)
  }

  /** Reading the table at i modulo its size is taking the i-th power of its root. */
  lemma {:induction false} TableIsPower(cosLut: seq<real>, sinLut: seq<real>, i: nat)
    requires LutLaws(cosLut, sinLut)
    ensures Twiddle(cosLut, sinLut, i % |cosLut|) == Pow(Root(cosLut, sinLut), i)
  {
    hide Mul;
    var l := |cosLut|;
    if i != 0 {
      TableIsPower(cosLut, sinLut, i - 1);
      var a := (i - 1) % l;
      assert (a + 1 % l) % l == i % l by {
        ModStep(i - 1, l);
      }
    }
  }

  lemma ModStep(i: nat, l: nat)
    requires l > 0
    ensures (i % l + 1 % l) % l == (i + 1) % l
  {
    ModAdd(1, i % l, l);
    assert (1 % l + i % l) % l == (1 + i % l) % l;
    ModAdd(i, 1, l);
  }

  /** Reading the table at (k*n*stride) modulo its size gives the twiddle of term n at frequency k. */
  lemma TableAt(cosLut: seq<real>, sinLut: seq<real>, size: nat, i: nat)
    requires LutLaws(cosLut, sinLut) && size > 0
    ensures Twiddle(cosLut, sinLut, (i * (|cosLut| / size)) % |cosLut|) == Pow(RootOf(cosLut, sinLut, size), i)
  {
    hide Mul, Pow, LutLaws;
    var stride := |cosLut| / size;
    TableIsPower(cosLut, sinLut, i * stride);
    assert i * stride == stride * i;
    PowPow(Root(cosLut, sinLut), stride, i);
  }

  /** Halving an even size: the root is squared, and its half power is -1. */
  lemma RootHalves(cosLut: seq<real>, sinLut: seq<real>, h: nat)
    requires LutLaws(cosLut, sinLut) && h > 0 && |cosLut| % (2 * h) == 0
    ensures |cosLut| % h == 0
    ensures Pow(RootOf(cosLut, sinLut, 2 * h), 2) == RootOf(cosLut, sinLut, h)
    ensures Pow(RootOf(cosLut, sinLut, 2 * h), h) == MINUS_ONE
  {
    hide Mul;
    var l := |cosLut|;
    var root := Root(cosLut, sinLut);
    var s := l / (2 * h);
    assert l == s * (2 * h);
    Double(s, h);
    DivModUnique(l, h, 2 * s, 0);
    PowPow(root, s, 2);
    assert s * 2 == 2 * s;
    PowPow(root, s, h);
    DivModUnique(l, 2, s * h, 0);
    TableIsPower(cosLut, sinLut, s * h);
    DivModUnique(s * h, l, 0, s * h);
  }

  /** Complex cell k of the output region that starts at off. */
  ghost function Cell(out: seq<real>, off: nat, k: nat): Complex
    requires off + 2 * k + 1 < |out|
  {
    Complex(out[off + 2 * k], out[off + 2 * k + 1])
  }

  function Reals(x: seq<real>): (z: seq<Complex>)
    ensures |z| == |x| && forall i :: 0 <= i < |x| ==> z[i] == Complex(x[i], 0.0)
  {
    seq(|x|, i requires 0 <= i < |x| => Complex(x[i], 0.0))
  }

  /** The first |x| cells from off hold the transform of the real sequence x. */
  ghost predicate Transformed(out: seq<real>, off: nat, x: seq<real>, w: Complex) {
    off + 2 * |x| <= |out| &&
    forall k :: 0 <= k < |x| ==> Cell(out, off, k) == Dft.Bin(Reals(x), w, k)
  }

  /** out and was agree except possibly on [lo, hi). */
  ghost predicate SameOutside(out: seq<real>, was: seq<real>, lo: nat, hi: nat) {
    |out| == |was| && forall p :: 0 <= p < |out| && !(lo <= p < hi) ==> out[p] == was[p]
  }

  lemma SliceKept(out: seq<real>, was: seq<real>, lo: nat, hi: nat, from: nat, to: nat)
    requires SameOutside(out, was, lo, hi) && from <= to <= |out| && (hi <= from || to <= lo)
    ensures out[from..to] == was[from..to]
  {
  }

  lemma SameOutsideChain(out: seq<real>, mid: seq<real>, was: seq<real>, a: nat, b: nat, c: nat, d: nat,
                         lo: nat, hi: nat)
    requires SameOutside(out, mid, a, b) && SameOutside(mid, was, c, d)
    requires lo <= a && b <= hi && lo <= c && d <= hi
    ensures SameOutside(out, was, lo, hi)
  {
  }

  lemma TransformedKept(out: seq<real>, was: seq<real>, off: nat, x: seq<real>, w: Complex, lo: nat, hi: nat)
    requires Transformed(was, off, x, w) && SameOutside(out, was, lo, hi)
    requires hi <= off || off + 2 * |x| <= lo
    ensures Transformed(out, off, x, w)
  {
    hide Dft.Bin, Reals;
    forall k | 0 <= k < |x| ensures Cell(out, off, k) == Cell(was, off, k) {}
  }

  lemma TermAdds(re: real, im: real, a: real, c: real, s: real)
    ensures Complex(re + a * c, im - a * s) == Add(Complex(re, im), Mul(Complex(a, 0.0), Complex(c, -s)))
  {
    assert a * (-s) == -(a * s);
    assert Mul(Complex(a, 0.0), Complex(c, -s)) == Complex(a * c, -(a * s));
  }

  /** One output bin of the naive transform. */
  method NaiveBin(inp: array<real>, io: nat, size: nat, k: nat, cosLut: seq<real>, sinLut: seq<real>)
    returns (re: real, im: real)
    requires LutLaws(cosLut, sinLut) && size > 0 && io + size <= inp.Length
    ensures Complex(re, im) == Dft.Bin(Reals(inp[io..io + size]), RootOf(cosLut, sinLut, size), k)
  {
    hide Mul, Add, Pow, LutLaws, RootOf, Twiddle;
    var stride := |cosLut| / size;
    ghost var x := Reals(inp[io..io + size]);
    ghost var w := RootOf(cosLut, sinLut, size);
    re, im := 0.0, 0.0;
    for n := 0 to size
      invariant Complex(re, im) == Dft.PartialSum(x, w, k, n)
    {
      var idx := TableIndex(cosLut, sinLut, size, k, n);
      TermAdds(re, im, inp[io + n], cosLut[idx], sinLut[idx]);
      re := re + inp[io + n] * cosLut[idx];
      im := im - inp[io + n] * sinLut[idx];
    }
  }

  function TableIndex(cosLut: seq<real>, sinLut: seq<real>, size: nat, k: nat, n: nat): (idx: nat)
    requires LutLaws(cosLut, sinLut) && size > 0
    ensures idx < |cosLut| == |sinLut|
    ensures Complex(cosLut[idx], -sinLut[idx]) == Pow(RootOf(cosLut, sinLut, size), n * k)
  {
    TableAt(cosLut, sinLut, size, n * k);
    assert k * n == n * k;
    (k * n * (|cosLut| / size)) % |cosLut|
  }

  /** The O(N^2) leaf used for odd sizes. */
  method DftNaive(inp: array<real>, io: nat, size: nat, cosLut: seq<real>, sinLut: seq<real>, out: array<real>, oo: nat)
    requires LutLaws(cosLut, sinLut) && size > 0 && inp != out
    requires io + size <= inp.Length && oo + 2 * size <= out.Length
    modifies out
    ensures Transformed(out[..], oo, inp[io..io + size], RootOf(cosLut, sinLut, size))
    ensures SameOutside(out[..], old(out[..]), oo, oo + 2 * size)
  {
    hide LutLaws, RootOf, Dft.Bin, Reals;
    ghost var x := inp[io..io + size];
    ghost var w := RootOf(cosLut, sinLut, size);
    for k := 0 to size
      invariant forall j :: 0 <= j < k ==> Cell(out[..], oo, j) == Dft.Bin(Reals(x), w, j)
      invariant SameOutside(out[..], old(out[..]), oo, oo + 2 * k)
    {
      out[oo + 2 * k], out[oo + 2 * k + 1] := NaiveBin(inp, io, size, k, cosLut, sinLut);
    }
  }

  /** Buffer sizes of the contract: 2N cells of input (second half scratch), 8N of output. */
  ghost predicate Buffers(inp: array<real>, io: nat, size: nat, out: array<real>, oo: nat) {
    inp != out && io + 2 * size <= inp.Length && oo + 8 * size <= out.Length
  }

  /** half holds the entries of x at even (parity 0) or odd (parity 1) positions. */
  ghost predicate HalfOf(half: seq<real>, x: seq<real>, parity: nat) {
    parity < 2 && |x| == 2 * |half| && forall i :: 0 <= i < |half| ==> half[i] == x[2 * i + parity]
  }

  /** Copy every second input into the scratch half, starting at parity. */
  method Scatter(inp: array<real>, io: nat, half: nat, parity: nat)
    requires io + 4 * half <= inp.Length && parity < 2
    modifies inp
    ensures SameOutside(inp[..], old(inp[..]), io + 2 * half, io + 3 * half)
    ensures HalfOf(inp[io + 2 * half..io + 3 * half], old(inp[io..io + 2 * half]), parity)
  {
    for i := 0 to half
      invariant SameOutside(inp[..], old(inp[..]), io + 2 * half, io + 2 * half + i)
      invariant forall j :: 0 <= j < i ==> inp[io + 2 * half + j] == old(inp[io + 2 * j + parity])
    {
      inp[io + 2 * half + i] := inp[io + 2 * i + parity];
    }
  }

  lemma ButterflyCells(e: Complex, o: Complex, w: Complex)
    ensures Complex(e.re + w.re * o.re - w.im * o.im, e.im + w.re * o.im + w.im * o.re) == Add(e, Mul(w, o))
    ensures Complex(e.re - w.re * o.re + w.im * o.im, e.im - w.re * o.im - w.im * o.re) == Sub(e, Mul(w, o))
  {
    var p := Mul(w, o);
    assert p.re == w.re * o.re - w.im * o.im && p.im == w.re * o.im + w.im * o.re;
  }

  /** One butterfly: reads bin k of both half transforms, writes bins k and k + h of the result. */
  method CombineBin(out: array<real>, oo: nat, h: nat, k: nat, w: Complex)
    requires k < h && oo + 8 * h <= out.Length
    modifies out
    ensures SameOutside(out[..], old(out[..]), oo, oo + 4 * h)
    ensures var e, o := Cell(old(out[..]), oo + 4 * h, k), Cell(old(out[..]), oo + 6 * h, k);
      Cell(out[..], oo, k) == Add(e, Mul(w, o)) && Cell(out[..], oo, k + h) == Sub(e, Mul(w, o))
    ensures forall j :: 0 <= j < 2 * h && j != k && j != k + h ==> Cell(out[..], oo, j) == Cell(old(out[..]), oo, j)
  {
    hide Mul, Add, Sub;
    var e_re, e_im := out[oo + 4 * h + 2 * k], out[oo + 4 * h + 2 * k + 1];
    var o_re, o_im := out[oo + 6 * h + 2 * k], out[oo + 6 * h + 2 * k + 1];
    ButterflyCells(Complex(e_re, e_im), Complex(o_re, o_im), w);
    out[oo + 2 * k] := e_re + w.re * o_re - w.im * o_im;
    out[oo + 2 * k + 1] := e_im + w.re * o_im + w.im * o_re;
    out[oo + 2 * (k + h)] := e_re - w.re * o_re + w.im * o_im;
    out[oo + 2 * (k + h) + 1] := e_im - w.re * o_im - w.im * o_re;
  }

  /** The butterflies step through the first half turn of the table, so the index needs no reduction. */
  lemma HalfTurnIndex(cosLut: seq<real>, sinLut: seq<real>, h: nat, k: nat)
    requires LutLaws(cosLut, sinLut) && k < h && |cosLut| % (2 * h) == 0
    ensures 0 <= k * (|cosLut| / (2 * h)) < |cosLut| == |sinLut|
    ensures Twiddle(cosLut, sinLut, k * (|cosLut| / (2 * h))) == Pow(RootOf(cosLut, sinLut, 2 * h), k)
  {
    hide LutLaws, Pow, RootOf, Twiddle;
    var step := |cosLut| / (2 * h);
    assert |cosLut| == step * (2 * h);
    assert step > 0;
    RowEnd(k, 2 * h, step);
    assert step * (2 * h) == 2 * h * step;
    DivModUnique(k * step, |cosLut|, 0, k * step);
    TableAt(cosLut, sinLut, 2 * h, k);
  }

  /** The final butterflies: even and odd half transforms at oo + 4h and oo + 6h, result at oo. */
  method Combine(out: array<real>, oo: nat, h: nat, cosLut: seq<real>, sinLut: seq<real>,
                 ghost x: seq<real>, ghost e: seq<real>, ghost o: seq<real>)
    requires LutLaws(cosLut, sinLut) && h > 0 && |cosLut| % (2 * h) == 0 && oo + 16 * h <= out.Length
    requires |x| == 2 * h && HalfOf(e, x, 0) && HalfOf(o, x, 1)
    requires Transformed(out[..], oo + 4 * h, e, RootOf(cosLut, sinLut, h))
    requires Transformed(out[..], oo + 6 * h, o, RootOf(cosLut, sinLut, h))
    modifies out
    ensures Transformed(out[..], oo, x, RootOf(cosLut, sinLut, 2 * h))
    ensures SameOutside(out[..], old(out[..]), oo, oo + 4 * h)
  {
    hide Mul, Add, Sub, LutLaws, RootOf, Dft.Bin, Pow;
    ghost var w := RootOf(cosLut, sinLut, 2 * h);
    RootHalves(cosLut, sinLut, h);
    var step := |cosLut| / (2 * h);
    for k := 0 to h
      invariant forall j :: 0 <= j < 2 * h && (j < k || h <= j < h + k) ==>
        Cell(out[..], oo, j) == Dft.Bin(Reals(x), w, j)
      invariant SameOutside(out[..], old(out[..]), oo, oo + 4 * h)
    {
      HalfTurnIndex(cosLut, sinLut, h, k);
      var idx := k * step;
      Dft.CooleyTukey(Reals(x), Reals(e), Reals(o), w, k);
      assert Cell(out[..], oo + 4 * h, k) == Cell(old(out[..]), oo + 4 * h, k);
      assert Cell(out[..], oo + 6 * h, k) == Cell(old(out[..]), oo + 6 * h, k);
      CombineBin(out, oo, h, k, Complex(cosLut[idx], -sinLut[idx]));
    }
  }

  lemma SizeOne(cosLut: seq<real>, sinLut: seq<real>, a: real)
    requires LutLaws(cosLut, sinLut)
    ensures Dft.Bin(Reals([a]), RootOf(cosLut, sinLut, 1), 0) == Complex(a, 0.0)
  {
    var w := RootOf(cosLut, sinLut, 1);
    assert Dft.PartialSum(Reals([a]), w, 0, 1) == Add(ZERO, Mul(Complex(a, 0.0), Pow(w, 0)));
  }

  /** The cells of a transform: real part, then imaginary part. */
  lemma TransformedCells(out: seq<real>, off: nat, x: seq<real>, w: Complex)
    requires Transformed(out, off, x, w)
    ensures forall k :: 0 <= k < |x| ==>
      out[off + 2 * k] == Dft.Bin(Reals(x), w, k).re && out[off + 2 * k + 1] == Dft.Bin(Reals(x), w, k).im
  {
    hide Dft.Bin, Reals;
    forall k | 0 <= k < |x|
      ensures out[off + 2 * k] == Dft.Bin(Reals(x), w, k).re && out[off + 2 * k + 1] == Dft.Bin(Reals(x), w, k).im
    {
      assert Cell(out, off, k) == Dft.Bin(Reals(x), w, k);
    }
  }

  /** The transform lands in the first 2N output cells; the N inputs and everything outside the buffers survive. */
  method MixedRadixFft(inp: array<real>, io: nat, size: nat, cosLut: seq<real>, sinLut: seq<real>,
                       out: array<real>, oo: nat)
    requires LutLaws(cosLut, sinLut) && size > 0 && |cosLut| % size == 0 && Buffers(inp, io, size, out, oo)
    modifies inp, out
    ensures Transformed(out[..], oo, old(inp[io..io + size]), RootOf(cosLut, sinLut, size))
    ensures SameOutside(inp[..], old(inp[..]), io + size, io + 2 * size)
    ensures SameOutside(out[..], old(out[..]), oo, oo + 8 * size)
    ensures var x, w := Reals(old(inp[io..io + size])), RootOf(cosLut, sinLut, size);
      forall k :: 0 <= k < size ==>
        out[oo + 2 * k] == Dft.Bin(x, w, k).re && out[oo + 2 * k + 1] == Dft.Bin(x, w, k).im
    decreases size, 1
  {
    hide LutLaws, RootOf, Dft.Bin, Reals, Transformed;
    ghost var x := inp[io..io + size];
    if size == 1 {
      out[oo] := inp[io];
      out[oo + 1] := 0.0;
      TransformedOne(out[..], oo, x, cosLut, sinLut);
      TransformedCells(out[..], oo, x, RootOf(cosLut, sinLut, size));
      return;
    }
    if size % 2 == 1 {
      DftNaive(inp, io, size, cosLut, sinLut, out, oo);
      TransformedCells(out[..], oo, x, RootOf(cosLut, sinLut, size));
      return;
    }
    MixedRadixHalves(inp, io, size, cosLut, sinLut, out, oo);
    TransformedCells(out[..], oo, x, RootOf(cosLut, sinLut, size));
  }

  /** The even case: transform the even entries, then the odd ones through the same scratch, then combine. */
  method MixedRadixHalves(inp: array<real>, io: nat, size: nat, cosLut: seq<real>, sinLut: seq<real>,
                          out: array<real>, oo: nat)
    requires LutLaws(cosLut, sinLut) && size > 0 && |cosLut| % size == 0 && Buffers(inp, io, size, out, oo)
    requires size % 2 == 0
    modifies inp, out
    ensures Transformed(out[..], oo, old(inp[io..io + size]), RootOf(cosLut, sinLut, size))
    ensures SameOutside(inp[..], old(inp[..]), io + size, io + 2 * size)
    ensures SameOutside(out[..], old(out[..]), oo, oo + 8 * size)
    decreases size, 0
  {
    hide LutLaws, RootOf, Dft.Bin, Reals, Transformed, HalfOf, SameOutside;
    ghost var x := inp[io..io + size];
    var half := size / 2;
    assert size == 2 * half;
    RootHalves(cosLut, sinLut, half);
    ghost var i0, o0 := inp[..], out[..];
    ghost var e := HalfTransform(inp, io, half, 0, cosLut, sinLut, out, oo + 4 * half);
    ghost var i1, o1 := inp[..], out[..];
    SliceKept(i1, i0, io + 2 * half, io + 4 * half, io, io + 2 * half);
    ghost var o := HalfTransform(inp, io, half, 1, cosLut, sinLut, out, oo + 6 * half);
    ghost var o2 := out[..];
    SameOutsideChain(inp[..], i1, i0, io + 2 * half, io + 4 * half, io + 2 * half, io + 4 * half,
                     io + 2 * half, io + 4 * half);
    TransformedKept(o2, o1, oo + 4 * half, e, RootOf(cosLut, sinLut, half), oo + 6 * half, oo + 14 * half);
    SameOutsideChain(o2, o1, o0, oo + 6 * half, oo + 14 * half, oo + 4 * half, oo + 12 * half, oo, oo + 16 * half);
    Combine(out, oo, half, cosLut, sinLut, x, e, o);
    SameOutsideChain(out[..], o2, o0, oo, oo + 4 * half, oo, oo + 16 * half, oo, oo + 16 * half);
  }

  /** Copy the entries of one parity into the scratch half and transform them into their own output region. */
  method HalfTransform(inp: array<real>, io: nat, half: nat, parity: nat, cosLut: seq<real>, sinLut: seq<real>,
                       out: array<real>, oo: nat) returns (ghost part: seq<real>)
    requires LutLaws(cosLut, sinLut) && half > 0 && |cosLut| % half == 0 && parity < 2
    requires inp != out && io + 4 * half <= inp.Length && oo + 8 * half <= out.Length
    modifies inp, out
    ensures HalfOf(part, old(inp[io..io + 2 * half]), parity)
    ensures |part| == half && Transformed(out[..], oo, part, RootOf(cosLut, sinLut, half))
    ensures SameOutside(inp[..], old(inp[..]), io + 2 * half, io + 4 * half)
    ensures SameOutside(out[..], old(out[..]), oo, oo + 8 * half)
    decreases half, 2
  {
    hide LutLaws, RootOf, Dft.Bin, Reals, Transformed, HalfOf, SameOutside;
    ghost var i0 := inp[..];
    Scatter(inp, io, half, parity);
    ghost var i1 := inp[..];
    part := inp[io + 2 * half..io + 3 * half];
    MixedRadixFft(inp, io + 2 * half, half, cosLut, sinLut, out, oo);
    SameOutsideChain(inp[..], i1, i0, io + 3 * half, io + 4 * half, io + 2 * half, io + 3 * half,
                     io + 2 * half, io + 4 * half);
  }

  lemma TransformedOne(out: seq<real>, off: nat, x: seq<real>, cosLut: seq<real>, sinLut: seq<real>)
    requires LutLaws(cosLut, sinLut) && |x| == 1 && off + 2 <= |out| && out[off] == x[0] && out[off + 1] == 0.0
    ensures Transformed(out, off, x, RootOf(cosLut, sinLut, 1))
  {
    hide LutLaws, RootOf, Dft.Bin;
    SizeOne(cosLut, sinLut, x[0]);
    assert x == [x[0]];
  }
}
