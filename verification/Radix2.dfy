/** The in-place radix-2 FFT over interleaved (re, im) cells, and the padding size it is called with. */
module Radix2 {
  import opened Complexes
  import opened BitReversal
  import opened Arith
  import Dft

  /** unit(len) plays exp(-2*pi*i/len): only these laws are used. */
  ghost predicate RootFamily(unit: nat -> Complex) {
    && unit(1) == ONE
    && unit(2) == MINUS_ONE
    && forall len: nat :: len >= 1 ==> Mul(unit(2 * len), unit(2 * len)) == unit(len)
  }

  lemma {:induction false} HalfTurn(unit: nat -> Complex, len: nat)
    requires RootFamily(unit) && IsPow2(len)
    ensures Pow(unit(2 * len), len) == MINUS_ONE
    ensures Pow(unit(2 * len), 2) == unit(len)
  {
    hide Mul;
    PowTwo(unit(2 * len));
    if len == 1 {
      assert Pow(unit(2), 1) == Mul(Pow(unit(2), 0), unit(2));
      MulOne(unit(2));
    } else {
      HalfTurn(unit, len / 2);
      PowPow(unit(2 * len), 2, len / 2);
    }
  }

  ghost function At(data: array<real>, k: nat): Complex
    requires 2 * k + 1 < data.Length
    reads data
  {
    Complex(data[2 * k], data[2 * k + 1])
  }

  /** The complex numbers stored in the buffer. */
  ghost function View(data: array<real>): (v: seq<Complex>)
    requires data.Length % 2 == 0
    reads data
    ensures |v| == data.Length / 2
    ensures forall k :: 0 <= k < |v| ==> v[k] == At(data, k)
  {
    seq(data.Length / 2, k requires 0 <= k < data.Length / 2 reads data => At(data, k))
  }

  method Swap(data: array<real>, i: nat, j: nat)
    requires data.Length % 2 == 0 && i < data.Length / 2 && j < data.Length / 2
    modifies data
    ensures View(data) == old(View(data))[i := old(View(data))[j]][j := old(View(data))[i]]
  {
    data[2 * i], data[2 * j] := data[2 * j], data[2 * i];
    data[2 * i + 1], data[2 * j + 1] := data[2 * j + 1], data[2 * i + 1];
    assert forall k :: 0 <= k < data.Length / 2 && k != i && k != j ==> At(data, k) == old(At(data, k));
  }

  ghost predicate Reversed(y: seq<Complex>, x: seq<Complex>) {
    |y| == |x| && IsPow2(|x|) && forall k :: 0 <= k < |x| ==> y[k] == x[Rev(|x|, k)]
  }

  /** Position k is settled once k or its reversal has been visited. */
  ghost predicate PermutedUpTo(y: seq<Complex>, x: seq<Complex>, i: nat) {
    |y| == |x| && IsPow2(|x|) && forall k :: 0 <= k < |x| ==>
      y[k] == if k < i || Rev(|x|, k) < i then x[Rev(|x|, k)] else x[k]
  }

  lemma PermuteStep(y: seq<Complex>, x: seq<Complex>, i: nat, j: nat)
    requires PermutedUpTo(y, x, i) && i < |x| && j == Rev(|x|, i)
    ensures PermutedUpTo(if i < j then y[i := y[j]][j := y[i]] else y, x, i + 1)
  {
    hide IsPow2, Rev;
    forall k | 0 <= k < |x| ensures Rev(|x|, Rev(|x|, k)) == k { RevInvolution(|x|, k); }
  }

  lemma PermuteEnds(y: seq<Complex>, x: seq<Complex>)
    requires |y| == |x| && IsPow2(|x|)
    ensures Rev(|x|, 0) == 0 && (y == x ==> PermutedUpTo(y, x, 1))
    ensures PermutedUpTo(y, x, |x|) ==> Reversed(y, x)
  {
    hide IsPow2, Rev;
    RevOfZero(|x|);
    forall k | 0 <= k < |x| ensures Rev(|x|, Rev(|x|, k)) == k { RevInvolution(|x|, k); }
  }

  /** The permutation pass: data ends as the bit-reversed permutation of its input. */
  method PermuteBitReversed(data: array<real>, n: nat)
    requires IsPow2(n) && data.Length == 2 * n
    modifies data
    ensures Reversed(View(data), old(View(data)))
  {
    hide IsPow2, Rev, PermutedUpTo;
    ghost var x := View(data);
    PermuteEnds(View(data), x);
    var j := 0;
    for i := 1 to n
      invariant j == Rev(n, i - 1)
      invariant PermutedUpTo(View(data), x, i)
    {
      j := NextReversed(n, j, i);
      PermuteStep(View(data), x, i, j);
      if i < j {
        Swap(data, i, j);
      }
    }
    PermuteEnds(View(data), x);
  }

  lemma {:induction false} RevOfZero(n: nat)
    requires IsPow2(n)
    ensures Rev(n, 0) == 0
  {
    if n > 1 {
      RevOfZero(n / 2);
    }
  }

  /** One butterfly on cells a and b with twiddle w. */
  method Butterfly(data: array<real>, a: nat, b: nat, w: Complex)
    requires data.Length % 2 == 0 && a < b < data.Length / 2
    modifies data
    ensures View(data) == old(
      var u, v := View(data)[a], Mul(w, View(data)[b]);
      View(data)[a := Add(u, v)][b := Sub(u, v)])
  {
    var u_re, u_im := data[2 * a], data[2 * a + 1];
    var v_re := data[2 * b] * w.re - data[2 * b + 1] * w.im;
    var v_im := data[2 * b] * w.im + data[2 * b + 1] * w.re;
    MulCommutative(w, At(data, b));
    assert Complex(v_re, v_im) == Mul(w, At(data, b));
    data[2 * a] := u_re + v_re;
    data[2 * a + 1] := u_im + v_im;
    data[2 * b] := u_re - v_re;
    data[2 * b + 1] := u_im - v_im;
    assert forall k :: 0 <= k < data.Length / 2 && k != a && k != b ==> At(data, k) == old(At(data, k));
  }

  /** y is z with the group of 2h cells from i replaced by its butterflies. */
  ghost predicate GroupDone(y: seq<Complex>, z: seq<Complex>, i: nat, h: nat, wlen: Complex, upTo: nat) {
    && |y| == |z| && i + 2 * h <= |z| && upTo <= h
    && (forall k :: 0 <= k < upTo ==> y[i + k] == Add(z[i + k], Mul(Pow(wlen, k), z[i + k + h])))
    && (forall k :: 0 <= k < upTo ==> y[i + k + h] == Sub(z[i + k], Mul(Pow(wlen, k), z[i + k + h])))
    && (forall p :: 0 <= p < |z| && !(i <= p < i + upTo) && !(i + h <= p < i + h + upTo) ==> y[p] == z[p])
  }

  lemma GroupStart(z: seq<Complex>, i: nat, h: nat, wlen: Complex)
    requires i + 2 * h <= |z|
    ensures GroupDone(z, z, i, h, wlen, 0)
  {
  }

  lemma GroupStep(y: seq<Complex>, z: seq<Complex>, i: nat, h: nat, wlen: Complex, k: nat)
    requires GroupDone(y, z, i, h, wlen, k) && k < h
    ensures |y| == |z| && i + k + h < |y|
    ensures var u, v := y[i + k], Mul(Pow(wlen, k), y[i + k + h]);
      GroupDone(y[i + k := Add(u, v)][i + k + h := Sub(u, v)], z, i, h, wlen, k + 1)
  {
    hide Mul, Add, Sub, Pow;
  }

  /** The innermost loop, with its incrementally updated twiddle. */
  method ButterflyGroup(data: array<real>, i: nat, len: nat, wlen: Complex)
    requires data.Length % 2 == 0 && len % 2 == 0 && i + len <= data.Length / 2
    modifies data
    ensures GroupDone(View(data), old(View(data)), i, len / 2, wlen, len / 2)
  {
    hide Mul, Add, Sub, GroupDone;
    ghost var z := View(data);
    GroupStart(z, i, len / 2, wlen);
    var w := ONE;
    for k := 0 to len / 2
      invariant w == Pow(wlen, k)
      invariant GroupDone(View(data), z, i, len / 2, wlen, k)
    {
      GroupStep(View(data), z, i, len / 2, wlen, k);
      Butterfly(data, i + k, i + k + len / 2, w);
      w := Mul(w, wlen);
    }
  }

  lemma PartIndex(m: nat, len: nat, b: nat, t: nat)
    requires IsPow2(m) && b < m && t < len
    ensures 0 <= Rev(m, b) + t * m < m * len
  {
    hide IsPow2;
    RowEnd(t, len, m);
  }

  /** The subsequence of x that ends up in block b when x is cut into m blocks of length len. */
  function Part(x: seq<Complex>, m: nat, len: nat, b: nat): (part: seq<Complex>)
    requires IsPow2(m) && b < m && m * len == |x|
    ensures |part| == len
  {
    seq(len, t requires 0 <= t < len => (PartIndex(m, len, b, t); x[Rev(m, b) + t * m]))
  }

  ghost predicate BlockFits(m: nat, len: nat, b: nat) {
    0 <= b * len && b * len + len <= m * len
  }

  /** Block b of y holds the transform of its part of x. */
  ghost predicate BlockDone(y: seq<Complex>, x: seq<Complex>, m: nat, len: nat, b: nat, w: Complex) {
    && IsPow2(m) && b < m && m * len == |x| == |y| && BlockFits(m, len, b)
    && forall k :: 0 <= k < len ==> y[b * len + k] == Dft.Bin(Part(x, m, len, b), w, k)
  }

  lemma PartHalves(x: seq<Complex>, m: nat, h: nat, b: nat, t: nat)
    requires IsPow2(m) && IsPow2(2 * m) && b < m && m * (2 * h) == (2 * m) * h == |x| && t < h
    ensures Part(x, 2 * m, h, 2 * b)[t] == Part(x, m, 2 * h, b)[2 * t]
    ensures Part(x, 2 * m, h, 2 * b + 1)[t] == Part(x, m, 2 * h, b)[2 * t + 1]
  {
    hide IsPow2, Rev;
    RevOfEvenOdd(2 * m, b);
    Double(t, m);
  }

  /** A group of butterflies turns two finished blocks into one of twice the length. */
  lemma CombineBlocks(y: seq<Complex>, z: seq<Complex>, x: seq<Complex>, m: nat, h: nat, b: nat, w: Complex)
    requires h > 0 && BlockDone(z, x, 2 * m, h, 2 * b, Pow(w, 2)) && BlockDone(z, x, 2 * m, h, 2 * b + 1, Pow(w, 2))
    requires IsPow2(m) && b < m && Pow(w, h) == MINUS_ONE
    requires BlockFits(m, 2 * h, b) && GroupDone(y, z, b * (2 * h), h, w, h)
    ensures BlockDone(y, x, m, 2 * h, b, w)
  {
    hide Mul, Add, Sub, IsPow2, Rev, Dft.Bin, Pow;
    Double(m, h);
    Double(b, h);
    var i := b * (2 * h);
    var whole := Part(x, m, 2 * h, b);
    var e, o := Part(x, 2 * m, h, 2 * b), Part(x, 2 * m, h, 2 * b + 1);
    forall t | 0 <= t < h ensures e[t] == whole[2 * t] && o[t] == whole[2 * t + 1] { PartHalves(x, m, h, b, t); }
    forall k | 0 <= k < 2 * h ensures y[i + k] == Dft.Bin(whole, w, k) {
      var j := if k < h then k else k - h;
      Dft.CooleyTukey(whole, e, o, w, j);
      assert z[(2 * b) * h + j] == Dft.Bin(e, Pow(w, 2), j);
      assert z[(2 * b + 1) * h + j] == Dft.Bin(o, Pow(w, 2), j);
      assert y[i + j] == Add(z[i + j], Mul(Pow(w, j), z[i + j + h]));
      assert y[i + j + h] == Sub(z[i + j], Mul(Pow(w, j), z[i + j + h]));
    }
  }

  lemma BlockOrder(m: nat, len: nat, b: nat, c: nat)
    requires c <= b < m
    ensures BlockFits(m, len, b)
    ensures c < b ==> c * len + len <= b * len
    ensures (b + 1) * len == b * len + len
  {
    RowEnd(b, m, len);
    if c < b {
      RowEnd(c, b, len);
    }
  }

  /** Finished blocks survive the work on a later group. */
  lemma BlockKept(y: seq<Complex>, z: seq<Complex>, x: seq<Complex>, m: nat, len: nat, b: nat, w: Complex, g: nat)
    requires BlockDone(z, x, m, len, b, w) && b < g < m && len % 2 == 0
    requires GroupDone(y, z, g * len, len / 2, w, len / 2)
    ensures BlockDone(y, x, m, len, b, w)
  {
    hide Mul, Add, Sub, IsPow2, Dft.Bin;
    BlockOrder(m, len, g, b);
  }

  /** Work on one group of a stage. */
  method StageGroup(data: array<real>, i: nat, len: nat, wlen: Complex, ghost m: nat, ghost x: seq<Complex>,
                    ghost z: seq<Complex>, ghost g: nat)
    requires data.Length == 2 * |x| && |z| == |x| && len > 0 && len % 2 == 0 && IsPow2(m) && m * len == |x|
    requires g < m && i == g * len && Pow(wlen, len / 2) == MINUS_ONE
    requires BlockDone(z, x, 2 * m, len / 2, 2 * g, Pow(wlen, 2))
    requires BlockDone(z, x, 2 * m, len / 2, 2 * g + 1, Pow(wlen, 2))
    requires forall b :: 0 <= b < g ==> BlockDone(View(data), x, m, len, b, wlen)
    requires forall p :: i <= p < |x| ==> View(data)[p] == z[p]
    modifies data
    ensures i + len <= |x| && i + len == (g + 1) * len
    ensures forall b :: 0 <= b < g + 1 ==> BlockDone(View(data), x, m, len, b, wlen)
    ensures forall p :: i + len <= p < |x| ==> View(data)[p] == z[p]
  {
    hide Mul, Add, Sub, IsPow2, Dft.Bin, Pow, Part;
    ghost var y0 := View(data);
    BlockOrder(m, len, g, g);
    ButterflyGroup(data, i, len, wlen);
    var h := len / 2;
    assert GroupDone(View(data), y0, i, h, wlen, h);
    forall b | 0 <= b < g ensures BlockDone(View(data), x, m, len, b, wlen) {
      BlockKept(View(data), y0, x, m, len, b, wlen, g);
    }
    Double(g, h);
    assert BlockDone(y0, x, 2 * m, h, 2 * g, Pow(wlen, 2)) && BlockDone(y0, x, 2 * m, h, 2 * g + 1, Pow(wlen, 2));
    CombineBlocks(View(data), y0, x, m, h, g, wlen);
  }

  /** One pass over all groups. */
  method Stage(data: array<real>, len: nat, wlen: Complex, ghost m: nat, ghost x: seq<Complex>)
    requires data.Length == 2 * |x| && len > 0 && len % 2 == 0 && IsPow2(m) && m * len == |x|
    requires Pow(wlen, len / 2) == MINUS_ONE
    requires forall b :: 0 <= b < 2 * m ==> BlockDone(View(data), x, 2 * m, len / 2, b, Pow(wlen, 2))
    modifies data
    ensures forall b :: 0 <= b < m ==> BlockDone(View(data), x, m, len, b, wlen)
  {
    hide Mul, Add, Sub, IsPow2, Dft.Bin, BlockDone;
    ghost var z := View(data);
    var i := 0;
    ghost var g := 0;
    while i < data.Length / 2
      invariant 0 <= g <= m && i == g * len
      invariant forall b :: 0 <= b < g ==> BlockDone(View(data), x, m, len, b, wlen)
      invariant forall p :: i <= p < |x| ==> View(data)[p] == z[p]
      decreases |x| - i
    {
      assert g < m;
      StageGroup(data, i, len, wlen, m, x, z, g);
      i := i + len;
      g := g + 1;
    }
    assert g == m by {
      if g < m { BlockOrder(m, len, g, g); }
    }
  }

  /** The bit-reversed input is the finished stage for blocks of length one. */
  lemma LengthOneBlocks(y: seq<Complex>, x: seq<Complex>, unit: nat -> Complex)
    requires Reversed(y, x) && RootFamily(unit)
    ensures IsPow2(|x|) && IsPow2(1) && |x| * 1 == |x|
    ensures forall b :: 0 <= b < |x| ==> BlockDone(y, x, |x|, 1, b, unit(1))
  {
    hide Rev;
    forall b | 0 <= b < |x| ensures BlockDone(y, x, |x|, 1, b, ONE) {
      assert Part(x, |x|, 1, b)[0] == x[Rev(|x|, b)];
      BinOfOne(Part(x, |x|, 1, b));
    }
  }

  lemma BinOfOne(x: seq<Complex>)
    requires |x| == 1
    ensures Dft.Bin(x, ONE, 0) == x[0]
  {
    assert Dft.PartialSum(x, ONE, 0, 1) == Add(ZERO, Mul(x[0], Pow(ONE, 0)));
  }

  lemma WholeBlock(y: seq<Complex>, x: seq<Complex>, w: Complex)
    requires |x| > 0 && BlockDone(y, x, 1, |x|, 0, w)
    ensures y == Dft.Transform(x, w)
  {
    var part := Part(x, 1, |x|, 0);
    assert forall k :: 0 <= k < |x| ==> part[k] == x[Rev(1, 0) + k * 1];
    assert part == x;
    forall k | 0 <= k < |x| ensures y[k] == Dft.Bin(x, w, k) {
      assert y[0 * |x| + k] == Dft.Bin(x, w, k);
    }
  }

  lemma StageSizes(n: nat, m: nat, h: nat)
    requires IsPow2(m) && IsPow2(h) && m * h == n
    ensures 2 * h <= n ==> m % 2 == 0 && IsPow2(m / 2) && m == 2 * (m / 2) && (m / 2) * (2 * h) == n && IsPow2(2 * h)
    ensures 2 * h > n ==> m == 1 && h == n
  {
    if m > 1 {
      MulMono(2, m, h);
      Double(m / 2, h);
      assert (2 * h) / 2 == h;
    }
  }

  /** The FFT: for a power of two n, data ends as the discrete Fourier transform of its input. */
  method FftRadix2(data: array<real>, n: nat, unit: nat -> Complex)
    requires IsPow2(n) && data.Length == 2 * n && RootFamily(unit)
    modifies data
    ensures View(data) == Dft.Transform(old(View(data)), unit(n))
    ensures forall k :: 0 <= k < n ==>
      var bin := Dft.Bin(old(View(data)), unit(n), k); data[2 * k] == bin.re && data[2 * k + 1] == bin.im
    ensures |old(View(data))| == n && forall j :: 0 <= j < n ==>
      old(View(data))[j].re == old(data[2 * j]) && old(View(data))[j].im == old(data[2 * j + 1])
  {
    hide Dft.Bin;
    CellsAre(data, View(data));
    FftInterleaved(data, n, unit);
    CellsAre(data, View(data));
    assert forall k :: 0 <= k < n ==> View(data)[k] == Dft.Bin(old(View(data)), unit(n), k);
  }

  /** The cells of the buffer: real part, then imaginary part. */
  lemma CellsAre(data: array<real>, v: seq<Complex>)
    requires data.Length % 2 == 0 && v == View(data)
    ensures forall k :: 0 <= k < |v| ==> data[2 * k] == v[k].re && data[2 * k + 1] == v[k].im
  {
    forall k | 0 <= k < |v|
      ensures data[2 * k] == v[k].re && data[2 * k + 1] == v[k].im
    {
      assert v[k] == At(data, k);
    }
  }

  /** The two passes of the transform, on complex cells. */
  method FftInterleaved(data: array<real>, n: nat, unit: nat -> Complex)
    requires IsPow2(n) && data.Length == 2 * n && RootFamily(unit)
    modifies data
    ensures View(data) == Dft.Transform(old(View(data)), unit(n))
  {
    hide Mul, Add, Sub, Pow, BlockDone, IsPow2, Dft.Transform, RootFamily;
    ghost var x := View(data);
    PermuteBitReversed(data, n);
    LengthOneBlocks(View(data), x, unit);
    ghost var m: nat := n;  // blocks of length len / 2
    var len := 2;
    while len <= n
      invariant len >= 2 && len % 2 == 0 && IsPow2(len / 2)
      invariant IsPow2(m) && m * (len / 2) == n
      invariant forall b :: 0 <= b < m ==> BlockDone(View(data), x, m, len / 2, b, unit(len / 2))
      decreases 2 * n - len
    {
      HalfTurn(unit, len / 2);
      StageSizes(n, m, len / 2);
      Stage(data, len, unit(len), m / 2, x);
      m, len := m / 2, len * 2;
    }
    StageSizes(n, m, len / 2);
    WholeBlock(View(data), x, unit(n));
  }

  /** next_pow2: the padded frame size is the least power of two that holds the frame. */
  method NextPow2(n: int) returns (p: nat)
    ensures IsPow2(p) && p >= n
    ensures forall q: nat :: IsPow2(q) && q >= n ==> p <= q
  {
    p := 1;
    while p < n
      invariant IsPow2(p)
      invariant forall q: nat :: IsPow2(q) && q >= n ==> p <= q
      decreases n - p
    {
      forall q: nat | IsPow2(q) && q >= n ensures 2 * p <= q { NextPowerDoubles(p, q); }
      p := p * 2;
    }
  }

  lemma {:induction false} NextPowerDoubles(p: nat, q: nat)
    requires IsPow2(p) && IsPow2(q) && p < q
    ensures 2 * p <= q
  {
    if p > 1 {
      NextPowerDoubles(p / 2, q / 2);
    }
  }
}
