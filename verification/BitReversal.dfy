/** Powers of two, bit reversal, and the reversed counter of the radix-2 FFT. */
module BitReversal {
  predicate IsPow2(n: nat) {
    n == 1 || (n > 1 && n % 2 == 0 && IsPow2(n / 2))
  }

  /** The log2(n)-bit reversal of i. */
  function Rev(n: nat, i: nat): (r: nat)
    requires IsPow2(n) && i < n
    ensures r < n
  {
    if n == 1 then 0 else (if i % 2 == 1 then n / 2 else 0) + Rev(n / 2, i / 2)
  }

  lemma RevOfEvenOdd(n: nat, b: nat)
    requires IsPow2(n) && n > 1 && b < n / 2
    ensures Rev(n, 2 * b) == Rev(n / 2, b)
    ensures Rev(n, 2 * b + 1) == n / 2 + Rev(n / 2, b)
  {
    assert (2 * b + 1) / 2 == b && (2 * b) / 2 == b;
  }

  /** Rev read from the other end: the top bit of i becomes the lowest bit. */
  lemma {:induction false} RevTopBit(n: nat, a: nat, b: nat)
    requires IsPow2(n) && n > 1 && a < 2 && b < n / 2
    ensures Rev(n, (if a == 1 then n / 2 else 0) + b) == 2 * Rev(n / 2, b) + a
  {
    var i := (if a == 1 then n / 2 else 0) + b;
    if n > 2 {
      assert i % 2 == b % 2 && i / 2 == (if a == 1 then n / 4 else 0) + b / 2;
      RevTopBit(n / 2, a, b / 2);
    }
  }

  lemma {:induction false} RevInvolution(n: nat, i: nat)
    requires IsPow2(n) && i < n
    ensures Rev(n, Rev(n, i)) == i
  {
    if n > 1 {
      RevInvolution(n / 2, i / 2);
      RevTopBit(n, i % 2, Rev(n / 2, i / 2));
    }
  }

  /** `j & bit` for a single bit, and `j ^= bit`, on non-negative integers. */
  predicate HasBit(j: nat, bit: nat)
    requires bit > 0
  {
    (j / bit) % 2 == 1
  }

  function FlipBit(j: nat, bit: nat): nat
    requires bit > 0
  {
    if HasBit(j, bit) then (DivideAtLeast(j, bit); j - bit) else j + bit
  }

  lemma DivideAtLeast(j: nat, bit: nat)
    requires bit > 0 && j / bit >= 1
    ensures j >= bit
  {
  }

  lemma HasTopBit(j: nat, bit: nat)
    requires bit > 0 && j < 2 * bit
    ensures HasBit(j, bit) <==> j >= bit
  {
    if j >= bit {
      assert j / bit == 1;
    } else {
      assert j / bit == 0;
    }
  }

  /** One step of the carry chain: the top bit of j tells whether c is odd. */
  lemma CarryStep(m: nat, c: nat, j: nat)
    requires IsPow2(m) && m > 1 && c + 1 < m && j == Rev(m, c)
    ensures HasBit(j, m / 2) <==> c % 2 == 1
    ensures c % 2 == 0 ==> FlipBit(j, m / 2) == Rev(m, c + 1)
    ensures c % 2 == 1 ==> IsPow2(m / 2) && c / 2 + 1 < m / 2
    ensures c % 2 == 1 ==> FlipBit(j, m / 2) == Rev(m / 2, c / 2) && Rev(m, c + 1) == Rev(m / 2, c / 2 + 1)
  {
    HasTopBit(j, m / 2);
    assert (c + 1) / 2 == if c % 2 == 1 then c / 2 + 1 else c / 2;
  }

  /** The inner loop of the bit-reversal pass: add one to j, carrying from the top bit down. */
  method NextReversed(n: nat, j: nat, ghost i: nat) returns (j': nat)
    requires IsPow2(n) && 1 <= i < n && j == Rev(n, i - 1)
    ensures j' == Rev(n, i)
  {
    hide IsPow2, Rev, HasBit, FlipBit;
    j' := j;
    var bit := n / 2;
    ghost var m: nat, c: nat := n, i - 1;  // the carry has reached the reversal of c in m
    CarryStep(m, c, j');
    while HasBit(j', bit)
      invariant IsPow2(m) && m > 1 && c + 1 < m && bit == m / 2
      invariant j' == Rev(m, c) && Rev(n, i) == Rev(m, c + 1)
      decreases bit
    {
      CarryStep(m, c, j');
      j' := FlipBit(j', bit);
      bit := bit / 2;
      m, c := m / 2, c / 2;
    }
    CarryStep(m, c, j');
    j' := FlipBit(j', bit);
  }
}
