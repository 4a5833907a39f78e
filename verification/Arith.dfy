/** The few facts about products that proofs about indices need. */
module Arith {
  lemma MulMono(a: nat, b: nat, c: nat)
    requires a <= b
    ensures a * c <= b * c
  {
    assert (b - a) * c >= 0;
    assert b * c == a * c + (b - a) * c;
  }

  /** Rows of width c: row a ends where row a + 1 begins. */
  lemma RowEnd(a: nat, b: nat, c: nat)
    requires a < b
    ensures a * c + c == (a + 1) * c <= b * c
  {
    MulMono(a + 1, b, c);
  }

  /** Twice a, twice b: the ways of writing 2ab that occur below. */
  lemma Double(a: nat, b: nat)
    ensures (2 * a) * b == a * (2 * b) == 2 * (a * b)
    ensures (2 * a + 1) * b == 2 * (a * b) + b
  {
  }

  lemma DivModUnique(i: nat, l: nat, q: nat, r: nat)
    requires i == q * l + r && r < l
    ensures i / l == q && i % l == r
  {
    assert i == (i / l) * l + i % l;
    if i / l < q {
      RowEnd(i / l, q, l);
    } else if i / l > q {
      RowEnd(q, i / l, l);
    }
  }

  lemma ModAdd(i: nat, k: nat, l: nat)
    requires l > 0
    ensures (i % l + k) % l == (i + k) % l
  {
    var q, q' := i / l, (i % l + k) / l;
    assert (q + q') * l == q * l + q' * l;
    DivModUnique(i + k, l, q + q', (i % l + k) % l);
  }
}
