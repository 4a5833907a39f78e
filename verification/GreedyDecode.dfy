/**
  * Greedy decoding of one utterance on its own: the specification of the batched loop, and the facts
  * about attention masks stored as one flat vector for all rows.
  */
module GreedyDecode {
  import opened Arith

  /** What one decode step attends to: the positions and tokens its mask leaves visible. */
  type View = seq<(nat, int)>

  /** The model: the next token of a row from what that row can see. */
  type Oracle = (nat, View) -> int

  function Pairs(hist: seq<int>): (view: View)
    ensures |view| == |hist| && forall k :: 0 <= k < |hist| ==> view[k].0 == k && view[k].1 == hist[k]
  {
    seq(|hist|, k requires 0 <= k < |hist| => (k, hist[k]))
  }

  /** The token drawn after a history; the buffer holds zero before anything was computed. */
  function Draw(model: Oracle, b: nat, hist: seq<int>): (token: int)
    ensures hist == [] ==> token == 0
    ensures hist != [] ==> token == model(b, Pairs(hist))
  {
    if hist == [] then 0 else model(b, Pairs(hist))
  }

  /** Up to budget tokens drawn one after the other, stopped before the first end-of-sequence token. */
  function Greedy(model: Oracle, eos: int, b: nat, hist: seq<int>, budget: nat): (out: seq<int>)
    ensures |out| <= budget
    decreases budget
  {
    if budget == 0 || Draw(model, b, hist) == eos then []
    else
      var t := Draw(model, b, hist);
      [t] + Greedy(model, eos, b, hist + [t], budget - 1)
  }

  /** Is the end-of-sequence token among the first budget draws? */
  predicate Stops(model: Oracle, eos: int, b: nat, hist: seq<int>, budget: nat)
    decreases budget
  {
    budget > 0 && (Draw(model, b, hist) == eos || Stops(model, eos, b, hist + [Draw(model, b, hist)], budget - 1))
  }

  /** One more draw. */
  lemma {:induction false} GreedyNext(model: Oracle, eos: int, b: nat, hist: seq<int>, k: nat)
    requires !Stops(model, eos, b, hist, k)
    ensures var out := Greedy(model, eos, b, hist, k);
      var t := Draw(model, b, hist + out);
      && |out| == k
      && (Stops(model, eos, b, hist, k + 1) <==> t == eos)
      && Greedy(model, eos, b, hist, k + 1) == if t == eos then out else out + [t]
    decreases k
  {
    if k == 0 {
      assert hist + [] == hist;
      assert Greedy(model, eos, b, hist + [Draw(model, b, hist)], 0) == [];
    } else {
      var t := Draw(model, b, hist);
      GreedyNext(model, eos, b, hist + [t], k - 1);
      var rest := Greedy(model, eos, b, hist + [t], k - 1);
      assert hist + [t] + rest == hist + ([t] + rest);
    }
  }

  /**
    * What the sequence is: every token is drawn from the history before it and is not end of sequence; the
    * sequence is shorter than the budget exactly if the draw after it is end of sequence, and then it stopped.
    */
  lemma {:induction false} GreedyIs(model: Oracle, eos: int, b: nat, hist: seq<int>, budget: nat)
    ensures var out := Greedy(model, eos, b, hist, budget);
      && (forall i :: 0 <= i < |out| ==> out[i] != eos && out[i] == Draw(model, b, hist + out[..i]))
      && (Stops(model, eos, b, hist, budget) <==> |out| < budget)
      && (|out| < budget ==> Draw(model, b, hist + out) == eos)
    decreases budget
  {
    hide Draw;
    assert hist + [] == hist;
    var t := Draw(model, b, hist);
    if budget > 0 && t != eos {
      GreedyIs(model, eos, b, hist + [t], budget - 1);
      var out, rest := Greedy(model, eos, b, hist, budget), Greedy(model, eos, b, hist + [t], budget - 1);
      assert hist + [t] + rest == hist + out;
      forall i | 0 <= i < |out|
        ensures out[i] != eos && out[i] == Draw(model, b, hist + out[..i])
      {
        if i > 0 {
          assert out[..i] == [t] + rest[..i - 1] && out[i] == rest[i - 1];
          assert hist + [t] + rest[..i - 1] == hist + out[..i];
        } else {
          assert out[..0] == [];
        }
      }
    }
  }

  /** Once stopped, a larger budget changes nothing. */
  lemma {:induction false} GreedyStopped(model: Oracle, eos: int, b: nat, hist: seq<int>, k: nat, more: nat)
    requires k <= more && Stops(model, eos, b, hist, k)
    ensures Stops(model, eos, b, hist, more) && Greedy(model, eos, b, hist, more) == Greedy(model, eos, b, hist, k)
    decreases k
  {
    if Draw(model, b, hist) != eos {
      GreedyStopped(model, eos, b, hist + [Draw(model, b, hist)], k - 1, more - 1);
    }
  }

  /** A smaller budget yields a prefix. */
  lemma {:induction false} GreedyPrefix(model: Oracle, eos: int, b: nat, hist: seq<int>, k: nat, more: nat)
    requires k <= more
    ensures Greedy(model, eos, b, hist, k) <= Greedy(model, eos, b, hist, more)
    decreases k
  {
    if k > 0 && Draw(model, b, hist) != eos {
      GreedyPrefix(model, eos, b, hist + [Draw(model, b, hist)], k - 1, more - 1);
    }
  }

  // The attention mask: one row of window cells per utterance in a flat vector; true means visible.

  lemma CellInside(n: nat, window: nat, b: nat, k: nat)
    requires b < n && k < window
    ensures 0 <= b * window + k < n * window
  {
    RowEnd(b, n, window);
  }

  function Cell(mask: seq<bool>, n: nat, window: nat, b: nat, k: nat): bool
    requires b < n && k < window && |mask| == n * window
  {
    CellInside(n, window, b, k);
    mask[b * window + k]
  }

  /** Every row sees exactly the first p positions. */
  ghost predicate MaskIs(mask: seq<bool>, n: nat, window: nat, p: nat) {
    |mask| == n * window && forall b, k :: 0 <= b < n && 0 <= k < window ==> (Cell(mask, n, window, b, k) <==> k < p)
  }

  /** Position p is open in the rows before row. */
  ghost predicate MaskOpening(mask: seq<bool>, n: nat, window: nat, p: nat, row: nat) {
    |mask| == n * window && forall b, k :: 0 <= b < n && 0 <= k < window ==>
      (Cell(mask, n, window, b, k) <==> k < p || (k == p && b < row))
  }

  lemma CellsDiffer(window: nat, b: nat, k: nat, row: nat, p: nat)
    requires k < window && p < window && b * window + k == row * window + p
    ensures b == row && k == p
  {
    DivModUnique(b * window + k, window, b, k);
    DivModUnique(row * window + p, window, row, p);
  }

  lemma CellUpdate(mask: seq<bool>, n: nat, window: nat, row: nat, p: nat, b: nat, k: nat)
    requires |mask| == n * window && row < n && p < window && b < n && k < window
    ensures 0 <= row * window + p < |mask|
    ensures Cell(mask[row * window + p := true], n, window, b, k) ==
            (Cell(mask, n, window, b, k) || (b == row && k == p))
  {
    CellInside(n, window, row, p);
    CellInside(n, window, b, k);
    if b * window + k == row * window + p {
      CellsDiffer(window, b, k, row, p);
    }
  }

  lemma OpenCell(mask: seq<bool>, n: nat, window: nat, p: nat, row: nat)
    requires MaskOpening(mask, n, window, p, row) && row < n && p < window
    ensures 0 <= row * window + p < |mask|
    ensures MaskOpening(mask[row * window + p := true], n, window, p, row + 1)
  {
    hide Cell;
    CellInside(n, window, row, p);
    var after := mask[row * window + p := true];
    forall b, k | 0 <= b < n && 0 <= k < window
      ensures Cell(after, n, window, b, k) <==> k < p || (k == p && b < row + 1)
    {
      CellUpdate(mask, n, window, row, p, b, k);
      assert Cell(mask, n, window, b, k) <==> k < p || (k == p && b < row);
    }
  }

  /** The tokens a mask row leaves visible in the row's key-value memory. */
  function Visible(mask: seq<bool>, n: nat, window: nat, b: nat, memory: map<nat, int>, upTo: nat): View
    requires b < n && upTo <= window && |mask| == n * window
  {
    if upTo == 0 then [] else
      var before := Visible(mask, n, window, b, memory, upTo - 1);
      if Cell(mask, n, window, b, upTo - 1)
      then before + [(upTo - 1, if upTo - 1 in memory then memory[upTo - 1] else 0)] else before
  }

  /** With the mask open exactly on the history, the row sees its history and nothing else. */
  lemma {:induction false} VisibleIsHistory(mask: seq<bool>, n: nat, window: nat, b: nat, memory: map<nat, int>,
                                            hist: seq<int>, upTo: nat)
    requires b < n && upTo <= window && MaskIs(mask, n, window, |hist|)
    requires forall k :: 0 <= k < |hist| ==> k in memory && memory[k] == hist[k]
    ensures Visible(mask, n, window, b, memory, upTo) == Pairs(hist[..if upTo < |hist| then upTo else |hist|])
  {
    if upTo > 0 {
      VisibleIsHistory(mask, n, window, b, memory, hist, upTo - 1);
      assert Cell(mask, n, window, b, upTo - 1) <==> upTo - 1 < |hist|;
    }
  }

  // Window growth.

  function Pow2(g: nat): (p: nat)
    ensures p >= 1
  {
    if g == 0 then 1 else 2 * Pow2(g - 1)
  }

  /** The window after g growths. */
  function WindowAfter(init: nat, limit: nat, g: nat): (window: nat)
    ensures g == 0 ==> window == init
    ensures g > 0 ==> window <= limit
  {
    if g == 0 then init else if init * Pow2(g) < limit then init * Pow2(g) else limit
  }

  /** Growing from a window below the limit is the next window of the formula. */
  lemma WindowGrows(init: nat, limit: nat, g: nat)
    requires WindowAfter(init, limit, g) < limit
    ensures WindowAfter(init, limit, g) == init * Pow2(g) < limit
    ensures WindowAfter(init, limit, g + 1) ==
            var w := 2 * WindowAfter(init, limit, g); if w < limit then w else limit
  {
    assert Pow2(0) == 1;
    assert init * Pow2(g + 1) == 2 * (init * Pow2(g));
  }

  lemma {:induction false} Pow2Monotone(a: nat, b: nat)
    requires a <= b
    ensures Pow2(a) <= Pow2(b)
    decreases b - a
  {
    if a < b {
      Pow2Monotone(a, b - 1);
    }
  }

  /** The number of growths is at most any k with init * 2^k >= limit, that is, at most ceil(log2(limit / init)). */
  lemma GrowthBound(init: nat, limit: nat, g: nat, k: nat)
    requires g > 0 ==> init * Pow2(g - 1) < limit
    requires init * Pow2(k) >= limit
    ensures g <= k
  {
    if g > k {
      Pow2Monotone(k, g - 1);
      MulMono(Pow2(k), Pow2(g - 1), init);
    }
  }
}
