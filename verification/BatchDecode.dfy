/**
  * The batched greedy step loop: all rows move in lockstep through one growing attention window.
  * The step graph is an oracle that gives each row's next token from what that row's mask leaves visible.
  */
module BatchDecode {
  import opened GreedyDecode

  datatype Status = Ok | Aborted | GgufError | OutOfMemory

  /** What the surroundings answer: abort polls and computations by position, rebuilds by window. */
  datatype Env = Env(aborts: nat -> bool, rebuilds: nat -> bool, computes: nat -> bool)

  /** At most this many tokens are drawn for a row. */
  function Cap(promptLen: nat, maxNew: int, maxNkv: nat): (cap: nat)
    requires promptLen <= maxNkv
    ensures cap >= 1
  {
    var room := maxNkv - promptLen + 1;
    var wanted := if maxNew < 1 then 1 else maxNew;
    if wanted < room then wanted else room
  }

  /** Rows before b see the first posv positions, row b the first k, later rows nothing. */
  ghost predicate RowsFilled(mask: seq<bool>, n: nat, win: nat, posv: nat, b: nat, k: nat) {
    |mask| == n * win && forall c, j :: 0 <= c < n && 0 <= j < win ==>
      (Cell(mask, n, win, c, j) <==> (c < b && j < posv) || (c == b && j < k))
  }

  lemma FillNone(mask: seq<bool>, n: nat, win: nat, posv: nat)
    requires |mask| == n * win && forall i :: 0 <= i < |mask| ==> !mask[i]
    ensures RowsFilled(mask, n, win, posv, 0, 0)
  {
    forall c, j | 0 <= c < n && 0 <= j < win
      ensures !Cell(mask, n, win, c, j)
    {
      CellInside(n, win, c, j);
    }
    hide Cell;
  }

  lemma FillCell(mask: seq<bool>, n: nat, win: nat, posv: nat, b: nat, k: nat)
    requires RowsFilled(mask, n, win, posv, b, k) && b < n && k < posv <= win
    ensures 0 <= b * win + k < |mask| && RowsFilled(mask[b * win + k := true], n, win, posv, b, k + 1)
  {
    hide Cell;
    CellInside(n, win, b, k);
    var after := mask[b * win + k := true];
    forall c, j | 0 <= c < n && 0 <= j < win
      ensures Cell(after, n, win, c, j) <==> (c < b && j < posv) || (c == b && j < k + 1)
    {
      CellUpdate(mask, n, win, b, k, c, j);
      assert Cell(mask, n, win, c, j) <==> (c < b && j < posv) || (c == b && j < k);
    }
  }

  lemma FillRow(mask: seq<bool>, n: nat, win: nat, posv: nat, b: nat)
    requires RowsFilled(mask, n, win, posv, b, posv)
    ensures RowsFilled(mask, n, win, posv, b + 1, 0)
  {
    hide Cell;
  }

  lemma FillDone(mask: seq<bool>, n: nat, win: nat, posv: nat)
    requires RowsFilled(mask, n, win, posv, n, 0)
    ensures MaskIs(mask, n, win, posv)
  {
    hide Cell;
  }

  lemma MaskSize(mask: seq<bool>, n: nat, window: nat, p: nat)
    requires MaskIs(mask, n, window, p)
    ensures |mask| == n * window
  {
  }

  lemma RemembersNothing()
    ensures Remembers(map[], [])
  {
  }

  lemma DrawNothing(model: Oracle)
    ensures forall b: nat :: Draw(model, b, []) == 0
  {
  }

  /** The widened mask: every row sees the first posv positions. */
  method WiderMask(n: nat, win: nat, posv: nat) returns (wider: seq<bool>)
    requires posv <= win
    ensures MaskIs(wider, n, win, posv)
  {
    hide RowsFilled, Cell, MaskIs;
    var size: nat := n * win;
    wider := seq(size, _ => false);
    FillNone(wider, n, win, posv);
    for b := 0 to n
      invariant RowsFilled(wider, n, win, posv, b, 0)
    {
      for k := 0 to posv
        invariant RowsFilled(wider, n, win, posv, b, k)
      {
        FillCell(wider, n, win, posv, b, k);
        wider := wider[b * win + k := true];
      }
      FillRow(wider, n, win, posv, b);
    }
    FillDone(wider, n, win, posv);
  }

  /** The graph's writes: each row stores its own token at position posv. */
  function Stored(memory: seq<map<nat, int>>, posv: nat, toks: seq<int>): (after: seq<map<nat, int>>)
    requires |memory| == |toks|
    ensures |after| == |memory| && forall b :: 0 <= b < |after| ==> after[b] == memory[b][posv := toks[b]]
  {
    seq(|memory|, b requires 0 <= b < |memory| => memory[b][posv := toks[b]])
  }

  /** The graph's output: each row's next token from its own visible memory. */
  function Computed(model: Oracle, mask: seq<bool>, n: nat, window: nat, memory: seq<map<nat, int>>): (argmax: seq<int>)
    requires |memory| == n && |mask| == n * window
    ensures |argmax| == n
    ensures forall b :: 0 <= b < n ==> argmax[b] == model(b, Visible(mask, n, window, b, memory[b], window))
  {
    seq(n, b requires 0 <= b < n => model(b, Visible(mask, n, window, b, memory[b], window)))
  }

  // One row against that utterance decoded on its own.

  /** The row's history once k tokens were drawn. */
  function History(model: Oracle, eos: int, b: nat, prompt: seq<int>, k: nat): seq<int> {
    prompt + Greedy(model, eos, b, prompt, k)
  }

  ghost predicate Remembers(memory: map<nat, int>, hist: seq<int>) {
    forall k :: 0 <= k < |hist| ==> k in memory && memory[k] == hist[k]
  }

  /** After k draws the row holds its own greedy sequence, and is finished exactly if that sequence ended. */
  ghost predicate Progress(model: Oracle, eos: int, b: nat, prompt: seq<int>, k: nat,
                           base: seq<int>, gen: seq<int>, fin: bool)
  {
    gen == base + Greedy(model, eos, b, prompt, k) && (fin <==> Stops(model, eos, b, prompt, k))
  }

  /** Row b after k draws, its next token computed but not yet collected. */
  ghost predicate Awaits(model: Oracle, eos: int, b: nat, prompt: seq<int>, k: nat, valid: bool,
                         base: seq<int>, gen: seq<int>, fin: bool, computed: int, memory: map<nat, int>)
  {
    if !valid then fin && gen == base else
      && Progress(model, eos, b, prompt, k, base, gen, fin)
      && (!fin ==>
            && computed == Draw(model, b, History(model, eos, b, prompt, k))
            && Remembers(memory, History(model, eos, b, prompt, k)))
  }

  /** Row b after k draws; its last token is not in its memory yet. */
  ghost predicate Holds(model: Oracle, eos: int, b: nat, prompt: seq<int>, k: nat, valid: bool,
                        base: seq<int>, gen: seq<int>, fin: bool, last: int, memory: map<nat, int>)
  {
    if !valid then fin && gen == base else
      && Progress(model, eos, b, prompt, k, base, gen, fin)
      && (!fin ==>
            var hist := History(model, eos, b, prompt, k);
            |hist| == |prompt| + k > 0 && last == hist[|hist| - 1] && Remembers(memory, hist[..|hist| - 1]))
  }

  /** The row's final contents: decoded on its own up to the cap, or untouched when it is not valid. */
  ghost predicate Solo(model: Oracle, eos: int, b: nat, prompt: seq<int>, cap: nat, valid: bool,
                       base: seq<int>, gen: seq<int>, cut: bool)
  {
    if valid
    then gen == base + Greedy(model, eos, b, prompt, cap) && (cut <==> !Stops(model, eos, b, prompt, cap))
    else gen == base && !cut
  }

  /** The row's contents when the loop gave up: some prefix of what it would have produced. */
  ghost predicate Partial(model: Oracle, eos: int, b: nat, prompt: seq<int>, cap: nat, valid: bool,
                          base: seq<int>, gen: seq<int>)
  {
    if valid then base <= gen <= base + Greedy(model, eos, b, prompt, cap) else gen == base
  }

  /** The tokens a row drew on its own: none is end of sequence, and they respect budget and context. */
  ghost predicate OwnTokens(model: Oracle, eos: int, b: nat, prompt: seq<int>, maxNew: int, maxNkv: nat,
                            own: seq<int>)
  {
    && (forall i :: 0 <= i < |own| ==> own[i] != eos && own[i] == Draw(model, b, prompt + own[..i]))
    && (|own| <= 1 || |own| <= maxNew)
    && |own| <= maxNkv - |prompt| + 1
  }

  /** All of them: the row is cut off at the budget or the end of the context, or the next draw is end of sequence. */
  ghost predicate OwnDecode(model: Oracle, eos: int, b: nat, prompt: seq<int>, maxNew: int, maxNkv: nat,
                            base: seq<int>, gen: seq<int>, cut: bool)
  {
    && base <= gen
    && var own := gen[|base|..];
    && OwnTokens(model, eos, b, prompt, maxNew, maxNkv, own)
    && if cut then |own| == maxNkv - |prompt| + 1 || |own| == (if maxNew < 1 then 1 else maxNew)
       else Draw(model, b, prompt + own) == eos
  }

  /** Some of them: what a call that gave up leaves. */
  ghost predicate OwnStart(model: Oracle, eos: int, b: nat, prompt: seq<int>, maxNew: int, maxNkv: nat,
                           base: seq<int>, gen: seq<int>)
  {
    base <= gen && OwnTokens(model, eos, b, prompt, maxNew, maxNkv, gen[|base|..])
  }

  lemma SoloIsOwn(model: Oracle, eos: int, b: nat, prompt: seq<int>, maxNew: int, maxNkv: nat,
                  base: seq<int>, gen: seq<int>, cut: bool)
    requires |prompt| <= maxNkv && Solo(model, eos, b, prompt, Cap(|prompt|, maxNew, maxNkv), true, base, gen, cut)
    ensures OwnDecode(model, eos, b, prompt, maxNew, maxNkv, base, gen, cut)
  {
    hide Greedy, Stops, Draw;
    GreedyIs(model, eos, b, prompt, Cap(|prompt|, maxNew, maxNkv));
    assert gen[|base|..] == Greedy(model, eos, b, prompt, Cap(|prompt|, maxNew, maxNkv));
  }

  lemma PartialIsOwn(model: Oracle, eos: int, b: nat, prompt: seq<int>, maxNew: int, maxNkv: nat,
                     base: seq<int>, gen: seq<int>)
    requires |prompt| <= maxNkv && Partial(model, eos, b, prompt, Cap(|prompt|, maxNew, maxNkv), true, base, gen)
    ensures OwnStart(model, eos, b, prompt, maxNew, maxNkv, base, gen)
  {
    hide Greedy, Stops, Draw;
    GreedyIs(model, eos, b, prompt, Cap(|prompt|, maxNew, maxNkv));
    var own, all := gen[|base|..], Greedy(model, eos, b, prompt, Cap(|prompt|, maxNew, maxNkv));
    assert own <= all;
    assert forall i :: 0 <= i < |own| ==> own[i] == all[i] && own[..i] == all[..i];
  }

  lemma PartialProgress(model: Oracle, eos: int, b: nat, prompt: seq<int>, k: nat, cap: nat,
                        base: seq<int>, gen: seq<int>, fin: bool)
    requires k <= cap && Progress(model, eos, b, prompt, k, base, gen, fin)
    ensures Partial(model, eos, b, prompt, cap, true, base, gen)
  {
    GreedyPrefix(model, eos, b, prompt, k, cap);
  }

  lemma SoloAtEnd(model: Oracle, eos: int, b: nat, prompt: seq<int>, k: nat, cap: nat,
                  base: seq<int>, gen: seq<int>, fin: bool)
    requires k <= cap && Progress(model, eos, b, prompt, k, base, gen, fin) && (fin || k == cap)
    ensures Solo(model, eos, b, prompt, cap, true, base, gen, !fin)
  {
    if fin {
      GreedyStopped(model, eos, b, prompt, k, cap);
    }
  }

  /** Storing the token just drawn completes the row's memory of its history. */
  lemma RemembersNext(memory: map<nat, int>, hist: seq<int>, posv: nat)
    requires |hist| == posv + 1 && Remembers(memory, hist[..posv])
    ensures Remembers(memory[posv := hist[posv]], hist)
  {
  }

  /** With the mask open on its whole history, the row draws the token it would draw alone. */
  lemma DrawsAlone(model: Oracle, mask: seq<bool>, n: nat, window: nat, b: nat, memory: map<nat, int>, hist: seq<int>)
    requires b < n && 0 < |hist| <= window && MaskIs(mask, n, window, |hist|) && Remembers(memory, hist)
    ensures model(b, Visible(mask, n, window, b, memory, window)) == Draw(model, b, hist)
  {
    hide MaskIs, Visible;
    VisibleIsHistory(mask, n, window, b, memory, hist, window);
    assert hist[..|hist|] == hist;
  }

  /** A step turns "last token not yet stored" into "next token computed". */
  lemma StepRow(model: Oracle, eos: int, b: nat, prompt: seq<int>, k: nat, valid: bool,
                base: seq<int>, gen: seq<int>, fin: bool, last: int, memory: map<nat, int>,
                mask: seq<bool>, n: nat, window: nat, tok: int)
    requires Holds(model, eos, b, prompt, k, valid, base, gen, fin, last, memory)
    requires !fin ==> tok == last
    requires |prompt| + k > 0 && b < n && |prompt| + k <= window && MaskIs(mask, n, window, |prompt| + k)
    ensures var after := memory[|prompt| + k - 1 := tok];
      Awaits(model, eos, b, prompt, k, valid, base, gen, fin,
             model(b, Visible(mask, n, window, b, after, window)), after)
  {
    hide MaskIs, Visible, Remembers, Draw, Greedy, Stops;
    if valid && !fin {
      var hist := History(model, eos, b, prompt, k);
      RemembersNext(memory, hist, |prompt| + k - 1);
      DrawsAlone(model, mask, n, window, b, memory[|prompt| + k - 1 := tok], hist);
    }
  }

  /** No abort was requested and every step computed before position p. */
  ghost predicate Quiet(env: Env, p: nat) {
    forall q: nat :: q < p ==> !env.aborts(q) && env.computes(q)
  }

  lemma QuietNext(env: Env, p: nat)
    requires Quiet(env, p) && !env.aborts(p) && env.computes(p)
    ensures Quiet(env, p + 1)
  {
  }

  /** The first count windows of the growth formula were all built. */
  ghost predicate Built(env: Env, init: nat, limit: nat, count: nat) {
    forall g: nat :: g < count ==> env.rebuilds(WindowAfter(init, limit, g))
  }

  lemma BuiltNext(env: Env, init: nat, limit: nat, count: nat)
    requires Built(env, init, limit, count)
    ensures Built(env, init, limit, count + 1) <==> env.rebuilds(WindowAfter(init, limit, count))
  {
    hide WindowAfter;
  }

  class StepLoop {
    const n: nat
    const prompt: seq<int>
    const initWindow: nat
    const maxNew: int
    const maxNkv: nat
    const eos: int
    const valid: seq<bool>
    const model: Oracle
    const env: Env

    var mask: seq<bool>
    var kvWindow: nat
    var tokBuf: seq<int>
    var posBuf: seq<nat>
    var argmaxBuf: seq<int>
    var memory: seq<map<nat, int>>  // the device's key-value slabs, one per row
    var finished: seq<bool>
    var nextTok: seq<int>
    var generated: seq<seq<int>>
    var truncated: seq<bool>
    var nSteps: nat
    var nRebuilds: nat

    /** What the callers of the loop provide. */
    ghost predicate Configured() {
      |valid| == n && 1 <= initWindow && |prompt| <= maxNkv
    }

    ghost predicate Shape()
      reads this
    {
      && Configured() && kvWindow >= 1
      && |mask| == n * kvWindow
      && |tokBuf| == |posBuf| == |argmaxBuf| == |memory| == |finished| == |nextTok| == |generated| == n
    }

    /** The window and the number of rebuilds so far fit the growth formula. */
    ghost predicate WindowFits()
      reads this
    {
      && nRebuilds >= 1
      && kvWindow == WindowAfter(initWindow, maxNkv, nRebuilds - 1)
      && (nRebuilds > 1 ==> initWindow * Pow2(nRebuilds - 2) < maxNkv)
    }

    /** Nothing went wrong so far: quiet polls, computed steps, built windows. */
    ghost predicate Healthy()
      reads this`nSteps, this`nRebuilds
    {
      nRebuilds >= 1 && Quiet(env, nSteps) && Built(env, initWindow, maxNkv, nRebuilds)
    }

    /**
      * Why a call ended as it did: everything the loop asked before was answered well, and the answer that
      * stopped it is the one at the step it had reached, or the one for the window it had just grown to.
      */
    ghost predicate Explained(status: Status)
      reads this`nSteps, this`nRebuilds
    {
      match status
      case Ok => Healthy()
      case Aborted => Healthy() && env.aborts(nSteps)
      case GgufError => (Healthy() && !env.aborts(nSteps) && !env.computes(nSteps)) || WindowFailed(0)
      case OutOfMemory => !env.aborts(nSteps) && exists g: nat :: g > 0 && WindowFailed(g)
    }

    /** The g-th window was the last one asked for, and the only one that could not be built. */
    ghost predicate WindowFailed(g: nat)
      reads this`nSteps, this`nRebuilds
    {
      && nRebuilds == g + 1 && (g == 0 ==> nSteps == 0) && Quiet(env, nSteps)
      && Built(env, initWindow, maxNkv, g) && !env.rebuilds(WindowAfter(initWindow, maxNkv, g))
    }

    constructor (n: nat, prompt: seq<int>, initWindow: nat, maxNew: int, maxNkv: nat, eos: int, valid: seq<bool>,
                 model: Oracle, env: Env, generated: seq<seq<int>>)
      requires |valid| == |generated| == n && 1 <= initWindow && |prompt| <= maxNkv
      ensures Configured() && this.generated == generated
      ensures this.n == n && this.prompt == prompt && this.initWindow == initWindow && this.maxNew == maxNew
      ensures this.maxNkv == maxNkv && this.eos == eos && this.valid == valid && this.model == model && this.env == env
    {
      this.n, this.prompt, this.initWindow, this.maxNew, this.maxNkv := n, prompt, initWindow, maxNew, maxNkv;
      this.eos, this.valid, this.model, this.env, this.generated := eos, valid, model, env, generated;
      mask, kvWindow, tokBuf, posBuf, argmaxBuf, memory := [], 1, [], [], [], [];
      finished, nextTok, truncated, nSteps, nRebuilds := [], [], [], 0, 0;
    }

    /** The mask and position writes of run_step. */
    method OpenPosition(posv: nat)
      requires Shape() && posv < kvWindow && MaskIs(mask, n, kvWindow, posv)
      modifies this`posBuf, this`mask
      ensures Shape() && MaskIs(mask, n, kvWindow, posv + 1)
      ensures forall b :: 0 <= b < n ==> posBuf[b] == posv
    {
      hide Cell;
      for b := 0 to n
        invariant Shape() && MaskOpening(mask, n, kvWindow, posv, b)
        invariant forall c :: 0 <= c < b ==> posBuf[c] == posv
      {
        posBuf := posBuf[b := posv];
        OpenCell(mask, n, kvWindow, posv, b);
        mask := mask[b * kvWindow + posv := true];
      }
    }

    /** run_step: open position posv in every row and compute. */
    method RunStep(posv: nat) returns (ok: bool)
      requires Shape() && posv < kvWindow && MaskIs(mask, n, kvWindow, posv)
      modifies this`posBuf, this`mask, this`memory, this`argmaxBuf, this`nSteps
      ensures Shape() && MaskIs(mask, n, kvWindow, posv + 1)
      ensures forall b :: 0 <= b < n ==> posBuf[b] == posv
      ensures ok <==> env.computes(posv)
      ensures !ok ==> nSteps == old(nSteps) && memory == old(memory)
      ensures ok ==> nSteps == old(nSteps) + 1
      ensures ok ==> forall b :: 0 <= b < n ==>
        && memory[b] == old(memory[b])[posv := tokBuf[b]]
        && argmaxBuf[b] == model(b, Visible(mask, n, kvWindow, b, memory[b], kvWindow))
    {
      OpenPosition(posv);
      if !env.computes(posv) {
        return false;
      }
      memory := Stored(memory, posv, tokBuf);
      argmaxBuf := Computed(model, mask, n, kvWindow, memory);
      nSteps := nSteps + 1;
      return true;
    }

    /** ensure_window: grow the window, rebuild the graph and widen the mask so that position posv fits. */
    method EnsureWindow(posv: nat) returns (ok: bool)
      requires Shape() && WindowFits() && MaskIs(mask, n, kvWindow, posv)
      requires posv <= kvWindow && (posv <= maxNkv || posv < kvWindow)
      modifies this`mask, this`kvWindow, this`nRebuilds
      ensures Shape() && WindowFits() && MaskIs(mask, n, kvWindow, posv)
      ensures posv < maxNkv ==> posv < kvWindow
      ensures posv <= kvWindow
      ensures posv < old(kvWindow) ==> ok && kvWindow == old(kvWindow) && nRebuilds == old(nRebuilds)
      ensures old(kvWindow) <= posv && old(kvWindow) < maxNkv ==>
        kvWindow == if 2 * old(kvWindow) < maxNkv then 2 * old(kvWindow) else maxNkv
      ensures nRebuilds <= old(nRebuilds) + 1
      ensures old(Healthy()) ==> if ok then Healthy() else nRebuilds > 1 && WindowFailed(nRebuilds - 1)
    {
      if posv + 1 <= kvWindow {
        return true;
      }
      var win := kvWindow;
      while win < posv + 1 && win < maxNkv
        invariant win == kvWindow || (win == 2 * kvWindow && kvWindow < maxNkv)
        decreases posv + 1 - win
      {
        win := win * 2;
      }
      if win > maxNkv {
        win := maxNkv;
      }
      if win == kvWindow {
        return true;
      }
      WindowGrows(initWindow, maxNkv, nRebuilds - 1);
      if Healthy() {
        BuiltNext(env, initWindow, maxNkv, nRebuilds);
      }
      mask := WiderMask(n, win, posv);
      kvWindow := win;
      nRebuilds := nRebuilds + 1;
      return env.rebuilds(win);
    }

    // The loop proper.

    ghost predicate Awaiting(base: seq<seq<int>>, k: nat, b: nat)
      requires Shape() && |base| == n && b < n
      reads this
    {
      Awaits(model, eos, b, prompt, k, valid[b], base[b], generated[b], finished[b], argmaxBuf[b], memory[b])
    }

    ghost predicate Collected(base: seq<seq<int>>, k: nat, b: nat)
      requires Shape() && |base| == n && b < n
      reads this
    {
      Holds(model, eos, b, prompt, k, valid[b], base[b], generated[b], finished[b], nextTok[b], memory[b])
    }

    ghost predicate AllAwaiting(base: seq<seq<int>>, k: nat)
      reads this
    {
      Shape() && |base| == n && forall b :: 0 <= b < n ==> Awaiting(base, k, b)
    }

    ghost predicate AllCollected(base: seq<seq<int>>, k: nat)
      reads this
    {
      Shape() && |base| == n && forall b :: 0 <= b < n ==> Collected(base, k, b)
    }

    /** Append each live row's token, or finish the row at end of sequence. */
    method CollectTokens(ghost base: seq<seq<int>>, ghost k: nat)
      requires AllAwaiting(base, k)
      modifies this`nextTok, this`finished, this`generated
      ensures AllCollected(base, k + 1)
    {
      hide Awaits, Holds;
      ghost var next := k + 1;
      for b := 0 to n
        invariant Shape()
        invariant forall c :: 0 <= c < b ==> Collected(base, next, c)
        invariant forall c :: b <= c < n ==> Awaiting(base, k, c)
      {
        label Before:
        CollectToken(b, base, k);
        forall c | 0 <= c < n && c != b
          ensures (c < b ==> Collected(base, next, c)) && (b < c ==> Awaiting(base, k, c))
        {
          assert c < b ==> old@Before(Collected(base, next, c));
          assert b < c ==> old@Before(Awaiting(base, k, c));
        }
      }
    }

    method CollectToken(b: nat, ghost base: seq<seq<int>>, ghost k: nat)
      requires Shape() && |base| == n && b < n && Awaiting(base, k, b)
      modifies this`nextTok, this`finished, this`generated
      ensures Shape() && Collected(base, k + 1, b)
      ensures forall c :: 0 <= c < n && c != b ==>
        nextTok[c] == old(nextTok[c]) && finished[c] == old(finished[c]) && generated[c] == old(generated[c])
    {
      hide Draw, Greedy, Stops;
      if finished[b] {
        if valid[b] {
          GreedyStopped(model, eos, b, prompt, k, k + 1);
        }
        return;
      }
      GreedyNext(model, eos, b, prompt, k);
      nextTok := nextTok[b := argmaxBuf[b]];
      if nextTok[b] == eos {
        finished := finished[b := true];
      } else {
        generated := generated[b := generated[b] + [nextTok[b]]];
        ghost var hist := History(model, eos, b, prompt, k + 1);
        assert hist[..|hist| - 1] == History(model, eos, b, prompt, k);
      }
    }

    /** Every row has read the first p prompt tokens. */
    ghost predicate Fed(p: nat)
      reads this
    {
      Shape() && p <= |prompt| && forall b :: 0 <= b < n ==>
        argmaxBuf[b] == Draw(model, b, prompt[..p]) && Remembers(memory[b], prompt[..p])
    }

    ghost predicate AllPartial(base: seq<seq<int>>)
      requires Configured()
      reads this`generated
    {
      |base| == |generated| == n && forall b :: 0 <= b < n ==>
        Partial(model, eos, b, prompt, Cap(|prompt|, maxNew, maxNkv), valid[b], base[b], generated[b])
    }

    ghost predicate AllSolo(base: seq<seq<int>>)
      requires Configured()
      reads this`generated, this`truncated
    {
      |base| == |generated| == |truncated| == n && forall b :: 0 <= b < n ==>
        Solo(model, eos, b, prompt, Cap(|prompt|, maxNew, maxNkv), valid[b], base[b], generated[b], truncated[b])
    }

    /** Some valid row has not stopped within the first k draws. */
    ghost predicate SomeAlive(k: nat)
      requires Configured()
    {
      exists b :: 0 <= b < n && valid[b] && !Stops(model, eos, b, prompt, k)
    }

    /** The state before the first step, on the initial window. */
    method Prepare()
      requires Configured() && |generated| == n
      modifies this`kvWindow, this`mask, this`tokBuf, this`posBuf, this`argmaxBuf, this`memory,
               this`finished, this`nextTok, this`nSteps, this`nRebuilds
      ensures Fed(0) && WindowFits() && MaskIs(mask, n, kvWindow, 0) && nSteps == 0 && nRebuilds == 1
      ensures forall b :: 0 <= b < n ==> finished[b] == !valid[b]
    {
      hide MaskIs, Draw, Remembers;
      DrawNothing(model);
      assert prompt[..0] == [];
      assert Remembers(map[], []) by {
        RemembersNothing();
      }
      tokBuf, argmaxBuf, nextTok := seq(n, _ => 0), seq(n, _ => 0), seq(n, _ => 0);
      posBuf := seq(n, _ => 0);
      memory := seq(n, _ => map[]);
      finished := seq(n, b requires 0 <= b < n => !valid[b]);
      kvWindow, nRebuilds, nSteps := initWindow, 1, 0;
      mask := WiderMask(n, initWindow, 0);
      MaskSize(mask, n, initWindow, 0);
    }

    /** One prompt token for every row. */
    method FeedToken(p: nat) returns (ok: bool)
      requires Fed(p) && p < |prompt| && p < kvWindow && MaskIs(mask, n, kvWindow, p)
      modifies this`tokBuf, this`posBuf, this`mask, this`memory, this`argmaxBuf, this`nSteps
      ensures Shape() && (ok <==> env.computes(p)) && (!ok ==> nSteps == old(nSteps))
      ensures ok ==> Fed(p + 1) && MaskIs(mask, n, kvWindow, p + 1) && nSteps == old(nSteps) + 1
    {
      hide MaskIs, Visible, Draw, Remembers;
      tokBuf := seq(n, _ => prompt[p]);
      ok := RunStep(p);
      if ok {
        assert prompt[..p + 1][..p] == prompt[..p];
        forall b | 0 <= b < n
          ensures argmaxBuf[b] == Draw(model, b, prompt[..p + 1]) && Remembers(memory[b], prompt[..p + 1])
        {
          RemembersNext(old(memory[b]), prompt[..p + 1], p);
          DrawsAlone(model, mask, n, kvWindow, b, memory[b], prompt[..p + 1]);
        }
      }
    }

    /** The prompt feed: one step per prompt token. */
    method FeedPrompt() returns (status: Status)
      requires Fed(0) && WindowFits() && MaskIs(mask, n, kvWindow, 0) && nSteps == 0 && Healthy()
      modifies this`tokBuf, this`posBuf, this`mask, this`memory, this`argmaxBuf, this`nSteps,
               this`kvWindow, this`nRebuilds
      ensures Shape() && WindowFits() && Explained(status)
      ensures status.Ok? ==> Fed(|prompt|) && MaskIs(mask, n, kvWindow, |prompt|) && nSteps == |prompt| <= kvWindow
    {
      hide MaskIs, Draw, Remembers, Quiet, Built, WindowAfter;
      var pos := 0;
      while pos < |prompt|
        invariant Fed(pos) && WindowFits() && MaskIs(mask, n, kvWindow, pos) && nSteps == pos <= kvWindow
        invariant pos <= |prompt| && Healthy()
      {
        if env.aborts(pos) {
          return Aborted;
        }
        label Before:
        var fits := EnsureWindow(pos);
        if !fits {
          return OutOfMemory;
        }
        assert Fed(pos) by {
          assert old@Before(Fed(pos));
        }
        var ok := FeedToken(pos);
        if !ok {
          return GgufError;
        }
        QuietNext(env, pos);
        pos := pos + 1;
      }
      return Ok;
    }

    /** One generation step: every live row reads its last token. */
    method FeedLast(ghost base: seq<seq<int>>, pos: nat, ghost k: nat) returns (ok: bool)
      requires AllCollected(base, k) && pos + 1 == |prompt| + k && pos < kvWindow && MaskIs(mask, n, kvWindow, pos)
      modifies this`tokBuf, this`posBuf, this`mask, this`memory, this`argmaxBuf, this`nSteps
      ensures Shape() && (ok <==> env.computes(pos)) && (!ok ==> nSteps == old(nSteps))
      ensures ok ==> AllAwaiting(base, k) && MaskIs(mask, n, kvWindow, pos + 1) && nSteps == old(nSteps) + 1
    {
      hide MaskIs, Visible, Awaits, Holds;
      var done, next := finished, nextTok;
      tokBuf := seq(n, b requires 0 <= b < n => if done[b] then eos else next[b]);
      ok := RunStep(pos);
      if ok {
        forall b | 0 <= b < n
          ensures Awaiting(base, k, b)
        {
          assert old(Collected(base, k, b));
          StepRow(model, eos, b, prompt, k, valid[b], base[b], generated[b], finished[b], nextTok[b], old(memory[b]),
                  mask, n, kvWindow, tokBuf[b]);
        }
      }
    }

    method AllDone(ghost base: seq<seq<int>>, ghost k: nat) returns (done: bool)
      requires AllCollected(base, k)
      ensures done ==> forall b :: 0 <= b < n ==> finished[b]
      ensures !done ==> SomeAlive(k)
    {
      hide Stops, Greedy;
      for b := 0 to n
        invariant forall c :: 0 <= c < b ==> finished[c]
      {
        if !finished[b] {
          assert Collected(base, k, b);
          return false;
        }
      }
      return true;
    }

    lemma PartialRows(base: seq<seq<int>>, k: nat)
      requires AllCollected(base, k) && k <= Cap(|prompt|, maxNew, maxNkv)
      ensures AllPartial(base)
    {
      hide Stops, Greedy, Progress, Cap;
      forall b | 0 <= b < n
        ensures Partial(model, eos, b, prompt, Cap(|prompt|, maxNew, maxNkv), valid[b], base[b], generated[b])
      {
        assert Collected(base, k, b);
        if valid[b] {
          PartialProgress(model, eos, b, prompt, k, Cap(|prompt|, maxNew, maxNkv), base[b], generated[b], finished[b]);
        }
      }
    }

    /** One turn of the generation loop: window, step, collection. */
    method Turn(ghost base: seq<seq<int>>, pos: nat, ghost k: nat) returns (status: Status)
      requires AllCollected(base, k) && WindowFits() && MaskIs(mask, n, kvWindow, pos)
      requires pos + 1 == |prompt| + k && pos < maxNkv && pos <= kvWindow
      requires nSteps == pos && Healthy() && !env.aborts(pos)
      modifies this`tokBuf, this`posBuf, this`mask, this`memory, this`argmaxBuf, this`nSteps,
               this`kvWindow, this`nRebuilds, this`nextTok, this`finished, this`generated
      ensures Shape() && WindowFits() && Explained(status) && status != Aborted
      ensures !status.Ok? ==> generated == old(generated)
      ensures status.Ok? ==> AllCollected(base, k + 1) && MaskIs(mask, n, kvWindow, pos + 1) && pos + 1 <= kvWindow
      ensures status.Ok? ==> nSteps == old(nSteps) + 1
    {
      hide MaskIs, Awaits, Holds, Quiet, Built, WindowAfter;
      var fits := EnsureWindow(pos);
      if !fits {
        return OutOfMemory;
      }
      assert AllCollected(base, k) by {
        assert old(AllCollected(base, k));
        forall b | 0 <= b < n
          ensures Collected(base, k, b)
        {
          assert old(Collected(base, k, b));
        }
      }
      var ok := FeedLast(base, pos, k);
      if !ok {
        return GgufError;
      }
      QuietNext(env, pos);
      CollectTokens(base, k);
      return Ok;
    }

    /** Generation: until every row is finished, the budget is spent or the context is full. */
    method Generate(ghost base: seq<seq<int>>) returns (status: Status, ghost drawn: nat)
      requires AllCollected(base, 1) && WindowFits() && MaskIs(mask, n, kvWindow, |prompt|)
      requires nSteps == |prompt| <= kvWindow
      requires Healthy()
      modifies this`tokBuf, this`posBuf, this`mask, this`memory, this`argmaxBuf, this`nSteps,
               this`kvWindow, this`nRebuilds, this`nextTok, this`finished, this`generated
      ensures Shape() && WindowFits() && Explained(status) && AllPartial(base)
      ensures status.Ok? ==> 1 <= drawn <= Cap(|prompt|, maxNew, maxNkv) && nSteps == |prompt| + drawn - 1
      ensures status.Ok? && drawn > 1 ==> SomeAlive(drawn - 1)
      ensures status.Ok? ==> AllCollected(base, drawn)
      ensures status.Ok? && drawn < Cap(|prompt|, maxNew, maxNkv) ==> forall b :: 0 <= b < n ==> finished[b]
    {
      hide MaskIs, Awaits, Holds, Progress, Partial, Quiet, Built, WindowAfter;
      var produced, pos := 1, |prompt|;
      drawn := 1;
      PartialRows(base, 1);
      while produced < maxNew
        invariant produced == drawn && 1 <= produced <= Cap(|prompt|, maxNew, maxNkv)
        invariant AllCollected(base, produced) && AllPartial(base) && WindowFits()
        invariant pos + 1 == |prompt| + produced && nSteps == pos <= kvWindow && MaskIs(mask, n, kvWindow, pos)
        invariant produced > 1 ==> SomeAlive(produced - 1)
        invariant Healthy()
      {
        if env.aborts(pos) {
          return Aborted, drawn;
        }
        var allDone := AllDone(base, produced);
        if allDone || pos + 1 > maxNkv {
          return Ok, drawn;
        }
        status := Turn(base, pos, produced);
        if !status.Ok? {
          return status, drawn;
        }
        produced, pos, drawn := produced + 1, pos + 1, drawn + 1;
        PartialRows(base, produced);
      }
      return Ok, drawn;
    }

    /** Valid rows that never met end of sequence were cut off. */
    method MarkTruncated(ghost base: seq<seq<int>>, ghost drawn: nat)
      requires AllCollected(base, drawn) && drawn <= Cap(|prompt|, maxNew, maxNkv)
      requires drawn < Cap(|prompt|, maxNew, maxNkv) ==> forall b :: 0 <= b < n ==> finished[b]
      modifies this`truncated
      ensures AllSolo(base)
    {
      hide Greedy, Stops, Cap, Progress;
      var live, done := valid, finished;
      truncated := seq(n, b requires 0 <= b < n => live[b] && !done[b]);
      forall b | 0 <= b < n
        ensures Solo(model, eos, b, prompt, Cap(|prompt|, maxNew, maxNkv), valid[b],
                     base[b], generated[b], truncated[b])
      {
        assert old(Collected(base, drawn, b));
        if valid[b] {
          SoloAtEnd(model, eos, b, prompt, drawn, Cap(|prompt|, maxNew, maxNkv), base[b], generated[b], finished[b]);
        }
      }
    }

    lemma FedRows(base: seq<seq<int>>)
      requires Fed(|prompt|) && |base| == n
      requires forall b :: 0 <= b < n ==> finished[b] == !valid[b] && generated[b] == base[b]
      ensures AllAwaiting(base, 0)
    {
      forall b | 0 <= b < n
        ensures Awaiting(base, 0, b)
      {
        assert History(model, eos, b, prompt, 0) == prompt[..|prompt|];
      }
    }

    lemma UntouchedRows()
      requires Configured() && |generated| == n
      ensures AllPartial(generated)
    {
    }

    /** The loop, with its result stated through the definition of greedy decoding. */
    method RunLoop() returns (status: Status)
      requires Configured() && |generated| == n
      modifies this
      ensures status.Ok? ==> AllSolo(old(generated))
      ensures AllPartial(old(generated))
      ensures Explained(status)
      ensures status.Ok? ==> |prompt| <= nSteps < |prompt| + Cap(|prompt|, maxNew, maxNkv)
      ensures status.Ok? && nSteps > |prompt| ==> SomeAlive(nSteps - |prompt|)
      ensures nRebuilds >= 1 && kvWindow == WindowAfter(initWindow, maxNkv, nRebuilds - 1)
      ensures forall k: nat :: initWindow * Pow2(k) >= maxNkv ==> nRebuilds <= 1 + k
    {
      hide MaskIs, Awaits, Holds, Partial, Solo, Cap, WindowAfter, Quiet, Built;
      ghost var base := generated;
      Prepare();
      UntouchedRows();
      Rebuilds();
      FirstBuild();
      if !env.rebuilds(kvWindow) {
        return GgufError;
      }
      status := FeedPrompt();
      Rebuilds();
      if !status.Ok? {
        return;
      }
      FedRows(base);
      CollectTokens(base, 0);
      ghost var drawn;
      status, drawn := Generate(base);
      Rebuilds();
      if status.Ok? {
        MarkTruncated(base, drawn);
      }
    }

    /**
      * The batched loop refines decoding every row on its own: whatever the other rows do, a valid row ends
      * with its own greedy sequence up to the cap, and is marked truncated exactly if it never stopped. A call
      * that gives up leaves prefixes. The loop takes no step that no row needs, and rebuilds logarithmically often.
      */
    method Run() returns (status: Status)
      requires Configured() && |generated| == n
      modifies this
      ensures status.Ok? ==> AllSolo(old(generated))
      ensures AllPartial(old(generated))
      ensures status.Ok? ==> forall b :: 0 <= b < n && valid[b] ==>
        OwnDecode(model, eos, b, prompt, maxNew, maxNkv, old(generated)[b], generated[b], truncated[b])
      ensures forall b :: 0 <= b < n && valid[b] ==>
        OwnStart(model, eos, b, prompt, maxNew, maxNkv, old(generated)[b], generated[b])
      ensures forall b :: 0 <= b < n && !valid[b] ==>
        generated[b] == old(generated)[b] && (status.Ok? ==> !truncated[b])
      ensures Explained(status)
      ensures status.Ok? ==> |prompt| <= nSteps < |prompt| + Cap(|prompt|, maxNew, maxNkv)
      ensures status.Ok? && nSteps > |prompt| ==> SomeAlive(nSteps - |prompt|)
      ensures nRebuilds >= 1 && kvWindow == WindowAfter(initWindow, maxNkv, nRebuilds - 1)
      ensures forall k: nat :: initWindow * Pow2(k) >= maxNkv ==> nRebuilds <= 1 + k
    {
      hide Partial, Solo, OwnDecode, OwnStart, Cap, WindowAfter, Explained, SomeAlive;
      ghost var base := generated;
      status := RunLoop();
      OwnRows(base, status);
    }

    lemma OwnRows(base: seq<seq<int>>, status: Status)
      requires Configured() && AllPartial(base) && (status.Ok? ==> AllSolo(base))
      ensures status.Ok? ==> forall b :: 0 <= b < n && valid[b] ==>
        OwnDecode(model, eos, b, prompt, maxNew, maxNkv, base[b], generated[b], truncated[b])
      ensures forall b :: 0 <= b < n && valid[b] ==>
        OwnStart(model, eos, b, prompt, maxNew, maxNkv, base[b], generated[b])
      ensures forall b :: 0 <= b < n && !valid[b] ==>
        generated[b] == base[b] && (status.Ok? ==> !truncated[b])
    {
      hide OwnDecode, OwnStart, Greedy, Stops, Cap;
      forall b | 0 <= b < n && valid[b]
        ensures OwnStart(model, eos, b, prompt, maxNew, maxNkv, base[b], generated[b])
        ensures status.Ok? ==> OwnDecode(model, eos, b, prompt, maxNew, maxNkv, base[b], generated[b], truncated[b])
      {
        PartialIsOwn(model, eos, b, prompt, maxNew, maxNkv, base[b], generated[b]);
        if status.Ok? {
          SoloIsOwn(model, eos, b, prompt, maxNew, maxNkv, base[b], generated[b], truncated[b]);
        }
      }
    }

    lemma Rebuilds()
      requires WindowFits()
      ensures nRebuilds >= 1 && kvWindow == WindowAfter(initWindow, maxNkv, nRebuilds - 1)
      ensures forall k: nat :: initWindow * Pow2(k) >= maxNkv ==> nRebuilds <= 1 + k
    {
      forall k: nat | initWindow * Pow2(k) >= maxNkv
        ensures nRebuilds <= 1 + k
      {
        GrowthBound(initWindow, maxNkv, nRebuilds - 1, k);
      }
    }

    lemma FirstBuild()
      requires nSteps == 0 && nRebuilds == 1 && WindowFits()
      ensures if env.rebuilds(kvWindow) then Healthy() else WindowFailed(0)
    {
    }
  }
}
