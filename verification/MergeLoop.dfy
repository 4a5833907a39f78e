/** The merge loop: linked list plus priority queue with stale entries, against naive BPE. */
module MergeLoop {
  import opened Wrappers
  import opened Bpe
  import opened SymbolList
  import opened Utf8
  import opened Seeding

  ghost predicate Ready(word: Piece, rank: Ranking, syms: seq<Symbol>, live: seq<nat>, queue: multiset<Bigram>) {
    Chain(word, syms, live) && AllEntriesOk(word, rank, syms, queue) && Covered(word, rank, syms, live, queue)
  }

  /** The entry of a current pair is never taken for stale. */
  lemma PairNotStale(word: Piece, rank: Ranking, syms: seq<Symbol>, live: seq<nat>, k: nat)
    requires Chain(word, syms, live) && k + 1 < |live|
    ensures var e := PairEntry(word, rank, syms, live, k);
      && e.left < |syms| && e.right < |syms| && |e.text| == e.size
      && EndOf(syms[e.left]) <= |word| && EndOf(syms[e.right]) <= |word|
      && !IsStale(word, syms, e)
  {
    Neighbours(word, syms, live, k);
    PieceAt(word, syms, live, k);
    PieceAt(word, syms, live, k + 1);
  }

  /** Dropping a stale entry loses nothing. */
  lemma DropStale(word: Piece, rank: Ranking, syms: seq<Symbol>, live: seq<nat>, queue: multiset<Bigram>, e: Bigram)
    requires Ready(word, rank, syms, live, queue) && e in queue
    requires e.left < |syms| && e.right < |syms| && |e.text| == e.size
    requires EndOf(syms[e.left]) <= |word| && EndOf(syms[e.right]) <= |word|
    requires IsStale(word, syms, e)
    ensures Ready(word, rank, syms, live, queue - multiset{e})
  {
    hide Chain, EntryOk, IsStale, PairEntry;
    forall k | 0 <= k < |live| - 1 && PairEntry(word, rank, syms, live, k).rank >= 0
      ensures PairEntry(word, rank, syms, live, k) in queue - multiset{e}
    {
      PairNotStale(word, rank, syms, live, k);
    }
  }

  /** A popped minimum that is not stale: it is the pair naive BPE merges next. */
  lemma TakeFresh(word: Piece, rank: Ranking, syms: seq<Symbol>, live: seq<nat>, queue: multiset<Bigram>, e: Bigram)
    returns (p: nat)
    requires Ready(word, rank, syms, live, queue) && e in queue && (forall x :: x in queue ==> NotAfter(e, x))
    requires e.left < |syms| && e.right < |syms| && |e.text| == e.size
    requires EndOf(syms[e.left]) <= |word| && EndOf(syms[e.right]) <= |word|
    requires !IsStale(word, syms, e)
    ensures p + 1 < |live| && live[p] == e.left && live[p + 1] == e.right && e == PairEntry(word, rank, syms, live, p)
    ensures Best(rank, Pieces(word, syms, live)) == Some(p)
  {
    hide Chain, PairEntry, Covered, Best, Pieces;
    assert EntryOk(word, rank, syms, e);
    p := FreshIsAdjacent(word, rank, syms, live, e);
    FreshIsBest(word, rank, syms, live, queue, p);
  }

  /** What pushing the k-th pair adds to the queue. */
  ghost function PairPush(word: Piece, rank: Ranking, syms: seq<Symbol>, live: seq<nat>, k: int): (pushed: seq<Bigram>)
    requires Chain(word, syms, live)
    ensures |pushed| <= 1
  {
    if 0 <= k < |live| - 1 && PairEntry(word, rank, syms, live, k).rank >= 0
    then [PairEntry(word, rank, syms, live, k)] else []
  }

  lemma PairPushOk(word: Piece, rank: Ranking, syms: seq<Symbol>, live: seq<nat>, k: int, x: Bigram)
    requires Chain(word, syms, live) && x in PairPush(word, rank, syms, live, k)
    ensures EntryOk(word, rank, syms, x)
  {
    PushedOk(word, rank, syms, live, k);
  }

  lemma MergeKeepsEntries(word: Piece, rank: Ranking, syms': seq<Symbol>, syms: seq<Symbol>, live: seq<nat>, p: nat,
                          queue: multiset<Bigram>, after: multiset<Bigram>)
    requires Chain(word, syms, live) && AllEntriesOk(word, rank, syms, queue)
    requires p + 1 < |live| && Chain(word, syms', Unlinked(live, p))
    requires Merged(syms', syms, live[p], live[p + 1], LinkAt(live, p + 2))
    requires forall x :: x in after ==> x in queue || x in PairPush(word, rank, syms', Unlinked(live, p), p - 1)
                                        || x in PairPush(word, rank, syms', Unlinked(live, p), p)
    ensures AllEntriesOk(word, rank, syms', after)
  {
    hide Chain, Merged, LinkAt, EntryOk, Unlinked, PairPush;
    Neighbours(word, syms, live, p);
    forall x | x in after ensures EntryOk(word, rank, syms', x) {
      if x in queue {
        MergeKeepsEntry(word, rank, syms', syms, live[p], live[p + 1], LinkAt(live, p + 2), x);
      } else if x in PairPush(word, rank, syms', Unlinked(live, p), p - 1) {
        PairPushOk(word, rank, syms', Unlinked(live, p), p - 1, x);
      } else {
        PairPushOk(word, rank, syms', Unlinked(live, p), p, x);
      }
    }
  }

  lemma MergeKeepsCovered(word: Piece, rank: Ranking, syms': seq<Symbol>, syms: seq<Symbol>, live: seq<nat>, p: nat,
                          queue: multiset<Bigram>, after: multiset<Bigram>)
    requires Chain(word, syms, live) && Covered(word, rank, syms, live, queue)
    requires p + 1 < |live| && Chain(word, syms', Unlinked(live, p))
    requires Merged(syms', syms, live[p], live[p + 1], LinkAt(live, p + 2))
    requires forall x :: x in queue && x.left != live[p] ==> x in after
    requires forall x :: x in PairPush(word, rank, syms', Unlinked(live, p), p - 1) ==> x in after
    requires forall x :: x in PairPush(word, rank, syms', Unlinked(live, p), p) ==> x in after
    ensures Covered(word, rank, syms', Unlinked(live, p), after)
  {
    hide Chain, Merged, LinkAt, PairEntry, Unlinked;
    forall k | 0 <= k < |live| - 2 && PairEntry(word, rank, syms', Unlinked(live, p), k).rank >= 0
      ensures PairEntry(word, rank, syms', Unlinked(live, p), k) in after
    {
      if k != p && k + 1 != p {
        MergeKeepsPair(word, rank, syms', syms, live, p, k);
      }
    }
  }

  lemma MergeKeepsReady(word: Piece, rank: Ranking, syms': seq<Symbol>, syms: seq<Symbol>, live: seq<nat>, p: nat,
                        queue: multiset<Bigram>, after: multiset<Bigram>)
    requires Ready(word, rank, syms, live, queue) && p + 1 < |live| && Chain(word, syms', Unlinked(live, p))
    requires Merged(syms', syms, live[p], live[p + 1], LinkAt(live, p + 2))
    requires PairEntry(word, rank, syms, live, p) in queue
    requires after == queue - multiset{PairEntry(word, rank, syms, live, p)}
                      + multiset(PairPush(word, rank, syms', Unlinked(live, p), p - 1))
                      + multiset(PairPush(word, rank, syms', Unlinked(live, p), p))
    ensures Ready(word, rank, syms', Unlinked(live, p), after)
  {
    hide Chain, Merged, LinkAt, PairEntry, AllEntriesOk, Covered, Unlinked, PairPush;
    PairRank(word, rank, syms, live, p);
    MergeKeepsEntries(word, rank, syms', syms, live, p, queue, after);
    MergeKeepsCovered(word, rank, syms', syms, live, p, queue, after);
  }

  class Workspace {
    var symbols: seq<Symbol>
    var queue: seq<Bigram>
    ghost var live: seq<nat>

    constructor ()
      ensures symbols == [] && queue == []
    {
      symbols, queue := [], [];
    }

    /** Fill the list for a pretoken: one symbol a codepoint, or a byte with a raw vocabulary. */
    method Seed(word: Piece, raw: bool)
      requires word != []
      modifies this
      ensures queue == [] && Chain(word, symbols, live) && Pieces(word, symbols, live) == ByteBpe.SeedPieces(raw, word)
      ensures |live| == |symbols| && forall k :: 0 <= k < |live| ==> live[k] == k
    {
      hide SlotsTo, SplitTo, Chain, Pieces;
      queue, symbols := [], [];
      NoSlots(word, raw);
      var index, offset := 0, 0;
      while offset < |word|
        invariant queue == [] && index == |symbols| && offset <= |word|
        invariant SlotsTo(word, symbols, offset) && SplitTo(word, raw, symbols, offset)
        decreases |word| - offset
      {
        var clen: nat := if raw then 1 else LenUtf8(word[offset]);
        if |word| - offset < clen {
          clen := |word| - offset;
        }
        NextSlotFits(word, symbols, offset, clen);
        NextPieceFits(word, raw, symbols, offset, clen);
        symbols := symbols + [Symbol(offset, clen, index - 1, if offset + clen == |word| then -1 else index + 1)];
        offset := offset + clen;
        index := index + 1;
      }
      live := Identity(|symbols|);
      SlotsAreChain(word, symbols);
      SplitIsDone(word, raw, symbols);
    }

    /** Enqueue the pair of two slots, if both exist and their pieces can be merged. */
    method PushBigram(word: Piece, rank: Ranking, l: int, r: int)
      requires l < |symbols| && r < |symbols|
      requires l >= 0 && r >= 0 ==> EndOf(symbols[l]) <= |word| && EndOf(symbols[r]) <= |word|
      modifies this`queue
      ensures queue == old(queue) +
        if l < 0 || r < 0 || EntryFor(word, rank, l, r, symbols[l], symbols[r]).rank < 0 then []
        else [EntryFor(word, rank, l, r, symbols[l], symbols[r])]
    {
      if l < 0 || r < 0 {
        return;
      }
      var left, right := PieceOf(word, symbols[l]), PieceOf(word, symbols[r]);
      var rk := rank(left, right);
      if rk < 0 {
        return;
      }
      queue := queue + [Bigram(l, r, left + right, rk, |left| + |right|)];
    }

    /** top and pop of the priority queue: some entry that no other precedes. */
    method PopTop() returns (top: Bigram)
      requires queue != []
      modifies this`queue
      ensures top in old(queue) && multiset(queue) == multiset(old(queue)) - multiset{top}
      ensures forall x :: x in old(queue) ==> NotAfter(top, x)
      ensures |queue| == |old(queue)| - 1
    {
      var best := 0;
      for i := 1 to |queue|
        invariant 0 <= best < i
        invariant forall k :: 0 <= k < i ==> NotAfter(queue[best], queue[k])
      {
        if !NotAfter(queue[best], queue[i]) {
          best := i;
        }
      }
      top := queue[best];
      assert queue == queue[..best] + [top] + queue[best + 1..];
      queue := queue[..best] + queue[best + 1..];
    }

    /** Enqueue the pairs around slot i, the p-th in use. */
    method PushNeighbours(word: Piece, rank: Ranking, i: nat, ghost p: nat)
      requires Chain(word, symbols, live) && p < |live| && live[p] == i && i < |symbols|
      modifies this`queue
      ensures queue == old(queue) + PairPush(word, rank, symbols, live, p - 1) + PairPush(word, rank, symbols, live, p)
    {
      hide Chain;
      NeighbourSlots(word, symbols, live, p);
      PushBigram(word, rank, symbols[i].prev, i);
      PushBigram(word, rank, i, symbols[i].next);
    }

    /** Merge the pair of a fresh entry and enqueue its new neighbours. */
    method MergeTop(word: Piece, rank: Ranking, bg: Bigram, ghost before: multiset<Bigram>, ghost p: nat)
      requires Ready(word, rank, symbols, live, before) && p + 1 < |live|
      requires bg == PairEntry(word, rank, symbols, live, p) && bg in before && multiset(queue) == before - multiset{bg}
      modifies this
      ensures Ready(word, rank, symbols, live, multiset(queue))
      ensures Pieces(word, symbols, live) == MergeAt(old(Pieces(word, symbols, live)), p)
      ensures |live| == old(|live|) - 1 && |queue| <= old(|queue|) + 2
    {
      hide Chain, EntryOk, Pieces, MergeSlots, MergeAt, Ready, PairPush, Merged, LinkAt;
      assert Chain(word, symbols, live) && AllEntriesOk(word, rank, symbols, before) by {
        ReadyParts(word, rank, symbols, live, before);
      }
      ghost var syms0, live0 := symbols, live;
      Neighbours(word, symbols, live, p);
      MergeIsMerged(symbols, bg.left, bg.right);
      MergeKeepsChain(word, symbols, live, p);
      symbols := MergeSlots(symbols, bg.left, bg.right);
      live := Unlinked(live, p);
      MergePieces(word, symbols, syms0, live0, p);
      PushNeighbours(word, rank, bg.left, p);
      MergeKeepsReady(word, rank, symbols, syms0, live0, p, before, multiset(queue));
    }

    /** The loop: it ends with the pieces of naive BPE. */
    method Run(word: Piece, rank: Ranking, ghost seeds: seq<Piece>)
      requires Chain(word, symbols, live) && Pieces(word, symbols, live) == seeds && queue == []
      requires |live| == |symbols| && forall k :: 0 <= k < |live| ==> live[k] == k
      modifies this
      ensures Chain(word, symbols, live) && Pieces(word, symbols, live) == NaiveBpe(rank, seeds)
      ensures Unranked(rank, Pieces(word, symbols, live))
      ensures exists trace ::
        IsTrace(rank, trace) && trace[0] == seeds && trace[|trace| - 1] == Pieces(word, symbols, live)
    {
      hide IsTrace, Unranked;
      hide Chain, AllEntriesOk, Covered, EntryOk, Pieces, IsStale, Best;
      SeedQueue(word, rank);
      while queue != []
        invariant Ready(word, rank, symbols, live, multiset(queue))
        invariant NaiveBpe(rank, Pieces(word, symbols, live)) == NaiveBpe(rank, seeds)
        decreases 3 * |live| + |queue|
      {
        ghost var before := multiset(queue);
        var bg := PopTop();
        EntryBounds(word, rank, symbols, live, before, bg);
        if IsStale(word, symbols, bg) {
          DropStale(word, rank, symbols, live, before, bg);
          continue;
        }
        ghost var p := TakeFresh(word, rank, symbols, live, before, bg);
        MergeTop(word, rank, bg, before, p);
      }
      assert multiset(queue) == multiset{};
      EmptyIsDone(word, rank, symbols, live);
      ghost var trace := NaiveTrace(rank, seeds);
    }

    /** The initial pushes, one per adjacent pair. */
    method SeedQueue(word: Piece, rank: Ranking)
      requires Chain(word, symbols, live) && queue == []
      requires |live| == |symbols| && forall k :: 0 <= k < |live| ==> live[k] == k
      modifies this`queue
      ensures Ready(word, rank, symbols, live, multiset(queue))
    {
      SeededNone(word, rank, symbols, live);
      hide Chain, SeededUpTo, PairPush;
      for i := 1 to |symbols|
        invariant SeededUpTo(word, rank, symbols, live, queue, i - 1)
      {
        SeededStep(word, rank, symbols, live, queue, i - 1);
        PushBigram(word, rank, i - 1, i);
      }
      SeededAll(word, rank, symbols, live, queue);
    }
  }

  /** The first n pairs have been pushed. */
  ghost predicate SeededUpTo(word: Piece, rank: Ranking, syms: seq<Symbol>, live: seq<nat>, queue: seq<Bigram>, n: nat)
    requires Chain(word, syms, live)
  {
    && (forall e :: e in queue ==> EntryOk(word, rank, syms, e))
    && (forall k :: 0 <= k < n && k < |live| - 1 ==>
      PairEntry(word, rank, syms, live, k).rank < 0 || PairEntry(word, rank, syms, live, k) in queue)
  }

  lemma SeededNone(word: Piece, rank: Ranking, syms: seq<Symbol>, live: seq<nat>)
    requires Chain(word, syms, live)
    ensures SeededUpTo(word, rank, syms, live, [], 0) && |live| > 0
  {
  }

  lemma SeededStep(word: Piece, rank: Ranking, syms: seq<Symbol>, live: seq<nat>, queue: seq<Bigram>, n: nat)
    requires Chain(word, syms, live) && SeededUpTo(word, rank, syms, live, queue, n) && n + 1 < |live|
    ensures live[n] < |syms| && live[n + 1] < |syms|
    ensures EndOf(syms[live[n]]) <= |word| && EndOf(syms[live[n + 1]]) <= |word|
    ensures var e := EntryFor(word, rank, live[n], live[n + 1], syms[live[n]], syms[live[n + 1]]);
      SeededUpTo(word, rank, syms, live, queue + if e.rank < 0 then [] else [e], n + 1)
  {
    PieceAt(word, syms, live, n);
    PieceAt(word, syms, live, n + 1);
    hide Chain, EntryOk, EntryFor;
    var e := EntryFor(word, rank, live[n], live[n + 1], syms[live[n]], syms[live[n + 1]]);
    assert e == PairEntry(word, rank, syms, live, n);
    if e.rank >= 0 {
      PushedOk(word, rank, syms, live, n);
    }
  }

  lemma SeededAll(word: Piece, rank: Ranking, syms: seq<Symbol>, live: seq<nat>, queue: seq<Bigram>)
    requires Chain(word, syms, live) && |live| > 0 && SeededUpTo(word, rank, syms, live, queue, |live| - 1)
    ensures Ready(word, rank, syms, live, multiset(queue))
  {
    hide Chain, EntryOk, PairEntry;
  }

  lemma ReadyParts(word: Piece, rank: Ranking, syms: seq<Symbol>, live: seq<nat>, queue: multiset<Bigram>)
    requires Ready(word, rank, syms, live, queue)
    ensures Chain(word, syms, live) && AllEntriesOk(word, rank, syms, queue) && |live| > 0
  {
  }

  lemma EntryBounds(word: Piece, rank: Ranking, syms: seq<Symbol>, live: seq<nat>, queue: multiset<Bigram>, e: Bigram)
    requires Ready(word, rank, syms, live, queue) && e in queue
    ensures e.left < |syms| && e.right < |syms| && |e.text| == e.size
    ensures EndOf(syms[e.left]) <= |word| && EndOf(syms[e.right]) <= |word|
  {
    assert EntryOk(word, rank, syms, e);
    SlotBounds(word, syms, live, e.left);
    SlotBounds(word, syms, live, e.right);
  }

  /** The links of the p-th slot lead to its neighbours, whose pairs are the list's pairs. */
  lemma NeighbourSlots(word: Piece, syms: seq<Symbol>, live: seq<nat>, p: nat)
    requires Chain(word, syms, live) && p < |live|
    ensures live[p] < |syms| && EndOf(syms[live[p]]) <= |word|
    ensures syms[live[p]].prev == (if p > 0 then live[p - 1] else -1) < |syms|
    ensures syms[live[p]].next == (if p + 1 < |live| then live[p + 1] else -1) < |syms|
    ensures p > 0 ==> EndOf(syms[live[p - 1]]) <= |word|
    ensures p + 1 < |live| ==> EndOf(syms[live[p + 1]]) <= |word|
  {
    LinkedSlot(syms, live, p);
    PieceAt(word, syms, live, p);
    if p > 0 { PieceAt(word, syms, live, p - 1); }
    if p + 1 < |live| { PieceAt(word, syms, live, p + 1); }
  }
}
