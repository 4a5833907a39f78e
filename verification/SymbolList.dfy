/**
  * The workspace of the merge loop as values: a doubly linked list threaded through a vector of
  * symbols, queue entries that may be stale, and the facts one merge step relies on.
  */
module SymbolList {
  import opened Wrappers
  import opened Bpe

  /** One slot; text is an offset into the pretoken, n == 0 means merged away. */
  datatype Symbol = Symbol(text: nat, n: nat, prev: int, next: int)

  datatype Bigram = Bigram(left: nat, right: nat, text: Piece, rank: int, size: nat)

  /** Lower rank first, lower left slot on ties. */
  predicate NotAfter(a: Bigram, b: Bigram) {
    if a.rank != b.rank then a.rank < b.rank else a.left <= b.left
  }

  function EndOf(s: Symbol): nat {
    s.text + s.n
  }

  /** Slots cover the pretoken in order: every slot starts before the next one and ends inside the word. */
  ghost predicate Slots(word: Piece, syms: seq<Symbol>) {
    && (forall i :: 0 <= i < |syms| ==> EndOf(syms[i]) <= |word|)
    && (forall i, j :: 0 <= i < j < |syms| ==> syms[i].text < syms[j].text)
  }

  /** live lists the slots in use, in order. */
  ghost predicate Listed(syms: seq<Symbol>, live: seq<nat>) {
    && (forall k :: 0 <= k < |live| ==> live[k] < |syms| && syms[live[k]].n > 0)
    && (forall j, k :: 0 <= j < k < |live| ==> live[j] < live[k])
    && (forall i :: 0 <= i < |syms| && i !in live ==> syms[i].n == 0)
  }

  /** The slots in use tile the word. */
  ghost predicate Tiled(word: Piece, syms: seq<Symbol>, live: seq<nat>)
    requires Listed(syms, live)
  {
    && |live| > 0 && live[0] == 0 && syms[0].text == 0
    && EndOf(syms[live[|live| - 1]]) == |word|
    && (forall k :: 0 <= k < |live| - 1 ==> TouchesNext(syms, live, k))
  }

  ghost predicate TouchesNext(syms: seq<Symbol>, live: seq<nat>, k: nat)
    requires Listed(syms, live) && k + 1 < |live|
  {
    EndOf(syms[live[k]]) == syms[live[k + 1]].text
  }

  /** The links connect exactly the slots in use. */
  ghost predicate Linked(syms: seq<Symbol>, live: seq<nat>)
    requires Listed(syms, live)
  {
    forall k :: 0 <= k < |live| ==> LinkedAt(syms, live, k)
  }

  ghost predicate LinkedAt(syms: seq<Symbol>, live: seq<nat>, k: nat)
    requires Listed(syms, live) && k < |live|
  {
    syms[live[k]].prev == LinkAt(live, k - 1) && syms[live[k]].next == LinkAt(live, k + 1)
  }

  ghost predicate Chain(word: Piece, syms: seq<Symbol>, live: seq<nat>) {
    Slots(word, syms) && Listed(syms, live) && Tiled(word, syms, live) && Linked(syms, live)
  }

  function LinkAt(live: seq<nat>, k: int): int {
    if 0 <= k < |live| then live[k] else -1
  }

  function PieceOf(word: Piece, s: Symbol): Piece
    requires EndOf(s) <= |word|
  {
    word[s.text..EndOf(s)]
  }

  /** The current segmentation of the word. */
  ghost function Pieces(word: Piece, syms: seq<Symbol>, live: seq<nat>): (ps: seq<Piece>)
    requires Chain(word, syms, live)
    ensures |ps| == |live|
  {
    seq(|live|, k requires 0 <= k < |live| => PieceOf(word, syms[live[k]]))
  }

  /** The entry that would be pushed now for two slots. */
  function EntryFor(word: Piece, rank: Ranking, l: nat, r: nat, a: Symbol, b: Symbol): Bigram
    requires EndOf(a) <= |word| && EndOf(b) <= |word|
  {
    Bigram(l, r, PieceOf(word, a) + PieceOf(word, b), rank(PieceOf(word, a), PieceOf(word, b)), a.n + b.n)
  }

  /** An entry was pushed for two then-adjacent slots; slots in use have only grown since. */
  ghost predicate EntryOk(word: Piece, rank: Ranking, syms: seq<Symbol>, e: Bigram) {
    && e.left < e.right < |syms|
    && var s, m := syms[e.left].text, syms[e.right].text;
    && s < m < s + e.size <= |word|
    && e.text == word[s..s + e.size]
    && e.rank == rank(word[s..m], word[m..s + e.size]) >= 0
    && (syms[e.left].n > 0 ==> EndOf(syms[e.left]) >= m)
    && (syms[e.right].n > 0 ==> EndOf(syms[e.right]) >= s + e.size)
  }

  /** The stale-entry test of the loop. */
  predicate IsStale(word: Piece, syms: seq<Symbol>, e: Bigram)
    requires e.left < |syms| && e.right < |syms| && |e.text| == e.size
    requires EndOf(syms[e.left]) <= |word| && EndOf(syms[e.right]) <= |word|
  {
    var left, right := syms[e.left], syms[e.right];
    || left.n == 0 || right.n == 0
    || left.n + right.n != e.size
    || PieceOf(word, left) != e.text[..left.n]
    || PieceOf(word, right) != e.text[left.n..]
  }

  ghost predicate AllEntriesOk(word: Piece, rank: Ranking, syms: seq<Symbol>, queue: multiset<Bigram>) {
    forall e :: e in queue ==> EntryOk(word, rank, syms, e)
  }

  /** The entry for the k-th pair of neighbours. */
  ghost function PairEntry(word: Piece, rank: Ranking, syms: seq<Symbol>, live: seq<nat>, k: nat): Bigram
    requires Chain(word, syms, live) && k + 1 < |live|
  {
    EntryFor(word, rank, live[k], live[k + 1], syms[live[k]], syms[live[k + 1]])
  }

  /** Every mergeable pair of neighbours has its entry in the queue. */
  ghost predicate Covered(word: Piece, rank: Ranking, syms: seq<Symbol>, live: seq<nat>, queue: multiset<Bigram>)
    requires Chain(word, syms, live)
  {
    forall k :: 0 <= k < |live| - 1 ==>
      PairEntry(word, rank, syms, live, k).rank < 0 || PairEntry(word, rank, syms, live, k) in queue
  }

  lemma PairRank(word: Piece, rank: Ranking, syms: seq<Symbol>, live: seq<nat>, k: nat)
    requires Chain(word, syms, live) && k + 1 < |live|
    ensures RankAt(rank, Pieces(word, syms, live), k) == PairEntry(word, rank, syms, live, k).rank
    ensures PairEntry(word, rank, syms, live, k).left == live[k]
  {
  }

  /** A slot in use is somewhere in the list. */
  lemma IndexOfLive(word: Piece, syms: seq<Symbol>, live: seq<nat>, i: nat) returns (p: nat)
    requires Chain(word, syms, live) && i < |syms| && syms[i].n > 0
    ensures p < |live| && live[p] == i
  {
    assert i in live;
    p :| 0 <= p < |live| && live[p] == i;
  }

  /** Slots in use do not overlap; only neighbours touch. */
  lemma {:induction false} LiveOrder(word: Piece, syms: seq<Symbol>, live: seq<nat>, j: nat, k: nat)
    requires Chain(word, syms, live) && j < k < |live|
    ensures live[j] < live[k] < |syms|
    ensures EndOf(syms[live[j]]) <= syms[live[k]].text
    ensures k > j + 1 ==> EndOf(syms[live[j]]) < syms[live[k]].text
  {
    assert TouchesNext(syms, live, k - 1);
    if k > j + 1 {
      LiveOrder(word, syms, live, j, k - 1);
    }
  }

  lemma SlotBounds(word: Piece, syms: seq<Symbol>, live: seq<nat>, i: nat)
    requires Chain(word, syms, live) && i < |syms|
    ensures EndOf(syms[i]) <= |word|
  {
  }

  lemma SlicesJoin(word: Piece, s: nat, m: nat, e: nat)
    requires s <= m <= e <= |word|
    ensures word[s..e] == word[s..m] + word[m..e]
  {
  }

  /** A popped entry whose slots are both alive and whose sizes match is the current adjacent pair. */
  lemma FreshIsAdjacent(word: Piece, rank: Ranking, syms: seq<Symbol>, live: seq<nat>, e: Bigram) returns (p: nat)
    requires Chain(word, syms, live) && EntryOk(word, rank, syms, e)
    requires syms[e.left].n > 0 && syms[e.right].n > 0 && syms[e.left].n + syms[e.right].n == e.size
    ensures p + 1 < |live| && live[p] == e.left && live[p + 1] == e.right
    ensures e == PairEntry(word, rank, syms, live, p)
  {
    hide Chain;
    p := IndexOfLive(word, syms, live, e.left);
    var q := IndexOfLive(word, syms, live, e.right);
    SlotBounds(word, syms, live, e.left);
    SlotBounds(word, syms, live, e.right);
    if q < p {
      LiveOrder(word, syms, live, q, p);
      assert false;
    }
    LiveOrder(word, syms, live, p, q);
    SlicesJoin(word, syms[e.left].text, syms[e.right].text, syms[e.left].text + e.size);
  }

  /** The popped minimum, when it is the entry of a current pair, is the pair naive BPE would merge. */
  lemma FreshIsBest(word: Piece, rank: Ranking, syms: seq<Symbol>, live: seq<nat>, queue: multiset<Bigram>, p: nat)
    requires Chain(word, syms, live) && Covered(word, rank, syms, live, queue) && p + 1 < |live|
    requires PairEntry(word, rank, syms, live, p).rank >= 0
    requires forall x :: x in queue ==> NotAfter(PairEntry(word, rank, syms, live, p), x)
    ensures Best(rank, Pieces(word, syms, live)) == Some(p)
  {
    hide Chain, PairEntry, Pieces, RankAt;
    var ps := Pieces(word, syms, live);
    PairRank(word, rank, syms, live, p);
    forall j: nat | Mergeable(rank, ps, j)
      ensures RankAt(rank, ps, p) < RankAt(rank, ps, j) || (RankAt(rank, ps, p) == RankAt(rank, ps, j) && p <= j)
    {
      PairRank(word, rank, syms, live, j);
      if j < p {
        LiveOrder(word, syms, live, j, p);
      }
    }
    BestIs(rank, ps);
  }

  /** With an empty queue there is nothing left to merge. */
  lemma EmptyIsDone(word: Piece, rank: Ranking, syms: seq<Symbol>, live: seq<nat>)
    requires Chain(word, syms, live) && Covered(word, rank, syms, live, multiset{})
    ensures Best(rank, Pieces(word, syms, live)) == None
  {
    hide Chain, PairEntry, Pieces, RankAt;
    var ps := Pieces(word, syms, live);
    forall j: nat ensures !Mergeable(rank, ps, j) {
      if j + 1 < |ps| {
        PairRank(word, rank, syms, live, j);
      }
    }
    BestIs(rank, ps);
  }

  // One merge.

  /** Merge slot right into its left neighbour and unlink it. */
  function MergeSlots(syms: seq<Symbol>, left: nat, right: nat): (merged: seq<Symbol>)
    requires left < |syms| && right < |syms| && syms[right].next < |syms|
    ensures |merged| == |syms|
  {
    var l, r := syms[left], syms[right];
    var s1 := syms[left := Symbol(l.text, l.n + r.n, l.prev, r.next)];
    var s2 := s1[right := s1[right].(n := 0)];
    if r.next >= 0 then s2[r.next := s2[r.next].(prev := left)] else s2
  }

  function Unlinked(live: seq<nat>, p: nat): (live': seq<nat>)
    requires p + 1 < |live|
    ensures |live'| == |live| - 1
    ensures forall k :: 0 <= k <= p ==> live'[k] == live[k]
    ensures forall k :: p < k < |live'| ==> live'[k] == live[k + 1]
  {
    live[..p + 1] + live[p + 2..]
  }

  /** What each slot looks like after slot r was merged into slot l and x came after r. */
  ghost predicate Merged(syms': seq<Symbol>, syms: seq<Symbol>, l: nat, r: nat, x: int) {
    && |syms'| == |syms| && l < r < |syms| && (x < 0 || r < x < |syms|)
    && syms'[l] == Symbol(syms[l].text, syms[l].n + syms[r].n, syms[l].prev, x)
    && syms'[r] == Symbol(syms[r].text, 0, syms[r].prev, syms[r].next)
    && (forall i :: 0 <= i < |syms| && i != l && i != r && i != x ==> syms'[i] == syms[i])
    && (x >= 0 ==> syms'[x] == Symbol(syms[x].text, syms[x].n, l, syms[x].next))
  }

  lemma Neighbours(word: Piece, syms: seq<Symbol>, live: seq<nat>, p: nat)
    requires Chain(word, syms, live) && p + 1 < |live|
    ensures live[p] < live[p + 1] < |syms| && syms[live[p + 1]].next == LinkAt(live, p + 2) < |syms|
    ensures LinkAt(live, p + 2) >= 0 ==> live[p + 1] < LinkAt(live, p + 2)
    ensures EndOf(syms[live[p]]) == syms[live[p + 1]].text
    ensures syms[live[p]].prev == LinkAt(live, p - 1)
    ensures syms[live[p]].n > 0 && syms[live[p + 1]].n > 0
  {
    assert TouchesNext(syms, live, p) && LinkedAt(syms, live, p) && LinkedAt(syms, live, p + 1);
    assert p + 2 < |live| ==> live[p + 1] < live[p + 2] < |syms|;
  }

  lemma MergeIsMerged(syms: seq<Symbol>, l: nat, r: nat)
    requires l < r < |syms| && syms[r].next < |syms| && (syms[r].next >= 0 ==> r < syms[r].next)
    ensures Merged(MergeSlots(syms, l, r), syms, l, r, syms[r].next)
  {
  }

  lemma MergeKeepsTexts(syms': seq<Symbol>, syms: seq<Symbol>, l: nat, r: nat, x: int)
    requires Merged(syms', syms, l, r, x) && EndOf(syms[l]) == syms[r].text
    ensures |syms'| == |syms| && EndOf(syms'[l]) == EndOf(syms[r])
    ensures forall i :: 0 <= i < |syms| ==> syms'[i].text == syms[i].text
    ensures forall i :: 0 <= i < |syms| && i != l && i != r ==> EndOf(syms'[i]) == EndOf(syms[i])
  {
  }

  lemma MergeKeepsSlots(word: Piece, syms': seq<Symbol>, syms: seq<Symbol>, l: nat, r: nat, x: int)
    requires Slots(word, syms) && Merged(syms', syms, l, r, x) && EndOf(syms[l]) == syms[r].text
    ensures Slots(word, syms')
  {
    MergeKeepsTexts(syms', syms, l, r, x);
    assert EndOf(syms'[r]) <= EndOf(syms[r]);
  }

  lemma MergeKeepsListed(syms': seq<Symbol>, syms: seq<Symbol>, live: seq<nat>, p: nat, x: int)
    requires Listed(syms, live) && p + 1 < |live| && Merged(syms', syms, live[p], live[p + 1], x)
    ensures Listed(syms', Unlinked(live, p))
  {
    assert forall i :: 0 <= i < |syms| && i != live[p + 1] ==> (syms'[i].n > 0 <==> syms[i].n > 0);
  }

  /** Neighbours still touch after a merge. */
  lemma MergeKeepsTouch(word: Piece, syms': seq<Symbol>, syms: seq<Symbol>, live: seq<nat>, p: nat, x: int, k: nat)
    requires Listed(syms, live) && Tiled(word, syms, live) && p + 1 < |live| && k + 2 < |live|
    requires Merged(syms', syms, live[p], live[p + 1], x) && Listed(syms', Unlinked(live, p))
    ensures TouchesNext(syms', Unlinked(live, p), k)
  {
    hide Merged, EndOf, Unlinked;
    assert TouchesNext(syms, live, p);
    MergeKeepsTexts(syms', syms, live[p], live[p + 1], x);
    var j := if k < p then k else k + 1;
    assert TouchesNext(syms, live, j);
    assert k != p ==> live[j] != live[p] && live[j] != live[p + 1];
  }

  lemma MergeKeepsTiled(word: Piece, syms': seq<Symbol>, syms: seq<Symbol>, live: seq<nat>, p: nat, x: int)
    requires Listed(syms, live) && Tiled(word, syms, live) && p + 1 < |live|
    requires Merged(syms', syms, live[p], live[p + 1], x) && Listed(syms', Unlinked(live, p))
    ensures Tiled(word, syms', Unlinked(live, p))
  {
    hide Merged, EndOf, Unlinked;
    assert TouchesNext(syms, live, p);
    MergeKeepsTexts(syms', syms, live[p], live[p + 1], x);
    var live' := Unlinked(live, p);
    forall k | 0 <= k < |live'| - 1
      ensures TouchesNext(syms', live', k)
    {
      MergeKeepsTouch(word, syms', syms, live, p, x, k);
    }
    hide TouchesNext;
    var last := |live| - 1;
    assert live'[last - 1] == if p + 1 == last then live[p] else live[last];
    assert p + 1 < last ==> live[last] != live[p] && live[last] != live[p + 1];
  }

  lemma MergeKeepsLinks(syms': seq<Symbol>, syms: seq<Symbol>, l: nat, r: nat, x: int)
    requires Merged(syms', syms, l, r, x)
    ensures |syms'| == |syms| && syms'[l].next == x && (x >= 0 ==> syms'[x].prev == l)
    ensures forall i :: 0 <= i < |syms| && i != l ==> syms'[i].next == syms[i].next
    ensures forall i :: 0 <= i < |syms| && i != x ==> syms'[i].prev == syms[i].prev
  {
  }

  lemma UnlinkedLinks(live: seq<nat>, p: nat, k: nat)
    requires p + 1 < |live| && k < |live| - 1
    ensures k <= p ==> LinkAt(Unlinked(live, p), k - 1) == LinkAt(live, k - 1)
    ensures k > p + 1 ==> LinkAt(Unlinked(live, p), k - 1) == LinkAt(live, k)
    ensures k < p ==> LinkAt(Unlinked(live, p), k + 1) == LinkAt(live, k + 1)
    ensures k >= p ==> LinkAt(Unlinked(live, p), k + 1) == LinkAt(live, k + 2)
    ensures k == p + 1 ==> LinkAt(Unlinked(live, p), k - 1) == live[p]
  {
  }

  lemma MergeKeepsLinked(syms': seq<Symbol>, syms: seq<Symbol>, live: seq<nat>, p: nat)
    requires Listed(syms, live) && Linked(syms, live) && p + 1 < |live|
    requires Merged(syms', syms, live[p], live[p + 1], LinkAt(live, p + 2)) && Listed(syms', Unlinked(live, p))
    ensures Linked(syms', Unlinked(live, p))
  {
    hide LinkAt, Merged, Listed, LinkedAt;
    forall k | 0 <= k < |live| - 1 ensures LinkedAt(syms', Unlinked(live, p), k) {
      MergeKeepsLinkAt(syms', syms, live, p, k);
    }
  }

  lemma MergeKeepsLinkAt(syms': seq<Symbol>, syms: seq<Symbol>, live: seq<nat>, p: nat, k: nat)
    requires Listed(syms, live) && Linked(syms, live) && p + 1 < |live| && k + 1 < |live|
    requires Merged(syms', syms, live[p], live[p + 1], LinkAt(live, p + 2)) && Listed(syms', Unlinked(live, p))
    ensures LinkedAt(syms', Unlinked(live, p), k)
  {
    hide LinkAt, Merged, Listed, Linked, Unlinked;
    MergeKeepsLinks(syms', syms, live[p], live[p + 1], LinkAt(live, p + 2));
    var j := if k <= p then k else k + 1;
    UnlinkedLinks(live, p, k);
    LinkedSlot(syms, live, j);
    NextSlot(syms, live, p, j);
  }

  lemma LinkedSlot(syms: seq<Symbol>, live: seq<nat>, j: nat)
    requires Listed(syms, live) && Linked(syms, live) && j < |live|
    ensures live[j] < |syms|
    ensures syms[live[j]].prev == LinkAt(live, j - 1) && syms[live[j]].next == LinkAt(live, j + 1)
  {
    assert LinkedAt(syms, live, j);
  }

  lemma NextSlot(syms: seq<Symbol>, live: seq<nat>, p: nat, j: nat)
    requires Listed(syms, live) && p < |live| && j < |live|
    ensures (live[j] == live[p] <==> j == p) && (live[j] == LinkAt(live, p + 2) <==> j == p + 2)
  {
    assert j < p ==> live[j] < live[p];
    assert p < j ==> live[p] < live[j];
    assert p + 2 < |live| && j < p + 2 ==> live[j] < live[p + 2];
    assert p + 2 < j ==> live[p + 2] < live[j];
  }

  /** One merge keeps the list well formed. */
  lemma MergeKeepsChain(word: Piece, syms: seq<Symbol>, live: seq<nat>, p: nat)
    requires Chain(word, syms, live) && p + 1 < |live|
    requires live[p] < |syms| && live[p + 1] < |syms| && syms[live[p + 1]].next < |syms|
    ensures Chain(word, MergeSlots(syms, live[p], live[p + 1]), Unlinked(live, p))
  {
    hide MergeSlots;
    var syms', x := MergeSlots(syms, live[p], live[p + 1]), LinkAt(live, p + 2);
    Neighbours(word, syms, live, p);
    MergeIsMerged(syms, live[p], live[p + 1]);
    hide *;
    MergeKeepsSlots(word, syms', syms, live[p], live[p + 1], x);
    MergeKeepsListed(syms', syms, live, p, x);
    MergeKeepsTiled(word, syms', syms, live, p, x);
    MergeKeepsLinked(syms', syms, live, p);
  }

  lemma PieceAt(word: Piece, syms: seq<Symbol>, live: seq<nat>, k: nat)
    requires Chain(word, syms, live) && k < |live|
    ensures live[k] < |syms| && EndOf(syms[live[k]]) <= |word|
    ensures Pieces(word, syms, live)[k] == PieceOf(word, syms[live[k]])
  {
  }

  /** A slot that is not part of the merged pair keeps its text. */
  lemma SlotKept(word: Piece, syms': seq<Symbol>, syms: seq<Symbol>, live: seq<nat>, p: nat, j: nat)
    requires Chain(word, syms, live) && p + 1 < |live| && j < |live| && j != p && j != p + 1
    requires Merged(syms', syms, live[p], live[p + 1], LinkAt(live, p + 2))
    ensures live[j] < |syms'| == |syms| && live[j] != live[p]
    ensures syms'[live[j]].text == syms[live[j]].text && syms'[live[j]].n == syms[live[j]].n
  {
    hide Chain, Merged, LinkAt;
    Neighbours(word, syms, live, p);
    MergeKeepsTexts(syms', syms, live[p], live[p + 1], LinkAt(live, p + 2));
    ListedDistinct(word, syms, live, j, p);
    PieceAt(word, syms, live, j);
  }

  lemma MergePieceAt(word: Piece, syms': seq<Symbol>, syms: seq<Symbol>, live: seq<nat>, p: nat, k: nat)
    requires Chain(word, syms, live) && p + 1 < |live| && Chain(word, syms', Unlinked(live, p))
    requires Merged(syms', syms, live[p], live[p + 1], LinkAt(live, p + 2)) && k < |live| - 1
    ensures Pieces(word, syms', Unlinked(live, p))[k] == MergeAt(Pieces(word, syms, live), p)[k]
  {
    hide Chain, Merged, Pieces, LinkAt, Unlinked;
    PieceAt(word, syms', Unlinked(live, p), k);
    if k == p {
      Neighbours(word, syms, live, p);
      MergeKeepsTexts(syms', syms, live[p], live[p + 1], LinkAt(live, p + 2));
      PieceAt(word, syms, live, p);
      PieceAt(word, syms, live, p + 1);
      SlicesJoin(word, syms[live[p]].text, syms[live[p + 1]].text, EndOf(syms[live[p + 1]]));
    } else {
      var j := if k < p then k else k + 1;
      SlotKept(word, syms', syms, live, p, j);
      PieceAt(word, syms, live, j);
    }
  }

  /** ... and replaces two neighbouring pieces by their concatenation. */
  lemma MergePieces(word: Piece, syms': seq<Symbol>, syms: seq<Symbol>, live: seq<nat>, p: nat)
    requires Chain(word, syms, live) && p + 1 < |live| && Chain(word, syms', Unlinked(live, p))
    requires Merged(syms', syms, live[p], live[p + 1], LinkAt(live, p + 2))
    ensures Pieces(word, syms', Unlinked(live, p)) == MergeAt(Pieces(word, syms, live), p)
  {
    hide Chain, Merged, Pieces, LinkAt, Unlinked, MergeAt;
    forall k | 0 <= k < |live| - 1
      ensures Pieces(word, syms', Unlinked(live, p))[k] == MergeAt(Pieces(word, syms, live), p)[k]
    {
      MergePieceAt(word, syms', syms, live, p, k);
    }
  }

  lemma ListedDistinct(word: Piece, syms: seq<Symbol>, live: seq<nat>, j: nat, p: nat)
    requires Chain(word, syms, live) && p + 1 < |live| && j < |live|
    ensures (live[j] == live[p] <==> j == p) && (live[j] == live[p + 1] <==> j == p + 1)
  {
    assert j < p ==> live[j] < live[p];
    assert p < j ==> live[p] < live[j];
    assert j < p + 1 ==> live[j] < live[p + 1];
    assert p + 1 < j ==> live[p + 1] < live[j];
  }

  /** Entries stay valid: the merged slots have grown or died. */
  lemma MergeKeepsEntry(word: Piece, rank: Ranking, syms': seq<Symbol>, syms: seq<Symbol>, l: nat, r: nat,
                        x: int, e: Bigram)
    requires EntryOk(word, rank, syms, e) && Merged(syms', syms, l, r, x) && EndOf(syms[l]) == syms[r].text
    requires syms[l].n > 0
    ensures EntryOk(word, rank, syms', e)
  {
    MergeKeepsTexts(syms', syms, l, r, x);
    assert syms'[r].n == 0 && EndOf(syms'[l]) >= EndOf(syms[l]);
    assert forall i :: 0 <= i < |syms| && i != l && i != r ==> syms'[i].n == syms[i].n;
  }

  /** The pairs away from the merged one keep their entries. */
  lemma MergeKeepsPair(word: Piece, rank: Ranking, syms': seq<Symbol>, syms: seq<Symbol>, live: seq<nat>,
                       p: nat, k: nat)
    requires Chain(word, syms, live) && p + 1 < |live| && Chain(word, syms', Unlinked(live, p))
    requires Merged(syms', syms, live[p], live[p + 1], LinkAt(live, p + 2))
    requires k + 2 < |live| && k != p && k + 1 != p
    ensures PairEntry(word, rank, syms', Unlinked(live, p), k) ==
            PairEntry(word, rank, syms, live, if k < p then k else k + 1)
    ensures PairEntry(word, rank, syms', Unlinked(live, p), k).left != live[p]
  {
    hide Chain, Merged, LinkAt, Unlinked;
    var j := if k < p then k else k + 1;
    SlotKept(word, syms', syms, live, p, j);
    SlotKept(word, syms', syms, live, p, j + 1);
    PieceAt(word, syms, live, j);
    PieceAt(word, syms, live, j + 1);
  }

  /** A pushed entry is valid. */
  lemma PushedOk(word: Piece, rank: Ranking, syms: seq<Symbol>, live: seq<nat>, k: nat)
    requires Chain(word, syms, live) && k + 1 < |live| && PairEntry(word, rank, syms, live, k).rank >= 0
    ensures EntryOk(word, rank, syms, PairEntry(word, rank, syms, live, k))
  {
    Neighbours(word, syms, live, k);
    PieceAt(word, syms, live, k + 1);
    SlicesJoin(word, syms[live[k]].text, syms[live[k + 1]].text, EndOf(syms[live[k + 1]]));
  }
}
