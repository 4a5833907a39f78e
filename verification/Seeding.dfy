/** The initial linked list of a pretoken. */
module Seeding {
  import opened Bpe
  import opened SymbolList
  import ByteBpe

  ghost function Identity(n: nat): (live: seq<nat>)
    ensures |live| == n && forall k :: 0 <= k < n ==> live[k] == k
  {
    seq(n, k requires k >= 0 => k)
  }

  ghost predicate SlotFits(word: Piece, syms: seq<Symbol>, k: nat) {
    && k < |syms| && syms[k].n > 0
    && syms[k].prev == k - 1
    && syms[k].next == (if EndOf(syms[k]) == |word| then -1 else k + 1)
    && (k + 1 < |syms| ==> EndOf(syms[k]) == syms[k + 1].text)
  }

  /** The slots laid over the first offset bytes of the word. */
  ghost predicate SlotsTo(word: Piece, syms: seq<Symbol>, offset: nat) {
    && offset <= |word|
    && (forall k :: 0 <= k < |syms| ==> SlotFits(word, syms, k))
    && (forall k :: 0 <= k < |syms| ==> EndOf(syms[k]) <= offset)
    && (forall j, k :: 0 <= j < k < |syms| ==> syms[j].text < syms[k].text)
    && offset == (if syms == [] then 0 else EndOf(syms[|syms| - 1]))
    && (syms != [] ==> syms[0].text == 0)
  }

  /** The slots so far, as pieces. */
  ghost function SlotPieces(word: Piece, syms: seq<Symbol>): (ps: seq<Piece>)
    requires forall k :: 0 <= k < |syms| ==> EndOf(syms[k]) <= |word|
    ensures |ps| == |syms|
  {
    seq(|syms|, k requires 0 <= k < |syms| => PieceOf(word, syms[k]))
  }

  /** They are the first of the symbols the word is to be cut into. */
  ghost predicate SplitTo(word: Piece, raw: bool, syms: seq<Symbol>, offset: nat) {
    && (forall k :: 0 <= k < |syms| ==> EndOf(syms[k]) <= |word|)
    && offset <= |word|
    && ByteBpe.SeedPieces(raw, word) == SlotPieces(word, syms) + ByteBpe.SeedPieces(raw, word[offset..])
  }

  lemma NoSlots(word: Piece, raw: bool)
    ensures SlotsTo(word, [], 0) && SplitTo(word, raw, [], 0)
  {
    assert word[0..] == word;
    assert SlotPieces(word, []) == [];
    assert [] + ByteBpe.SeedPieces(raw, word) == ByteBpe.SeedPieces(raw, word);
  }

  function NextSymbol(word: Piece, syms: seq<Symbol>, offset: nat, w: nat): Symbol {
    Symbol(offset, w, |syms| - 1, if offset + w == |word| then -1 else |syms| + 1)
  }

  lemma NextSlotFits(word: Piece, syms: seq<Symbol>, offset: nat, w: nat)
    requires SlotsTo(word, syms, offset) && w > 0 && offset + w <= |word|
    ensures SlotsTo(word, syms + [NextSymbol(word, syms, offset, w)], offset + w)
  {
    var syms' := syms + [NextSymbol(word, syms, offset, w)];
    forall j | 0 <= j < |syms| ensures syms[j].text < offset { assert SlotFits(word, syms, j); }
    forall k | 0 <= k < |syms'| ensures SlotFits(word, syms', k) {
      assert k < |syms| ==> SlotFits(word, syms, k);
    }
  }

  lemma NextPieceFits(word: Piece, raw: bool, syms: seq<Symbol>, offset: nat, w: nat)
    requires SplitTo(word, raw, syms, offset) && offset < |word| && w == ByteBpe.FirstWidth(raw, word[offset..])
    ensures SplitTo(word, raw, syms + [NextSymbol(word, syms, offset, w)], offset + w)
  {
    hide ByteBpe.FirstWidth;
    var rest, s := word[offset..], NextSymbol(word, syms, offset, w);
    var piece := word[offset..offset + w];
    assert rest[..w] == piece && rest[w..] == word[offset + w..];
    assert ByteBpe.SeedPieces(raw, rest) == [piece] + ByteBpe.SeedPieces(raw, word[offset + w..]);
    hide ByteBpe.SeedPieces;
    assert SlotPieces(word, syms + [s]) == SlotPieces(word, syms) + [piece];
  }

  lemma SlotsAreListed(word: Piece, syms: seq<Symbol>)
    requires SlotsTo(word, syms, |word|)
    ensures Listed(syms, Identity(|syms|))
  {
    var live := Identity(|syms|);
    forall k | 0 <= k < |live| ensures live[k] < |syms| && syms[live[k]].n > 0 { assert SlotFits(word, syms, k); }
    forall i | 0 <= i < |syms| ensures i in live { assert live[i] == i; }
  }

  lemma SlotsAreTiled(word: Piece, syms: seq<Symbol>)
    requires word != [] && SlotsTo(word, syms, |word|) && Listed(syms, Identity(|syms|))
    ensures Slots(word, syms) && Tiled(word, syms, Identity(|syms|))
  {
    hide Listed;
    forall k | 0 <= k < |syms| - 1 ensures TouchesNext(syms, Identity(|syms|), k) { assert SlotFits(word, syms, k); }
  }

  lemma SlotsAreLinked(word: Piece, syms: seq<Symbol>)
    requires SlotsTo(word, syms, |word|) && Listed(syms, Identity(|syms|))
    ensures Linked(syms, Identity(|syms|))
  {
    hide Listed, SlotsTo;
    forall k | 0 <= k < |syms| ensures LinkedAt(syms, Identity(|syms|), k) { SlotLinks(word, syms, k); }
  }

  lemma SlotsAreChain(word: Piece, syms: seq<Symbol>)
    requires word != [] && SlotsTo(word, syms, |word|)
    ensures Chain(word, syms, Identity(|syms|))
  {
    hide Slots, Listed, Tiled, Linked, SlotsTo;
    SlotsAreListed(word, syms);
    SlotsAreTiled(word, syms);
    SlotsAreLinked(word, syms);
  }

  lemma SlotLinks(word: Piece, syms: seq<Symbol>, k: nat)
    requires SlotsTo(word, syms, |word|) && k < |syms|
    ensures syms[k].prev == k - 1 && syms[k].next == if k + 1 < |syms| then k + 1 else -1
  {
    assert SlotFits(word, syms, k);
    if k + 1 < |syms| {
      assert SlotFits(word, syms, k + 1);
      assert EndOf(syms[k]) < EndOf(syms[k + 1]) <= |word|;
    }
  }

  lemma SplitIsDone(word: Piece, raw: bool, syms: seq<Symbol>)
    requires SplitTo(word, raw, syms, |word|) && Chain(word, syms, Identity(|syms|))
    ensures Pieces(word, syms, Identity(|syms|)) == ByteBpe.SeedPieces(raw, word)
  {
    assert word[|word|..] == [] && ByteBpe.SeedPieces(raw, []) == [];
    hide Chain, ByteBpe.SeedPieces;
    var live := Identity(|syms|);
    forall k | 0 <= k < |syms| ensures Pieces(word, syms, live)[k] == SlotPieces(word, syms)[k] {
      PieceAt(word, syms, live, k);
    }
    assert Pieces(word, syms, live) == SlotPieces(word, syms);
  }
}
