/**
  * Byte-level BPE as functions: how a pretoken is written, seeded, turned into ids and read back,
  * for both vocabularies (raw = true: pieces are raw bytes; raw = false: one glyph per byte).
  */
module ByteBpe {
  import opened Wrappers
  import opened Utf8
  import opened ByteMaps
  import opened Bpe

  function Glyphs(bs: seq<byte>): Piece {
    if bs == [] then [] else Glyph(bs[0]) + Glyphs(bs[1..])
  }

  /** How the bytes of a pretoken are written in the vocabulary's alphabet. */
  function Spell(raw: bool, bs: seq<byte>): Piece {
    if raw then bs else Glyphs(bs)
  }

  /** Bytes taken by the first symbol of a non-empty piece. */
  function FirstWidth(raw: bool, p: Piece): (w: nat)
    requires p != []
    ensures 1 <= w <= |p|
  {
    if raw then 1 else var n := LenUtf8(p[0]); if n < |p| then n else |p|
  }

  /** The symbols the merge loop starts from; also the fallback decomposition of a piece. */
  function SeedPieces(raw: bool, p: Piece): seq<Piece>
    decreases |p|
  {
    if p == [] then [] else
      var w := FirstWidth(raw, p);
      [p[..w]] + SeedPieces(raw, p[w..])
  }

  /** The bytes a vocabulary piece stands for when decoding. */
  function Read(raw: bool, bm: ByteMap, p: Piece): seq<byte>
    decreases |p|
  {
    if p == [] then [] else
      var w := FirstWidth(raw, p);
      ReadSymbol(raw, bm, p[..w]) + Read(raw, bm, p[w..])
  }

  /** One glyph becomes its byte; anything else passes through. */
  function ReadSymbol(raw: bool, bm: ByteMap, one: Piece): seq<byte> {
    if raw then one else
      var b := bm.UnicodeToByte(one);
      if b >= 0 then [b] else one
  }

  // Emitting ids.

  /** First-occurrence index of a vocabulary. */
  ghost predicate Indexed(tokens: seq<Piece>, ids: map<Piece, nat>) {
    && (forall p :: p in ids <==> p in tokens)
    && (forall p :: p in ids ==> ids[p] < |tokens| && tokens[ids[p]] == p)
    && (forall p, i :: p in ids && 0 <= i < ids[p] ==> tokens[i] != p)
  }

  /** Ids of symbols, each of which must be in the vocabulary. */
  function EmitSymbols(ids: map<Piece, nat>, symbols: seq<Piece>): Option<seq<nat>> {
    if symbols == [] then Some([])
    else if symbols[0] !in ids then None
    else
      match EmitSymbols(ids, symbols[1..])
      case None => None
      case Some(rest) => Some([ids[symbols[0]]] + rest)
  }

  /** A piece in the vocabulary is one id; otherwise it is spelled symbol by symbol. */
  function EmitPiece(raw: bool, ids: map<Piece, nat>, p: Piece): Option<seq<nat>> {
    if p in ids then Some([ids[p]]) else EmitSymbols(ids, SeedPieces(raw, p))
  }

  function EmitPieces(raw: bool, ids: map<Piece, nat>, ps: seq<Piece>): Option<seq<nat>> {
    if ps == [] then Some([]) else
      match EmitPieces(raw, ids, ps[..|ps| - 1])
      case None => None
      case Some(front) =>
        match EmitPiece(raw, ids, ps[|ps| - 1])
        case None => None
        case Some(last) => Some(front + last)
  }

  /** The pieces of a pretoken. */
  function WordPieces(raw: bool, rank: Ranking, word: Piece): seq<Piece> {
    NaiveBpe(rank, SeedPieces(raw, word))
  }

  function EncodeWords(raw: bool, rank: Ranking, ids: map<Piece, nat>, words: seq<Piece>): Option<seq<nat>> {
    if words == [] then Some([]) else
      match EncodeWords(raw, rank, ids, words[..|words| - 1])
      case None => None
      case Some(front) =>
        match EmitPieces(raw, ids, WordPieces(raw, rank, words[|words| - 1]))
        case None => None
        case Some(last) => Some(front + last)
  }

  /** decode: out-of-range ids are skipped. */
  function DecodeIds(raw: bool, bm: ByteMap, tokens: seq<Piece>, ids: seq<int>): seq<byte> {
    if ids == [] then [] else
      DecodeIds(raw, bm, tokens, ids[..|ids| - 1]) + DecodeId(raw, bm, tokens, ids[|ids| - 1])
  }

  function DecodeId(raw: bool, bm: ByteMap, tokens: seq<Piece>, id: int): seq<byte> {
    if 0 <= id < |tokens| then Read(raw, bm, tokens[id]) else []
  }

  // Reading what is not a glyph, and ids that are not there.

  /** A symbol that is no glyph passes through. */
  lemma ReadForeign(bm: ByteMap, one: Piece)
    requires one != [] && FirstWidth(false, one) == |one| && bm.UnicodeToByte(one) < 0
    ensures Read(false, bm, one) == one
  {
    assert one[..|one|] == one && Read(false, bm, one[|one|..]) == [];
  }

  /** An id outside the vocabulary stands for nothing, any other for what its piece reads as. */
  lemma DecodeOneId(raw: bool, bm: ByteMap, tokens: seq<Piece>, id: int)
    ensures id < 0 || id >= |tokens| ==> DecodeIds(raw, bm, tokens, [id]) == []
    ensures 0 <= id < |tokens| ==> DecodeIds(raw, bm, tokens, [id]) == Read(raw, bm, tokens[id])
  {
    hide Read;
    DecodeOne(raw, bm, tokens, id);
  }

  // Reading what was spelled.

  lemma GlyphWidth(b: byte, rest: Piece)
    ensures FirstWidth(false, Glyph(b) + rest) == |Glyph(b)|
  {
  }

  /** Reading a spelled prefix gives its bytes back and goes on with the rest. */
  lemma {:induction false} ReadSpelled(raw: bool, bm: ByteMap, bs: seq<byte>, rest: Piece)
    requires bm.Valid()
    ensures Read(raw, bm, Spell(raw, bs) + rest) == bs + Read(raw, bm, rest)
    decreases |bs|
  {
    hide Read, Spell;
    if bs == [] {
      SpellNone(raw);
      assert [] + rest == rest;
    } else {
      var b, tail := bs[0], bs[1..];
      SpellCons(raw, b, tail, rest);
      assert bs == [b] + tail;
      FirstOfSpelled(raw, bm, b, Spell(raw, tail) + rest);
      ReadSpelled(raw, bm, tail, rest);
      assert [b] + (tail + Read(raw, bm, rest)) == bs + Read(raw, bm, rest);
    }
  }

  lemma SpellNone(raw: bool)
    ensures Spell(raw, []) == []
  {
  }

  lemma SpellCons(raw: bool, b: byte, tail: seq<byte>, rest: Piece)
    ensures Spell(raw, [b] + tail) + rest == Spell(raw, [b]) + (Spell(raw, tail) + rest)
  {
    SpellConcat(raw, [b], tail);
  }

  lemma SpellOne(raw: bool, bm: ByteMap, b: byte)
    requires bm.Valid()
    ensures Spell(raw, [b]) == if raw then [b] else Glyph(b)
    ensures ReadSymbol(raw, bm, Spell(raw, [b])) == [b]
  {
    assert Glyphs([b]) == Glyph(b) + Glyphs([]);
    assert Glyph(b) + [] == Glyph(b);
    bm.GlyphRoundTrip(b);
  }

  lemma FirstOfSpelled(raw: bool, bm: ByteMap, b: byte, rest: Piece)
    requires bm.Valid()
    ensures var p, first := Spell(raw, [b]) + rest, Spell(raw, [b]);
      p != [] && FirstWidth(raw, p) == |first| && p[..|first|] == first && p[|first|..] == rest
    ensures Read(raw, bm, Spell(raw, [b]) + rest) == [b] + Read(raw, bm, rest)
    ensures SeedPieces(raw, Spell(raw, [b]) + rest) == [Spell(raw, [b])] + SeedPieces(raw, rest)
  {
    SpellOne(raw, bm, b);
    GlyphWidth(b, rest);
  }

  lemma {:induction false} SpellConcat(raw: bool, a: seq<byte>, b: seq<byte>)
    ensures Spell(raw, a + b) == Spell(raw, a) + Spell(raw, b)
    decreases |a|
  {
    if !raw {
      if a == [] {
        assert a + b == b;
      } else {
        SpellConcat(raw, a[1..], b);
        assert (a + b)[1..] == a[1..] + b;
      }
    }
  }

  /** decode(spell(bs)) == bs. */
  lemma ReadSpell(raw: bool, bm: ByteMap, bs: seq<byte>)
    requires bm.Valid()
    ensures Read(raw, bm, Spell(raw, bs)) == bs
  {
    hide Spell;
    ReadSpelled(raw, bm, bs, []);
    assert Spell(raw, bs) + [] == Spell(raw, bs);
    assert Read(raw, bm, []) == [] && bs + [] == bs;
  }

  /** Pieces that spell some bytes. */
  ghost predicate Spelled(raw: bool, bm: ByteMap, p: Piece) {
    p == Spell(raw, Read(raw, bm, p)) && p != []
  }

  lemma SpelledIs(raw: bool, bm: ByteMap, bs: seq<byte>)
    requires bm.Valid() && bs != []
    ensures Spelled(raw, bm, Spell(raw, bs))
  {
    ReadSpell(raw, bm, bs);
    if !raw {
      assert Glyphs(bs) == Glyph(bs[0]) + Glyphs(bs[1..]);
    }
  }

  /** Joining spelled pieces joins their bytes. */
  lemma SpelledJoin(raw: bool, bm: ByteMap, p: Piece, q: Piece)
    requires bm.Valid() && Spelled(raw, bm, p) && Spelled(raw, bm, q)
    ensures Spelled(raw, bm, p + q) && Read(raw, bm, p + q) == Read(raw, bm, p) + Read(raw, bm, q)
  {
    hide Read, Spell;
    var a, b := Read(raw, bm, p), Read(raw, bm, q);
    SpellConcat(raw, a, b);
    ReadSpell(raw, bm, a + b);
  }

  /** Bytes of a segmentation. */
  ghost function ReadAll(raw: bool, bm: ByteMap, ps: seq<Piece>): seq<byte> {
    if ps == [] then [] else ReadAll(raw, bm, ps[..|ps| - 1]) + Read(raw, bm, ps[|ps| - 1])
  }

  lemma ReadAllLast(raw: bool, bm: ByteMap, front: seq<Piece>, last: Piece)
    ensures ReadAll(raw, bm, front + [last]) == ReadAll(raw, bm, front) + Read(raw, bm, last)
  {
    hide Read;
    assert (front + [last])[..|front|] == front;
  }

  lemma {:induction false} ReadAllIsRead(raw: bool, bm: ByteMap, ps: seq<Piece>)
    requires bm.Valid() && forall i :: 0 <= i < |ps| ==> Spelled(raw, bm, ps[i])
    ensures ReadAll(raw, bm, ps) == Read(raw, bm, Concat(ps))
    ensures ps != [] ==> Spelled(raw, bm, Concat(ps))
  {
    ReadAllNone(raw, bm);
    hide ReadAll, Read, Spelled, Concat;
    if ps != [] {
      var front, last := ps[..|ps| - 1], ps[|ps| - 1];
      ReadAllIsRead(raw, bm, front);
      assert ps == front + [last];
      ReadAllLast(raw, bm, front, last);
      ConcatAppend(front, [last]);
      ConcatOne(last);
      if front == [] {
        assert [] + last == last && [] + Read(raw, bm, last) == Read(raw, bm, last);
      } else {
        SpelledJoin(raw, bm, Concat(front), last);
      }
    }
  }

  lemma ReadAllNone(raw: bool, bm: ByteMap)
    ensures ReadAll(raw, bm, []) == [] == Read(raw, bm, []) && Concat([]) == []
  {
  }

  // Decoding what was emitted.

  lemma DecodeLast(raw: bool, bm: ByteMap, tokens: seq<Piece>, a: seq<int>, id: int)
    ensures DecodeIds(raw, bm, tokens, a + [id]) == DecodeIds(raw, bm, tokens, a) + DecodeId(raw, bm, tokens, id)
  {
    hide DecodeId;
    assert (a + [id])[..|a|] == a;
  }

  lemma {:induction false} DecodeConcat(raw: bool, bm: ByteMap, tokens: seq<Piece>, a: seq<int>, b: seq<int>)
    ensures DecodeIds(raw, bm, tokens, a + b) == DecodeIds(raw, bm, tokens, a) + DecodeIds(raw, bm, tokens, b)
  {
    DecodeNone(raw, bm, tokens);
    hide DecodeIds, DecodeId;
    if b == [] {
      assert a + b == a;
    } else {
      var front, last := b[..|b| - 1], b[|b| - 1];
      DecodeConcat(raw, bm, tokens, a, front);
      assert b == front + [last] && a + b == (a + front) + [last];
      DecodeLast(raw, bm, tokens, front, last);
      DecodeLast(raw, bm, tokens, a + front, last);
    }
  }

  lemma DecodeNone(raw: bool, bm: ByteMap, tokens: seq<Piece>)
    ensures DecodeIds(raw, bm, tokens, []) == []
  {
  }

  lemma DecodeOne(raw: bool, bm: ByteMap, tokens: seq<Piece>, id: int)
    ensures DecodeIds(raw, bm, tokens, [id]) == DecodeId(raw, bm, tokens, id)
  {
    assert DecodeIds(raw, bm, tokens, []) == [];
  }

  /** Fallback ids of a piece decode to the same bytes as the piece itself. */
  lemma {:induction false} DecodeSymbols(raw: bool, bm: ByteMap, tokens: seq<Piece>, ids: map<Piece, nat>, p: Piece)
    requires Indexed(tokens, ids) && EmitSymbols(ids, SeedPieces(raw, p)).Some?
    ensures DecodeIds(raw, bm, tokens, EmitSymbols(ids, SeedPieces(raw, p)).value) == Read(raw, bm, p)
    decreases |p|
  {
    if p != [] {
      var w := FirstWidth(raw, p);
      var first, rest := p[..w], p[w..];
      SeedsUnfold(raw, bm, p);
      var later := EmitSymbols(ids, SeedPieces(raw, rest)).value;
      DecodeSymbols(raw, bm, tokens, ids, rest);
      DecodeConcat(raw, bm, tokens, [ids[first]], later);
      DecodeOne(raw, bm, tokens, ids[first]);
      ReadFirst(raw, bm, first);
    }
  }

  lemma SeedsUnfold(raw: bool, bm: ByteMap, p: Piece)
    requires p != []
    ensures var w := FirstWidth(raw, p);
      && SeedPieces(raw, p)[1..] == SeedPieces(raw, p[w..])
      && SeedPieces(raw, p) != [] && SeedPieces(raw, p)[0] == p[..w]
      && FirstWidth(raw, p[..w]) == w
      && Read(raw, bm, p) == ReadSymbol(raw, bm, p[..w]) + Read(raw, bm, p[w..])
  {
  }

  lemma ReadFirst(raw: bool, bm: ByteMap, one: Piece)
    requires one != [] && FirstWidth(raw, one) == |one|
    ensures Read(raw, bm, one) == ReadSymbol(raw, bm, one)
  {
    assert one[..|one|] == one && one[|one|..] == [];
  }

  lemma DecodePiece(raw: bool, bm: ByteMap, tokens: seq<Piece>, ids: map<Piece, nat>, p: Piece)
    requires Indexed(tokens, ids) && EmitPiece(raw, ids, p).Some?
    ensures DecodeIds(raw, bm, tokens, EmitPiece(raw, ids, p).value) == Read(raw, bm, p)
  {
    hide DecodeIds, Read;
    if p in ids {
      DecodeOne(raw, bm, tokens, ids[p]);
    } else {
      DecodeSymbols(raw, bm, tokens, ids, p);
    }
  }

  /** What one more piece adds. */
  lemma EmitLast(raw: bool, ids: map<Piece, nat>, front: seq<Piece>, last: Piece)
    ensures EmitPieces(raw, ids, front + [last]) == Append(EmitPieces(raw, ids, front), EmitPiece(raw, ids, last))
  {
    hide EmitPiece;
    assert (front + [last])[..|front|] == front;
  }

  function Append(a: Option<seq<nat>>, b: Option<seq<nat>>): Option<seq<nat>> {
    if a.Some? && b.Some? then Some(a.value + b.value) else None
  }

  lemma {:induction false} DecodePieces(raw: bool, bm: ByteMap, tokens: seq<Piece>, ids: map<Piece, nat>,
                                        ps: seq<Piece>)
    requires Indexed(tokens, ids) && EmitPieces(raw, ids, ps).Some?
    ensures DecodeIds(raw, bm, tokens, EmitPieces(raw, ids, ps).value) == ReadAll(raw, bm, ps)
  {
    DecodeNone(raw, bm, tokens);
    ReadAllNone(raw, bm);
    EmitNone(raw, ids);
    hide DecodeIds, ReadAll, EmitPieces, EmitPiece, Read;
    if ps != [] {
      var front, last := ps[..|ps| - 1], ps[|ps| - 1];
      assert ps == front + [last];
      EmitLast(raw, ids, front, last);
      ReadAllLast(raw, bm, front, last);
      DecodePieces(raw, bm, tokens, ids, front);
      DecodePiece(raw, bm, tokens, ids, last);
      DecodeConcat(raw, bm, tokens, EmitPieces(raw, ids, front).value, EmitPiece(raw, ids, last).value);
    }
  }

  lemma EmitNone(raw: bool, ids: map<Piece, nat>)
    ensures EmitPieces(raw, ids, []) == Some([])
  {
  }

  // Every byte string can be emitted, with at most one id a byte.

  /** All 256 single-byte pieces are in the vocabulary. */
  ghost predicate HasAllBytes(raw: bool, ids: map<Piece, nat>) {
    forall b: byte :: Spell(raw, [b]) in ids
  }

  /** One symbol a byte. */
  ghost function Symbols(raw: bool, bs: seq<byte>): seq<Piece> {
    seq(|bs|, i requires 0 <= i < |bs| => Spell(raw, [bs[i]]))
  }

  lemma SymbolsCons(raw: bool, b: byte, tail: seq<byte>)
    ensures Symbols(raw, [b] + tail) == [Spell(raw, [b])] + Symbols(raw, tail)
  {
    hide Spell;
  }

  lemma {:induction false} SeedsOfSpelled(raw: bool, bm: ByteMap, bs: seq<byte>)
    requires bm.Valid()
    ensures SeedPieces(raw, Spell(raw, bs)) == Symbols(raw, bs)
    ensures Concat(Symbols(raw, bs)) == Spell(raw, bs)
    decreases |bs|
  {
    SpellNone(raw);
    if bs != [] {
      hide Spell, SeedPieces, Symbols, Concat, Read;
      var b, tail := bs[0], bs[1..];
      SeedsOfSpelled(raw, bm, tail);
      assert bs == [b] + tail;
      SpellConcat(raw, [b], tail);
      FirstOfSpelled(raw, bm, b, Spell(raw, tail));
      SymbolsCons(raw, b, tail);
      ConcatPrepend(Spell(raw, [b]), Symbols(raw, tail));
    }
  }

  lemma {:induction false} EmitKnown(ids: map<Piece, nat>, symbols: seq<Piece>)
    requires forall i :: 0 <= i < |symbols| ==> symbols[i] in ids
    ensures EmitSymbols(ids, symbols).Some?
  {
    if symbols != [] {
      EmitKnown(ids, symbols[1..]);
    }
  }

  lemma {:induction false} EmitSymbolsLength(ids: map<Piece, nat>, symbols: seq<Piece>)
    requires EmitSymbols(ids, symbols).Some?
    ensures |EmitSymbols(ids, symbols).value| == |symbols|
  {
    if symbols != [] {
      EmitSymbolsLength(ids, symbols[1..]);
    }
  }

  lemma EmitPieceBounds(raw: bool, bm: ByteMap, ids: map<Piece, nat>, p: Piece)
    requires bm.Valid() && Spelled(raw, bm, p)
    ensures HasAllBytes(raw, ids) ==> EmitPiece(raw, ids, p).Some?
    ensures EmitPiece(raw, ids, p).Some? ==> |EmitPiece(raw, ids, p).value| <= |Read(raw, bm, p)|
  {
    var bs := Read(raw, bm, p);
    assert bs != [] by { SpellNone(raw); }
    SeedsOfSpelled(raw, bm, bs);
    hide Read, Spell, SeedPieces, EmitSymbols, HasAllBytes;
    if HasAllBytes(raw, ids) {
      EmitKnown(ids, Symbols(raw, bs));
    }
    if p !in ids && EmitPiece(raw, ids, p).Some? {
      EmitSymbolsLength(ids, SeedPieces(raw, p));
    }
  }

  lemma {:induction false} EmitPiecesBounds(raw: bool, bm: ByteMap, ids: map<Piece, nat>, ps: seq<Piece>)
    requires bm.Valid() && forall i :: 0 <= i < |ps| ==> Spelled(raw, bm, ps[i])
    ensures HasAllBytes(raw, ids) ==> EmitPieces(raw, ids, ps).Some?
    ensures EmitPieces(raw, ids, ps).Some? ==> |EmitPieces(raw, ids, ps).value| <= |ReadAll(raw, bm, ps)|
  {
    EmitNone(raw, ids);
    hide EmitPieces, EmitPiece, Spelled, ReadAll, Read, HasAllBytes;
    if ps != [] {
      var front, last := ps[..|ps| - 1], ps[|ps| - 1];
      assert ps == front + [last];
      EmitLast(raw, ids, front, last);
      ReadAllLast(raw, bm, front, last);
      EmitPiecesBounds(raw, bm, ids, front);
      EmitPieceBounds(raw, bm, ids, last);
    }
  }

  // One pretoken.

  /** Merging a spelled pretoken yields spelled pieces with the same bytes. */
  lemma WordPiecesRead(raw: bool, bm: ByteMap, rank: Ranking, bs: seq<byte>)
    requires bm.Valid() && bs != []
    ensures var ps := WordPieces(raw, rank, Spell(raw, bs));
      && (forall i :: 0 <= i < |ps| ==> Spelled(raw, bm, ps[i]))
      && ReadAll(raw, bm, ps) == bs
  {
    var word := Spell(raw, bs);
    var seeds := SeedPieces(raw, word);
    SeedsOfSpelled(raw, bm, bs);
    forall i | 0 <= i < |seeds| ensures Spelled(raw, bm, seeds[i]) { SpelledIs(raw, bm, [bs[i]]); }
    hide Spelled, Read, Spell, SeedPieces, ReadAll;
    forall a, b | Spelled(raw, bm, a) && Spelled(raw, bm, b)
      ensures Spelled(raw, bm, a + b)
    {
      SpelledJoin(raw, bm, a, b);
    }
    NaiveKeeps(rank, seeds, p => Spelled(raw, bm, p));
    ReadAllIsRead(raw, bm, NaiveBpe(rank, seeds));
    ReadSpell(raw, bm, bs);
  }

  // All pretokens.

  /** The pretokens spell non-empty chunks of the text. */
  ghost predicate SpellChunks(raw: bool, words: seq<Piece>, chunks: seq<seq<byte>>) {
    |words| == |chunks| && forall i :: 0 <= i < |words| ==> chunks[i] != [] && words[i] == Spell(raw, chunks[i])
  }

  lemma ConcatNothing()
    ensures Concat([]) == []
  {
  }

  lemma EncodeWordsNone(raw: bool, rank: Ranking, ids: map<Piece, nat>)
    ensures EncodeWords(raw, rank, ids, []) == Some([])
  {
  }

  lemma EncodeWordsStep(raw: bool, rank: Ranking, ids: map<Piece, nat>, words: seq<Piece>)
    requires words != []
    ensures var front, last := words[..|words| - 1], words[|words| - 1];
      EncodeWords(raw, rank, ids, words) ==
      Append(EncodeWords(raw, rank, ids, front), EmitPieces(raw, ids, WordPieces(raw, rank, last)))
  {
  }

  /**
    * Encoding, when it succeeds, is undone by decoding and takes at most one id a byte; with all bytes known
    * it succeeds.
    */
  lemma {:induction false} EncodeWordsRoundTrip(raw: bool, bm: ByteMap, rank: Ranking, tokens: seq<Piece>,
                                                ids: map<Piece, nat>, words: seq<Piece>, chunks: seq<seq<byte>>)
    requires bm.Valid() && Indexed(tokens, ids) && SpellChunks(raw, words, chunks)
    ensures HasAllBytes(raw, ids) ==> EncodeWords(raw, rank, ids, words).Some?
    ensures EncodeWords(raw, rank, ids, words).Some? ==>
      && DecodeIds(raw, bm, tokens, EncodeWords(raw, rank, ids, words).value) == Concat(chunks)
      && |EncodeWords(raw, rank, ids, words).value| <= |Concat(chunks)|
  {
    DecodeNone(raw, bm, tokens);
    ConcatNothing();
    EncodeWordsNone(raw, rank, ids);
    hide DecodeIds, EncodeWords, EmitPieces, WordPieces, Read, ReadAll, Spelled, HasAllBytes, Indexed, Spell, Concat;
    if words != [] {
      var n := |words| - 1;
      var bs := chunks[n];
      EncodeWordsRoundTrip(raw, bm, rank, tokens, ids, words[..n], chunks[..n]);
      EncodeWordsStep(raw, rank, ids, words);
      var ps := WordPieces(raw, rank, words[n]);
      WordPiecesRead(raw, bm, rank, bs);
      EmitPiecesBounds(raw, bm, ids, ps);
      assert chunks == chunks[..n] + [bs];
      ConcatAppend(chunks[..n], [bs]);
      ConcatOne(bs);
      if EncodeWords(raw, rank, ids, words).Some? {
        DecodePieces(raw, bm, tokens, ids, ps);
        DecodeConcat(raw, bm, tokens, EncodeWords(raw, rank, ids, words[..n]).value, EmitPieces(raw, ids, ps).value);
      }
    }
  }

  // Which ids a segmentation becomes.

  /** Ids of symbols, one by one. */
  lemma {:induction false} EmitSymbolsAre(ids: map<Piece, nat>, symbols: seq<Piece>)
    ensures EmitSymbols(ids, symbols).Some? <==> forall k :: 0 <= k < |symbols| ==> symbols[k] in ids
    ensures EmitSymbols(ids, symbols).Some? ==>
      var out := EmitSymbols(ids, symbols).value;
      |out| == |symbols| && forall k :: 0 <= k < |symbols| ==> symbols[k] in ids && out[k] == ids[symbols[k]]
  {
    if symbols != [] {
      EmitSymbolsAre(ids, symbols[1..]);
      assert forall k :: 1 <= k < |symbols| ==> symbols[k] == symbols[1..][k - 1];
      if forall k :: 0 <= k < |symbols| ==> symbols[k] in ids {
        assert forall k :: 0 <= k < |symbols[1..]| ==> symbols[1..][k] == symbols[k + 1];
      }
    }
  }

  /** The ids of one piece: its own id if it has one, else the ids of its symbols. */
  ghost predicate PieceIds(raw: bool, ids: map<Piece, nat>, p: Piece, out: seq<nat>) {
    if p in ids then out == [ids[p]]
    else
      && |out| == |SeedPieces(raw, p)|
      && forall k :: 0 <= k < |out| ==> SeedPieces(raw, p)[k] in ids && out[k] == ids[SeedPieces(raw, p)[k]]
  }

  lemma EmitPieceIs(raw: bool, ids: map<Piece, nat>, p: Piece)
    ensures EmitPiece(raw, ids, p).Some? ==> PieceIds(raw, ids, p, EmitPiece(raw, ids, p).value)
    ensures p in ids ==> EmitPiece(raw, ids, p) == Some([ids[p]])
  {
    EmitSymbolsAre(ids, SeedPieces(raw, p));
  }

  /** cuts separates the ids of successive pieces. */
  ghost predicate Grouped(raw: bool, ids: map<Piece, nat>, ps: seq<Piece>, out: seq<nat>, cuts: seq<nat>) {
    && |cuts| == |ps| + 1 && cuts[0] == 0 && cuts[|ps|] == |out|
    && forall k :: 0 <= k < |ps| ==> Group(raw, ids, ps, out, cuts, k)
  }

  ghost predicate Group(raw: bool, ids: map<Piece, nat>, ps: seq<Piece>, out: seq<nat>, cuts: seq<nat>, k: nat)
    requires k < |ps| && |cuts| == |ps| + 1
  {
    cuts[k] <= cuts[k + 1] <= |out| && PieceIds(raw, ids, ps[k], out[cuts[k]..cuts[k + 1]])
  }

  lemma GroupNext(raw: bool, ids: map<Piece, nat>, ps: seq<Piece>, out: seq<nat>, cuts: seq<nat>,
                  p: Piece, more: seq<nat>)
    requires Grouped(raw, ids, ps, out, cuts) && PieceIds(raw, ids, p, more)
    ensures Grouped(raw, ids, ps + [p], out + more, cuts + [|out| + |more|])
  {
    hide PieceIds;
    var ps', out', cuts' := ps + [p], out + more, cuts + [|out| + |more|];
    forall k | 0 <= k < |ps'|
      ensures Group(raw, ids, ps', out', cuts', k)
    {
      if k < |ps| {
        assert Group(raw, ids, ps, out, cuts, k);
        assert out'[cuts[k]..cuts[k + 1]] == out[cuts[k]..cuts[k + 1]];
      } else {
        assert out'[|out|..|out| + |more|] == more;
      }
    }
  }

  lemma EmitPiecesSnoc(raw: bool, ids: map<Piece, nat>, ps: seq<Piece>)
    requires ps != [] && EmitPieces(raw, ids, ps).Some?
    ensures var front, last := ps[..|ps| - 1], ps[|ps| - 1];
      && EmitPieces(raw, ids, front).Some? && EmitPiece(raw, ids, last).Some?
      && EmitPieces(raw, ids, ps).value == EmitPieces(raw, ids, front).value + EmitPiece(raw, ids, last).value
  {
  }

  /** The emitted ids come in groups, one for each piece in order. */
  lemma {:induction false} EmitPiecesGrouped(raw: bool, ids: map<Piece, nat>, ps: seq<Piece>) returns (cuts: seq<nat>)
    requires EmitPieces(raw, ids, ps).Some?
    ensures Grouped(raw, ids, ps, EmitPieces(raw, ids, ps).value, cuts)
  {
    if ps == [] {
      cuts := [0];
    } else {
      EmitPiecesSnoc(raw, ids, ps);
      hide EmitPieces, EmitPiece, PieceIds, Grouped;
      var front, last := ps[..|ps| - 1], ps[|ps| - 1];
      var before := EmitPiecesGrouped(raw, ids, front);
      var out, more := EmitPieces(raw, ids, front).value, EmitPiece(raw, ids, last).value;
      EmitPieceIs(raw, ids, last);
      GroupNext(raw, ids, front, out, before, last, more);
      assert front + [last] == ps;
      cuts := before + [|out| + |more|];
    }
  }

  /** When every piece is in the vocabulary, each becomes exactly its own id. */
  lemma {:induction false} KnownPieces(raw: bool, ids: map<Piece, nat>, ps: seq<Piece>)
    requires forall k :: 0 <= k < |ps| ==> ps[k] in ids
    ensures EmitPieces(raw, ids, ps).Some? && |EmitPieces(raw, ids, ps).value| == |ps|
    ensures forall k :: 0 <= k < |ps| ==> EmitPieces(raw, ids, ps).value[k] == ids[ps[k]]
  {
    hide EmitPiece;
    if ps != [] {
      KnownPieces(raw, ids, ps[..|ps| - 1]);
      EmitPieceIs(raw, ids, ps[|ps| - 1]);
    }
  }

  /** The final pieces of all pretokens, in order. */
  ghost function AllPieces(raw: bool, rank: Ranking, words: seq<Piece>): seq<Piece> {
    if words == [] then [] else
      AllPieces(raw, rank, words[..|words| - 1]) + WordPieces(raw, rank, words[|words| - 1])
  }

  lemma {:induction false} EmitPiecesConcat(raw: bool, ids: map<Piece, nat>, a: seq<Piece>, b: seq<Piece>)
    requires EmitPieces(raw, ids, a).Some? && EmitPieces(raw, ids, b).Some?
    ensures EmitPieces(raw, ids, a + b) == Some(EmitPieces(raw, ids, a).value + EmitPieces(raw, ids, b).value)
  {
    hide EmitPiece;
    if b == [] {
      var x := EmitPieces(raw, ids, a).value;
      assert a + b == a && x + [] == x;
    } else {
      EmitPiecesSnoc(raw, ids, b);
      EmitPiecesConcat(raw, ids, a, b[..|b| - 1]);
      assert (a + b)[..|a + b| - 1] == a + b[..|b| - 1];
      var front, last := b[..|b| - 1], b[|b| - 1];
      EmitLast(raw, ids, a + front, last);
      assert a + b == (a + front) + [last];
      var x, y, z := EmitPieces(raw, ids, a).value, EmitPieces(raw, ids, front).value, EmitPiece(raw, ids, last).value;
      assert (x + y) + z == x + (y + z);
    }
  }

  /** The ids of all pretokens are those of their final pieces, in order. */
  lemma {:induction false} EncodeWordsIsAllPieces(raw: bool, rank: Ranking, ids: map<Piece, nat>, words: seq<Piece>)
    requires EncodeWords(raw, rank, ids, words).Some?
    ensures EmitPieces(raw, ids, AllPieces(raw, rank, words)) == EncodeWords(raw, rank, ids, words)
  {
    EmitNone(raw, ids);
    hide EmitPieces, WordPieces;
    if words != [] {
      EncodeWordsIsAllPieces(raw, rank, ids, words[..|words| - 1]);
      EmitPiecesConcat(raw, ids, AllPieces(raw, rank, words[..|words| - 1]), WordPieces(raw, rank, words[|words| - 1]));
    }
  }

  /** Two symbols with a rank whose join is in the vocabulary: one id. */
  lemma JoinedPieceIsOneId(raw: bool, rank: Ranking, ids: map<Piece, nat>, a: Piece, b: Piece)
    requires SeedPieces(raw, a + b) == [a, b] && rank(a, b) >= 0 && a + b in ids
    ensures EncodeWords(raw, rank, ids, [a + b]) == Some([ids[a + b]])
  {
    hide SeedPieces, NaiveBpe;
    NaiveMergesPair(rank, a, b);
    KnownPieces(raw, ids, [a + b]);
    var out := EmitPieces(raw, ids, [a + b]).value;
    assert out == [ids[a + b]];
    assert WordPieces(raw, rank, a + b) == [a + b];
    assert [a + b][..0] == [] && EncodeWords(raw, rank, ids, []) == Some([]);
    assert [] + out == out;
  }
}
