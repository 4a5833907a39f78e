/** The tokenizer object: loading, encoding, decoding, and the round trip. */
module Tokenizers {
  import opened Wrappers
  import opened Utf8
  import opened Bpe
  import opened ByteMaps
  import opened ByteBpe
  import opened Vocabulary
  import opened Patterns
  import Regexes
  import opened SymbolList
  import opened MergeLoop
  import opened Pretokenizer

  datatype DecodeMode = SentencePiece | Gpt2ByteUnicode | RawBytes

  /** Status codes; Thrown stands for an exception on malformed text. */
  datatype Status = Ok | InvalidArg | NotImplemented | GgufError | Thrown

  /** The answer to reading one key of a vocabulary file. */
  datatype Kv<+T> = Absent | BadType | Found(value: T)

  /** The keys of a vocabulary file that the tokenizer reads. */
  datatype VocabFile = VocabFile(model: Kv<string>, pre: Kv<string>, tokens: Kv<seq<Piece>>, scores: Kv<seq<real>>,
                                 tokenTypes: Kv<seq<int>>, merges: Kv<seq<Piece>>,
                                 unk: Kv<int>, bos: Kv<int>, eos: Kv<int>, blank: Kv<int>)

  /** The special ids an in-memory loader is given. */
  datatype Specials = Specials(unk: int, bos: int, eos: int, blank: int)

  predicate SupportedModel(model: string) {
    model == "unigram" || model == "bpe" || model == "gpt2" || model == "char"
  }

  /** An optional per-token array of the wrong type or length. */
  predicate BadColumn<T>(column: Kv<seq<T>>, rows: nat) {
    column.BadType? || (column.Found? && |column.value| != rows)
  }

  /** The merges are of the wrong type, or some line has no separator. */
  ghost predicate BadMerges(merges: Kv<seq<Piece>>) {
    merges.BadType? || (merges.Found? && exists i :: 0 <= i < |merges.value| && Cut(merges.value[i]).None?)
  }

  predicate BadSpecials(file: VocabFile) {
    file.unk.BadType? || file.bos.BadType? || file.eos.BadType? || file.blank.BadType?
  }

  /** The defects, apart from the model key, for which a file is refused. */
  ghost predicate Malformed(file: VocabFile) {
    || file.pre.BadType? || !file.tokens.Found? || file.tokens.value == []
    || file.scores.BadType? || (file.scores.Found? && |file.scores.value| != |file.tokens.value|)
    || file.tokenTypes.BadType? || (file.tokenTypes.Found? && |file.tokenTypes.value| != |file.tokens.value|)
    || BadMerges(file.merges)
    || file.unk.BadType? || file.bos.BadType? || file.eos.BadType? || file.blank.BadType?
  }

  function ModeOf(model: string): (mode: DecodeMode)
    ensures mode == Gpt2ByteUnicode <==> model == "gpt2"
    ensures mode == RawBytes <==> model == "char"
  {
    if model == "gpt2" then Gpt2ByteUnicode else if model == "char" then RawBytes else SentencePiece
  }

  function OrDefault<T>(key: Kv<T>, default: T): (value: T)
    ensures key.Found? ==> value == key.value
    ensures !key.Found? ==> value == default
  {
    if key.Found? then key.value else default
  }

  /** The state the loaders leave: a model string of "gpt2" comes with the glyph vocabulary. */
  ghost predicate Loaded(t: Tokenizer)
    reads t
  {
    t.model == "gpt2" ==> t.mode == Gpt2ByteUnicode
  }

  class Tokenizer {
    var model: string
    var pre: string
    var mode: DecodeMode
    var tokens: seq<Piece>
    var pieceToId: map<Piece, nat>
    var mergeRank: map<Piece, nat>
    var scores: seq<real>
    var tokenType: seq<int>
    var unkId: int
    var bosId: int
    var eosId: int
    var blankId: int
    const flags: Flagging
    const bm: ByteMap

    ghost predicate Valid()
      reads this
    {
      bm.Valid() && Indexed(tokens, pieceToId)
    }

    constructor (flags: Flagging, bm: ByteMap)
      requires bm.Valid()
      ensures Valid() && this.flags == flags && this.bm == bm
      ensures model == "" && pre == "" && mode == SentencePiece && tokens == [] && mergeRank == map[]
    {
      this.flags, this.bm := flags, bm;
      model, pre, mode, tokens, pieceToId, mergeRank := "", "", SentencePiece, [], map[], map[];
      scores, tokenType, unkId, bosId, eosId, blankId := [], [], -1, -1, -1, -1;
    }

    /** The special ids; an absent key leaves the id as it is. */
    method LoadSpecials(file: VocabFile) returns (st: Status)
      modifies this`unkId, this`bosId, this`eosId, this`blankId
      ensures st == if BadSpecials(file) then GgufError else Ok
      ensures st == Ok ==>
        && unkId == OrDefault(file.unk, old(unkId)) && bosId == OrDefault(file.bos, old(bosId))
        && eosId == OrDefault(file.eos, old(eosId)) && blankId == OrDefault(file.blank, old(blankId))
    {
      unkId := OrDefault(file.unk, unkId);
      if file.unk.BadType? {
        return GgufError;
      }
      bosId := OrDefault(file.bos, bosId);
      if file.bos.BadType? {
        return GgufError;
      }
      eosId := OrDefault(file.eos, eosId);
      if file.eos.BadType? {
        return GgufError;
      }
      blankId := OrDefault(file.blank, blankId);
      return if file.blank.BadType? then GgufError else Ok;
    }

    /** The optional columns and the merges. */
    method LoadColumns(file: VocabFile) returns (st: Status)
      modifies this`scores, this`tokenType, this`mergeRank
      ensures var rows := |tokens|;
        st == if BadColumn(file.scores, rows) || BadColumn(file.tokenTypes, rows) || BadMerges(file.merges)
              then GgufError else Ok
      ensures st == Ok ==> scores == OrDefault(file.scores, []) && tokenType == OrDefault(file.tokenTypes, [])
      ensures st == Ok ==> if file.merges.Found? then RanksOf(file.merges.value, mergeRank) else mergeRank == map[]
    {
      hide RanksOf;
      scores := OrDefault(file.scores, []);
      if BadColumn(file.scores, |tokens|) {
        return GgufError;
      }
      tokenType := OrDefault(file.tokenTypes, []);
      if BadColumn(file.tokenTypes, |tokens|) {
        return GgufError;
      }
      mergeRank := map[];
      match file.merges {
        case Absent =>
        case BadType =>
          return GgufError;
        case Found(lines) =>
          var ranks := BuildMergeRanks(lines);
          if ranks.None? {
            return GgufError;
          }
          mergeRank := ranks.value;
      }
      return Ok;
    }

    /** The model string, the decode mode and the pretokenizer name. */
    method LoadModel(file: VocabFile) returns (st: Status)
      modifies this`model, this`mode, this`pre
      ensures st ==
        if !file.model.Found? then GgufError
        else if !SupportedModel(file.model.value) then NotImplemented
        else if file.pre.BadType? then GgufError else Ok
      ensures st == Ok ==> model == file.model.value && mode == ModeOf(model) && pre == OrDefault(file.pre, "qwen2")
      ensures old(Loaded(this)) ==> Loaded(this)
    {
      if !file.model.Found? {
        return GgufError;
      }
      model := file.model.value;
      if !SupportedModel(model) {
        return NotImplemented;
      }
      mode := ModeOf(model);
      pre := if file.pre.Absent? then "qwen2" else OrDefault(file.pre, "");
      return if file.pre.BadType? then GgufError else Ok;
    }

    /** The pieces and their index. */
    method InstallVocab(source: seq<Piece>)
      modifies this`tokens, this`pieceToId
      ensures tokens == source && Indexed(tokens, pieceToId)
    {
      tokens := source;
      pieceToId := BuildIndex(tokens);
    }

    /** load: None stands for a missing file context. */
    method Load(source: Option<VocabFile>) returns (st: Status)
      requires Valid()
      modifies this
      ensures st == InvalidArg <==> source.None?
      ensures st == NotImplemented <==>
        source.Some? && source.value.model.Found? && source.value.model.value !in {"unigram", "bpe", "gpt2", "char"}
      ensures st == Ok <==>
        && source.Some? && source.value.model.Found? && SupportedModel(source.value.model.value)
        && !Malformed(source.value)
      ensures st in {Ok, InvalidArg, NotImplemented, GgufError}
      ensures st == Ok ==> Valid() && HoldsFile(source.value)
      ensures st == Ok ==> var file := source.value;
        && unkId == OrDefault(file.unk, old(unkId)) && bosId == OrDefault(file.bos, old(bosId))
        && eosId == OrDefault(file.eos, old(eosId)) && blankId == OrDefault(file.blank, old(blankId))
      ensures old(Loaded(this)) ==> Loaded(this)
    {
      hide RanksOf, Indexed, BadMerges, ModeOf, OrDefault;
      if source.None? {
        return InvalidArg;
      }
      var file := source.value;
      st := LoadModel(file);
      if st != Ok {
        return;
      }
      if !file.tokens.Found? {
        return GgufError;
      }
      tokens := file.tokens.value;
      if tokens == [] {
        return GgufError;
      }
      pieceToId := BuildIndex(tokens);
      st := LoadColumns(file);
      if st != Ok {
        return;
      }
      st := LoadSpecials(file);
    }

    /** The tokenizer holds the contents of a well-formed file. */
    ghost predicate HoldsFile(file: VocabFile)
      requires file.model.Found? && file.tokens.Found?
      reads this
    {
      && model == file.model.value && mode == ModeOf(model) && pre == OrDefault(file.pre, "qwen2")
      && tokens == file.tokens.value && tokens != []
      && scores == OrDefault(file.scores, []) && tokenType == OrDefault(file.tokenTypes, [])
      && if file.merges.Found? then RanksOf(file.merges.value, mergeRank) else mergeRank == map[]
    }

    /** load_decode_only_raw_bytes and load_decode_only_gpt2. */
    method LoadDecodeOnly(source: seq<Piece>, decodeMode: DecodeMode, specials: Specials) returns (st: Status)
      requires Valid()
      modifies this
      ensures Valid() && (st == Ok || st == InvalidArg) && (st == InvalidArg <==> source == [])
      ensures st == Ok ==> tokens == source && mode == decodeMode && model == "" && pre == "" && mergeRank == map[]
      ensures st == Ok ==> scores == [] && tokenType == [] && Specials(unkId, bosId, eosId, blankId) == specials
      ensures st == InvalidArg ==> unchanged(this)
      ensures st == Ok ==> Loaded(this)
    {
      if source == [] {
        return InvalidArg;
      }
      InstallVocab(source);
      Configure(decodeMode);
      unkId, bosId, eosId, blankId := specials.unk, specials.bos, specials.eos, specials.blank;
      return Ok;
    }

    /** A decode mode without model string, pretokenizer name, merges or columns. */
    method Configure(decodeMode: DecodeMode)
      modifies this`mode, this`model, this`pre, this`mergeRank, this`scores, this`tokenType
      ensures mode == decodeMode && model == "" && pre == "" && mergeRank == map[] && scores == [] && tokenType == []
    {
      mode, model, pre := decodeMode, "", "";
      mergeRank, scores, tokenType := map[], [], [];
    }

    predicate HasEncoder()
      reads this
    {
      (model == "gpt2" && mergeRank != map[]) || (mode.RawBytes? && tokens != [])
    }

    /** The checks encode makes before it looks at the text; None when it goes on. */
    function Unavailable(): Option<Status>
      reads this
    {
      if mode.RawBytes? then if tokens == [] then Some(GgufError) else None
      else if model != "gpt2" then Some(NotImplemented)
      else if mergeRank == map[] then Some(GgufError)
      else None
    }

    /** The pretokenizer encode uses; None when a raw vocabulary asks for one that does not exist. */
    function FlavorUsed(): Option<Flavor>
      reads this
    {
      if mode.RawBytes? then if pre == "gpt2" || pre == "" then Some(Gpt2) else None
      else Some(if pre == "gpt2" then Gpt2 else if pre == "granite" then Granite else Qwen2)
    }

    function RankingUsed(): Ranking
      reads this
    {
      if mode.RawBytes? then RawRanking(pieceToId) else MergeRanking(mergeRank)
    }

    /** ids is what the definition gives: naive BPE on the pretokens of the text. */
    ghost predicate Encodes(text: seq<byte>, ids: Option<seq<nat>>)
      reads this
    {
      var cs := DecodeFrom(text, 0);
      cs.Some? && AllValid(cs.value) && FlavorUsed().Some? &&
      exists ends :: IsSplit(flags, FlavorUsed().value, cs.value, ends) && Cuts(cs.value, ends) &&
        EncodeWords(mode.RawBytes?, RankingUsed(), pieceToId, Words(mode.RawBytes?, cs.value, ends)) == ids
    }

    /** The ids come in groups, one for each final piece of the pretokens in order. */
    ghost predicate Segmented(text: seq<byte>, ids: seq<nat>)
      reads this
    {
      var cs := DecodeFrom(text, 0);
      cs.Some? && AllValid(cs.value) && FlavorUsed().Some? &&
      exists ends, cuts :: IsSplit(flags, FlavorUsed().value, cs.value, ends) && Cuts(cs.value, ends) &&
        Grouped(mode.RawBytes?, pieceToId,
                AllPieces(mode.RawBytes?, RankingUsed(), Words(mode.RawBytes?, cs.value, ends)), ids, cuts)
    }

    /** Emit the ids of one piece: itself, or symbol by symbol. */
    method EmitInto(raw: bool, piece: Piece, out: seq<nat>) returns (r: Option<seq<nat>>)
      ensures r == Append(Some(out), EmitPiece(raw, pieceToId, piece))
    {
      if piece in pieceToId {
        return Some(out + [pieceToId[piece]]);
      }
      var ids := EmitFallback(raw, piece);
      return if ids.None? then None else Some(out + ids.value);
    }

    /** The fallback for a piece that is not in the vocabulary. */
    method EmitFallback(raw: bool, piece: Piece) returns (r: Option<seq<nat>>)
      ensures r == EmitSymbols(pieceToId, SeedPieces(raw, piece))
    {
      hide EmitSymbols, SeedPieces;
      var ids: seq<nat> := [];
      var j := 0;
      FallbackStart(raw, pieceToId, piece);
      while j < |piece|
        invariant j <= |piece|
        invariant EmitSymbols(pieceToId, SeedPieces(raw, piece)) ==
          Append(Some(ids), EmitSymbols(pieceToId, SeedPieces(raw, piece[j..])))
        decreases |piece| - j
      {
        var clen: nat := if raw then 1 else LenUtf8(piece[j]);
        if |piece| - j < clen {
          clen := |piece| - j;
        }
        var sub := piece[j..j + clen];
        FallbackStep(raw, pieceToId, piece, j, clen, ids);
        if sub !in pieceToId {
          return None;
        }
        ids := ids + [pieceToId[sub]];
        j := j + clen;
      }
      FallbackEnd(raw, pieceToId, piece, ids);
      return Some(ids);
    }

    /** The merge loop and the emission for every pretoken. */
    method EmitWords(raw: bool, rank: Ranking, words: seq<Piece>) returns (r: Option<seq<nat>>)
      requires forall k :: 0 <= k < |words| ==> words[k] != []
      ensures r == EncodeWords(raw, rank, pieceToId, words)
    {
      hide EmitPieces, NaiveBpe, Chain, Pieces, IsTrace, Unranked;
      var ids: seq<nat> := [];
      var ws := new Workspace();
      WordsStart(raw, rank, pieceToId);
      for k := 0 to |words|
        invariant EncodeWords(raw, rank, pieceToId, words[..k]) == Some(ids)
      {
        var word := words[k];
        ws.Seed(word, raw);
        ws.Run(word, rank, SeedPieces(raw, word));
        var more := EmitWalk(raw, ws, word, ids);
        assert words[..k + 1] == words[..k] + [word];
        WordsNext(raw, rank, pieceToId, words[..k], word);
        if more.None? {
          WordsStuck(raw, rank, pieceToId, words, k + 1);
          return None;
        }
        ids := more.value;
      }
      assert words[..|words|] == words;
      return Some(ids);
    }

    /**
      * encode. After the configuration checks: an exception exactly on text that does not decode to valid
      * codepoints, and otherwise the ids of naive BPE on the pretokens, or an error when a piece is unknown.
      */
    method Encode(text: seq<byte>) returns (st: Status, out: seq<nat>)
      requires Valid()
      ensures Unavailable().Some? ==> st == Unavailable().value && out == []
      ensures mode != RawBytes && model != "gpt2" ==> st == NotImplemented
      ensures mode != RawBytes && model == "gpt2" && mergeRank == map[] ==> st == GgufError
      ensures mode == RawBytes && tokens == [] ==> st == GgufError
      ensures mode == RawBytes && tokens != [] && text != [] && pre != "" && pre != "gpt2" ==> st == InvalidArg
      ensures Unavailable().None? && text == [] ==> st == Ok && out == []
      ensures Unavailable().None? && text != [] && FlavorUsed().None? ==> st == InvalidArg && out == []
      ensures Unavailable().None? && text != [] && FlavorUsed().Some? ==>
        && (st == Thrown <==> DecodeFrom(text, 0).None? || !AllValid(DecodeFrom(text, 0).value))
        && (st == Ok ==> Encodes(text, Some(out)) && Segmented(text, out))
        && (st == GgufError ==> Encodes(text, None))
        && (st == Ok || st == GgufError || st == Thrown)
        && (st != Thrown && Classified(flags, DecodeFrom(text, 0).value) ==>
              forall ids :: Encodes(text, ids) <==> ids == if st == Ok then Some(out) else None)
    {
      hide PatternOf, Regexes.Splits, EncodeWords, Words;
      out := [];
      if mode == RawBytes {
        if tokens == [] {
          return GgufError, [];
        }
        if text == [] {
          return Ok, [];
        }
        if !(pre == "gpt2" || pre == "") {
          return InvalidArg, [];
        }
      } else {
        if model != "gpt2" {
          return NotImplemented, [];
        }
        if mergeRank == map[] {
          return GgufError, [];
        }
        if text == [] {
          return Ok, [];
        }
      }
      var words := Pretokenize(flags, FlavorUsed().value, mode.RawBytes?, bm, text);
      if words.None? {
        return Thrown, [];
      }
      assert forall k :: 0 <= k < |words.value| ==> words.value[k] != [] by {
        ghost var ends :| Cuts(DecodeFrom(text, 0).value, ends) &&
          words.value == Words(mode.RawBytes?, DecodeFrom(text, 0).value, ends);
        WordsNonEmpty(mode.RawBytes?, bm, DecodeFrom(text, 0).value, ends);
      }
      var ids := EmitWords(mode.RawBytes?, RankingUsed(), words.value);
      assert Encodes(text, ids);
      if Classified(flags, DecodeFrom(text, 0).value) {
        forall other | Encodes(text, other)
          ensures other == ids
        {
          EncodesUnique(this, text, other, ids);
        }
      }
      if ids.None? {
        return GgufError, [];
      }
      EncodeGroups(this, text, ids.value);
      return Ok, ids.value;
    }

    /** A raw piece reads as itself. */
    lemma RawReads(id: int)
      requires 0 <= id < |tokens|
      ensures DecodeIds(true, bm, tokens, [id]) == tokens[id]
    {
      DecodeOneId(true, bm, tokens, id);
      ReadRaw(bm, tokens[id]);
    }

    /** decode for the two byte-level modes: out-of-range ids are skipped. */
    method Decode(ids: seq<int>) returns (out: seq<byte>)
      requires Valid() && mode != SentencePiece
      ensures out == DecodeIds(mode.RawBytes?, bm, tokens, ids)
    {
      hide Read, DecodeIds;
      out := [];
      DecodeNone(mode.RawBytes?, bm, tokens);
      for i := 0 to |ids|
        invariant out == DecodeIds(mode.RawBytes?, bm, tokens, ids[..i])
      {
        var id := ids[i];
        assert ids[..i + 1] == ids[..i] + [id];
        DecodeLast(mode.RawBytes?, bm, tokens, ids[..i], id);
        if 0 <= id < |tokens| {
          if mode.RawBytes? {
            ReadRaw(bm, tokens[id]);
            out := out + tokens[id];
          } else {
            var text := DecodePieceBytes(tokens[id]);
            out := out + text;
          }
        }
      }
      assert ids[..|ids|] == ids;
    }

    /** The inner loop of decode_gpt2_bytes: glyph by glyph. */
    method DecodePieceBytes(p: Piece) returns (out: seq<byte>)
      ensures out == Read(false, bm, p)
    {
      hide Read, ReadSymbol;
      out := [];
      var j := 0;
      ReadEnds(bm, p, out);
      while j < |p|
        invariant j <= |p| && Read(false, bm, p) == out + Read(false, bm, p[j..])
        decreases |p| - j
      {
        var w: nat := LenUtf8(p[j]);
        if |p| - j < w {
          w := |p| - j;
        }
        var one := p[j..j + w];
        ReadStep(bm, p, j, w, out);
        SymbolIs(bm, one);
        var b := bm.UnicodeToByte(one);
        if b >= 0 {
          out := out + [b];
        } else {
          out := out + one;
        }
        j := j + w;
      }
      ReadEnds(bm, p, out);
    }

    /** Walk the finished list from slot 0 along the links and emit every live slot. */
    method EmitWalk(raw: bool, ws: Workspace, word: Piece, out: seq<nat>) returns (r: Option<seq<nat>>)
      requires Chain(word, ws.symbols, ws.live)
      ensures r == Append(Some(out), EmitPieces(raw, pieceToId, Pieces(word, ws.symbols, ws.live)))
      ensures var ps := Pieces(word, ws.symbols, ws.live);
        (forall k :: 0 <= k < |ps| ==> ps[k] in pieceToId) ==>
          && r.Some? && |r.value| == |out| + |ps|
          && forall k :: 0 <= k < |ps| ==> r.value[|out| + k] == pieceToId[ps[k]]
    {
      hide EmitPieces, EmitPiece, Chain, Pieces;
      ghost var ps := Pieces(word, ws.symbols, ws.live);
      if forall j :: 0 <= j < |ps| ==> ps[j] in pieceToId {
        KnownPieces(raw, pieceToId, ps);
      }
      var ids := out;
      var i: int := 0;
      ghost var k := 0;
      WalkStart(word, ws.symbols, ws.live);
      EmitNone(raw, pieceToId);
      AppendNil(Some(out));
      assert ps[..0] == [];
      while i != -1
        invariant 0 <= k <= |ws.live| && i == LinkAt(ws.live, k)
        invariant Append(Some(out), EmitPieces(raw, pieceToId, ps[..k])) == Some(ids)
        decreases |ws.live| - k
      {
        WalkSlot(word, ws.symbols, ws.live, k);
        var s := ws.symbols[i];
        if s.n != 0 {
          var more := EmitInto(raw, PieceOf(word, s), ids);
          assert ps[..k + 1] == ps[..k] + [ps[k]];
          EmitLast(raw, pieceToId, ps[..k], ps[k]);
          AppendAssoc(Some(out), EmitPieces(raw, pieceToId, ps[..k]), EmitPiece(raw, pieceToId, ps[k]));
          if more.None? {
            EmitStuck(raw, pieceToId, ps, k + 1);
            return None;
          }
          ids := more.value;
        }
        i := s.next;
        k := k + 1;
      }
      assert ps[..k] == ps;
      return Some(ids);
    }
  }

  lemma AppendNil(a: Option<seq<nat>>)
    ensures Append(Some([]), a) == a == Append(a, Some([]))
  {
    if a.Some? {
      assert [] + a.value == a.value == a.value + [];
    }
  }

  lemma AppendAssoc(a: Option<seq<nat>>, b: Option<seq<nat>>, c: Option<seq<nat>>)
    ensures Append(Append(a, b), c) == Append(a, Append(b, c))
  {
    if a.Some? && b.Some? && c.Some? {
      assert (a.value + b.value) + c.value == a.value + (b.value + c.value);
    }
  }

  lemma FallbackStart(raw: bool, ids: map<Piece, nat>, p: Piece)
    ensures EmitSymbols(ids, SeedPieces(raw, p)) == Append(Some([]), EmitSymbols(ids, SeedPieces(raw, p[0..])))
  {
    assert p[0..] == p;
    AppendNil(EmitSymbols(ids, SeedPieces(raw, p)));
  }

  lemma FallbackStep(raw: bool, ids: map<Piece, nat>, p: Piece, j: nat, w: nat, done: seq<nat>)
    requires j < |p| && w == FirstWidth(raw, p[j..])
    ensures j + w <= |p|
    ensures Append(Some(done), EmitSymbols(ids, SeedPieces(raw, p[j..]))) ==
            if p[j..j + w] in ids
            then Append(Some(done + [ids[p[j..j + w]]]), EmitSymbols(ids, SeedPieces(raw, p[j + w..])))
            else None
  {
    hide EmitSymbols, SeedPieces, FirstWidth;
    assert p[j..][..w] == p[j..j + w] && p[j..][w..] == p[j + w..];
    SymbolsUnfold(raw, ids, p[j..]);
    if p[j..j + w] in ids {
      AppendAssoc(Some(done), Some([ids[p[j..j + w]]]), EmitSymbols(ids, SeedPieces(raw, p[j + w..])));
    }
  }

  lemma FallbackEnd(raw: bool, ids: map<Piece, nat>, p: Piece, done: seq<nat>)
    ensures Append(Some(done), EmitSymbols(ids, SeedPieces(raw, p[|p|..]))) == Some(done)
  {
    assert p[|p|..] == [];
    NoSymbols(raw, ids);
    AppendNil(Some(done));
  }

  lemma NoSymbols(raw: bool, ids: map<Piece, nat>)
    ensures EmitSymbols(ids, SeedPieces(raw, [])) == Some([])
  {
  }

  lemma SymbolsUnfold(raw: bool, ids: map<Piece, nat>, p: Piece)
    requires p != []
    ensures var w := FirstWidth(raw, p);
      EmitSymbols(ids, SeedPieces(raw, p)) ==
      if p[..w] in ids then Append(Some([ids[p[..w]]]), EmitSymbols(ids, SeedPieces(raw, p[w..]))) else None
  {
    var w := FirstWidth(raw, p);
    assert SeedPieces(raw, p)[1..] == SeedPieces(raw, p[w..]);
  }

  lemma {:induction false} ReadRaw(bm: ByteMap, p: Piece)
    ensures Read(true, bm, p) == p
    decreases |p|
  {
    if p != [] {
      ReadRaw(bm, p[1..]);
      assert p == p[..1] + p[1..];
    }
  }

  lemma ReadEnds(bm: ByteMap, p: Piece, out: seq<byte>)
    ensures Read(false, bm, p) == [] + Read(false, bm, p[0..]) && out + Read(false, bm, p[|p|..]) == out
  {
    assert p[0..] == p && p[|p|..] == [];
    assert [] + Read(false, bm, p) == Read(false, bm, p);
    assert Read(false, bm, []) == [] && out + [] == out;
  }

  lemma SymbolIs(bm: ByteMap, one: Piece)
    ensures ReadSymbol(false, bm, one) == if bm.UnicodeToByte(one) >= 0 then [bm.UnicodeToByte(one)] else one
  {
  }

  lemma ReadStep(bm: ByteMap, p: Piece, j: nat, w: nat, out: seq<byte>)
    requires j < |p| && w == FirstWidth(false, p[j..])
    ensures j + w <= |p|
    ensures out + Read(false, bm, p[j..]) == (out + ReadSymbol(false, bm, p[j..j + w])) + Read(false, bm, p[j + w..])
  {
    hide FirstWidth, ReadSymbol;
    assert p[j..][..w] == p[j..j + w] && p[j..][w..] == p[j + w..];
    assert Read(false, bm, p[j..]) == ReadSymbol(false, bm, p[j..j + w]) + Read(false, bm, p[j + w..]);
  }

  lemma WordsStart(raw: bool, rank: Ranking, ids: map<Piece, nat>)
    ensures EncodeWords(raw, rank, ids, []) == Some([])
  {
  }

  lemma WordsNext(raw: bool, rank: Ranking, ids: map<Piece, nat>, front: seq<Piece>, word: Piece)
    ensures EncodeWords(raw, rank, ids, front + [word]) ==
            Append(EncodeWords(raw, rank, ids, front), EmitPieces(raw, ids, NaiveBpe(rank, SeedPieces(raw, word))))
  {
    hide EmitPieces;
    assert (front + [word])[..|front|] == front;
  }

  lemma {:induction false} WordsStuck(raw: bool, rank: Ranking, ids: map<Piece, nat>, words: seq<Piece>, k: nat)
    requires k <= |words| && EncodeWords(raw, rank, ids, words[..k]).None?
    ensures EncodeWords(raw, rank, ids, words).None?
    decreases |words| - k
  {
    hide EncodeWords, EmitPieces;
    if k < |words| {
      assert words[..k + 1] == words[..k] + [words[k]];
      WordsNext(raw, rank, ids, words[..k], words[k]);
      WordsStuck(raw, rank, ids, words, k + 1);
    } else {
      assert words[..k] == words;
    }
  }

  lemma WordsNonEmpty(raw: bool, bm: ByteMap, cs: seq<nat>, ends: seq<nat>)
    requires bm.Valid() && Cuts(cs, ends)
    ensures forall k :: 0 <= k < |Words(raw, cs, ends)| ==> Words(raw, cs, ends)[k] != []
  {
    hide Spell, Words, Chunks, Spelled;
    ChunksCover(raw, cs, ends);
    forall k | 0 <= k < |Words(raw, cs, ends)| ensures Words(raw, cs, ends)[k] != [] {
      SpellNonEmpty(raw, bm, Chunks(cs, ends)[k]);
    }
  }

  lemma SpellNonEmpty(raw: bool, bm: ByteMap, bs: seq<byte>)
    requires bm.Valid() && bs != []
    ensures Spell(raw, bs) != []
  {
    SpelledIs(raw, bm, bs);
  }

  lemma WalkStart(word: Piece, syms: seq<Symbol>, live: seq<nat>)
    requires Chain(word, syms, live)
    ensures |live| > 0 && LinkAt(live, 0) == 0
  {
  }

  /** The k-th slot in use, as the walk sees it. */
  lemma WalkSlot(word: Piece, syms: seq<Symbol>, live: seq<nat>, k: nat)
    requires Chain(word, syms, live) && LinkAt(live, k) != -1
    ensures k < |live| && 0 <= LinkAt(live, k) < |syms|
    ensures var s := syms[LinkAt(live, k)];
      s.n != 0 && EndOf(s) <= |word| && s.next == LinkAt(live, k + 1) && PieceOf(word, s) == Pieces(word, syms, live)[k]
  {
    LinkedSlot(syms, live, k);
    PieceAt(word, syms, live, k);
  }

  /** A piece that cannot be emitted makes the whole word fail. */
  lemma {:induction false} EmitStuck(raw: bool, ids: map<Piece, nat>, ps: seq<Piece>, k: nat)
    requires k <= |ps| && EmitPieces(raw, ids, ps[..k]).None?
    ensures EmitPieces(raw, ids, ps).None?
    decreases |ps| - k
  {
    hide EmitPieces, EmitPiece;
    if k < |ps| {
      assert ps[..k + 1] == ps[..k] + [ps[k]];
      EmitLast(raw, ids, ps[..k], ps[k]);
      EmitStuck(raw, ids, ps, k + 1);
    } else {
      assert ps[..k] == ps;
    }
  }

  // What encode and decode promise together.

  /**
    * The round trip: ids that encode gives for a text decode to the re-encoded text, which is the text itself
    * exactly when the text is canonical UTF-8; and there is at most one id per input byte.
    */
  lemma EncodeThenDecode(t: Tokenizer, text: seq<byte>, ids: seq<nat>)
    requires t.Valid() && t.Encodes(text, Some(ids))
    ensures var cs := DecodeFrom(text, 0).value;
      && DecodeIds(t.mode.RawBytes?, t.bm, t.tokens, ids) == EncodeAll(cs)
      && (DecodeIds(t.mode.RawBytes?, t.bm, t.tokens, ids) == text <==> Canonical(text))
    ensures |ids| <= |text|
  {
    hide PatternOf, Regexes.Splits, EncodeWords, Words, Chunks, DecodeIds, DecodeFrom, EncodeAll;
    var raw, cs := t.mode.RawBytes?, DecodeFrom(text, 0).value;
    var ends :| IsSplit(t.flags, t.FlavorUsed().value, cs, ends) && Cuts(cs, ends) &&
      EncodeWords(raw, t.RankingUsed(), t.pieceToId, Words(raw, cs, ends)) == Some(ids);
    ChunksCover(raw, cs, ends);
    TilesCut(cs, ends);
    EncodeWordsRoundTrip(raw, t.bm, t.RankingUsed(), t.tokens, t.pieceToId, Words(raw, cs, ends), Chunks(cs, ends));
    ReencodingShrinks(text, 0);
    CanonicalIff(text);
  }

  /** Encoding gives every final piece its own group of ids. */
  lemma EncodeGroups(t: Tokenizer, text: seq<byte>, ids: seq<nat>)
    requires t.Encodes(text, Some(ids))
    ensures t.Segmented(text, ids)
  {
    hide PatternOf, EncodeWords, Words, AllPieces, Grouped;
    var raw, cs := t.mode.RawBytes?, DecodeFrom(text, 0).value;
    var ends :| IsSplit(t.flags, t.FlavorUsed().value, cs, ends) && Cuts(cs, ends) &&
      EncodeWords(raw, t.RankingUsed(), t.pieceToId, Words(raw, cs, ends)) == Some(ids);
    EncodeWordsIsAllPieces(raw, t.RankingUsed(), t.pieceToId, Words(raw, cs, ends));
    var cuts := EmitPiecesGrouped(raw, t.pieceToId, AllPieces(raw, t.RankingUsed(), Words(raw, cs, ends)));
  }

  /** Which name selects which pattern and ranks: on a classified text the ids are those of that pattern's pretokens. */
  lemma PatternByName(t: Tokenizer, text: seq<byte>, ids: seq<nat>)
    requires t.Encodes(text, Some(ids)) && Classified(t.flags, DecodeFrom(text, 0).value)
    ensures var raw, cs := t.mode == RawBytes, DecodeFrom(text, 0).value;
      var pattern :=
        if raw || t.pre == "gpt2" then Gpt2Effective(t.flags)
        else if t.pre == "granite" then GraniteEffective(t.flags) else QwenPattern(t.flags);
      var rank := if raw then RawRanking(t.pieceToId) else MergeRanking(t.mergeRank);
      var ends := Regexes.Splits(pattern, cs, 0);
      && ends.Some? && Cuts(cs, ends.value)
      && EncodeWords(raw, rank, t.pieceToId, Words(raw, cs, ends.value)) == Some(ids)
  {
    hide EncodeWords, Words, Regexes.Splits, Gpt2Effective, GraniteEffective, QwenPattern, RawRanking, MergeRanking;
  }

  /** A classified text has one outcome. */
  lemma EncodesUnique(t: Tokenizer, text: seq<byte>, a: Option<seq<nat>>, b: Option<seq<nat>>)
    requires t.Encodes(text, a) && t.Encodes(text, b) && Classified(t.flags, DecodeFrom(text, 0).value)
    ensures a == b
  {
    hide PatternOf, EncodeWords, Words;
  }

  /** With all 256 single-byte pieces in the vocabulary no text ends in a missing piece. */
  lemma AllBytesSuffice(t: Tokenizer, text: seq<byte>)
    requires t.Valid() && HasAllBytes(t.mode.RawBytes?, t.pieceToId)
    ensures !t.Encodes(text, None)
  {
    hide PatternOf, Regexes.Splits, EncodeWords, Words, Chunks, HasAllBytes;
    if t.Encodes(text, None) {
      var raw, cs := t.mode.RawBytes?, DecodeFrom(text, 0).value;
      var ends :| IsSplit(t.flags, t.FlavorUsed().value, cs, ends) && Cuts(cs, ends) &&
        EncodeWords(raw, t.RankingUsed(), t.pieceToId, Words(raw, cs, ends)) == None;
      ChunksCover(raw, cs, ends);
      EncodeWordsRoundTrip(raw, t.bm, t.RankingUsed(), t.tokens, t.pieceToId, Words(raw, cs, ends), Chunks(cs, ends));
      assert false;
    }
  }

  /** has_encoder tells whether encode goes on to the text, except for raw vocabularies with a foreign pretokenizer. */
  lemma HasEncoderIff(t: Tokenizer)
    requires Loaded(t)
    ensures t.HasEncoder() <==> t.Unavailable().None?
    ensures t.Unavailable().None? && t.FlavorUsed().Some? <==>
            t.HasEncoder() && (t.mode.RawBytes? ==> t.pre == "gpt2" || t.pre == "")
  {
  }

  /**
    * What has_encoder is worth after a load. It answers true although encode refuses by configuration, with
    * InvalidArg and before reading the text, exactly for a "char" file whose pretokenizer name, by default
    * "qwen2", is not a GPT-2 one; in every other case encode reads the text, and fails only on a text that does
    * not decode or on a missing piece. When has_encoder answers false, encode refuses by configuration too.
    */
  method EncoderAfterLoad(t: Tokenizer, file: VocabFile, text: seq<byte>)
    returns (st: Status, has: bool, encoded: Status)
    requires t.Valid() && text != []
    modifies t
    ensures st == Ok <==> file.model.Found? && SupportedModel(file.model.value) && !Malformed(file)
    ensures st == Ok ==> t.Valid() && t.HoldsFile(file) && has == t.HasEncoder()
    ensures st == Ok ==> (has && encoded == InvalidArg <==>
      file.model == Found("char") && OrDefault(file.pre, "qwen2") != "" && OrDefault(file.pre, "qwen2") != "gpt2")
    ensures st == Ok && has && encoded != InvalidArg ==> ReadsText(t, text, encoded)
    ensures st == Ok && !has ==> encoded == NotImplemented || encoded == GgufError
  {
    hide Malformed, EncodeWords, Tokenizer.Encodes;
    st := t.Load(Some(file));
    if st != Ok {
      return st, false, st;
    }
    has := t.HasEncoder();
    var ids;
    encoded, ids := t.Encode(text);
  }

  /** A status that encode reached by reading the text: ids, a text that does not decode, or a missing piece. */
  ghost predicate ReadsText(t: Tokenizer, text: seq<byte>, st: Status)
    reads t
  {
    match st
    case Ok => exists ids :: t.Encodes(text, Some(ids))
    case Thrown => DecodeFrom(text, 0).None? || !AllValid(DecodeFrom(text, 0).value)
    case GgufError => t.Encodes(text, None)
    case _ => false
  }

  /** The input: a "char" vocabulary without a pretokenizer key. */
  method HasEncoderFails(t: Tokenizer, pieces: seq<Piece>, text: seq<byte>)
    returns (st: Status, has: bool, encoded: Status)
    requires t.Valid() && pieces != [] && text != []
    modifies t
    ensures st == Ok && has && encoded == InvalidArg
  {
    var file := VocabFile(Found("char"), Absent, Found(pieces), Absent, Absent, Absent, Absent, Absent, Absent, Absent);
    st, has, encoded := EncoderAfterLoad(t, file, text);
  }

  /** Ids of empty pieces stand for no bytes. */
  lemma {:induction false} DecodesToNothing(raw: bool, bm: ByteMap, pieces: seq<Piece>, ids: seq<int>)
    requires forall i :: 0 <= i < |pieces| ==> pieces[i] == []
    ensures DecodeIds(raw, bm, pieces, ids) == []
  {
    if ids != [] {
      DecodesToNothing(raw, bm, pieces, ids[..|ids| - 1]);
    }
  }

  lemma EncodesReads(t: Tokenizer, text: seq<byte>, ids: Option<seq<nat>>)
    requires t.Encodes(text, ids)
    ensures DecodeFrom(text, 0).Some? && AllValid(DecodeFrom(text, 0).value)
  {
  }

  /** With nothing but empty pieces no non-empty text has ids. */
  lemma EmptyPiecesFail(t: Tokenizer, text: seq<byte>, ids: seq<nat>)
    requires t.Valid() && text != [] && forall i :: 0 <= i < |t.tokens| ==> t.tokens[i] == []
    ensures !t.Encodes(text, Some(ids))
  {
    hide Tokenizer.Encodes, EncodeAll, DecodeIds;
    if t.Encodes(text, Some(ids)) {
      EncodesReads(t, text, Some(ids));
      EncodeThenDecode(t, text, ids);
      DecodesToNothing(t.mode.RawBytes?, t.bm, t.tokens, ids);
      EncodeNonEmpty(DecodeFrom(text, 0).value);
      assert false;
    }
  }

  /** Another input: a "gpt2" vocabulary with merges but no useful piece is read, and encodes nothing. */
  method HasEncoderFailsOnPieces(t: Tokenizer, text: seq<byte>) returns (st: Status, has: bool, encoded: Status)
    requires t.Valid() && text != []
    modifies t
    ensures st == Ok && has && (encoded == Thrown || encoded == GgufError)
  {
    hide Tokenizer.Encodes;
    var line: Piece := [0x61, 0x20, 0x62];
    var file := VocabFile(Found("gpt2"), Absent, Found([[]]), Absent, Absent, Found([line]),
                          Absent, Absent, Absent, Absent);
    assert Cut(line) == Some(1);
    st, has, encoded := EncoderAfterLoad(t, file, text);
    assert RanksOf([line], t.mergeRank) && [line][0] == line;
    forall ids: seq<nat>
      ensures !t.Encodes(text, Some(ids))
    {
      EmptyPiecesFail(t, text, ids);
    }
  }

  /**
    * End to end: with an encoder configured and all single-byte pieces known, every canonical text encodes, and
    * decoding gives it back; a text that encodes comes back unchanged exactly when it is canonical.
    */
  method RoundTrip(t: Tokenizer, text: seq<byte>) returns (st: Status, ids: seq<nat>, back: seq<byte>)
    requires t.Valid() && Loaded(t)
    ensures st == Ok ==> (back == text <==> Canonical(text)) && |ids| <= |text|
    ensures
      && t.Unavailable().None? && t.FlavorUsed().Some? && HasAllBytes(t.mode.RawBytes?, t.pieceToId)
      && Canonical(text)
      ==> st == Ok && back == text
  {
    hide Tokenizer.Encodes, HasAllBytes, DecodeFrom, EncodeAll, DecodeIds;
    CanonicalIff(text);
    st, ids := t.Encode(text);
    if st == GgufError && t.Unavailable().None? && HasAllBytes(t.mode.RawBytes?, t.pieceToId) {
      AllBytesSuffice(t, text);
    }
    if st != Ok {
      return st, [], [];
    }
    back := t.Decode(ids);
    if text == [] {
      DecodeNone(t.mode.RawBytes?, t.bm, t.tokens);
      NothingCanonical();
    } else {
      EncodeThenDecode(t, text, ids);
    }
  }

  lemma NothingCanonical()
    ensures Canonical([])
  {
    EncodeAllNone();
    assert AllValid([]);
  }

  const INT_MIN: int := -0x8000_0000
  const INT_MAX: int := 0x7FFF_FFFF

  /** encode gives no ids for the text. */
  ghost predicate NotEncoded(t: Tokenizer, text: seq<byte>)
    reads t
  {
    Rejected(t, text) || (text != [] && t.Encodes(text, None))
  }

  /** The part of it that depends on the configuration and the codec alone. */
  predicate Rejected(t: Tokenizer, text: seq<byte>)
    reads t
  {
    || t.Unavailable().Some?
    || (text != [] && (t.FlavorUsed().None? || DecodeFrom(text, 0).None? || !AllValid(DecodeFrom(text, 0).value)))
  }

  /** ids are those of the text; the empty text has none. */
  ghost predicate IdsOf(t: Tokenizer, text: seq<byte>, ids: seq<nat>)
    reads t
  {
    if text == [] then ids == [] else t.Encodes(text, Some(ids))
  }

  /**
    * transcribe_tokenize: the number of ids; or minus that number when the buffer of nMax entries is too small;
    * or INT_MIN when there are no ids, too many to count, or some that would fit but no buffer to put them in.
    * A buffer with one entry per byte is never too small (the R wrapper passes |text| + 16).
    */
  method Tokenize(t: Tokenizer, text: seq<byte>, buffer: bool, nMax: nat) returns (r: int, ids: seq<nat>)
    requires t.Valid()
    ensures r >= 0 ==> r == |ids| <= nMax && (buffer || r == 0) && IdsOf(t, text, ids)
    ensures INT_MIN < r < 0 ==> exists full :: IdsOf(t, text, full) && -r == |full| > nMax
    ensures r == INT_MIN ==>
      NotEncoded(t, text) || exists full :: IdsOf(t, text, full) && Undelivered(full, buffer, nMax)
    ensures INT_MIN == -0x8000_0000 <= r <= 0x7FFF_FFFF && (Rejected(t, text) ==> r == INT_MIN)
    ensures nMax >= |text| ==> r == INT_MIN || 0 <= r <= |text|
  {
    hide Tokenizer.Encodes, Tokenizer.Segmented, DecodeFrom, EncodeAll, DecodeIds, Canonical;
    var st, out := t.Encode(text);
    if st != Ok {
      return INT_MIN, [];
    }
    assert IdsOf(t, text, out);
    var n := |out|;
    if n > INT_MAX {
      return INT_MIN, [];
    }
    if text != [] {
      EncodeThenDecode(t, text, out);
    }
    if n > nMax {
      return -n, [];
    }
    if !buffer && n > 0 {
      return INT_MIN, [];
    }
    return n, out;
  }

  /** Ids there are too many of to count, or that would fit but have no buffer. */
  predicate Undelivered(full: seq<nat>, buffer: bool, nMax: nat) {
    |full| > 0x7FFF_FFFF || (!buffer && 0 < |full| <= nMax)
  }

  /** The text is classified, if it decodes to valid codepoints at all. */
  ghost predicate Settled(t: Tokenizer, text: seq<byte>) {
    var cs := DecodeFrom(text, 0);
    cs.Some? && AllValid(cs.value) ==> Classified(t.flags, cs.value)
  }

  lemma IdsUnique(t: Tokenizer, text: seq<byte>, a: seq<nat>, b: seq<nat>)
    requires Settled(t, text) && IdsOf(t, text, a) && IdsOf(t, text, b)
    ensures a == b
  {
    if text != [] {
      EncodesUnique(t, text, Some(a), Some(b));
    }
  }

  /** A text with ids is not refused, and its ids are not too many if some others are not. */
  lemma IdsDecide(t: Tokenizer, text: seq<byte>, ids: seq<nat>)
    requires Settled(t, text) && IdsOf(t, text, ids) && !Rejected(t, text)
    ensures !NotEncoded(t, text)
    ensures forall full :: IdsOf(t, text, full) ==> full == ids
  {
    hide Tokenizer.Encodes;
    if text != [] && t.Encodes(text, None) {
      EncodesUnique(t, text, Some(ids), None);
      assert false;
    }
    forall full | IdsOf(t, text, full)
      ensures full == ids
    {
      IdsUnique(t, text, full, ids);
    }
  }

  /**
    * The retry contract: a second call with as many entries as the first asked for delivers all ids, so that
    * INT_MIN remains exactly for texts without ids or with too many to count.
    */
  method TokenizeRetrying(t: Tokenizer, text: seq<byte>, nMax: nat) returns (r: int, ids: seq<nat>)
    requires t.Valid() && Settled(t, text)
    ensures r == INT_MIN || (r == |ids| && IdsOf(t, text, ids))
    ensures r == INT_MIN <==> NotEncoded(t, text) || exists full :: IdsOf(t, text, full) && |full| > 0x7FFF_FFFF
  {
    hide Tokenizer.Encodes, DecodeFrom, Rejected, NotEncoded, IdsOf, Settled;
    r, ids := Tokenize(t, text, true, nMax);
    ghost var full: seq<nat> := [];
    if INT_MIN < r < 0 {
      full :| IdsOf(t, text, full) && -r == |full| > nMax;
      IdsDecide(t, text, full);
      r, ids := Tokenize(t, text, true, -r);
    } else if r >= 0 {
      IdsDecide(t, text, ids);
    }
    RefusedByConfiguration(t, text);
  }

  lemma RefusedByConfiguration(t: Tokenizer, text: seq<byte>)
    ensures Rejected(t, text) ==> NotEncoded(t, text)
  {
  }
}
