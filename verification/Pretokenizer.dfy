/** From a text to its pretokens: decode, split, re-encode and spell each piece. */
module Pretokenizer {
  import opened Wrappers
  import opened Utf8
  import opened Bpe
  import opened ByteMaps
  import opened ByteBpe
  import opened Regexes
  import opened Patterns
  import opened Splitters
  import QwenSplitter
  import GraniteSplitter
  import Gpt2Splitter

  datatype Flavor = Qwen2 | Granite | Gpt2

  /** The pattern a flavour follows. */
  function PatternOf(f: Flagging, flavor: Flavor): Regex {
    match flavor
    case Qwen2 => QwenPattern(f)
    case Granite => GraniteEffective(f)
    case Gpt2 => Gpt2Effective(f)
  }

  /** Split points of a text: a tiling, and the pattern's own on classified text. */
  ghost predicate IsSplit(f: Flagging, flavor: Flavor, cs: seq<nat>, ends: seq<nat>) {
    Tiles(ends, |cs|) && (Classified(f, cs) ==> Splits(PatternOf(f, flavor), cs, 0) == Some(ends))
  }

  method SplitOffsets(f: Flagging, flavor: Flavor, cs: seq<nat>) returns (ends: seq<nat>)
    ensures IsSplit(f, flavor, cs, ends)
  {
    match flavor
    case Qwen2 => ends := QwenSplitter.Split(f, cs);
    case Granite => ends := GraniteSplitter.Split(f, cs);
    case Gpt2 => ends := Gpt2Splitter.Split(f, cs);
  }

  function LastEnd(ends: seq<nat>): nat {
    if ends == [] then 0 else ends[|ends| - 1]
  }

  /** Increasing split points of cs whose pieces can all be encoded. */
  ghost predicate Cuts(cs: seq<nat>, ends: seq<nat>) {
    && (forall k :: 0 <= k < |ends| ==> 0 < ends[k] <= |cs|)
    && (forall j, k :: 0 <= j < k < |ends| ==> ends[j] < ends[k])
    && AllValid(cs[..LastEnd(ends)])
  }

  /** The last piece cut off. */
  ghost function LastRun(cs: seq<nat>, ends: seq<nat>): (run: seq<nat>)
    requires Cuts(cs, ends) && ends != []
    ensures Cuts(cs, ends[..|ends| - 1]) && AllValid(run) && run != []
  {
    var front := ends[..|ends| - 1];
    assert forall i :: 0 <= i < LastEnd(ends) ==> cs[i] == cs[..LastEnd(ends)][i];
    cs[LastEnd(front)..LastEnd(ends)]
  }

  /** The UTF-8 bytes between successive split points. */
  ghost function Chunks(cs: seq<nat>, ends: seq<nat>): (chunks: seq<seq<byte>>)
    requires Cuts(cs, ends)
    ensures |chunks| == |ends|
  {
    if ends == [] then [] else
      var run := LastRun(cs, ends);
      Chunks(cs, ends[..|ends| - 1]) + [EncodeAll(run)]
  }

  /** The pretokens: the chunks, spelled. */
  ghost function Words(raw: bool, cs: seq<nat>, ends: seq<nat>): (words: seq<Piece>)
    requires Cuts(cs, ends)
    ensures |words| == |ends|
  {
    if ends == [] then [] else
      var run := LastRun(cs, ends);
      Words(raw, cs, ends[..|ends| - 1]) + [Spell(raw, EncodeAll(run))]
  }

  lemma {:induction false} ChunksCover(raw: bool, cs: seq<nat>, ends: seq<nat>)
    requires Cuts(cs, ends)
    ensures Concat(Chunks(cs, ends)) == EncodeAll(cs[..LastEnd(ends)])
    ensures SpellChunks(raw, Words(raw, cs, ends), Chunks(cs, ends))
  {
    EncodeAllNone();
    ConcatNone();
    hide EncodeAll, Concat, Spell;
    if ends != [] {
      var front, run := ends[..|ends| - 1], LastRun(cs, ends);
      ChunksCover(raw, cs, front);
      ConcatAppend(Chunks(cs, front), [EncodeAll(run)]);
      ConcatOne(EncodeAll(run));
      assert cs[..LastEnd(ends)] == cs[..LastEnd(front)] + run;
      EncodeAllConcat(cs[..LastEnd(front)], run);
      EncodeNonEmpty(run);
    }
  }

  lemma ConcatNone()
    ensures Concat([]) == []
  {
  }

  lemma EncodeNonEmpty(cs: seq<nat>)
    requires AllValid(cs) && cs != []
    ensures EncodeAll(cs) != []
  {
  }

  /** A splitter's output cuts the whole text. */
  lemma TilesCut(cs: seq<nat>, ends: seq<nat>)
    requires AllValid(cs) && Tiles(ends, |cs|)
    ensures Cuts(cs, ends) && cs[..LastEnd(ends)] == cs
  {
  }

  lemma CutNext(raw: bool, cs: seq<nat>, front: seq<nat>, e: nat)
    requires Cuts(cs, front) && LastEnd(front) < e <= |cs| && AllValid(cs[LastEnd(front)..e])
    ensures Cuts(cs, front + [e])
    ensures Words(raw, cs, front + [e]) == Words(raw, cs, front) + [Spell(raw, EncodeAll(cs[LastEnd(front)..e]))]
  {
    hide EncodeAll, Spell;
    assert cs[..e] == cs[..LastEnd(front)] + cs[LastEnd(front)..e];
    assert (front + [e])[..|front|] == front;
  }

  /** Spell one run of codepoints; None when one of them cannot be encoded. */
  method SpellRun(raw: bool, bm: ByteMap, cs: seq<nat>, prev: nat, e: nat) returns (word: Option<Piece>)
    requires bm.Valid() && prev <= e <= |cs|
    ensures word.None? <==> !AllValid(cs[prev..e])
    ensures word.Some? ==> word.value == Spell(raw, EncodeAll(cs[prev..e]))
  {
    hide Encode, EncodeAll, Spell;
    var encoded: Piece := [];
    EncodeAllNone();
    SpellNone(raw);
    assert cs[prev..prev] == [];
    for i := prev to e
      invariant AllValid(cs[prev..i])
      invariant encoded == Spell(raw, EncodeAll(cs[prev..i]))
    {
      assert cs[prev..e][i - prev] == cs[i];
      if cs[i] > MAX_CPT {
        return None;
      }
      var u := Encode(cs[i]);
      assert cs[prev..i + 1] == cs[prev..i] + [cs[i]];
      EncodeAllLast(cs[prev..i], cs[i]);
      SpellConcat(raw, EncodeAll(cs[prev..i]), u);
      var spelled := SpellBytes(raw, bm, u);
      encoded := encoded + spelled;
    }
    return Some(encoded);
  }

  lemma SpellNext(bm: ByteMap, u: seq<byte>, i: nat)
    requires bm.Valid() && i < |u|
    ensures |bm.fwd| == 256 && Spell(false, u[..i + 1]) == Spell(false, u[..i]) + bm.fwd[u[i]]
  {
    hide Glyph, Glyphs, Spell, ReadSymbol;
    SpellConcat(false, u[..i], [u[i]]);
    assert u[..i + 1] == u[..i] + [u[i]];
    SpellOne(false, bm, u[i]);
  }

  /** Byte by byte through the byte map, or verbatim. */
  method SpellBytes(raw: bool, bm: ByteMap, u: seq<byte>) returns (out: Piece)
    requires bm.Valid()
    ensures out == Spell(raw, u)
  {
    if raw {
      return u;
    }
    SpellNone(false);
    hide Glyph, Glyphs, Spell, ByteMap.Valid;
    out := [];
    for i := 0 to |u|
      invariant out == Spell(false, u[..i])
    {
      SpellNext(bm, u, i);
      out := out + bm.fwd[u[i]];
    }
    assert u[..|u|] == u;
  }

  /** pretokenize_*: None stands for the exception on text that cannot be decoded and re-encoded. */
  method Pretokenize(f: Flagging, flavor: Flavor, raw: bool, bm: ByteMap, text: seq<byte>)
    returns (words: Option<seq<Piece>>)
    requires bm.Valid()
    ensures words.None? <==> DecodeFrom(text, 0).None? || !AllValid(DecodeFrom(text, 0).value)
    ensures words.Some? ==> exists ends ::
      && IsSplit(f, flavor, DecodeFrom(text, 0).value, ends)
      && Cuts(DecodeFrom(text, 0).value, ends) && words.value == Words(raw, DecodeFrom(text, 0).value, ends)
  {
    hide Spell, EncodeAll, PatternOf, Splits, Words;
    var decoded := CptsFromUtf8(text);
    if decoded.None? {
      return None;
    }
    var cs := decoded.value;
    var ends := SplitOffsets(f, flavor, cs);
    words := SpellWords(raw, bm, cs, ends);
  }

  /** The loop over split points. */
  method SpellWords(raw: bool, bm: ByteMap, cs: seq<nat>, ends: seq<nat>) returns (words: Option<seq<Piece>>)
    requires bm.Valid() && Tiles(ends, |cs|)
    ensures words.None? <==> !AllValid(cs)
    ensures words.Some? ==> Cuts(cs, ends) && words.value == Words(raw, cs, ends)
  {
    hide Spell, EncodeAll, Words, Cuts, AllValid;
    var out: seq<Piece> := [];
    var prev := 0;
    NoCuts(raw, cs);
    for k := 0 to |ends|
      invariant prev == LastEnd(ends[..k]) && Cuts(cs, ends[..k]) && out == Words(raw, cs, ends[..k])
    {
      var e := ends[k];
      assert ends[..k + 1] == ends[..k] + [e];
      var word := SpellRun(raw, bm, cs, prev, e);
      if word.None? {
        NotAllValid(cs, prev, e);
        return None;
      }
      CutNext(raw, cs, ends[..k], e);
      out := out + [word.value];
      prev := e;
    }
    assert ends[..|ends|] == ends;
    CutsAll(cs, ends);
    return Some(out);
  }

  lemma NoCuts(raw: bool, cs: seq<nat>)
    ensures Cuts(cs, []) && Words(raw, cs, []) == []
  {
  }

  lemma CutsAll(cs: seq<nat>, ends: seq<nat>)
    requires Cuts(cs, ends) && Tiles(ends, |cs|)
    ensures AllValid(cs)
  {
    assert cs[..LastEnd(ends)] == cs;
  }

  lemma NotAllValid(cs: seq<nat>, a: nat, b: nat)
    requires a <= b <= |cs| && !AllValid(cs[a..b])
    ensures !AllValid(cs)
  {
    var i :| 0 <= i < |cs[a..b]| && cs[a..b][i] > MAX_CPT;
    assert cs[a + i] > MAX_CPT;
  }
}
