/** What the range data must satisfy for the splitter theorems to apply to every decodable text. */
module UnicodeTable {
  import opened Wrappers
  import opened Utf8
  import opened CodepointFlags
  import opened Patterns
  import opened Pretokenizer
  import Regexes
  import Tokenizers

  /** The classification that a table built from the ranges and the whitespace set answers with. */
  ghost function TableFlags(ranges: seq<Range>, whitespace: set<nat>): Flagging {
    (c: nat) => CptFlags(SpecFlags(ranges, whitespace, c))
  }

  /** A category, and at most one of letter, number and whitespace. */
  predicate CleanFlags(flags: CptFlags) {
    && flags.HasCategory()
    && !(flags.IsLetter() && flags.IsNumber())
    && !(flags.IsWhitespace() && (flags.IsLetter() || flags.IsNumber()))
  }

  ghost predicate CleanRanges(ranges: seq<Range>) {
    && Sorted(ranges) && ranges != [] && ranges[0].first == 0
    && forall i :: 0 <= i < |ranges| && ranges[i].first <= MAX_CPT ==> CleanFlags(CptFlags(ranges[i].flags))
  }

  /**
    * The whitespace set holds the space and the newlines but no letter, number or apostrophe; ASCII letters
    * are letters.
    */
  ghost predicate CleanData(ranges: seq<Range>, whitespace: set<nat>) {
    && CleanRanges(ranges)
    && (forall c :: c in whitespace ==>
      !CptFlags(RangeFlags(ranges, c)).IsLetter() && !CptFlags(RangeFlags(ranges, c)).IsNumber())
    && {SPACE, CR, LF} <= whitespace
    && APOSTROPHE !in whitespace && !CptFlags(RangeFlags(ranges, APOSTROPHE)).IsWhitespace()
    && forall c: nat :: 0x41 <= c <= 0x5A || 0x61 <= c <= 0x7A ==> CptFlags(RangeFlags(ranges, c)).IsLetter()
  }

  /** The flags of a codepoint are those of some range that starts at or below it. */
  lemma {:induction false} RangeOf(ranges: seq<Range>, c: nat) returns (i: nat)
    requires ranges != [] && ranges[0].first == 0
    ensures i < |ranges| && ranges[i].first <= c && RangeFlags(ranges, c) == ranges[i].flags
  {
    i := |ranges| - 1;
    if ranges[i].first > c {
      i := RangeOf(ranges[..i], c);
    }
  }

  /** Adding the whitespace bit changes no other answer. */
  lemma WhitespaceBit(flags: bv16)
    ensures var with := CptFlags(flags | WHITESPACE);
      && with.IsWhitespace()
      && (with.IsLetter() <==> CptFlags(flags).IsLetter())
      && (with.IsNumber() <==> CptFlags(flags).IsNumber())
      && (with.HasCategory() <==> CptFlags(flags).HasCategory())
  {
  }

  /** What the table answers, in terms of the range flags. */
  lemma TableAnswer(ranges: seq<Range>, whitespace: set<nat>, c: nat)
    ensures var flags, range := TableFlags(ranges, whitespace)(c), CptFlags(RangeFlags(ranges, c));
      && (flags.IsWhitespace() <==> c in whitespace || range.IsWhitespace())
      && (flags.IsLetter() <==> range.IsLetter()) && (flags.IsNumber() <==> range.IsNumber())
      && (flags.HasCategory() <==> range.HasCategory())
  {
    hide CptFlags.IsLetter, CptFlags.IsNumber, CptFlags.IsWhitespace, CptFlags.HasCategory, RangeFlags;
    var range := RangeFlags(ranges, c);
    if c in whitespace {
      WhitespaceBit(range);
      assert TableFlags(ranges, whitespace)(c) == CptFlags(range | WHITESPACE);
    } else {
      assert TableFlags(ranges, whitespace)(c) == CptFlags(range);
    }
  }

  /** Clean data classify every codepoint. */
  lemma TableClassifies(ranges: seq<Range>, whitespace: set<nat>, c: nat)
    requires CleanData(ranges, whitespace) && c <= MAX_CPT
    ensures ClassifiedCpt(TableFlags(ranges, whitespace), c)
  {
    hide CptFlags.IsLetter, CptFlags.IsNumber, CptFlags.IsWhitespace, CptFlags.HasCategory, RangeFlags, TableFlags;
    var i := RangeOf(ranges, c);
    assert CleanFlags(CptFlags(ranges[i].flags));
    TableAnswer(ranges, whitespace, c);
  }

  lemma TableClassifiesAll(ranges: seq<Range>, whitespace: set<nat>, cs: seq<nat>)
    requires CleanData(ranges, whitespace) && AllValid(cs)
    ensures Classified(TableFlags(ranges, whitespace), cs)
  {
    hide TableFlags, CleanData, ClassifiedCpt;
    forall i | 0 <= i < |cs|
      ensures ClassifiedCpt(TableFlags(ranges, whitespace), cs[i])
    {
      TableClassifies(ranges, whitespace, cs[i]);
    }
  }

  /** On every text that can be decoded and re-encoded, the split points are the pattern's own. */
  lemma SplitsByPattern(ranges: seq<Range>, whitespace: set<nat>, flavor: Flavor, cs: seq<nat>, ends: seq<nat>)
    requires CleanData(ranges, whitespace) && AllValid(cs)
    requires IsSplit(TableFlags(ranges, whitespace), flavor, cs, ends)
    ensures Regexes.Splits(PatternOf(TableFlags(ranges, whitespace), flavor), cs, 0) == Some(ends)
  {
    hide TableFlags, CleanData, PatternOf, Regexes.Splits, Classified;
    TableClassifiesAll(ranges, whitespace, cs);
  }

  /** A tokenizer over such a table gives every text one outcome. */
  lemma TableSettles(ranges: seq<Range>, whitespace: set<nat>, t: Tokenizers.Tokenizer, text: seq<byte>)
    requires CleanData(ranges, whitespace)
    requires forall c: nat :: t.flags(c) == TableFlags(ranges, whitespace)(c)
    ensures Tokenizers.Settled(t, text)
  {
    hide TableFlags, CleanData, DecodeFrom;
    var cs := DecodeFrom(text, 0);
    if cs.Some? && AllValid(cs.value) {
      TableClassifiesAll(ranges, whitespace, cs.value);
    }
  }
}
