/** The Qwen2 splitter is the documented regex. */
module QwenSplitter {
  import opened Wrappers
  import opened Regexes
  import opened Patterns
  import opened Splitters

  /** Where the symbol branch ends: over the optional space, the symbols and the newlines. */
  function SymbolStep(f: Flagging, s: seq<nat>, i: nat): (next: nat)
    requires i < |s|
    ensures i <= next <= |s|
  {
    RunEnd(Newline(), s, RunEnd(KnownSymbol(f), s, if s[i] == SPACE then i + 1 else i))
  }

  /** The end of the pretoken that starts at i, as the branches of the code determine it. */
  function Step(f: Flagging, s: seq<nat>, i: nat): (next: nat)
    requires i < |s|
    ensures i < next <= |s|
  {
    var n := ContractionLength(true, s, i);
    var flags := f(s[i]);
    var f2 := if s[i] == SPACE then FlagsAt(f, s, i + 1) else flags;
    if n > 0 then i + n
    else if s[i] != CR && s[i] != LF && !flags.IsNumber() && (flags.IsLetter() || FlagsAt(f, s, i + 1).IsLetter()) then
      RunEnd(Letter(f), s, i + 1)
    else if flags.IsNumber() then i + 1
    else if !f2.IsWhitespace() && !f2.IsLetter() && !f2.IsNumber() && flags.HasCategory() then SymbolStep(f, s, i)
    else WhiteStep(f, s, i)
  }

  lemma StepMatches(f: Flagging, s: seq<nat>, i: nat)
    requires i < |s| && Classified(f, s)
    ensures Match(QwenPattern(f), s, i) == Some(Step(f, s, i))
  {
    hide Ends, Match, ContractionLength, WhiteStep;
    var punct, white := Punctuation(f, Star(Newline())), WhiteAlternatives(f);
    var number, word := Class(Number(f)), Word(f);
    MatchContractions(true, s, i);
    MatchWord(f, s, i);
    MatchClass(Number(f), s, i);
    MatchSpaceRun(Symbol(f), Newline(), s, i);
    SymbolsAreKnown(f, s, if s[i] == SPACE then i + 1 else i);
    MatchWhite(f, s, i);
    MatchOr(punct, white, s, i);
    MatchOr(number, Or(punct, white), s, i);
    MatchOr(word, Or(number, Or(punct, white)), s, i);
    MatchOr(Contractions(true), Or(word, Or(number, Or(punct, white))), s, i);
  }

  /** The pretoken from p to e, by cases on the codepoints that start it. */
  ghost predicate Rule(f: Flagging, s: seq<nat>, p: nat, e: nat)
    requires p < |s|
  {
    var flags, next := f(s[p]), p + 1 < |s|;
    var nextLetter := next && f(s[p + 1]).IsLetter();
    var nextSymbol := next && IsSymbol(f(s[p + 1]));
    var one := s[p] == 0x27 && next && ContractsAnyCase(s[p + 1]);
    var two := s[p] == 0x27 && p + 2 < |s| && Contracts2AnyCase(s[p + 1], s[p + 2]);
    && (one ==> e == p + 2)
    && (two ==> e == p + 3)
    && (!one && !two ==>
          if flags.IsLetter() then LetterRun(f, s, p, e)
          else if flags.IsNumber() then e == p + 1
          else if nextLetter && !IsNewline(s[p]) then LetterRun(f, s, p + 1, e)
          else if IsSymbol(flags) then SymbolsThenNewlines(f, s, p, e)
          else if s[p] == 0x20 && nextSymbol then SymbolsThenNewlines(f, s, p + 1, e)
          else WhiteRule(f, s, p, e))
  }

  ghost predicate SymbolsThenNewlines(f: Flagging, s: seq<nat>, a: nat, e: nat) {
    exists m: nat :: SymbolRun(f, s, a, m) && RunTo((c: nat) => IsNewline(c), s, m, e)
  }

  lemma SymbolStepObeys(f: Flagging, s: seq<nat>, i: nat)
    requires i < |s| && Classified(f, s)
    requires var a := if s[i] == SPACE then i + 1 else i; a < |s| && IsSymbol(f(s[a]))
    ensures SymbolsThenNewlines(f, s, if s[i] == SPACE then i + 1 else i, SymbolStep(f, s, i))
  {
    var a := if s[i] == SPACE then i + 1 else i;
    SymbolsAreKnown(f, s, a);
    var m := RunEnd(KnownSymbol(f), s, a);
    assert SymbolRun(f, s, a, m);
    assert RunTo((c: nat) => IsNewline(c), s, m, RunEnd(Newline(), s, m));
  }

  lemma LastSpaceStep(f: Flagging, s: seq<nat>)
    requires s != []
    ensures s[|s| - 1] == SPACE ==> SymbolStep(f, s, |s| - 1) == |s|
  {
  }

  /** On a classified text the branches of the code obey the rule. */
  lemma StepObeys(f: Flagging, s: seq<nat>, p: nat)
    requires p < |s| && Classified(f, s)
    ensures Rule(f, s, p, Step(f, s, p))
  {
    hide WhiteStep, WhiteRule, SymbolStep, SymbolsThenNewlines, ContractionLength;
    hide ContractsAnyCase, Contracts2AnyCase;
    ContractionObeys(true, s, p);
    assert ClassifiedCpt(f, s[p]) && (p + 1 < |s| ==> ClassifiedCpt(f, s[p + 1]));
    if f(s[p]).IsWhitespace() {
      WhiteStepObeys(f, s, p);
      if p + 1 == |s| {
        LastSpaceObeys(f, s, p);
        LastSpaceStep(f, s);
      }
    }
    if IsSymbol(f(s[p])) || (s[p] == SPACE && p + 1 < |s| && IsSymbol(f(s[p + 1]))) {
      SymbolStepObeys(f, s, p);
    }
  }

  /** One turn of the loop. */
  method Next(f: Flagging, s: seq<nat>, pos: nat) returns (next: nat)
    requires pos < |s|
    ensures next == Step(f, s, pos)
  {
    var cpt, flags := CptAt(s, pos), FlagsAt(f, s, pos);
    var n := ScanContraction(true, s, pos);
    if n > 0 {
      return pos + n;
    }
    if !(cpt == CR || cpt == LF || flags.IsNumber()) {
      if flags.IsLetter() || FlagsAt(f, s, pos + 1).IsLetter() {
        next := SkipWhile(Letter(f), s, pos + 1);
        return;
      }
    }
    if flags.IsNumber() {
      return pos + 1;
    }
    var f2 := if cpt == SPACE then FlagsAt(f, s, pos + 1) else flags;
    if !(f2.IsWhitespace() || f2.IsLetter() || f2.IsNumber()) && flags.HasCategory() {
      next := if cpt == SPACE then pos + 1 else pos;
      next := SkipWhile(KnownSymbol(f), s, next);
      next := SkipWhile(Newline(), s, next);
      return;
    }
    next := SkipWhite(f, s, pos);
  }

  /**
    * qwen2_split_offsets: the split points cover the text, and they are exactly the splits of the
    * documented pattern, so that the no-match fallback is never used on a classified text.
    */
  method Split(f: Flagging, s: seq<nat>) returns (out: seq<nat>)
    ensures Tiles(out, |s|)
    ensures Classified(f, s) ==> Splits(QwenPattern(f), s, 0) == Some(out)
    ensures Classified(f, s) ==>
      forall k :: 0 <= k < |out| ==> StartOf(out, k) < |s| && Rule(f, s, StartOf(out, k), out[k])
  {
    hide Match, QwenPattern, Step, Splits, Classified, Rule, Tiles;
    out := [];
    var pos := 0;
    SplitsBegin(QwenPattern(f), s);
    TilesNone();
    while pos < |s|
      invariant pos <= |s| && Tiles(out, pos) && pos == LastOf(out)
      invariant Classified(f, s) ==> Splits(QwenPattern(f), s, 0) == Grown(out, Splits(QwenPattern(f), s, pos))
      invariant Classified(f, s) ==> AllObey(f, s, out)
    {
      var next := Next(f, s, pos);
      if Classified(f, s) {
        StepMatches(f, s, pos);
        SplitsStep(QwenPattern(f), s, pos, out, next);
        StepObeys(f, s, pos);
        ObeyNext(f, s, out, next);
      }
      TilesNext(out, pos, next);
      out := out + [next];
      pos := next;
    }
    if Classified(f, s) {
      SplitsEnd(QwenPattern(f), s, out);
    }
  }

  ghost predicate AllObey(f: Flagging, s: seq<nat>, out: seq<nat>) {
    forall k :: 0 <= k < |out| ==> StartOf(out, k) < |s| && Rule(f, s, StartOf(out, k), out[k])
  }

  lemma ObeyNext(f: Flagging, s: seq<nat>, out: seq<nat>, next: nat)
    requires AllObey(f, s, out) && LastOf(out) < |s| && Rule(f, s, LastOf(out), next)
    ensures AllObey(f, s, out + [next])
  {
    hide Rule;
    assert forall k :: 0 <= k < |out| ==> StartOf(out + [next], k) == StartOf(out, k);
  }
}
