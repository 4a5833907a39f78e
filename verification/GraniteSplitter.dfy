/**
  * The granite splitter: the documented regex without the newlines after a symbol run, and
  * the texts on which that makes no difference.
  */
module GraniteSplitter {
  import opened Wrappers
  import opened Regexes
  import opened Patterns
  import opened Splitters

  /** Up to three digits. */
  function DigitsStep(f: Flagging, s: seq<nat>, i: nat): (next: nat)
    requires i < |s|
    ensures i < next <= |s|
  {
    if !Here(Number(f), s, i + 1) then i + 1 else if !Here(Number(f), s, i + 2) then i + 2 else i + 3
  }

  /** The end of the pretoken that starts at i, as the branches of the code determine it. */
  function Step(f: Flagging, s: seq<nat>, i: nat): (next: nat)
    requires i < |s|
    ensures i < next <= |s|
  {
    var n := ContractionLength(true, s, i);
    var flags := f(s[i]);
    var f2 := if s[i] == SPACE then FlagsAt(f, s, i + 1) else flags;
    if n > 0 then i + n
    else if s[i] != CR && s[i] != LF && !flags.IsNumber() && (flags.IsLetter() || FlagsAt(f, s, i + 1).IsLetter()) then
      RunEnd(Letter(f), s, i + 1)
    else if flags.IsNumber() then DigitsStep(f, s, i)
    else if !f2.IsWhitespace() && !f2.IsLetter() && !f2.IsNumber() && flags.HasCategory() then
      RunEnd(KnownSymbol(f), s, if s[i] == SPACE then i + 1 else i)
    else WhiteStep(f, s, i)
  }

  lemma MatchDigits(f: Flagging, s: seq<nat>, i: nat)
    requires i < |s|
    ensures Match(UpToThreeDigits(f), s, i) == if Here(Number(f), s, i) then Some(DigitsStep(f, s, i)) else None
  {
    hide Ends, Match;
    var n := Class(Number(f));
    MatchClass(Number(f), s, i);
    MatchClassThen(Number(f), n, s, i);
    MatchClassThen(Number(f), Cat(n, n), s, i);
    if i + 1 <= |s| {
      MatchClass(Number(f), s, i + 1);
      MatchClassThen(Number(f), n, s, i + 1);
    }
    if i + 2 <= |s| {
      MatchClass(Number(f), s, i + 2);
    }
    MatchOr(Cat(n, n), n, s, i);
    MatchOr(Cat(n, Cat(n, n)), Or(Cat(n, n), n), s, i);
  }

  /** The alternatives before the symbol one; None when they all fail. */
  function Lead(f: Flagging, s: seq<nat>, i: nat): Option<nat>
    requires i < |s|
  {
    var n := ContractionLength(true, s, i);
    if n > 0 then Some(i + n)
    else if Here(Letter(f), s, i) then Some(RunEnd(Letter(f), s, i))
    else if LetterPrefix(f)(s[i]) && Here(Letter(f), s, i + 1) then Some(RunEnd(Letter(f), s, i + 1))
    else if Here(Number(f), s, i) then Some(DigitsStep(f, s, i))
    else None
  }

  lemma MatchLead(f: Flagging, p: Regex, s: seq<nat>, i: nat)
    requires i < |s| && Classified(f, s)
    ensures Match(GraniteWith(f, p), s, i) == OrElse(Lead(f, s, i), OrElse(Match(p, s, i),
              if Here(White(f), s, i) then Some(WhiteStep(f, s, i)) else None))
  {
    hide Ends, Match, ContractionLength, WhiteStep, DigitsStep;
    var white, number, word := WhiteAlternatives(f), UpToThreeDigits(f), Word(f);
    MatchContractions(true, s, i);
    MatchWord(f, s, i);
    MatchDigits(f, s, i);
    MatchWhite(f, s, i);
    MatchOr(p, white, s, i);
    MatchOr(number, Or(p, white), s, i);
    MatchOr(word, Or(number, Or(p, white)), s, i);
    MatchOr(Contractions(true), Or(word, Or(number, Or(p, white))), s, i);
  }

  lemma StepMatches(f: Flagging, s: seq<nat>, i: nat)
    requires i < |s| && Classified(f, s)
    ensures Match(GraniteEffective(f), s, i) == Some(Step(f, s, i))
  {
    hide Ends, Match, ContractionLength, WhiteStep, DigitsStep;
    MatchLead(f, SpaceThen(Symbol(f)), s, i);
    MatchSpacePlus(Symbol(f), s, i);
    SymbolsAreKnown(f, s, if s[i] == SPACE then i + 1 else i);
  }

  /** The pretoken from p to e, by cases on the codepoints that start it. */
  ghost predicate Rule(f: Flagging, s: seq<nat>, p: nat, e: nat)
    requires p < |s|
  {
    var flags, next := f(s[p]), p + 1 < |s|;
    var nextLetter := next && f(s[p + 1]).IsLetter();
    var nextSymbol := next && IsSymbol(f(s[p + 1]));
    var one := s[p] == 0x27 && next && ContractsAnyCase(s[p + 1]);
    var two := s[p] == 0x27 && p + 2 < |s| && Contracts2AnyCase(s[p + 1], s[p + 2]);
    && (one ==> e == p + 2)
    && (two ==> e == p + 3)
    && (!one && !two ==>
          if flags.IsLetter() then LetterRun(f, s, p, e)
          else if flags.IsNumber() then UpToThree(f, s, p, e)
          else if nextLetter && !IsNewline(s[p]) then LetterRun(f, s, p + 1, e)
          else if IsSymbol(flags) then SymbolRun(f, s, p, e)
          else if s[p] == 0x20 && nextSymbol then SymbolRun(f, s, p + 1, e)
          else WhiteRule(f, s, p, e))
  }

  ghost predicate UpToThree(f: Flagging, s: seq<nat>, p: nat, e: nat) {
    && p < e <= p + 3 && e <= |s| && (forall k :: p <= k < e ==> f(s[k]).IsNumber())
    && (e == p + 3 || e == |s| || !f(s[e]).IsNumber())
  }

  lemma SymbolRunObeys(f: Flagging, s: seq<nat>, a: nat)
    requires a < |s| && Classified(f, s) && IsSymbol(f(s[a]))
    ensures SymbolRun(f, s, a, RunEnd(KnownSymbol(f), s, a))
  {
    SymbolsAreKnown(f, s, a);
  }

  lemma DigitsObey(f: Flagging, s: seq<nat>, p: nat)
    requires p < |s| && f(s[p]).IsNumber()
    ensures UpToThree(f, s, p, DigitsStep(f, s, p))
  {
  }

  /** On a classified text the branches of the code obey the rule. */
  lemma StepObeys(f: Flagging, s: seq<nat>, p: nat)
    requires p < |s| && Classified(f, s)
    ensures Rule(f, s, p, Step(f, s, p))
  {
    hide WhiteStep, WhiteRule, UpToThree, DigitsStep, SymbolRun, ContractionLength, ContractsAnyCase, Contracts2AnyCase;
    ContractionObeys(true, s, p);
    assert ClassifiedCpt(f, s[p]) && (p + 1 < |s| ==> ClassifiedCpt(f, s[p + 1]));
    if f(s[p]).IsWhitespace() {
      WhiteStepObeys(f, s, p);
      if p + 1 == |s| {
        LastSpaceObeys(f, s, p);
      }
    }
    if f(s[p]).IsNumber() {
      DigitsObey(f, s, p);
    }
    if IsSymbol(f(s[p])) {
      SymbolRunObeys(f, s, p);
    }
    if s[p] == SPACE && p + 1 < |s| && IsSymbol(f(s[p + 1])) {
      SymbolRunObeys(f, s, p + 1);
    }
  }

  method ScanDigits(f: Flagging, s: seq<nat>, pos: nat) returns (next: nat)
    requires Here(Number(f), s, pos)
    ensures next == DigitsStep(f, s, pos)
  {
    var n := 0;
    while n < 3 && FlagsAt(f, s, pos + n).IsNumber()
      invariant n <= 3 && pos + n <= |s|
      invariant n > 1 ==> Here(Number(f), s, pos + 1)
      invariant n > 2 ==> Here(Number(f), s, pos + 2)
    {
      n := n + 1;
    }
    return pos + n;
  }

  /** One turn of the loop. */
  method Next(f: Flagging, s: seq<nat>, pos: nat) returns (next: nat)
    requires pos < |s|
    ensures next == Step(f, s, pos)
  {
    var cpt, flags := CptAt(s, pos), FlagsAt(f, s, pos);
    var n := ScanContraction(true, s, pos);
    if n > 0 {
      return pos + n;
    }
    if !(cpt == CR || cpt == LF || flags.IsNumber()) {
      if flags.IsLetter() || FlagsAt(f, s, pos + 1).IsLetter() {
        next := SkipWhile(Letter(f), s, pos + 1);
        return;
      }
    }
    if flags.IsNumber() {
      next := ScanDigits(f, s, pos);
      return;
    }
    var f2 := if cpt == SPACE then FlagsAt(f, s, pos + 1) else flags;
    if !(f2.IsWhitespace() || f2.IsLetter() || f2.IsNumber()) && flags.HasCategory() {
      next := if cpt == SPACE then pos + 1 else pos;
      next := SkipWhile(KnownSymbol(f), s, next);
      return;
    }
    next := SkipWhite(f, s, pos);
  }

  /** granite_split_offsets: the split points cover the text, and they are exactly the splits of the pattern. */
  method Split(f: Flagging, s: seq<nat>) returns (out: seq<nat>)
    ensures Tiles(out, |s|)
    ensures Classified(f, s) ==> Splits(GraniteEffective(f), s, 0) == Some(out)
    ensures Classified(f, s) ==>
      forall k :: 0 <= k < |out| ==> StartOf(out, k) < |s| && Rule(f, s, StartOf(out, k), out[k])
  {
    hide Match, GraniteEffective, Step, Splits, Classified, Rule, Tiles;
    out := [];
    var pos := 0;
    SplitsBegin(GraniteEffective(f), s);
    TilesNone();
    while pos < |s|
      invariant pos <= |s| && Tiles(out, pos) && pos == LastOf(out)
      invariant Classified(f, s) ==>
        Splits(GraniteEffective(f), s, 0) == Grown(out, Splits(GraniteEffective(f), s, pos))
      invariant Classified(f, s) ==> AllObey(f, s, out)
    {
      var next := Next(f, s, pos);
      if Classified(f, s) {
        StepMatches(f, s, pos);
        SplitsStep(GraniteEffective(f), s, pos, out, next);
        StepObeys(f, s, pos);
        ObeyNext(f, s, out, next);
      }
      TilesNext(out, pos, next);
      out := out + [next];
      pos := next;
    }
    if Classified(f, s) {
      SplitsEnd(GraniteEffective(f), s, out);
    }
  }

  ghost predicate AllObey(f: Flagging, s: seq<nat>, out: seq<nat>) {
    forall k :: 0 <= k < |out| ==> StartOf(out, k) < |s| && Rule(f, s, StartOf(out, k), out[k])
  }

  lemma ObeyNext(f: Flagging, s: seq<nat>, out: seq<nat>, next: nat)
    requires AllObey(f, s, out) && LastOf(out) < |s| && Rule(f, s, LastOf(out), next)
    ensures AllObey(f, s, out + [next])
  {
    hide Rule;
    assert forall k :: 0 <= k < |out| ==> StartOf(out + [next], k) == StartOf(out, k);
  }

  // Where the code and the documented pattern part ways.

  /** A symbol with a newline right after it. */
  ghost predicate SymbolNewline(f: Flagging, s: seq<nat>, i: nat) {
    Here(Symbol(f), s, i) && Here(Newline(), s, i + 1)
  }

  /** The leading alternatives never cover a symbol that is followed by a newline. */
  lemma LeadStopsAtSymbol(f: Flagging, s: seq<nat>, a: nat, i: nat)
    requires Classified(f, s) && a <= i && SymbolNewline(f, s, i)
    ensures Lead(f, s, a).Some? ==> Lead(f, s, a).value <= i
    ensures Here(White(f), s, a) ==> WhiteStep(f, s, a) <= i
  {
    assert Here(White(f), s, a) ==> RunEnd(White(f), s, a) <= i;
  }

  /** The symbol alternative with and without its newlines. */
  lemma PunctuationSteps(f: Flagging, s: seq<nat>, a: nat)
    requires Classified(f, s) && a < |s|
    ensures var e := RunEnd(Symbol(f), s, if s[a] == SPACE then a + 1 else a);
      var symbols := Here(Symbol(f), s, if s[a] == SPACE then a + 1 else a);
      && Match(SpaceThen(Symbol(f)), s, a) == (if symbols then Some(e) else None)
      && Match(Punctuation(f, Star(Newline())), s, a) == (if symbols then Some(RunEnd(Newline(), s, e)) else None)
  {
    MatchSpacePlus(Symbol(f), s, a);
    MatchSpaceRun(Symbol(f), Newline(), s, a);
  }

  lemma SymbolNewlineSteps(f: Flagging, s: seq<nat>, i: nat, a: nat)
    requires Classified(f, s) && SymbolNewline(f, s, i) && a <= i
    ensures Match(GraniteEffective(f), s, a).Some? && Match(GraniteEffective(f), s, a).value > i ==>
              Match(GraniteEffective(f), s, a).value == i + 1
    ensures Match(GraniteDocumented(f), s, a).Some? && Match(GraniteDocumented(f), s, a).value > i ==>
              Match(GraniteDocumented(f), s, a).value > i + 1
  {
    hide Ends, Match, Lead, WhiteStep;
    LeadStopsAtSymbol(f, s, a, i);
    MatchLead(f, SpaceThen(Symbol(f)), s, a);
    MatchLead(f, Punctuation(f, Star(Newline())), s, a);
    PunctuationSteps(f, s, a);
  }

  lemma EveryPositionMatches(f: Flagging, s: seq<nat>, a: nat)
    requires Classified(f, s) && a < |s|
    ensures Match(GraniteEffective(f), s, a).Some? && Match(GraniteEffective(f), s, a).value > a
    ensures Match(GraniteDocumented(f), s, a).Some? && Match(GraniteDocumented(f), s, a).value > a
    ensures Match(GraniteEffective(f), s, a) != Match(GraniteDocumented(f), s, a) ==>
      exists i: nat :: SymbolNewline(f, s, i)
  {
    hide Ends, Match, WhiteStep;
    StepMatches(f, s, a);
    MatchLead(f, SpaceThen(Symbol(f)), s, a);
    MatchLead(f, Punctuation(f, Star(Newline())), s, a);
    PunctuationSteps(f, s, a);
    var e := RunEnd(Symbol(f), s, if s[a] == SPACE then a + 1 else a);
    if e > 0 && Here(Newline(), s, e) && Here(Symbol(f), s, e - 1) {
      assert SymbolNewline(f, s, e - 1);
    }
  }

  /** The code agrees with the documented pattern exactly on texts where no symbol has a newline right after it. */
  lemma DocumentedIff(f: Flagging, s: seq<nat>)
    requires Classified(f, s)
    ensures Splits(GraniteEffective(f), s, 0) == Splits(GraniteDocumented(f), s, 0) <==>
            !exists i: nat :: SymbolNewline(f, s, i)
  {
    hide Match, Splits, GraniteEffective, GraniteDocumented;
    forall a | 0 <= a < |s|
      ensures Match(GraniteEffective(f), s, a).Some? && Match(GraniteEffective(f), s, a).value > a
      ensures Match(GraniteDocumented(f), s, a).Some? && Match(GraniteDocumented(f), s, a).value > a
      ensures Match(GraniteEffective(f), s, a) != Match(GraniteDocumented(f), s, a) ==>
        exists i: nat :: SymbolNewline(f, s, i)
    {
      EveryPositionMatches(f, s, a);
    }
    SplitsExist(GraniteEffective(f), s, 0);
    SplitsExist(GraniteDocumented(f), s, 0);
    if i: nat :| SymbolNewline(f, s, i) {
      forall a | 0 <= a <= i
        ensures Match(GraniteEffective(f), s, a).value > i ==> Match(GraniteEffective(f), s, a).value == i + 1
        ensures Match(GraniteDocumented(f), s, a).value > i ==> Match(GraniteDocumented(f), s, a).value > i + 1
      {
        SymbolNewlineSteps(f, s, i, a);
      }
      SplitPoint(GraniteEffective(f), s, 0, i);
      NoSplitPoint(GraniteDocumented(f), s, 0, i);
    } else {
      SplitsAgree(GraniteEffective(f), GraniteDocumented(f), s, 0);
    }
  }

  /** "?\n": two pretokens in the code, one in the pattern. */
  lemma DocumentedFails()
    ensures var s := ['?' as nat, LF];
      Classified(AsciiFlags(), s) &&
      Splits(GraniteEffective(AsciiFlags()), s, 0) != Splits(GraniteDocumented(AsciiFlags()), s, 0)
  {
    var s := ['?' as nat, LF];
    AsciiIsClassified(s);
    assert SymbolNewline(AsciiFlags(), s, 0);
    DocumentedIff(AsciiFlags(), s);
  }
}
