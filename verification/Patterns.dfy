/** The documented pretokenizer patterns, and what a backtracking engine reports for each of their alternatives. */
module Patterns {
  import opened Wrappers
  import opened CodepointFlags
  import opened Regexes

  const OOR: nat := 0xFFFFFFFF
  const SPACE: nat := 0x20
  const CR: nat := 0x0D
  const LF: nat := 0x0A
  const APOSTROPHE: nat := 0x27

  type Flagging = nat -> CptFlags

  function Letter(f: Flagging): nat -> bool { (c: nat) => f(c).IsLetter() }
  function Number(f: Flagging): nat -> bool { (c: nat) => f(c).IsNumber() }
  function White(f: Flagging): nat -> bool { (c: nat) => f(c).IsWhitespace() }
  function NotWhite(f: Flagging): nat -> bool { (c: nat) => !f(c).IsWhitespace() }
  function Symbol(f: Flagging): nat -> bool { (c: nat) => !f(c).IsWhitespace() && !f(c).IsLetter() && !f(c).IsNumber() }
  function Newline(): nat -> bool { (c: nat) => c == CR || c == LF }
  function Only(c: nat): nat -> bool { (x: nat) => x == c }
  function Any(): nat -> bool { (c: nat) => true }
  function LetterPrefix(f: Flagging): nat -> bool {
    (c: nat) => c != CR && c != LF && !f(c).IsLetter() && !f(c).IsNumber()
  }

  function ToLowerAscii(c: nat): nat {
    if 0x41 <= c <= 0x5A then c + 0x20 else c
  }

  /** A literal, case-folded or not. */
  function Literal(fold: bool, c: nat): nat -> bool {
    (x: nat) => (if fold then ToLowerAscii(x) else x) == c
  }

  function Suffix1(fold: bool, c: nat): Regex {
    Cat(Class(Only(APOSTROPHE)), Class(Literal(fold, c)))
  }

  function Suffix2(fold: bool, c: nat, d: nat): Regex {
    Cat(Class(Only(APOSTROPHE)), Cat(Class(Literal(fold, c)), Class(Literal(fold, d))))
  }

  /** 's | 't | 're | 've | 'm | 'll | 'd */
  function Contractions(fold: bool): Regex {
    Or(Suffix1(fold, 's' as nat), Or(Suffix1(fold, 't' as nat), Or(Suffix2(fold, 'r' as nat, 'e' as nat),
      Or(Suffix2(fold, 'v' as nat, 'e' as nat), Or(Suffix1(fold, 'm' as nat),
        Or(Suffix2(fold, 'l' as nat, 'l' as nat), Suffix1(fold, 'd' as nat)))))))
  }

  /** A non-empty greedy run followed by r. */
  function PlusThen(has: nat -> bool, r: Regex): Regex {
    Cat(Class(has), Cat(Star(has), r))
  }

  /** [^\r\n\p{L}\p{N}]?\p{L}+ */
  function Word(f: Flagging): Regex {
    Cat(Optional(LetterPrefix(f)), Plus(Letter(f)))
  }

  /** " "?[^\s\p{L}\p{N}]+ followed by r */
  function Punctuation(f: Flagging, r: Regex): Regex {
    Cat(Optional(Only(SPACE)), PlusThen(Symbol(f), r))
  }

  /** \s*[\r\n]+ */
  function NewlineRun(f: Flagging): Regex {
    Cat(Star(White(f)), Plus(Newline()))
  }

  /** \s+(?!\S) */
  function WhiteBeforeWhite(f: Flagging): Regex {
    PlusThen(White(f), NotAhead(NotWhite(f)))
  }

  /** \s*[\r\n]+ | \s+(?!\S) | \s+ */
  function WhiteAlternatives(f: Flagging): Regex {
    Or(NewlineRun(f), Or(WhiteBeforeWhite(f), Plus(White(f))))
  }

  /** The Qwen2 pattern. */
  function QwenPattern(f: Flagging): Regex {
    Or(Contractions(true), Or(Word(f), Or(Class(Number(f)),
      Or(Punctuation(f, Star(Newline())), WhiteAlternatives(f)))))
  }

  /** \p{N}{1,3}, longest first */
  function UpToThreeDigits(f: Flagging): Regex {
    var n := Class(Number(f));
    Or(Cat(n, Cat(n, n)), Or(Cat(n, n), n))
  }

  /** The granite pattern; p stands for its symbol alternative. */
  function GraniteWith(f: Flagging, p: Regex): Regex {
    Or(Contractions(true), Or(Word(f), Or(UpToThreeDigits(f), Or(p, WhiteAlternatives(f)))))
  }

  /** The pattern of the granite tokenizer file. */
  function GraniteDocumented(f: Flagging): Regex {
    GraniteWith(f, Punctuation(f, Star(Newline())))
  }

  /** The same with a symbol run that stops before newlines. */
  function GraniteEffective(f: Flagging): Regex {
    GraniteWith(f, SpaceThen(Symbol(f)))
  }

  /** " "?x+ */
  function SpaceThen(has: nat -> bool): Regex {
    Cat(Optional(Only(SPACE)), Plus(has))
  }

  /** The GPT-2 pattern: w stands for its whitespace alternatives. */
  function Gpt2With(f: Flagging, w: Regex): Regex {
    Or(Contractions(false), Or(SpaceThen(Letter(f)), Or(SpaceThen(Number(f)), Or(SpaceThen(Symbol(f)), w))))
  }

  /** With \s+(?!\S) | \s+, as documented. */
  function Gpt2Documented(f: Flagging): Regex {
    Gpt2With(f, Or(WhiteBeforeWhite(f), Plus(White(f))))
  }

  /** With \s+ up to the end of the input, else a single \s. */
  function Gpt2Effective(f: Flagging): Regex {
    Gpt2With(f, Or(PlusThen(White(f), NotAhead(Any())), Class(White(f))))
  }

  /**
    * What the properties need to know about the characters of a text: every one has a category,
    * at most one of letter, number and whitespace holds, and the ASCII characters the code names are
    * of the expected kind.
    */
  ghost predicate Classified(f: Flagging, s: seq<nat>) {
    forall i :: 0 <= i < |s| ==> ClassifiedCpt(f, s[i])
  }

  ghost predicate ClassifiedCpt(f: Flagging, c: nat) {
    && c != OOR
    && f(c).HasCategory()
    && !(f(c).IsLetter() && f(c).IsNumber())
    && !(f(c).IsWhitespace() && (f(c).IsLetter() || f(c).IsNumber()))
    && (c == SPACE || c == CR || c == LF ==> f(c).IsWhitespace())
    && (c == APOSTROPHE ==> !f(c).IsWhitespace())
    && (0x41 <= c <= 0x5A || 0x61 <= c <= 0x7A ==> f(c).IsLetter())
  }

  /** A classification of ASCII, for examples. */
  function AsciiFlags(): Flagging {
    (c: nat) =>
      if c == SPACE || c == CR || c == LF then CptFlags(WHITESPACE | 0x0008)
      else if 0x41 <= c <= 0x5A || 0x61 <= c <= 0x7A then CptFlags(LETTER)
      else if 0x30 <= c <= 0x39 then CptFlags(NUMBER)
      else CptFlags(0x0020)
  }

  lemma AsciiIsClassified(s: seq<nat>)
    requires forall i :: 0 <= i < |s| ==> s[i] < 0x80
    ensures Classified(AsciiFlags(), s)
  {
    var f := AsciiFlags();
    assert f(SPACE) == CptFlags(0x0108) && f('a' as nat) == CptFlags(0x0004) && f('0' as nat) == CptFlags(0x0002);
  }

  // The engine on each alternative.

  predicate IsLiteral(fold: bool, s: seq<nat>, i: nat, c: nat) {
    i < |s| && (if fold then ToLowerAscii(s[i]) else s[i]) == c
  }

  /** Length of the contraction suffix at i, 0 if there is none: the branches of the code. */
  function ContractionLength(fold: bool, s: seq<nat>, i: nat): (n: nat)
    requires i < |s|
    ensures i + n <= |s|
  {
    if s[i] == APOSTROPHE && i + 1 < |s| then
      var c1 := if fold then ToLowerAscii(s[i + 1]) else s[i + 1];
      if c1 == 's' as nat || c1 == 't' as nat || c1 == 'm' as nat || c1 == 'd' as nat then 2
      else if i + 2 < |s| then
        var c2 := if fold then ToLowerAscii(s[i + 2]) else s[i + 2];
        if (c1 == 'r' as nat && c2 == 'e' as nat) || (c1 == 'v' as nat && c2 == 'e' as nat)
           || (c1 == 'l' as nat && c2 == 'l' as nat) then 3 else 0
      else 0
    else 0
  }

  lemma MatchClass(has: nat -> bool, s: seq<nat>, i: nat)
    requires i <= |s|
    ensures Match(Class(has), s, i) == if Here(has, s, i) then Some(i + 1) else None
  {
  }

  lemma MatchSuffix1(fold: bool, c: nat, s: seq<nat>, i: nat)
    requires i < |s|
    ensures Match(Suffix1(fold, c), s, i) ==
            if s[i] == APOSTROPHE && IsLiteral(fold, s, i + 1, c) then Some(i + 2) else None
  {
    hide Ends, Match;
    MatchClassThen(Only(APOSTROPHE), Class(Literal(fold, c)), s, i);
    MatchClass(Literal(fold, c), s, i + 1);
  }

  lemma MatchSuffix2(fold: bool, c: nat, d: nat, s: seq<nat>, i: nat)
    requires i < |s|
    ensures Match(Suffix2(fold, c, d), s, i) ==
            if s[i] == APOSTROPHE && IsLiteral(fold, s, i + 1, c) && IsLiteral(fold, s, i + 2, d)
            then Some(i + 3) else None
  {
    hide Ends, Match;
    MatchClassThen(Only(APOSTROPHE), Cat(Class(Literal(fold, c)), Class(Literal(fold, d))), s, i);
    if i + 1 <= |s| {
      MatchClassThen(Literal(fold, c), Class(Literal(fold, d)), s, i + 1);
    }
    if i + 2 <= |s| {
      MatchClass(Literal(fold, d), s, i + 2);
    }
  }

  lemma MatchContractions(fold: bool, s: seq<nat>, i: nat)
    requires i < |s|
    ensures var n := ContractionLength(fold, s, i);
      Match(Contractions(fold), s, i) == if n > 0 then Some(i + n) else None
  {
    hide Ends, Match, Suffix1, Suffix2, ToLowerAscii;
    var a, b := Suffix1(fold, 's' as nat), Suffix1(fold, 't' as nat);
    var c, d := Suffix2(fold, 'r' as nat, 'e' as nat), Suffix2(fold, 'v' as nat, 'e' as nat);
    var e, g, h := Suffix1(fold, 'm' as nat), Suffix2(fold, 'l' as nat, 'l' as nat), Suffix1(fold, 'd' as nat);
    MatchSuffix1(fold, 's' as nat, s, i);
    MatchSuffix1(fold, 't' as nat, s, i);
    MatchSuffix2(fold, 'r' as nat, 'e' as nat, s, i);
    MatchSuffix2(fold, 'v' as nat, 'e' as nat, s, i);
    MatchSuffix1(fold, 'm' as nat, s, i);
    MatchSuffix2(fold, 'l' as nat, 'l' as nat, s, i);
    MatchSuffix1(fold, 'd' as nat, s, i);
    MatchOr(g, h, s, i);
    MatchOr(e, Or(g, h), s, i);
    MatchOr(d, Or(e, Or(g, h)), s, i);
    MatchOr(c, Or(d, Or(e, Or(g, h))), s, i);
    MatchOr(b, Or(c, Or(d, Or(e, Or(g, h)))), s, i);
    MatchOr(a, Or(b, Or(c, Or(d, Or(e, Or(g, h))))), s, i);
  }

  lemma MatchWord(f: Flagging, s: seq<nat>, i: nat)
    requires i < |s|
    ensures Match(Word(f), s, i) ==
            if Here(Letter(f), s, i) then Some(RunEnd(Letter(f), s, i))
            else if LetterPrefix(f)(s[i]) && Here(Letter(f), s, i + 1) then Some(RunEnd(Letter(f), s, i + 1))
            else None
  {
    hide Ends, Match;
    MatchOptionalThen(LetterPrefix(f), Plus(Letter(f)), s, i);
    MatchPlus(Letter(f), s, i);
    MatchPlus(Letter(f), s, i + 1);
  }

  /** A run followed by something that matches at the end of the run. */
  lemma MatchPlusThen(has: nat -> bool, r: Regex, s: seq<nat>, i: nat)
    requires i <= |s| && (Here(has, s, i) ==> Match(r, s, RunEnd(has, s, i)).Some?)
    ensures Match(PlusThen(has, r), s, i) == if Here(has, s, i) then Match(r, s, RunEnd(has, s, i)) else None
  {
    hide Ends, Match;
    MatchClassThen(has, Cat(Star(has), r), s, i);
    if Here(has, s, i) {
      MatchStarNoBacktrack(has, r, s, i + 1);
    }
  }

  /** An optional leading space before a run of a class that excludes the space, then a greedy star. */
  lemma MatchSpaceRun(has: nat -> bool, tail: nat -> bool, s: seq<nat>, i: nat)
    requires i < |s| && (s[i] == SPACE ==> !has(SPACE))
    ensures var j := if s[i] == SPACE then i + 1 else i;
      Match(Cat(Optional(Only(SPACE)), PlusThen(has, Star(tail))), s, i) ==
      if Here(has, s, j) then Some(RunEnd(tail, s, RunEnd(has, s, j))) else None
  {
    hide Ends, Match;
    var r := PlusThen(has, Star(tail));
    MatchOptionalThen(Only(SPACE), r, s, i);
    MatchStar(tail, s, RunEnd(has, s, i));
    MatchPlusThen(has, Star(tail), s, i);
    if s[i] == SPACE {
      MatchStar(tail, s, RunEnd(has, s, i + 1));
      MatchPlusThen(has, Star(tail), s, i + 1);
    }
  }

  /** One past the last newline in [i, e), or 0. */
  function LastNewlineEnd(s: seq<nat>, i: nat, e: nat): (k: nat)
    requires i <= e <= |s|
    ensures k == 0 || i < k <= e
    decreases e - i
  {
    if e == i then 0 else if Newline()(s[e - 1]) then e else LastNewlineEnd(s, i, e - 1)
  }

  lemma {:induction false} LastNewlineEndIs(s: seq<nat>, i: nat, e: nat)
    requires i <= e <= |s|
    ensures var k := LastNewlineEnd(s, i, e);
      if k == 0 then forall j :: i <= j < e ==> !Newline()(s[j])
      else Newline()(s[k - 1]) && forall j :: k <= j < e ==> !Newline()(s[j])
    decreases e - i
  {
    if e > i {
      LastNewlineEndIs(s, i, e - 1);
    }
  }

  lemma {:induction false} RunWithin(has: nat -> bool, s: seq<nat>, i: nat, j: nat)
    requires i <= |s| && i <= j <= RunEnd(has, s, i)
    ensures RunEnd(has, s, j) == RunEnd(has, s, i)
    decreases j - i
  {
    if i < j {
      RunWithin(has, s, i + 1, j);
    }
  }

  lemma MatchNewlineRun(f: Flagging, s: seq<nat>, i: nat)
    requires Classified(f, s) && i < |s|
    ensures var k := LastNewlineEnd(s, i, RunEnd(White(f), s, i));
      Match(NewlineRun(f), s, i) == if k == 0 then None else Some(k)
  {
    hide Ends, Match, RunEnd;
    var e := RunEnd(White(f), s, i);
    LastNewlineEndIs(s, i, e);
    var k := LastNewlineEnd(s, i, e);
    forall j | i <= j <= e
      ensures Match(Plus(Newline()), s, j) ==
              if Here(Newline(), s, j) then Some(RunEnd(Newline(), s, j)) else None
    {
      MatchPlus(Newline(), s, j);
    }
    if k == 0 {
      MatchStarFails(White(f), Plus(Newline()), s, i);
    } else {
      MatchStarBacktrack(White(f), Plus(Newline()), s, i, k - 1);
      NewlineRunStops(s, k, e, f, i);
    }
  }

  lemma NewlineRunStops(s: seq<nat>, k: nat, e: nat, f: Flagging, i: nat)
    requires Classified(f, s) && i < k <= e <= |s| && e == RunEnd(White(f), s, i) && Newline()(s[k - 1])
    requires forall j :: k <= j < e ==> !Newline()(s[j])
    ensures RunEnd(Newline(), s, k - 1) == k
  {
    assert !Here(Newline(), s, k);
    assert RunEnd(Newline(), s, k) == k;
  }

  lemma MatchWhiteBeforeWhite(f: Flagging, s: seq<nat>, i: nat)
    requires i < |s|
    ensures var e := RunEnd(White(f), s, i);
      Match(WhiteBeforeWhite(f), s, i) ==
      if e == i then None else if e == |s| then Some(e) else if e > i + 1 then Some(e - 1) else None
  {
    hide Ends, Match;
    var e := RunEnd(White(f), s, i);
    var ahead := NotAhead(NotWhite(f));
    MatchClassThen(White(f), Cat(Star(White(f)), ahead), s, i);
    if e > i {
      assert RunEnd(White(f), s, i + 1) == e;
      forall j | i < j <= e ensures Match(ahead, s, j) == if j == e < |s| then None else Some(j) {
        MatchNotAhead(NotWhite(f), s, j);
      }
      if e == |s| {
        MatchStarBacktrack(White(f), ahead, s, i + 1, e);
      } else if e > i + 1 {
        MatchStarBacktrack(White(f), ahead, s, i + 1, e - 1);
      } else {
        MatchStarFails(White(f), ahead, s, i + 1);
      }
    }
  }

  lemma MatchNotAhead(has: nat -> bool, s: seq<nat>, i: nat)
    requires i <= |s|
    ensures Match(NotAhead(has), s, i) == if Here(has, s, i) then None else Some(i)
  {
  }
}
