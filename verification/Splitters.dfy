/** What the three hand-written splitters share: bounded reads, whitespace rules, and skipping a run. */
module Splitters {
  import opened Wrappers
  import opened CodepointFlags
  import opened Regexes
  import opened Patterns

  function CptAt(s: seq<nat>, p: nat): nat {
    if p < |s| then s[p] else OOR
  }

  function FlagsAt(f: Flagging, s: seq<nat>, p: nat): CptFlags {
    if p < |s| then f(s[p]) else CptFlags(0)
  }

  /** Characters the symbol loops walk over. */
  function KnownSymbol(f: Flagging): nat -> bool {
    (c: nat) => !(f(c).IsWhitespace() || f(c).IsLetter() || f(c).IsNumber() || !f(c).HasCategory())
  }

  /** In a classified text the code's extra category test changes nothing. */
  lemma {:induction false} SymbolsAreKnown(f: Flagging, s: seq<nat>, i: nat)
    requires Classified(f, s) && i <= |s|
    ensures RunEnd(KnownSymbol(f), s, i) == RunEnd(Symbol(f), s, i)
    decreases |s| - i
  {
    if i < |s| {
      SymbolsAreKnown(f, s, i + 1);
    }
  }

  /** The longest run of a class; the `while` loops that advance pos over one class. */
  method SkipWhile(has: nat -> bool, s: seq<nat>, pos: nat) returns (end: nat)
    requires pos <= |s|
    ensures end == RunEnd(has, s, pos)
  {
    end := pos;
    while end < |s| && has(s[end])
      invariant pos <= end <= |s| && RunEnd(has, s, end) == RunEnd(has, s, pos)
    {
      end := end + 1;
    }
  }

  /** The contraction branch: the length of the suffix to take, 0 to fall through. */
  method ScanContraction(fold: bool, s: seq<nat>, pos: nat) returns (n: nat)
    requires pos < |s|
    ensures n == ContractionLength(fold, s, pos)
  {
    if CptAt(s, pos) == APOSTROPHE && pos + 1 < |s| {
      var c1 := if fold then ToLowerAscii(CptAt(s, pos + 1)) else CptAt(s, pos + 1);
      if c1 == 's' as nat || c1 == 't' as nat || c1 == 'm' as nat || c1 == 'd' as nat {
        return 2;
      }
      if pos + 2 < |s| {
        var c2 := if fold then ToLowerAscii(CptAt(s, pos + 2)) else CptAt(s, pos + 2);
        if (c1 == 'r' as nat && c2 == 'e' as nat) || (c1 == 'v' as nat && c2 == 'e' as nat)
           || (c1 == 'l' as nat && c2 == 'l' as nat) {
          return 3;
        }
      }
    }
    return 0;
  }

  /** The whitespace rules of the Qwen2 and granite splitters at i, and the no-match fallback behind them. */
  function WhiteStep(f: Flagging, s: seq<nat>, i: nat): (next: nat)
    requires i < |s|
    ensures i < next <= |s|
  {
    var e := RunEnd(White(f), s, i);
    var k := LastNewlineEnd(s, i, e);
    if k > 0 then k
    else if e - i > 1 && CptAt(s, e) != OOR then e - 1
    else if e - i > 0 then e
    else i + 1
  }

  /** The loop that counts whitespace and remembers the last newline. */
  method ScanWhite(f: Flagging, s: seq<nat>, pos: nat) returns (wsCount: nat, lastAfterNl: nat)
    requires pos <= |s|
    ensures pos + wsCount == RunEnd(White(f), s, pos)
    ensures lastAfterNl == LastNewlineEnd(s, pos, pos + wsCount)
  {
    wsCount, lastAfterNl := 0, 0;
    while FlagsAt(f, s, pos + wsCount).IsWhitespace()
      invariant pos + wsCount <= |s| && RunEnd(White(f), s, pos + wsCount) == RunEnd(White(f), s, pos)
      invariant lastAfterNl == LastNewlineEnd(s, pos, pos + wsCount)
      decreases |s| - wsCount
    {
      var cw := CptAt(s, pos + wsCount);
      if cw == CR || cw == LF {
        lastAfterNl := pos + wsCount + 1;
      }
      wsCount := wsCount + 1;
    }
  }

  /** The whitespace branches at the end of both loops. */
  method SkipWhite(f: Flagging, s: seq<nat>, pos: nat) returns (next: nat)
    requires pos < |s|
    ensures next == WhiteStep(f, s, pos)
  {
    var wsCount, lastAfterNl := ScanWhite(f, s, pos);
    if lastAfterNl > 0 {
      return lastAfterNl;
    }
    if wsCount > 1 && CptAt(s, pos + wsCount) != OOR {
      return pos + wsCount - 1;
    }
    if wsCount > 0 {
      return pos + wsCount;
    }
    return pos + 1;
  }

  lemma MatchWhite(f: Flagging, s: seq<nat>, i: nat)
    requires Classified(f, s) && i < |s|
    ensures var e := RunEnd(White(f), s, i);
      Match(WhiteAlternatives(f), s, i) == if e == i then None else Some(WhiteStep(f, s, i))
  {
    hide Ends, Match, RunEnd;
    MatchNewlineRun(f, s, i);
    MatchWhiteBeforeWhite(f, s, i);
    MatchPlus(White(f), s, i);
    MatchOr(WhiteBeforeWhite(f), Plus(White(f)), s, i);
    MatchOr(NewlineRun(f), Or(WhiteBeforeWhite(f), Plus(White(f))), s, i);
  }

  /** An optional leading space before a run of a class that excludes the space. */
  lemma MatchSpacePlus(has: nat -> bool, s: seq<nat>, i: nat)
    requires i < |s| && (s[i] == SPACE ==> !has(SPACE))
    ensures var j := if s[i] == SPACE then i + 1 else i;
      Match(SpaceThen(has), s, i) == if Here(has, s, j) then Some(RunEnd(has, s, j)) else None
  {
    hide Ends, Match;
    MatchOptionalThen(Only(SPACE), Plus(has), s, i);
    MatchPlus(has, s, i);
    MatchPlus(has, s, i + 1);
  }

  /** Strictly increasing split points of which the last is p: the pieces are non-empty and cover [0, p). */
  ghost predicate Tiles(ends: seq<nat>, p: nat) {
    && (forall k :: 0 <= k < |ends| ==> 0 < ends[k] <= p)
    && (forall j, k :: 0 <= j < k < |ends| ==> ends[j] < ends[k])
    && (if ends == [] then p == 0 else ends[|ends| - 1] == p)
  }

  function LastOf(ends: seq<nat>): nat {
    if ends == [] then 0 else ends[|ends| - 1]
  }

  lemma TilesNone()
    ensures Tiles([], 0)
  {
  }

  lemma TilesNext(ends: seq<nat>, p: nat, next: nat)
    requires Tiles(ends, p) && p < next
    ensures Tiles(ends + [next], next)
  {
  }

  /** Where the k-th pretoken starts. */
  function StartOf(ends: seq<nat>, k: nat): nat
    requires k < |ends|
  {
    if k == 0 then 0 else ends[k - 1]
  }

  // Rules for single pretokens, in terms of codepoints and flags alone.

  ghost predicate RunTo(has: nat -> bool, s: seq<nat>, a: nat, e: nat) {
    a <= e <= |s| && (forall k :: a <= k < e ==> has(s[k])) && (e < |s| ==> !has(s[e]))
  }

  ghost predicate LetterRun(f: Flagging, s: seq<nat>, a: nat, e: nat) {
    a < e && RunTo((c: nat) => f(c).IsLetter(), s, a, e)
  }

  ghost predicate NumberRun(f: Flagging, s: seq<nat>, a: nat, e: nat) {
    a < e && RunTo((c: nat) => f(c).IsNumber(), s, a, e)
  }

  ghost predicate SymbolRun(f: Flagging, s: seq<nat>, a: nat, e: nat) {
    a < e && RunTo((c: nat) => !f(c).IsWhitespace() && !f(c).IsLetter() && !f(c).IsNumber(), s, a, e)
  }

  ghost predicate WhiteRun(f: Flagging, s: seq<nat>, a: nat, e: nat) {
    a < e && RunTo((c: nat) => f(c).IsWhitespace(), s, a, e)
  }

  /** The longest runs of the four kinds. */
  lemma RunsAre(f: Flagging, s: seq<nat>, a: nat)
    requires a < |s| && Classified(f, s)
    ensures f(s[a]).IsLetter() ==> LetterRun(f, s, a, RunEnd(Letter(f), s, a))
    ensures f(s[a]).IsNumber() ==> NumberRun(f, s, a, RunEnd(Number(f), s, a))
    ensures f(s[a]).IsWhitespace() ==> WhiteRun(f, s, a, RunEnd(White(f), s, a))
    ensures IsSymbol(f(s[a])) ==> SymbolRun(f, s, a, RunEnd(KnownSymbol(f), s, a))
  {
    SymbolsAreKnown(f, s, a);
  }

  predicate IsNewline(c: nat) {
    c == 0x0A || c == 0x0D
  }

  predicate IsSymbol(flags: CptFlags) {
    !flags.IsWhitespace() && !flags.IsLetter() && !flags.IsNumber()
  }

  /** The contraction suffixes 's 't 'm 'd and 're 've 'll, in lower case. */
  predicate Contracts(a: nat) {
    a == 0x73 || a == 0x74 || a == 0x6D || a == 0x64
  }

  predicate Contracts2(a: nat, b: nat) {
    (a == 0x72 && b == 0x65) || (a == 0x76 && b == 0x65) || (a == 0x6C && b == 0x6C)
  }

  /** The same in either case: capitals are 0x20 below. */
  predicate ContractsAnyCase(a: nat) {
    Contracts(a) || (0x41 <= a <= 0x5A && Contracts(a + 0x20))
  }

  predicate Contracts2AnyCase(a: nat, b: nat) {
    || Contracts2(a, b) || (0x41 <= a <= 0x5A && Contracts2(a + 0x20, b))
    || (0x41 <= b <= 0x5A && (Contracts2(a, b + 0x20) || (0x41 <= a <= 0x5A && Contracts2(a + 0x20, b + 0x20))))
  }

  /**
    * Whitespace that starts nothing else, in the Qwen2 and granite splitters: up to the last newline of the run if
    * it has one, else all of it at the end of the text or when it is one codepoint, else all but the last.
    */
  ghost predicate WhiteRule(f: Flagging, s: seq<nat>, p: nat, e: nat) {
    exists w: nat :: WhiteRun(f, s, p, w) && p < e <= w &&
      if exists k :: p <= k < w && IsNewline(s[k])
      then IsNewline(s[e - 1]) && forall k :: e <= k < w ==> !IsNewline(s[k])
      else e == if w == |s| || w == p + 1 then w else w - 1
  }

  lemma WhiteStepObeys(f: Flagging, s: seq<nat>, p: nat)
    requires p < |s| && f(s[p]).IsWhitespace() && Classified(f, s)
    ensures WhiteRule(f, s, p, WhiteStep(f, s, p))
  {
    var w := RunEnd(White(f), s, p);
    assert WhiteRun(f, s, p, w);
    LastNewlineEndIs(s, p, w);
  }

  /** The contraction branch by codepoints, folding case or not. */
  lemma ContractionObeys(fold: bool, s: seq<nat>, i: nat)
    requires i < |s|
    ensures var one := s[i] == 0x27 && i + 1 < |s|
        && (if fold then ContractsAnyCase(s[i + 1]) else Contracts(s[i + 1]));
      var two := s[i] == 0x27 && i + 2 < |s|
        && (if fold then Contracts2AnyCase(s[i + 1], s[i + 2]) else Contracts2(s[i + 1], s[i + 2]));
      !(one && two) && ContractionLength(fold, s, i) == if one then 2 else if two then 3 else 0
  {
  }

  /** A single space at the end of the text is a whitespace pretoken. */
  lemma LastSpaceObeys(f: Flagging, s: seq<nat>, p: nat)
    requires p + 1 == |s| && f(s[p]).IsWhitespace()
    ensures WhiteRule(f, s, p, p + 1)
  {
    assert WhiteRun(f, s, p, p + 1);
  }

  /** One more match: how a splitter's output grows. */
  lemma SplitsStep(r: Regex, s: seq<nat>, i: nat, out: seq<nat>, e: nat)
    requires i < |s| && i < e <= |s| && Match(r, s, i) == Some(e)
    requires Splits(r, s, 0) == Grown(out, Splits(r, s, i))
    ensures Splits(r, s, 0) == Grown(out + [e], Splits(r, s, e))
  {
    if Splits(r, s, e).Some? {
      assert out + ([e] + Splits(r, s, e).value) == out + [e] + Splits(r, s, e).value;
    }
  }

  ghost function Grown(out: seq<nat>, rest: Option<seq<nat>>): Option<seq<nat>> {
    match rest case None => None case Some(ends) => Some(out + ends)
  }

  lemma SplitsBegin(r: Regex, s: seq<nat>)
    ensures Splits(r, s, 0) == Grown([], Splits(r, s, 0))
  {
    if Splits(r, s, 0).Some? {
      assert [] + Splits(r, s, 0).value == Splits(r, s, 0).value;
    }
  }

  lemma SplitsEnd(r: Regex, s: seq<nat>, out: seq<nat>)
    requires Splits(r, s, 0) == Grown(out, Splits(r, s, |s|))
    ensures Splits(r, s, 0) == Some(out)
  {
    assert out + [] == out;
  }
}
