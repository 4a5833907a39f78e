/**
  * The GPT-2 splitter: the documented regex except on long whitespace runs, and the texts on
  * which that makes no difference.
  */
module Gpt2Splitter {
  import opened Wrappers
  import opened Regexes
  import opened Patterns
  import opened Splitters

  /** Start of the run that the space-led alternatives look at. */
  function Body(s: seq<nat>, i: nat): nat
    requires i < |s|
  {
    if s[i] == SPACE then i + 1 else i
  }

  /** The end of the pretoken that starts at i, as the branches of the code determine it. */
  function Step(f: Flagging, s: seq<nat>, i: nat): (next: nat)
    requires i < |s|
    ensures i < next <= |s|
  {
    var n := ContractionLength(false, s, i);
    var body := Body(s, i);
    if n > 0 then i + n
    else if Here(Letter(f), s, body) then RunEnd(Letter(f), s, body)
    else if Here(Number(f), s, body) then RunEnd(Number(f), s, body)
    else if Here(KnownSymbol(f), s, body) then RunEnd(KnownSymbol(f), s, body)
    else if Here(White(f), s, i) && RunEnd(White(f), s, i) == |s| then |s|
    else i + 1
  }

  lemma MatchWhiteToEnd(f: Flagging, s: seq<nat>, i: nat)
    requires i < |s|
    ensures Match(Or(PlusThen(White(f), NotAhead(Any())), Class(White(f))), s, i) ==
            if !Here(White(f), s, i) then None else if RunEnd(White(f), s, i) == |s| then Some(|s|) else Some(i + 1)
  {
    hide Ends, Match;
    var ahead := NotAhead(Any());
    var e := RunEnd(White(f), s, i);
    MatchOr(PlusThen(White(f), ahead), Class(White(f)), s, i);
    MatchClass(White(f), s, i);
    MatchClassThen(White(f), Cat(Star(White(f)), ahead), s, i);
    if e > i {
      forall j | i < j <= e
        ensures Match(ahead, s, j) == if j < |s| then None else Some(j)
      {
        MatchNotAhead(Any(), s, j);
      }
      if e == |s| {
        MatchStarNoBacktrack(White(f), ahead, s, i + 1);
      } else {
        MatchStarFails(White(f), ahead, s, i + 1);
      }
    }
  }

  /** The alternatives before the whitespace ones; None when they all fail. */
  function Lead(f: Flagging, s: seq<nat>, i: nat): Option<nat>
    requires i < |s|
  {
    var n := ContractionLength(false, s, i);
    var body := Body(s, i);
    if n > 0 then Some(i + n)
    else if Here(Letter(f), s, body) then Some(RunEnd(Letter(f), s, body))
    else if Here(Number(f), s, body) then Some(RunEnd(Number(f), s, body))
    else if Here(Symbol(f), s, body) then Some(RunEnd(Symbol(f), s, body))
    else None
  }

  lemma MatchLead(f: Flagging, w: Regex, s: seq<nat>, i: nat)
    requires i < |s| && Classified(f, s)
    ensures Match(Gpt2With(f, w), s, i) == OrElse(Lead(f, s, i), Match(w, s, i))
  {
    hide Ends, Match, ContractionLength;
    var a, b, c := SpaceThen(Letter(f)), SpaceThen(Number(f)), SpaceThen(Symbol(f));
    MatchContractions(false, s, i);
    MatchSpacePlus(Letter(f), s, i);
    MatchSpacePlus(Number(f), s, i);
    MatchSpacePlus(Symbol(f), s, i);
    MatchOr(c, w, s, i);
    MatchOr(b, Or(c, w), s, i);
    MatchOr(a, Or(b, Or(c, w)), s, i);
    MatchOr(Contractions(false), Or(a, Or(b, Or(c, w))), s, i);
  }

  lemma StepMatches(f: Flagging, s: seq<nat>, i: nat)
    requires i < |s| && Classified(f, s)
    ensures Match(Gpt2Effective(f), s, i) == Some(Step(f, s, i))
  {
    hide Ends, Match, ContractionLength;
    MatchLead(f, Or(PlusThen(White(f), NotAhead(Any())), Class(White(f))), s, i);
    MatchWhiteToEnd(f, s, i);
    SymbolsAreKnown(f, s, Body(s, i));
  }

  /** The pretoken from p to e, by cases on the codepoints that start it. */
  ghost predicate Rule(f: Flagging, s: seq<nat>, p: nat, e: nat)
    requires p < |s|
  {
    var one := s[p] == 0x27 && p + 1 < |s| && Contracts(s[p + 1]);
    var two := s[p] == 0x27 && p + 2 < |s| && Contracts2(s[p + 1], s[p + 2]);
    var body := if s[p] == 0x20 then p + 1 else p;
    && (one ==> e == p + 2)
    && (two ==> e == p + 3)
    && (!one && !two ==>
          if body < |s| && f(s[body]).IsLetter() then LetterRun(f, s, body, e)
          else if body < |s| && f(s[body]).IsNumber() then NumberRun(f, s, body, e)
          else if body < |s| && IsSymbol(f(s[body])) then SymbolRun(f, s, body, e)
          else exists w: nat :: WhiteRun(f, s, p, w) && e == if w == |s| then w else p + 1)
  }

  /** On a classified text the branches of the code obey the rule. */
  lemma StepObeys(f: Flagging, s: seq<nat>, p: nat)
    requires p < |s| && Classified(f, s)
    ensures Rule(f, s, p, Step(f, s, p))
  {
    hide ContractionLength, Contracts, Contracts2, LetterRun, NumberRun, SymbolRun, WhiteRun, RunEnd;
    ContractionObeys(false, s, p);
    assert ClassifiedCpt(f, s[p]);
    var body := Body(s, p);
    if body < |s| {
      assert ClassifiedCpt(f, s[body]);
      RunsAre(f, s, body);
    }
    RunsAre(f, s, p);
  }

  lemma DocumentedStep(f: Flagging, s: seq<nat>, i: nat)
    requires i < |s| && Classified(f, s)
    ensures var e := RunEnd(White(f), s, i);
      Match(Gpt2Documented(f), s, i) ==
      OrElse(Lead(f, s, i), if e == i then None else if e == |s| || e == i + 1 then Some(e) else Some(e - 1))
  {
    hide Ends, Match, ContractionLength;
    MatchLead(f, Or(WhiteBeforeWhite(f), Plus(White(f))), s, i);
    MatchOr(WhiteBeforeWhite(f), Plus(White(f)), s, i);
    MatchWhiteBeforeWhite(f, s, i);
    MatchPlus(White(f), s, i);
  }

  ghost predicate NoLead(f: Flagging, s: seq<nat>, p: nat)
    requires p < |s|
  {
    var b := Body(s, p);
    && ContractionLength(false, s, p) == 0
    && !Here(Letter(f), s, b) && !Here(Number(f), s, b) && !Here(KnownSymbol(f), s, b)
  }

  /** The alternatives before the whitespace branch; pos itself when none of them applies. */
  method ScanLead(f: Flagging, s: seq<nat>, pos: nat) returns (next: nat)
    requires pos < |s|
    ensures pos <= next <= |s|
    ensures next > pos ==> next == Step(f, s, pos)
    ensures next == pos ==> NoLead(f, s, pos)
  {
    var n := ScanContraction(false, s, pos);
    if n > 0 {
      return pos + n;
    }
    var body := Body(s, pos);
    if FlagsAt(f, s, body).IsLetter() {
      next := SkipWhile(Letter(f), s, body);
      return;
    }
    if FlagsAt(f, s, body).IsNumber() {
      next := SkipWhile(Number(f), s, body);
      return;
    }
    var fb := FlagsAt(f, s, body);
    if body < |s| && !fb.IsWhitespace() && !fb.IsLetter() && !fb.IsNumber() && fb.HasCategory() {
      next := SkipWhile(KnownSymbol(f), s, body);
      return;
    }
    return pos;
  }

  /** Inside a whitespace run that something follows, every pretoken is one codepoint. */
  lemma StepInsideRun(f: Flagging, s: seq<nat>, p: nat)
    requires Classified(f, s) && p + 1 < |s| && Here(White(f), s, p) && Here(White(f), s, p + 1)
    requires RunEnd(White(f), s, p) < |s|
    ensures Step(f, s, p) == p + 1
  {
  }

  /** gpt2_split_offsets. */
  method Split(f: Flagging, s: seq<nat>) returns (out: seq<nat>)
    ensures Tiles(out, |s|)
    ensures Classified(f, s) ==> Splits(Gpt2Effective(f), s, 0) == Some(out)
    ensures Classified(f, s) ==>
      forall k :: 0 <= k < |out| ==> StartOf(out, k) < |s| && Rule(f, s, StartOf(out, k), out[k])
  {
    hide Match, Gpt2Effective, Step, Splits, Classified, NoLead, Rule, Tiles, Obeyed;
    TilesNone();
    ObeyNone(f, s);
    out := [];
    var pos := 0;
    SplitsBegin(Gpt2Effective(f), s);
    while pos < |s|
      invariant pos <= |s| && Tiles(out, pos) && Obeyed(f, s, out, pos)
      invariant Classified(f, s) ==> Splits(Gpt2Effective(f), s, 0) == Grown(out, Splits(Gpt2Effective(f), s, pos))
    {
      var next := ScanLead(f, s, pos);
      if next > pos {
        out, pos := Push(f, s, out, pos, next);
        continue;
      }
      if FlagsAt(f, s, pos).IsWhitespace() {
        var q := SkipWhile(White(f), s, pos);
        var followedByNonspace := q < |s| && !FlagsAt(f, s, q).IsWhitespace();
        if followedByNonspace {
          if q - pos >= 2 {
            var tailStart := q - 1;
            while pos < tailStart
              invariant pos <= tailStart && Tiles(out, pos) && Obeyed(f, s, out, pos)
              invariant RunEnd(White(f), s, pos) == q
              invariant Classified(f, s) ==>
                Splits(Gpt2Effective(f), s, 0) == Grown(out, Splits(Gpt2Effective(f), s, pos))
            {
              RunWithin(White(f), s, pos, pos + 1);
              if Classified(f, s) {
                StepInsideRun(f, s, pos);
              }
              out, pos := Push(f, s, out, pos, pos + 1);
            }
          } else {
            StepAlone(f, s, pos);
            out, pos := Push(f, s, out, pos, pos + 1);
          }
        } else {
          StepAlone(f, s, pos);
          out, pos := Push(f, s, out, pos, q);
        }
        continue;
      }
      StepAlone(f, s, pos);
      out, pos := Push(f, s, out, pos, pos + 1);
    }
    if Classified(f, s) {
      SplitsEnd(Gpt2Effective(f), s, out);
      ObeyDone(f, s, out, pos);
    }
  }

  lemma ObeyNone(f: Flagging, s: seq<nat>)
    ensures Obeyed(f, s, [], 0)
  {
  }

  lemma ObeyDone(f: Flagging, s: seq<nat>, out: seq<nat>, pos: nat)
    requires Obeyed(f, s, out, pos) && Classified(f, s)
    ensures forall k :: 0 <= k < |out| ==> StartOf(out, k) < |s| && Rule(f, s, StartOf(out, k), out[k])
  {
    hide Rule;
  }

  /** Where no leading alternative applies, the whitespace branch and the fallback decide. */
  lemma StepAlone(f: Flagging, s: seq<nat>, p: nat)
    requires p < |s| && NoLead(f, s, p)
    ensures Step(f, s, p) == if Here(White(f), s, p) && RunEnd(White(f), s, p) == |s| then |s| else p + 1
  {
  }

  /** The pretokens so far end at pos and obey the rule. */
  ghost predicate Obeyed(f: Flagging, s: seq<nat>, out: seq<nat>, pos: nat) {
    pos == LastOf(out) && (Classified(f, s) ==> AllObey(f, s, out))
  }

  ghost predicate AllObey(f: Flagging, s: seq<nat>, out: seq<nat>) {
    forall k :: 0 <= k < |out| ==> StartOf(out, k) < |s| && Rule(f, s, StartOf(out, k), out[k])
  }

  lemma ObeyNext(f: Flagging, s: seq<nat>, out: seq<nat>, next: nat)
    requires AllObey(f, s, out) && LastOf(out) < |s| && Rule(f, s, LastOf(out), next)
    ensures AllObey(f, s, out + [next])
  {
    hide Rule;
    assert forall k :: 0 <= k < |out| ==> StartOf(out + [next], k) == StartOf(out, k);
  }

  /** push_upto, for the next pretoken. */
  method Push(f: Flagging, s: seq<nat>, out: seq<nat>, pos: nat, next: nat) returns (out': seq<nat>, pos': nat)
    requires pos < next <= |s| && Tiles(out, pos) && Obeyed(f, s, out, pos)
    requires Classified(f, s) ==> next == Step(f, s, pos)
    requires Classified(f, s) ==> Splits(Gpt2Effective(f), s, 0) == Grown(out, Splits(Gpt2Effective(f), s, pos))
    ensures pos' == next && out' == out + [next] && Tiles(out', pos') && Obeyed(f, s, out', pos')
    ensures Classified(f, s) ==> Splits(Gpt2Effective(f), s, 0) == Grown(out', Splits(Gpt2Effective(f), s, pos'))
  {
    hide Match, Gpt2Effective, Step, Splits, Classified, Rule, AllObey, Tiles;
    if Classified(f, s) {
      StepMatches(f, s, pos);
      SplitsStep(Gpt2Effective(f), s, pos, out, next);
      StepObeys(f, s, pos);
      ObeyNext(f, s, out, next);
    }
    TilesNext(out, pos, next);
    return out + [next], next;
  }

  // Where the code and the documented pattern part ways.

  /** Three whitespace codepoints and then something else. */
  ghost predicate LongRun(f: Flagging, s: seq<nat>, i: nat) {
    Here(White(f), s, i) && Here(White(f), s, i + 1) && Here(White(f), s, i + 2) && Here(NotWhite(f), s, i + 3)
  }

  /** The leading alternatives never cover two whitespace codepoints in a row. */
  lemma LeadStopsAtWhite(f: Flagging, s: seq<nat>, a: nat, i: nat)
    requires Classified(f, s) && a <= i && Here(White(f), s, i) && Here(White(f), s, i + 1)
    ensures Lead(f, s, a).Some? ==> Lead(f, s, a).value <= i
  {
  }

  lemma LongRunSteps(f: Flagging, s: seq<nat>, i: nat, a: nat)
    requires Classified(f, s) && LongRun(f, s, i) && a <= i
    ensures Match(Gpt2Effective(f), s, a).Some? && Match(Gpt2Effective(f), s, a).value > i ==>
              Match(Gpt2Effective(f), s, a).value == i + 1
    ensures Match(Gpt2Documented(f), s, a).Some? && Match(Gpt2Documented(f), s, a).value > i ==>
              Match(Gpt2Documented(f), s, a).value > i + 1
  {
    hide Ends, Match, Lead, ContractionLength;
    LeadStopsAtWhite(f, s, a, i);
    MatchLead(f, Or(PlusThen(White(f), NotAhead(Any())), Class(White(f))), s, a);
    MatchWhiteToEnd(f, s, a);
    DocumentedStep(f, s, a);
  }

  lemma EveryPositionMatches(f: Flagging, s: seq<nat>, a: nat)
    requires Classified(f, s) && a < |s|
    ensures Match(Gpt2Effective(f), s, a).Some? && Match(Gpt2Effective(f), s, a).value > a
    ensures Match(Gpt2Documented(f), s, a).Some? && Match(Gpt2Documented(f), s, a).value > a
    ensures Match(Gpt2Effective(f), s, a) != Match(Gpt2Documented(f), s, a) ==> exists i: nat :: LongRun(f, s, i)
  {
    hide Ends, Match, ContractionLength;
    StepMatches(f, s, a);
    MatchLead(f, Or(PlusThen(White(f), NotAhead(Any())), Class(White(f))), s, a);
    MatchWhiteToEnd(f, s, a);
    DocumentedStep(f, s, a);
    var e := RunEnd(White(f), s, a);
    if a + 3 <= e < |s| {
      assert LongRun(f, s, e - 3);
    }
  }

  /** The code agrees with the documented pattern exactly on texts without a long run before something else. */
  lemma DocumentedIff(f: Flagging, s: seq<nat>)
    requires Classified(f, s)
    ensures Splits(Gpt2Effective(f), s, 0) == Splits(Gpt2Documented(f), s, 0) <==> !exists i: nat :: LongRun(f, s, i)
  {
    hide Match, Splits, Gpt2Effective, Gpt2Documented;
    forall a | 0 <= a < |s|
      ensures Match(Gpt2Effective(f), s, a).Some? && Match(Gpt2Effective(f), s, a).value > a
      ensures Match(Gpt2Documented(f), s, a).Some? && Match(Gpt2Documented(f), s, a).value > a
      ensures Match(Gpt2Effective(f), s, a) != Match(Gpt2Documented(f), s, a) ==> exists i: nat :: LongRun(f, s, i)
    {
      EveryPositionMatches(f, s, a);
    }
    SplitsExist(Gpt2Effective(f), s, 0);
    SplitsExist(Gpt2Documented(f), s, 0);
    if i: nat :| LongRun(f, s, i) {
      forall a | 0 <= a <= i
        ensures Match(Gpt2Effective(f), s, a).value > i ==> Match(Gpt2Effective(f), s, a).value == i + 1
        ensures Match(Gpt2Documented(f), s, a).value > i ==> Match(Gpt2Documented(f), s, a).value > i + 1
      {
        LongRunSteps(f, s, i, a);
      }
      SplitPoint(Gpt2Effective(f), s, 0, i);
      NoSplitPoint(Gpt2Documented(f), s, 0, i);
    } else {
      SplitsAgree(Gpt2Effective(f), Gpt2Documented(f), s, 0);
    }
  }

  /** "   a": the code cuts off the first two spaces separately, the pattern as one pretoken. */
  lemma DocumentedFails()
    ensures var s := [SPACE, SPACE, SPACE, 'a' as nat];
      && Classified(AsciiFlags(), s)
      && Splits(Gpt2Effective(AsciiFlags()), s, 0) != Splits(Gpt2Documented(AsciiFlags()), s, 0)
  {
    var s := [SPACE, SPACE, SPACE, 'a' as nat];
    AsciiIsClassified(s);
    assert LongRun(AsciiFlags(), s, 0);
    DocumentedIff(AsciiFlags(), s);
  }
}
