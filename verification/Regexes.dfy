/**
  * Regular expressions over codepoints with the meaning a backtracking engine gives them:
  * every regex lists the ends of its matches in the order the engine would try them.
  */
module Regexes {
  import opened Wrappers

  datatype Regex =
    | Class(has: nat -> bool)
    | Star(has: nat -> bool)      // greedy
    | Optional(has: nat -> bool)  // greedy
    | NotAhead(has: nat -> bool)  // negative lookahead
    | Cat(left: Regex, right: Regex)
    | Or(left: Regex, right: Regex)

  /** Is there a character of the class at i? */
  predicate Here(has: nat -> bool, s: seq<nat>, i: nat) {
    i < |s| && has(s[i])
  }

  ghost predicate InRange(s: seq<nat>, i: nat, ends: seq<nat>) {
    forall k :: 0 <= k < |ends| ==> i <= ends[k] <= |s|
  }

  /** All match ends from i, in the engine's order of preference. */
  ghost function Ends(r: Regex, s: seq<nat>, i: nat): (ends: seq<nat>)
    requires i <= |s|
    ensures InRange(s, i, ends)
    decreases r, 0, |s| - i
  {
    match r
    case Class(has) => if Here(has, s, i) then [i + 1] else []
    case Star(has) => if Here(has, s, i) then Ends(r, s, i + 1) + [i] else [i]
    case Optional(has) => if Here(has, s, i) then [i + 1, i] else [i]
    case NotAhead(has) => if Here(has, s, i) then [] else [i]
    case Cat(left, right) => EndsFromAll(right, s, i, Ends(left, s, i))
    case Or(left, right) => Ends(left, s, i) + Ends(right, s, i)
  }

  ghost function EndsFromAll(r: Regex, s: seq<nat>, i: nat, starts: seq<nat>): (ends: seq<nat>)
    requires i <= |s| && InRange(s, i, starts)
    ensures InRange(s, i, ends)
    decreases r, 1, |starts|
  {
    if starts == [] then [] else Ends(r, s, starts[0]) + EndsFromAll(r, s, i, starts[1..])
  }

  /** The match the engine reports. */
  ghost function Match(r: Regex, s: seq<nat>, i: nat): (m: Option<nat>)
    requires i <= |s|
    ensures m.Some? ==> i <= m.value <= |s|
  {
    var ends := Ends(r, s, i);
    if ends == [] then None else Some(ends[0])
  }

  ghost function OrElse(a: Option<nat>, b: Option<nat>): Option<nat> {
    if a.Some? then a else b
  }

  /** The ends of the successive matches that tile s from i; None if some position has no non-empty match. */
  ghost function Splits(r: Regex, s: seq<nat>, i: nat): Option<seq<nat>>
    requires i <= |s|
    decreases |s| - i
  {
    if i == |s| then Some([]) else
      match Match(r, s, i)
      case None => None
      case Some(e) =>
        if e == i then None else
          match Splits(r, s, e)
          case None => None
          case Some(rest) => Some([e] + rest)
  }

  function Plus(has: nat -> bool): Regex {
    Cat(Class(has), Star(has))
  }

  /** The end of the longest run of the class from i. */
  function RunEnd(has: nat -> bool, s: seq<nat>, i: nat): (e: nat)
    requires i <= |s|
    ensures i <= e <= |s| && (forall k :: i <= k < e ==> has(s[k])) && !Here(has, s, e)
    ensures Here(has, s, i) ==> e > i
    decreases |s| - i
  {
    if Here(has, s, i) then RunEnd(has, s, i + 1) else i
  }

  // What the engine reports, form by form.

  lemma MatchOr(a: Regex, b: Regex, s: seq<nat>, i: nat)
    requires i <= |s|
    ensures Match(Or(a, b), s, i) == OrElse(Match(a, s, i), Match(b, s, i))
  {
  }

  lemma UnfoldAll(r: Regex, s: seq<nat>, i: nat, first: nat, rest: seq<nat>)
    requires i <= first <= |s| && InRange(s, i, rest)
    ensures InRange(s, i, [first] + rest)
    ensures EndsFromAll(r, s, i, [first] + rest) == Ends(r, s, first) + EndsFromAll(r, s, i, rest)
  {
    hide Ends;
    assert ([first] + rest)[1..] == rest;
  }

  lemma {:induction false} EndsFromConcat(r: Regex, s: seq<nat>, i: nat, a: seq<nat>, b: seq<nat>)
    requires i <= |s| && InRange(s, i, a) && InRange(s, i, b)
    ensures InRange(s, i, a + b)
    ensures EndsFromAll(r, s, i, a + b) == EndsFromAll(r, s, i, a) + EndsFromAll(r, s, i, b)
  {
    hide Ends, EndsFromAll;
    if a == [] {
      EndsFromNone(r, s, i);
      assert a + b == b;
    } else {
      var first, rest := a[0], a[1..];
      EndsFromConcat(r, s, i, rest, b);
      UnfoldAll(r, s, i, first, rest + b);
      UnfoldAll(r, s, i, first, rest);
      assert a == [first] + rest && a + b == [first] + (rest + b);
    }
  }

  lemma EndsFromNone(r: Regex, s: seq<nat>, i: nat)
    requires i <= |s|
    ensures EndsFromAll(r, s, i, []) == []
  {
  }

  lemma EndsFromOne(r: Regex, s: seq<nat>, i: nat, j: nat)
    requires i <= j <= |s|
    ensures EndsFromAll(r, s, i, [j]) == Ends(r, s, j)
  {
    assert EndsFromAll(r, s, i, [j]) == Ends(r, s, j) + EndsFromAll(r, s, i, []);
  }

  lemma UnfoldCat(a: Regex, b: Regex, s: seq<nat>, i: nat)
    requires i <= |s|
    ensures Ends(Cat(a, b), s, i) == EndsFromAll(b, s, i, Ends(a, s, i))
  {
  }

  lemma MatchClassThen(has: nat -> bool, r: Regex, s: seq<nat>, i: nat)
    requires i <= |s|
    ensures Match(Cat(Class(has), r), s, i) == if Here(has, s, i) then Match(r, s, i + 1) else None
  {
    UnfoldCat(Class(has), r, s, i);
    if Here(has, s, i) {
      EndsFromOne(r, s, i, i + 1);
    }
  }

  lemma RangeOfOne(s: seq<nat>, i: nat, j: nat)
    requires i <= j <= |s|
    ensures InRange(s, i, [j])
  {
  }

  lemma UnfoldOptional(has: nat -> bool, s: seq<nat>, i: nat)
    requires i <= |s|
    ensures Ends(Optional(has), s, i) == if Here(has, s, i) then [i + 1] + [i] else [i]
  {
  }

  lemma MatchOptionalThen(has: nat -> bool, r: Regex, s: seq<nat>, i: nat)
    requires i <= |s|
    ensures Match(Cat(Optional(has), r), s, i) ==
            if Here(has, s, i) then OrElse(Match(r, s, i + 1), Match(r, s, i)) else Match(r, s, i)
  {
    UnfoldOptional(has, s, i);
    hide Ends, EndsFromAll, InRange;
    UnfoldCat(Optional(has), r, s, i);
    EndsFromOne(r, s, i, i);
    assert InRange(s, i, [i]) by { RangeOfOne(s, i, i); }
    if Here(has, s, i) {
      RangeOfOne(s, i, i + 1);
      EndsFromOne(r, s, i, i + 1);
      EndsFromConcat(r, s, i, [i + 1], [i]);
      assert Ends(Cat(Optional(has), r), s, i) == Ends(r, s, i + 1) + Ends(r, s, i);
    }
  }

  lemma {:induction false} EndsFromLower(r: Regex, s: seq<nat>, i: nat, j: nat, starts: seq<nat>)
    requires i <= j <= |s| && InRange(s, j, starts)
    ensures InRange(s, i, starts) && EndsFromAll(r, s, i, starts) == EndsFromAll(r, s, j, starts)
  {
    if starts != [] {
      EndsFromLower(r, s, i, j, starts[1..]);
    }
  }

  lemma UnfoldStar(has: nat -> bool, s: seq<nat>, i: nat)
    requires i <= |s|
    ensures Ends(Star(has), s, i) == if Here(has, s, i) then Ends(Star(has), s, i + 1) + [i] else [i]
  {
  }

  /** Backtracking into a greedy star gives up one character at a time. */
  lemma MatchStarThen(has: nat -> bool, r: Regex, s: seq<nat>, i: nat)
    requires i <= |s|
    ensures Match(Cat(Star(has), r), s, i) ==
            if Here(has, s, i) then OrElse(Match(Cat(Star(has), r), s, i + 1), Match(r, s, i)) else Match(r, s, i)
  {
    hide Ends, EndsFromAll;
    UnfoldCat(Star(has), r, s, i);
    UnfoldStar(has, s, i);
    EndsFromOne(r, s, i, i);
    if Here(has, s, i) {
      var later := Ends(Star(has), s, i + 1);
      UnfoldCat(Star(has), r, s, i + 1);
      EndsFromLower(r, s, i, i + 1, later);
      EndsFromConcat(r, s, i, later, [i]);
    }
  }

  lemma {:induction false} MatchStar(has: nat -> bool, s: seq<nat>, i: nat)
    requires i <= |s|
    ensures Match(Star(has), s, i) == Some(RunEnd(has, s, i))
    decreases |s| - i
  {
    if Here(has, s, i) {
      MatchStar(has, s, i + 1);
    }
  }

  lemma MatchPlus(has: nat -> bool, s: seq<nat>, i: nat)
    requires i <= |s|
    ensures Match(Plus(has), s, i) == if Here(has, s, i) then Some(RunEnd(has, s, i)) else None
  {
    MatchClassThen(has, Star(has), s, i);
    if Here(has, s, i) {
      MatchStar(has, s, i + 1);
    }
  }

  /** If the continuation matches at the end of the run, no backtracking happens. */
  lemma {:induction false} MatchStarNoBacktrack(has: nat -> bool, r: Regex, s: seq<nat>, i: nat)
    requires i <= |s| && Match(r, s, RunEnd(has, s, i)).Some?
    ensures Match(Cat(Star(has), r), s, i) == Match(r, s, RunEnd(has, s, i))
    decreases |s| - i
  {
    MatchStarThen(has, r, s, i);
    if Here(has, s, i) {
      MatchStarNoBacktrack(has, r, s, i + 1);
    }
  }

  /** The last position j of the run (or its end) where the continuation matches is the one used. */
  lemma {:induction false} MatchStarBacktrack(has: nat -> bool, r: Regex, s: seq<nat>, i: nat, j: nat)
    requires i <= |s| && i <= j <= RunEnd(has, s, i) && Match(r, s, j).Some?
    requires forall k :: j < k <= RunEnd(has, s, i) ==> Match(r, s, k) == None
    ensures Match(Cat(Star(has), r), s, i) == Match(r, s, j)
    decreases |s| - i
  {
    MatchStarThen(has, r, s, i);
    if Here(has, s, i) {
      if i < j {
        MatchStarBacktrack(has, r, s, i + 1, j);
      } else {
        MatchStarFails(has, r, s, i + 1);
      }
    }
  }

  lemma {:induction false} MatchStarFails(has: nat -> bool, r: Regex, s: seq<nat>, i: nat)
    requires i <= |s|
    requires forall k :: i <= k <= RunEnd(has, s, i) ==> Match(r, s, k) == None
    ensures Match(Cat(Star(has), r), s, i) == None
    decreases |s| - i
  {
    MatchStarThen(has, r, s, i);
    if Here(has, s, i) {
      MatchStarFails(has, r, s, i + 1);
    }
  }

  // Comparing the splits of two patterns.

  lemma {:induction false} SplitsAgree(r: Regex, q: Regex, s: seq<nat>, i: nat)
    requires i <= |s| && forall a :: i <= a < |s| ==> Match(r, s, a) == Match(q, s, a)
    ensures Splits(r, s, i) == Splits(q, s, i)
    decreases |s| - i
  {
    if i < |s| && Match(r, s, i).Some? && Match(r, s, i).value > i {
      SplitsAgree(r, q, s, Match(r, s, i).value);
    }
  }

  lemma {:induction false} SplitsExist(r: Regex, s: seq<nat>, i: nat)
    requires i <= |s| && forall a :: i <= a < |s| ==> Match(r, s, a).Some? && Match(r, s, a).value > a
    ensures Splits(r, s, i).Some?
    decreases |s| - i
  {
    if i < |s| {
      SplitsExist(r, s, Match(r, s, i).value);
    }
  }

  /** If every match that covers p ends at p + 1, then p + 1 is a split point. */
  lemma {:induction false} SplitPoint(r: Regex, s: seq<nat>, i: nat, p: nat)
    requires i <= p < |s| && Splits(r, s, i).Some?
    requires forall a :: i <= a <= p && Match(r, s, a).Some? && Match(r, s, a).value > p ==>
      Match(r, s, a).value == p + 1
    ensures p + 1 in Splits(r, s, i).value
    decreases |s| - i
  {
    var e := Match(r, s, i).value;
    if e <= p {
      SplitPoint(r, s, e, p);
    }
  }

  /** If every match that covers p goes beyond p + 1, then p + 1 is not a split point. */
  lemma {:induction false} NoSplitPoint(r: Regex, s: seq<nat>, i: nat, p: nat)
    requires i <= |s| && p < |s| && Splits(r, s, i).Some?
    requires forall a :: i <= a <= p && Match(r, s, a).Some? && Match(r, s, a).value > p ==>
      Match(r, s, a).value > p + 1
    requires i <= p || i > p + 1
    ensures p + 1 !in Splits(r, s, i).value
    decreases |s| - i
  {
    if i < |s| {
      NoSplitPoint(r, s, Match(r, s, i).value, p);
    }
  }
}
