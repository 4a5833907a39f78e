/** Codepoint categories and the two-level lookup table behind them. */
module CodepointFlags {
  const NO_FLAGS: bv16 := 0
  const NUMBER: bv16 := 0x0002
  const LETTER: bv16 := 0x0004
  const WHITESPACE: bv16 := 0x0100
  const MASK_CATEGORIES: bv16 := 0x00FF

  datatype CptFlags = CptFlags(bits: bv16) {
    predicate IsLetter() { bits & LETTER != 0 }
    predicate IsNumber() { bits & NUMBER != 0 }
    predicate IsWhitespace() { bits & WHITESPACE != 0 }
    predicate HasCategory() { bits & MASK_CATEGORIES != 0 }
  }

  /** The bits of the range data: numbers, letters, whitespace, and the categories in the low byte. */
  lemma FlagBits(bits: bv16)
    ensures CptFlags(bits).IsNumber() <==> bits & 0x0002 == 0x0002
    ensures CptFlags(bits).IsLetter() <==> bits & 0x0004 == 0x0004
    ensures CptFlags(bits).IsWhitespace() <==> bits & 0x0100 == 0x0100
    ensures CptFlags(bits).HasCategory() <==> bits & 0x00FF != 0x0000
  {
  }

  datatype Range = Range(first: nat, flags: bv16)

  const FAST_PATH_LIMIT: nat := 0x10000

  ghost predicate Sorted(ranges: seq<Range>) {
    forall i, j :: 0 <= i < j < |ranges| ==> ranges[i].first <= ranges[j].first
  }

  /** Flags of the last range that starts at or below c. */
  ghost function RangeFlags(ranges: seq<Range>, c: nat): bv16 {
    if ranges == [] then NO_FLAGS
    else if ranges[|ranges| - 1].first <= c then ranges[|ranges| - 1].flags
    else RangeFlags(ranges[..|ranges| - 1], c)
  }

  /** The specification of the lookup. */
  ghost function SpecFlags(ranges: seq<Range>, whitespace: set<nat>, c: nat): bv16 {
    if c in whitespace then RangeFlags(ranges, c) | WHITESPACE else RangeFlags(ranges, c)
  }

  lemma {:induction false} RangeFlagsAt(ranges: seq<Range>, c: nat, i: nat)
    requires Sorted(ranges) && i < |ranges| && ranges[i].first <= c
    requires i + 1 < |ranges| ==> c < ranges[i + 1].first
    ensures RangeFlags(ranges, c) == ranges[i].flags
  {
    if i + 1 < |ranges| {
      RangeFlagsAt(ranges[..|ranges| - 1], c, i);
    }
  }

  class FlagsTable {
    const ranges: seq<Range>
    const whitespace: set<nat>
    const fast: array<bv16>

    ghost predicate Valid()
      reads fast
    {
      && Sorted(ranges) && ranges != [] && ranges[0].first == 0
      && fast.Length == FAST_PATH_LIMIT
      && forall c :: 0 <= c < FAST_PATH_LIMIT ==> fast[c] == SpecFlags(ranges, whitespace, c)
    }

    constructor (ranges: seq<Range>, whitespace: set<nat>)
      requires Sorted(ranges) && |ranges| > 0 && ranges[0].first == 0
      requires ranges[|ranges| - 1].first >= FAST_PATH_LIMIT
      ensures Valid() && this.ranges == ranges && this.whitespace == whitespace && fresh(fast)
    {
      var f := new bv16[FAST_PATH_LIMIT](_ => NO_FLAGS);
      FillRanges(f, ranges);
      OverlayWhitespace(f, whitespace);
      this.ranges, this.whitespace, fast := ranges, whitespace, f;
    }

    /** Dense array below the limit, binary search above it: both agree with the specification. */
    method Lookup(cpt: nat) returns (f: bv16)
      requires Valid()
      ensures f == SpecFlags(ranges, whitespace, cpt)
    {
      if cpt < FAST_PATH_LIMIT {
        return fast[cpt];
      }
      var lo, hi := 0, |ranges|;
      while lo + 1 < hi
        invariant 0 <= lo < hi <= |ranges|
        invariant ranges[lo].first <= cpt
        invariant hi < |ranges| ==> cpt < ranges[hi].first
      {
        var mid := (lo + hi) / 2;
        if ranges[mid].first <= cpt {
          lo := mid;
        } else {
          hi := mid;
        }
      }
      RangeFlagsAt(ranges, cpt, lo);
      f := ranges[lo].flags;
      if cpt in whitespace {
        f := f | WHITESPACE;
      }
    }
  }

  method FillRanges(fast: array<bv16>, ranges: seq<Range>)
    requires fast.Length == FAST_PATH_LIMIT
    requires Sorted(ranges) && |ranges| > 0 && ranges[0].first == 0
    requires ranges[|ranges| - 1].first >= FAST_PATH_LIMIT
    modifies fast
    ensures forall c :: 0 <= c < FAST_PATH_LIMIT ==> fast[c] == RangeFlags(ranges, c)
  {
    var i := 1;
    while i < |ranges|
      invariant 1 <= i <= |ranges| && ranges[i - 1].first < FAST_PATH_LIMIT
      invariant forall c :: 0 <= c < ranges[i - 1].first ==> fast[c] == RangeFlags(ranges, c)
    {
      var begin, end := ranges[i - 1].first, ranges[i].first;
      var e := if end < FAST_PATH_LIMIT then end else FAST_PATH_LIMIT;
      for c := begin to e
        invariant forall d :: 0 <= d < c ==> fast[d] == RangeFlags(ranges, d)
      {
        RangeFlagsAt(ranges, c, i - 1);
        fast[c] := ranges[i - 1].flags;
      }
      if end >= FAST_PATH_LIMIT {
        return;
      }
      i := i + 1;
    }
  }

  method OverlayWhitespace(fast: array<bv16>, whitespace: set<nat>)
    requires fast.Length == FAST_PATH_LIMIT
    modifies fast
    ensures forall c :: 0 <= c < FAST_PATH_LIMIT ==>
      fast[c] == if c in whitespace then old(fast[c]) | WHITESPACE else old(fast[c])
  {
    var todo := whitespace;
    while todo != {}
      invariant todo <= whitespace
      invariant forall c :: 0 <= c < FAST_PATH_LIMIT ==>
        fast[c] == if c in whitespace - todo then old(fast[c]) | WHITESPACE else old(fast[c])
      decreases |todo|
    {
      var ws :| ws in todo;
      if ws < FAST_PATH_LIMIT {
        fast[ws] := fast[ws] | WHITESPACE;
      }
      todo := todo - {ws};
    }
  }
}
