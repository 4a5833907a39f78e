/** Lookup tables built when a tokenizer is loaded. */
module Vocabulary {
  import opened Wrappers
  import opened Bpe
  import opened ByteBpe

  const SPACE: byte := 0x20
  const MERGE_SEP: byte := 0x1F

  /** piece -> id; the first occurrence wins. */
  method BuildIndex(tokens: seq<Piece>) returns (ids: map<Piece, nat>)
    ensures Indexed(tokens, ids)
  {
    ids := map[];
    for i := 0 to |tokens|
      invariant Indexed(tokens[..i], ids)
    {
      assert tokens[..i + 1] == tokens[..i] + [tokens[i]];
      if tokens[i] !in ids {
        ids := ids[tokens[i] := i];
      }
    }
    assert tokens[..|tokens|] == tokens;
  }

  /** Key of a pair in the merge table. */
  function MergeKey(left: Piece, right: Piece): Piece {
    left + [MERGE_SEP] + right
  }

  function Lookup(table: map<Piece, nat>, key: Piece): int {
    if key in table then table[key] else -1
  }

  /** The rank of a pair of pieces: from the merge table, or the id of the joined piece with a raw vocabulary. */
  function MergeRanking(ranks: map<Piece, nat>): Ranking {
    (left: Piece, right: Piece) => Lookup(ranks, MergeKey(left, right))
  }

  function RawRanking(ids: map<Piece, nat>): Ranking {
    (left: Piece, right: Piece) => Lookup(ids, left + right)
  }

  /** Where a merges line is cut: the first space after position 0. */
  function CutFrom(line: Piece, from: nat): (sp: Option<nat>)
    ensures sp.Some? ==> from <= sp.value < |line| && line[sp.value] == SPACE
    ensures forall i :: from <= i < (if sp.Some? then sp.value else |line|) ==> line[i] != SPACE
    decreases |line| - from
  {
    if from >= |line| then None else if line[from] == SPACE then Some(from) else CutFrom(line, from + 1)
  }

  function Cut(line: Piece): (sp: Option<nat>)
    ensures sp.Some? ==> 1 <= sp.value < |line| && line[sp.value] == 0x20
    ensures forall i :: 1 <= i < (if sp.Some? then sp.value else |line|) ==> line[i] != 0x20
  {
    CutFrom(line, 1)
  }

  function LineKey(line: Piece): Piece
    requires Cut(line).Some?
  {
    var sp := Cut(line).value;
    MergeKey(line[..sp], line[sp + 1..])
  }

  /** Every line has a cut, and the table holds the first line of each key. */
  ghost predicate RanksOf(merges: seq<Piece>, ranks: map<Piece, nat>) {
    && (forall i :: 0 <= i < |merges| ==> Cut(merges[i]).Some?)
    && (forall i :: 0 <= i < |merges| ==> LineKey(merges[i]) in ranks && ranks[LineKey(merges[i])] <= i)
    && (forall key :: key in ranks ==> ranks[key] < |merges| && LineKey(merges[ranks[key]]) == key)
  }

  /** None when some line has no separator. */
  method BuildMergeRanks(merges: seq<Piece>) returns (ranks: Option<map<Piece, nat>>)
    ensures ranks.None? <==> exists i :: 0 <= i < |merges| && Cut(merges[i]).None?
    ensures ranks.Some? ==> RanksOf(merges, ranks.value)
  {
    var table: map<Piece, nat> := map[];
    for i := 0 to |merges|
      invariant RanksOf(merges[..i], table)
    {
      assert merges[..i + 1] == merges[..i] + [merges[i]];
      assert forall j :: 0 <= j < i ==> merges[..i][j] == merges[j];
      if Cut(merges[i]).None? {
        return None;
      }
      var key := LineKey(merges[i]);
      if key !in table {
        table := table[key := i];
      }
    }
    assert merges[..|merges|] == merges;
    return Some(table);
  }

  lemma KeysDiffer(l1: Piece, r1: Piece, l2: Piece, r2: Piece)
    requires MERGE_SEP !in l1 && MERGE_SEP !in l2 && MergeKey(l1, r1) == MergeKey(l2, r2)
    ensures l1 == l2 && r1 == r2
  {
    var k := MergeKey(l1, r1);
    assert k[|l1|] == MERGE_SEP && k[|l2|] == MERGE_SEP;
    assert forall i :: 0 <= i < |l1| ==> k[i] == l1[i] != MERGE_SEP;
    assert forall i :: 0 <= i < |l2| ==> k[i] == l2[i] != MERGE_SEP;
    assert k[..|l1|] == l1 && k[|l1| + 1..] == r1;
    assert k[..|l2|] == l2 && k[|l2| + 1..] == r2;
  }

  lemma {:induction false} CutFromAt(line: Piece, from: nat, at: nat)
    requires from <= at < |line| && line[at] == SPACE && forall i :: from <= i < at ==> line[i] != SPACE
    ensures CutFrom(line, from) == Some(at)
    decreases at - from
  {
    if from < at {
      CutFromAt(line, from + 1, at);
    }
  }

  /**
    * The rank of a pair is the number of the first line "left right" of the merges, and negative if there is
    * none, for pieces in which neither the space nor the separator byte occurs.
    */
  lemma RankIsFirstLine(merges: seq<Piece>, ranks: map<Piece, nat>, left: Piece, right: Piece)
    requires RanksOf(merges, ranks) && left != [] && 0x20 !in left && 0x1F !in left
    requires forall i :: 0 <= i < |merges| ==> 0x1F !in merges[i]
    ensures var rank, line := MergeRanking(ranks)(left, right), left + [0x20] + right;
      if line in merges then 0 <= rank < |merges| && merges[rank] == line && line !in merges[..rank]
      else rank < 0
  {
    var line, key := left + [SPACE] + right, MergeKey(left, right);
    CutFromAt(line, 1, |left|);
    assert line[..|left|] == left && line[|left| + 1..] == right;
    assert LineKey(line) == key;
    if key in ranks {
      var rank := ranks[key];
      var sp := Cut(merges[rank]).value;
      LineParts(merges[rank], sp);
      KeysDiffer(merges[rank][..sp], merges[rank][sp + 1..], left, right);
      assert merges[rank] == line;
    }
  }

  /** With a raw vocabulary the rank of a pair is the first index of the joined piece, and negative if there is none. */
  lemma RawRankIsFirstIndex(tokens: seq<Piece>, ids: map<Piece, nat>, left: Piece, right: Piece)
    requires Indexed(tokens, ids)
    ensures var rank := RawRanking(ids)(left, right);
      if left + right in tokens
      then 0 <= rank < |tokens| && tokens[rank] == left + right && left + right !in tokens[..rank]
      else rank < 0
  {
  }

  lemma LineParts(line: Piece, sp: nat)
    requires sp < |line| && line[sp] == SPACE && MERGE_SEP !in line
    ensures line == line[..sp] + [SPACE] + line[sp + 1..] && MERGE_SEP !in line[..sp]
  {
  }
}
