/** Byte pair encoding by definition: merge the adjacent pair of least rank, leftmost on ties, until none is left. */
module Bpe {
  import opened Wrappers

  type Piece = seq<byte>

  /** Rank of a pair of adjacent pieces; negative when there is no such merge. */
  type Ranking = (Piece, Piece) -> int

  function RankAt(rank: Ranking, ps: seq<Piece>, k: nat): int
    requires k + 1 < |ps|
  {
    rank(ps[k], ps[k + 1])
  }

  predicate Mergeable(rank: Ranking, ps: seq<Piece>, k: nat) {
    k + 1 < |ps| && RankAt(rank, ps, k) >= 0
  }

  /** The pair to merge next. */
  ghost predicate IsBest(rank: Ranking, ps: seq<Piece>, k: nat) {
    && Mergeable(rank, ps, k)
    && forall j :: Mergeable(rank, ps, j) ==>
        RankAt(rank, ps, k) < RankAt(rank, ps, j) || (RankAt(rank, ps, k) == RankAt(rank, ps, j) && k <= j)
  }

  /** The best pair among the first n positions. */
  function BestBelow(rank: Ranking, ps: seq<Piece>, n: nat): (best: Option<nat>)
    ensures best.Some? ==> best.value < n && Mergeable(rank, ps, best.value)
  {
    if n == 0 then None else
      var best := BestBelow(rank, ps, n - 1);
      if Mergeable(rank, ps, n - 1) && (best.None? || RankAt(rank, ps, n - 1) < RankAt(rank, ps, best.value))
      then Some(n - 1) else best
  }

  function Best(rank: Ranking, ps: seq<Piece>): (best: Option<nat>)
    ensures best.Some? ==> Mergeable(rank, ps, best.value)
  {
    BestBelow(rank, ps, |ps|)
  }

  function MergeAt(ps: seq<Piece>, k: nat): (merged: seq<Piece>)
    requires k + 1 < |ps|
    ensures |merged| == |ps| - 1 && merged[k] == ps[k] + ps[k + 1]
    ensures forall i :: 0 <= i < k ==> merged[i] == ps[i]
    ensures forall i :: k < i < |merged| ==> merged[i] == ps[i + 1]
  {
    ps[..k] + [ps[k] + ps[k + 1]] + ps[k + 2..]
  }

  function NaiveBpe(rank: Ranking, ps: seq<Piece>): seq<Piece>
    decreases |ps|
  {
    match Best(rank, ps)
    case None => ps
    case Some(k) => NaiveBpe(rank, MergeAt(ps, k))
  }

  lemma {:induction false} BestBelowIs(rank: Ranking, ps: seq<Piece>, n: nat)
    ensures var best := BestBelow(rank, ps, n);
      if best.None? then forall j :: 0 <= j < n ==> !Mergeable(rank, ps, j)
      else forall j :: 0 <= j < n && Mergeable(rank, ps, j) ==>
        RankAt(rank, ps, best.value) < RankAt(rank, ps, j)
        || (RankAt(rank, ps, best.value) == RankAt(rank, ps, j) && best.value <= j)
  {
    if n > 0 {
      BestBelowIs(rank, ps, n - 1);
    }
  }

  /** Best is the one pair that is best, and None exactly when no pair can be merged. */
  lemma BestIs(rank: Ranking, ps: seq<Piece>)
    ensures Best(rank, ps) == None <==> forall k :: !Mergeable(rank, ps, k)
    ensures forall k: nat :: Best(rank, ps) == Some(k) <==> IsBest(rank, ps, k)
  {
    BestBelowIs(rank, ps, |ps|);
    forall k: nat ensures Best(rank, ps) == Some(k) <==> IsBest(rank, ps, k) {
      if IsBest(rank, ps, k) {
        var best := Best(rank, ps);
        assert best.Some? && Mergeable(rank, ps, best.value);
      }
    }
  }

  function Concat(ps: seq<Piece>): Piece {
    if ps == [] then [] else ps[0] + Concat(ps[1..])
  }

  lemma {:induction false} ConcatAppend(a: seq<Piece>, b: seq<Piece>)
    ensures Concat(a + b) == Concat(a) + Concat(b)
  {
    if a == [] {
      assert a + b == b;
    } else {
      assert (a + b)[1..] == a[1..] + b;
      ConcatAppend(a[1..], b);
    }
  }

  lemma ConcatOne(p: Piece)
    ensures Concat([p]) == p
  {
    assert Concat([p]) == p + Concat([]);
  }

  lemma ConcatPrepend(p: Piece, rest: seq<Piece>)
    ensures Concat([p] + rest) == p + Concat(rest)
  {
    assert ([p] + rest)[1..] == rest;
  }

  lemma MergeShape(ps: seq<Piece>, k: nat)
    requires k + 1 < |ps|
    ensures ps == ps[..k] + ([ps[k]] + ([ps[k + 1]] + ps[k + 2..]))
    ensures MergeAt(ps, k) == ps[..k] + ([ps[k] + ps[k + 1]] + ps[k + 2..])
  {
  }

  lemma ConcatJoins(x: seq<Piece>, a: Piece, b: Piece, y: seq<Piece>)
    ensures Concat(x + ([a] + ([b] + y))) == Concat(x + ([a + b] + y))
  {
    hide Concat;
    ConcatAppend(x, [a] + ([b] + y));
    ConcatAppend(x, [a + b] + y);
    ConcatPrepend(a, [b] + y);
    ConcatPrepend(b, y);
    ConcatPrepend(a + b, y);
  }

  lemma MergeKeepsConcat(ps: seq<Piece>, k: nat)
    requires k + 1 < |ps|
    ensures Concat(MergeAt(ps, k)) == Concat(ps)
  {
    hide Concat, MergeAt;
    MergeShape(ps, k);
    ConcatJoins(ps[..k], ps[k], ps[k + 1], ps[k + 2..]);
  }

  /** Merging loses no byte, makes no piece, and keeps any property that is closed under joining pieces. */
  lemma {:induction false} NaiveKeeps(rank: Ranking, ps: seq<Piece>, good: Piece -> bool)
    requires forall a, b :: good(a) && good(b) ==> good(a + b)
    requires forall i :: 0 <= i < |ps| ==> good(ps[i])
    ensures Concat(NaiveBpe(rank, ps)) == Concat(ps)
    ensures |NaiveBpe(rank, ps)| <= |ps|
    ensures forall i :: 0 <= i < |NaiveBpe(rank, ps)| ==> good(NaiveBpe(rank, ps)[i])
    decreases |ps|
  {
    hide Concat;
    var best := Best(rank, ps);
    if best.Some? {
      MergeKeepsConcat(ps, best.value);
      NaiveKeeps(rank, MergeAt(ps, best.value), good);
    }
  }

  // What the definition computes.

  /** One merge: the neighbours joined have the least rank, and are leftmost among those that do. */
  ghost predicate BestStep(rank: Ranking, a: seq<Piece>, b: seq<Piece>) {
    exists k: nat :: JoinsBest(rank, a, b, k)
  }

  ghost predicate JoinsBest(rank: Ranking, a: seq<Piece>, b: seq<Piece>, k: nat) {
    && k + 1 < |a| && rank(a[k], a[k + 1]) >= 0
    && b == a[..k] + [a[k] + a[k + 1]] + a[k + 2..]
    && forall j: nat :: j + 1 < |a| && rank(a[j], a[j + 1]) >= 0 ==>
      rank(a[k], a[k + 1]) < rank(a[j], a[j + 1]) || (rank(a[k], a[k + 1]) == rank(a[j], a[j + 1]) && k <= j)
  }

  /** Successive segmentations, each one best merge after the one before. */
  ghost predicate IsTrace(rank: Ranking, trace: seq<seq<Piece>>) {
    |trace| > 0 && forall i :: 0 <= i < |trace| - 1 ==> BestStep(rank, trace[i], trace[i + 1])
  }

  /** No two neighbours have a rank. */
  ghost predicate Unranked(rank: Ranking, ps: seq<Piece>) {
    forall k: nat :: k + 1 < |ps| ==> rank(ps[k], ps[k + 1]) < 0
  }

  lemma BestJoins(rank: Ranking, ps: seq<Piece>, k: nat)
    requires IsBest(rank, ps, k)
    ensures BestStep(rank, ps, MergeAt(ps, k))
  {
    forall j: nat | j + 1 < |ps| && rank(ps[j], ps[j + 1]) >= 0
      ensures rank(ps[k], ps[k + 1]) < rank(ps[j], ps[j + 1])
              || (rank(ps[k], ps[k + 1]) == rank(ps[j], ps[j + 1]) && k <= j)
    {
      assert Mergeable(rank, ps, j);
    }
    assert JoinsBest(rank, ps, MergeAt(ps, k), k);
  }

  /** Merging the best pair first changes nothing. */
  lemma NaiveMergesBest(rank: Ranking, ps: seq<Piece>, k: nat)
    requires IsBest(rank, ps, k)
    ensures NaiveBpe(rank, ps) == NaiveBpe(rank, MergeAt(ps, k))
  {
    BestIs(rank, ps);
  }

  /** The result is reached by best merges, one after the other, until no neighbours have a rank. */
  lemma {:induction false} NaiveTrace(rank: Ranking, ps: seq<Piece>) returns (trace: seq<seq<Piece>>)
    ensures IsTrace(rank, trace) && trace[0] == ps && trace[|trace| - 1] == NaiveBpe(rank, ps)
    ensures Unranked(rank, NaiveBpe(rank, ps))
    decreases |ps|
  {
    BestIs(rank, ps);
    if Best(rank, ps).None? {
      trace := [ps];
      forall k: nat | k + 1 < |ps|
        ensures rank(ps[k], ps[k + 1]) < 0
      {
        assert !Mergeable(rank, ps, k);
      }
    } else {
      var k := Best(rank, ps).value;
      BestJoins(rank, ps, k);
      var rest := NaiveTrace(rank, MergeAt(ps, k));
      hide BestStep;
      trace := [ps] + rest;
      assert forall i :: 1 <= i < |trace| ==> trace[i] == rest[i - 1];
    }
  }

  /** A pair with a rank is merged. */
  lemma NaiveMergesPair(rank: Ranking, a: Piece, b: Piece)
    ensures NaiveBpe(rank, [a, b]) == if rank(a, b) >= 0 then [a + b] else [a, b]
  {
    if rank(a, b) >= 0 {
      assert IsBest(rank, [a, b], 0) && MergeAt([a, b], 0) == [a + b];
      NaiveMergesBest(rank, [a, b], 0);
      BestIs(rank, [a + b]);
    } else {
      BestIs(rank, [a, b]);
    }
  }
}
