/**
  * Work distribution by an atomic counter, as a state machine whose steps are the workers' atomic
  * actions. A schedule names the worker that moves next; every property is about all schedules.
  */
module ParallelFor {
  datatype Worker =
    | Fetching           // about to take an index from the counter
    | Running(i: nat)    // holds index i, work(i) not yet done
    | Reporting(i: nat)  // work(i) failed, the flag not yet stored
    | Joined

  datatype State = State(next: nat, allOk: bool, workers: seq<Worker>, ran: seq<nat>)

  /** One atomic action of worker w. */
  function Step(n: nat, work: nat -> bool, s: State, w: nat): State {
    if w >= |s.workers| then s else
      match s.workers[w]
      case Fetching =>
        s.(next := s.next + 1, workers := s.workers[w := if s.next < n then Running(s.next) else Joined])
      case Running(i) =>
        s.(ran := s.ran + [i], workers := s.workers[w := if work(i) then Fetching else Reporting(i)])
      case Reporting(i) => s.(allOk := false, workers := s.workers[w := Fetching])
      case Joined => s
  }

  function Init(threads: nat): State {
    State(0, true, seq(threads, _ => Fetching), [])
  }

  /** The state after a schedule, from s. */
  function Run(n: nat, work: nat -> bool, s: State, schedule: seq<nat>): State
    decreases |schedule|
  {
    if schedule == [] then s else Run(n, work, Step(n, work, s, schedule[0]), schedule[1..])
  }

  predicate AllJoined(s: State) {
    forall w :: 0 <= w < |s.workers| ==> s.workers[w] == Joined
  }

  /** Indices handed out so far. */
  ghost predicate Taken(n: nat, s: State, i: nat) {
    i < n && i < s.next
  }

  ghost predicate Held(s: State, i: nat) {
    exists w :: 0 <= w < |s.workers| && s.workers[w] == Running(i)
  }

  ghost predicate NoDuplicates(ran: seq<nat>) {
    forall j, k :: 0 <= j < k < |ran| ==> ran[j] != ran[k]
  }

  /** Every index handed out has run once or is held by exactly one worker. */
  ghost predicate Fair(n: nat, s: State) {
    && NoDuplicates(s.ran)
    && (forall i :: i in s.ran ==> Taken(n, s, i))
    && (forall w :: 0 <= w < |s.workers| && s.workers[w].Running? ==>
      Taken(n, s, s.workers[w].i) && s.workers[w].i !in s.ran)
    && (forall v, w :: 0 <= v < w < |s.workers| && s.workers[v].Running? && s.workers[w].Running? ==>
      s.workers[v].i != s.workers[w].i)
    && (forall i :: Taken(n, s, i) ==> i in s.ran || Held(s, i))
    && (forall w :: 0 <= w < |s.workers| && s.workers[w] == Joined ==> s.next >= n)
  }

  /** The flag is down only for a failure, and every failure has lowered it or is about to. */
  ghost predicate Truthful(work: nat -> bool, s: State) {
    && (!s.allOk ==> exists i :: i in s.ran && !work(i))
    && (forall w :: 0 <= w < |s.workers| && s.workers[w].Reporting? ==>
      s.workers[w].i in s.ran && !work(s.workers[w].i))
    && (s.allOk ==> forall i :: i in s.ran && !work(i) ==> BeingReported(s, i))
  }

  ghost predicate BeingReported(s: State, i: nat) {
    exists w :: 0 <= w < |s.workers| && s.workers[w] == Reporting(i)
  }

  lemma StepKeepsFair(n: nat, work: nat -> bool, s: State, w: nat)
    requires Fair(n, s)
    ensures Fair(n, Step(n, work, s, w))
  {
    if w < |s.workers| {
      var s' := Step(n, work, s, w);
      forall i | Taken(n, s', i) ensures i in s'.ran || Held(s', i) {
        if Held(s, i) {
          var v :| 0 <= v < |s.workers| && s.workers[v] == Running(i);
          assert v != w ==> s'.workers[v] == Running(i);
        } else if i !in s'.ran {
          assert s'.workers[w] == Running(i);
        }
      }
    }
  }

  lemma StepKeepsTruthful(n: nat, work: nat -> bool, s: State, w: nat)
    requires Truthful(work, s)
    ensures Truthful(work, Step(n, work, s, w))
  {
    if w < |s.workers| {
      var s' := Step(n, work, s, w);
      if s'.allOk {
        forall i | i in s'.ran && !work(i) ensures BeingReported(s', i) {
          if i in s.ran {
            var v :| 0 <= v < |s.workers| && s.workers[v] == Reporting(i);
            assert v != w && s'.workers[v] == Reporting(i);
          } else {
            assert s'.workers[w] == Reporting(i);
          }
        }
      }
    }
  }

  lemma {:induction false} RunKeeps(n: nat, work: nat -> bool, s: State, schedule: seq<nat>)
    requires Fair(n, s) && Truthful(work, s)
    ensures Fair(n, Run(n, work, s, schedule)) && Truthful(work, Run(n, work, s, schedule))
    ensures |Run(n, work, s, schedule).workers| == |s.workers|
    decreases |schedule|
  {
    hide Fair, Truthful;
    if schedule != [] {
      StepKeepsFair(n, work, s, schedule[0]);
      StepKeepsTruthful(n, work, s, schedule[0]);
      RunKeeps(n, work, Step(n, work, s, schedule[0]), schedule[1..]);
    }
  }

  /** Once everyone has joined, every index has run exactly once and the flag is the conjunction of all results. */
  lemma JoinedIsComplete(n: nat, work: nat -> bool, s: State)
    requires Fair(n, s) && Truthful(work, s) && |s.workers| > 0 && AllJoined(s)
    ensures NoDuplicates(s.ran) && forall i: nat :: i in s.ran <==> i < n
    ensures s.allOk <==> forall i :: 0 <= i < n ==> work(i)
  {
    assert s.workers[0] == Joined;
    forall i | 0 <= i < n ensures i in s.ran {
      assert Taken(n, s, i);
    }
  }

  /** Under every schedule no index runs twice; and when all workers have joined, the result is right. */
  lemma EverySchedule(n: nat, work: nat -> bool, threads: nat, schedule: seq<nat>)
    requires threads > 0
    ensures var s := Run(n, work, Init(threads), schedule);
      && NoDuplicates(s.ran) && (forall i :: i in s.ran ==> i < n)
      && (AllJoined(s) ==> (forall i :: 0 <= i < n ==> i in s.ran) && (s.allOk <==> forall i :: 0 <= i < n ==> work(i)))
  {
    RunKeeps(n, work, Init(threads), schedule);
    var s := Run(n, work, Init(threads), schedule);
    if AllJoined(s) {
      JoinedIsComplete(n, work, s);
    }
  }

  // Progress.

  function Weight(w: Worker): nat {
    match w case Running(_) => 3 case Reporting(_) => 2 case Fetching => 1 case Joined => 0
  }

  function TotalWeight(workers: seq<Worker>): nat {
    if workers == [] then 0 else TotalWeight(workers[..|workers| - 1]) + Weight(workers[|workers| - 1])
  }

  /** An upper bound on the actions left. */
  function Left(n: nat, s: State): nat {
    3 * (if s.next < n then n - s.next else 0) + TotalWeight(s.workers)
  }

  lemma {:induction false} WeightUpdate(workers: seq<Worker>, w: nat, x: Worker)
    requires w < |workers|
    ensures TotalWeight(workers[w := x]) == TotalWeight(workers) - Weight(workers[w]) + Weight(x)
  {
    var last := |workers| - 1;
    if w == last {
      assert workers[w := x][..last] == workers[..last];
    } else {
      WeightUpdate(workers[..last], w, x);
      assert workers[w := x][..last] == workers[..last][w := x];
    }
  }

  /** Every action of a worker that has not joined uses up one unit; nothing ever goes up. */
  lemma StepDescends(n: nat, work: nat -> bool, s: State, w: nat)
    ensures Left(n, Step(n, work, s, w)) <= Left(n, s)
    ensures w < |s.workers| && s.workers[w] != Joined ==> Left(n, Step(n, work, s, w)) < Left(n, s)
    ensures |Step(n, work, s, w).workers| == |s.workers|
    ensures forall v :: 0 <= v < |s.workers| && v != w ==> Step(n, work, s, w).workers[v] == s.workers[v]
  {
    if w < |s.workers| {
      WeightUpdate(s.workers, w, Step(n, work, s, w).workers[w]);
    }
  }

  /** A round lets every worker move at least once. */
  ghost predicate Round(threads: nat, schedule: seq<nat>) {
    forall w :: 0 <= w < threads ==> w in schedule
  }

  lemma {:induction false} RunDescends(n: nat, work: nat -> bool, s: State, schedule: seq<nat>)
    ensures Left(n, Run(n, work, s, schedule)) <= Left(n, s) && |Run(n, work, s, schedule).workers| == |s.workers|
    ensures (exists w :: 0 <= w < |s.workers| && s.workers[w] != Joined && w in schedule) ==>
              Left(n, Run(n, work, s, schedule)) < Left(n, s)
    decreases |schedule|
  {
    if schedule != [] {
      var s' := Step(n, work, s, schedule[0]);
      StepDescends(n, work, s, schedule[0]);
      RunDescends(n, work, s', schedule[1..]);
      if w :| 0 <= w < |s.workers| && s.workers[w] != Joined && w in schedule && w != schedule[0] {
        assert s'.workers[w] == s.workers[w] && w in schedule[1..];
      }
    }
  }

  function RunRounds(n: nat, work: nat -> bool, s: State, rounds: seq<seq<nat>>): State
    decreases |rounds|
  {
    if rounds == [] then s else RunRounds(n, work, Run(n, work, s, rounds[0]), rounds[1..])
  }

  /** As many fair rounds as there are units left bring every worker to the join. */
  lemma {:induction false} RoundsFinish(n: nat, work: nat -> bool, s: State, rounds: seq<seq<nat>>)
    requires forall k :: 0 <= k < |rounds| ==> Round(|s.workers|, rounds[k])
    requires |rounds| >= Left(n, s)
    ensures AllJoined(RunRounds(n, work, s, rounds))
    decreases |rounds|
  {
    if rounds == [] {
      NothingLeft(n, s);
    } else {
      assert Round(|s.workers|, rounds[0]);
      RunDescends(n, work, s, rounds[0]);
      if !AllJoined(s) {
        var w :| 0 <= w < |s.workers| && s.workers[w] != Joined;
        assert w in rounds[0];
      }
      if AllJoined(s) {
        JoinedStays(n, work, s, rounds);
      } else {
        RoundsFinish(n, work, Run(n, work, s, rounds[0]), rounds[1..]);
      }
    }
  }

  lemma {:induction false} WeightAtLeast(workers: seq<Worker>, w: nat)
    requires w < |workers|
    ensures TotalWeight(workers) >= Weight(workers[w])
  {
    if w < |workers| - 1 {
      WeightAtLeast(workers[..|workers| - 1], w);
    }
  }

  lemma NothingLeft(n: nat, s: State)
    requires Left(n, s) == 0
    ensures AllJoined(s)
  {
    forall w | 0 <= w < |s.workers| ensures s.workers[w] == Joined { WeightAtLeast(s.workers, w); }
  }

  lemma {:induction false} JoinedStaysRun(n: nat, work: nat -> bool, s: State, schedule: seq<nat>)
    requires AllJoined(s)
    ensures Run(n, work, s, schedule) == s
    decreases |schedule|
  {
    if schedule != [] {
      JoinedStaysRun(n, work, s, schedule[1..]);
    }
  }

  lemma {:induction false} JoinedStays(n: nat, work: nat -> bool, s: State, rounds: seq<seq<nat>>)
    requires AllJoined(s)
    ensures RunRounds(n, work, s, rounds) == s
    decreases |rounds|
  {
    if rounds != [] {
      JoinedStaysRun(n, work, s, rounds[0]);
      JoinedStays(n, work, s, rounds[1..]);
    }
  }

  /** Worker threads: the request, or every usable CPU, clamped to [1, n]. */
  function Threads(n: int, requested: int, cpus: nat): (t: nat)
    requires n > 0
    ensures 1 <= t <= n
    ensures requested > 0 ==> t == if requested < n then requested else n
    ensures requested <= 0 && cpus > 0 ==> t == if cpus < n then cpus else n
  {
    var wanted := if requested <= 0 then cpus else requested;
    var capped := if n < wanted then n else wanted;
    if capped < 1 then 1 else capped
  }

  /** parallel_for_all under an arbitrary scheduler: it terminates with the conjunction of all results. */
  method ParallelForAll(n: int, requested: int, cpus: nat, work: nat -> bool) returns (ok: bool)
    ensures ok <==> forall i: nat :: i < n ==> work(i)
  {
    if n <= 0 {
      return true;
    }
    var s := Init(Threads(n, requested, cpus));
    while !AllJoined(s)
      invariant Fair(n, s) && Truthful(work, s) && |s.workers| > 0
      decreases Left(n, s)
    {
      var w: nat :| w < |s.workers| && s.workers[w] != Joined;
      StepKeepsFair(n, work, s, w);
      StepKeepsTruthful(n, work, s, w);
      StepDescends(n, work, s, w);
      s := Step(n, work, s, w);
    }
    JoinedIsComplete(n, work, s);
    return s.allOk;
  }
}
