/** Counting the threads that are at certain places. */
module Threads {

  ghost function Count<T>(pcs: seq<T>, zone: T -> bool): nat {
    if pcs == [] then 0 else Count(pcs[..|pcs| - 1], zone) + if zone(pcs[|pcs| - 1]) then 1 else 0
  }

  lemma {:induction false} CountMove<T>(pcs: seq<T>, i: nat, pc: T, zone: T -> bool)
    requires i < |pcs|
    ensures Count(pcs[i := pc], zone) ==
      Count(pcs, zone) - (if zone(pcs[i]) then 1 else 0) + (if zone(pc) then 1 else 0)
  {
    var n := |pcs| - 1;
    if i < n {
      CountMove(pcs[..n], i, pc, zone);
      assert pcs[i := pc][..n] == pcs[..n][i := pc];
    } else {
      assert pcs[i := pc][..n] == pcs[..n];
    }
  }

  lemma {:induction false} CountNone<T>(pcs: seq<T>, zone: T -> bool)
    ensures Count(pcs, zone) <= |pcs|
    ensures Count(pcs, zone) == 0 <==> forall i | 0 <= i < |pcs| :: !zone(pcs[i])
    ensures forall i | 0 <= i < |pcs| && zone(pcs[i]) :: Count(pcs, zone) > 0
  {
    if pcs != [] {
      var rest := pcs[..|pcs| - 1];
      CountNone(rest, zone);
      forall i | 0 <= i < |pcs| ensures pcs[i] == if i < |rest| then rest[i] else pcs[|pcs| - 1] {}
      if Count(rest, zone) == 0 && !zone(pcs[|pcs| - 1]) {
        forall i | 0 <= i < |pcs| ensures !zone(pcs[i]) { if i < |rest| { assert !zone(rest[i]); } }
      } else if Count(rest, zone) > 0 {
        var i :| 0 <= i < |rest| && zone(rest[i]);
        assert zone(pcs[i]);
      }
    }
  }

  /** The sum of a measure over the threads. */
  ghost function Sum<T>(pcs: seq<T>, f: T -> nat): nat {
    if pcs == [] then 0 else Sum(pcs[..|pcs| - 1], f) + f(pcs[|pcs| - 1])
  }

  lemma {:induction false} SumMove<T>(pcs: seq<T>, i: nat, pc: T, f: T -> nat)
    requires i < |pcs|
    ensures Sum(pcs[i := pc], f) == Sum(pcs, f) - f(pcs[i]) + f(pc)
  {
    var n := |pcs| - 1;
    if i < n {
      SumMove(pcs[..n], i, pc, f);
      assert pcs[i := pc][..n] == pcs[..n][i := pc];
    } else {
      assert pcs[i := pc][..n] == pcs[..n];
    }
  }

  lemma {:induction false} SumBound<T>(pcs: seq<T>, f: T -> nat, most: nat)
    requires forall i | 0 <= i < |pcs| :: f(pcs[i]) <= most
    ensures Sum(pcs, f) <= most * |pcs|
    ensures Sum(pcs, f) == 0 <==> forall i | 0 <= i < |pcs| :: f(pcs[i]) == 0
  {
    if pcs != [] {
      var rest := pcs[..|pcs| - 1];
      forall i | 0 <= i < |rest| ensures rest[i] == pcs[i] {}
      SumBound(rest, f, most);
      assert most * |pcs| == most * |rest| + most;
      if forall i | 0 <= i < |rest| :: f(rest[i]) == 0 {
        forall i | 0 <= i < |pcs| && f(pcs[|pcs| - 1]) == 0 ensures f(pcs[i]) == 0 {
          if i < |rest| { assert f(rest[i]) == 0; }
        }
      } else {
        var i :| 0 <= i < |rest| && f(rest[i]) != 0;
        assert f(pcs[i]) != 0;
      }
    }
  }

  // ----- Runs in which every thread gets its turn -----

  /** The state after the threads named in `schedule` have taken their steps. */
  ghost function Steps<S>(step: (S, nat) -> S, s: S, schedule: seq<nat>): S
    decreases |schedule|
  {
    if schedule == [] then s else Steps(step, step(s, schedule[0]), schedule[1..])
  }

  ghost function Rounds<S>(step: (S, nat) -> S, s: S, rounds: seq<seq<nat>>): S
    decreases |rounds|
  {
    if rounds == [] then s else Rounds(step, Steps(step, s, rounds[0]), rounds[1..])
  }

  /** Every thread is named in every round. */
  ghost predicate Fair(rounds: seq<seq<nat>>, n: nat) {
    forall k, i: nat | 0 <= k < |rounds| && i < n :: i in rounds[k]
  }

  /** A step that changes anything leaves less to do, and while there is something to do some
      thread can take such a step. */
  ghost predicate Progresses<S(!new)>(step: (S, nat) -> S, inv: S -> bool, rank: S -> nat, n: nat) {
    && (forall s, i: nat | inv(s) :: inv(step(s, i)) && (step(s, i) == s || rank(step(s, i)) < rank(s)))
    && (forall s | inv(s) && rank(s) > 0 :: exists j: nat :: j < n && step(s, j) != s)
  }

  lemma {:induction false} StepsKeep<S(!new)>(step: (S, nat) -> S, inv: S -> bool, rank: S -> nat, n: nat, s: S, schedule: seq<nat>)
    requires Progresses(step, inv, rank, n) && inv(s)
    ensures inv(Steps(step, s, schedule)) && rank(Steps(step, s, schedule)) <= rank(s)
    decreases |schedule|
  {
    if schedule != [] { StepsKeep(step, inv, rank, n, step(s, schedule[0]), schedule[1..]); }
  }

  /** If a thread that could step is given its turn, something has happened by then. */
  lemma {:induction false} RoundMoves<S(!new)>(step: (S, nat) -> S, inv: S -> bool, rank: S -> nat, n: nat, s: S, round: seq<nat>, j: nat)
    requires Progresses(step, inv, rank, n) && inv(s) && j in round && step(s, j) != s
    ensures rank(Steps(step, s, round)) < rank(s)
    decreases |round|
  {
    var s1 := step(s, round[0]);
    if s1 == s {
      RoundMoves(step, inv, rank, n, s, round[1..], j);
    } else {
      StepsKeep(step, inv, rank, n, s1, round[1..]);
    }
  }

  /** With as many rounds as there is to do, everything gets done. */
  lemma {:induction false} FairRuns<S(!new)>(step: (S, nat) -> S, inv: S -> bool, rank: S -> nat, n: nat, s: S, rounds: seq<seq<nat>>)
    requires Progresses(step, inv, rank, n) && inv(s) && Fair(rounds, n) && rank(s) <= |rounds|
    ensures inv(Rounds(step, s, rounds)) && rank(Rounds(step, s, rounds)) == 0
    decreases |rounds|
  {
    if rounds != [] {
      var s1 := Steps(step, s, rounds[0]);
      StepsKeep(step, inv, rank, n, s, rounds[0]);
      if rank(s) > 0 {
        var j: nat :| j < n && step(s, j) != s;
        RoundMoves(step, inv, rank, n, s, rounds[0], j);
      }
      assert forall k | 0 <= k < |rounds[1..]| :: rounds[1..][k] == rounds[k + 1];
      FairRuns(step, inv, rank, n, s1, rounds[1..]);
    }
  }
}
