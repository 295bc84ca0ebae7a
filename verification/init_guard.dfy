/** gl_get_setlocale_null_lock on native Windows: a counter and a flag that let the first
    caller initialize a lock while the others wait. */
module InitGuard {
  import opened Threads

  /** Where a thread is: the step it takes next. */
  datatype Pc =
    | Start        // if (!guard.done)
    | Increment    // InterlockedIncrement (&guard.started) == 0
    | Initialize   // InitializeCriticalSection
    | SetDone      // guard.done = 1
    | Decrement    // InterlockedDecrement (&guard.started)
    | Wait         // while (!guard.done) Sleep (0)
    | Returned     // may call again

  /** `started` is a 32-bit LONG; `made` counts the initializations. */
  datatype State = State(pcs: seq<Pc>, started: int, done: bool, made: nat)

  const LONG_VALUES := 0x1_0000_0000

  /** The signed 32-bit value with the same low-order bits. */
  function Long(x: int): int { (x + LONG_VALUES / 2) % LONG_VALUES - LONG_VALUES / 2 }

  predicate IsLong(x: int) { -LONG_VALUES / 2 <= x < LONG_VALUES / 2 }

  function Initial(n: nat, started: int): State { State(seq(n, i => Start), started, false, 0) }

  /** One step of thread `i`; a thread that waits in vain stays where it is. */
  function Step(s: State, i: nat): State {
    if i >= |s.pcs| then s else
    match s.pcs[i]
    case Start => s.(pcs := s.pcs[i := if s.done then Returned else Increment])
    case Increment =>
      var started := Long(s.started + 1);
      s.(started := started, pcs := s.pcs[i := if started == 0 then Initialize else Decrement])
    case Initialize => s.(made := s.made + 1, pcs := s.pcs[i := SetDone])
    case SetDone => s.(done := true, pcs := s.pcs[i := Returned])
    case Decrement => s.(started := Long(s.started - 1), pcs := s.pcs[i := Wait])
    case Wait => if s.done then s.(pcs := s.pcs[i := Returned]) else s
    case Returned => s.(pcs := s.pcs[i := Start])
  }

  function Run(s: State, schedule: seq<nat>): State
    decreases |schedule|
  {
    if schedule == [] then s else Step(Run(s, schedule[..|schedule| - 1]), schedule[|schedule| - 1])
  }

  /** The threads whose increment has not been taken back yet, other than the first. */
  predicate Counting(pc: Pc) { pc.Decrement? }

  predicate Making(pc: Pc) { pc.Initialize? || pc.SetDone? }

  predicate Made(pc: Pc) { pc.SetDone? }

  /** Whether some thread has been chosen to initialize. */
  ghost predicate Chosen(s: State) { s.done || Count(s.pcs, Making) > 0 }

  ghost predicate Inv(s: State) {
    && s.started == Long(Count(s.pcs, Counting) + if Chosen(s) then 0 else -1)
    && Count(s.pcs, Making) + (if s.done then 1 else 0) <= 1
    && (!Chosen(s) ==> Count(s.pcs, Counting) == 0)
    && s.made == (if s.done || Count(s.pcs, Made) > 0 then 1 else 0)
    && (forall i | 0 <= i < |s.pcs| && s.pcs[i].Returned? :: s.done)
    && (forall i | 0 <= i < |s.pcs| && s.pcs[i].Wait? :: Chosen(s))
    && (s.done ==> exists i :: 0 <= i < |s.pcs| && (s.pcs[i].Returned? || s.pcs[i].Start?))
  }

  lemma InitialInv(n: nat)
    ensures Inv(Initial(n, -1))
  {
    CountNone(Initial(n, -1).pcs, Counting);
    CountNone(Initial(n, -1).pcs, Making);
    CountNone(Initial(n, -1).pcs, Made);
  }

  lemma LongNear(x: int, c: nat)
    requires x == Long(c - 1) && 0 <= c < LONG_VALUES
    ensures Long(x + 1) == Long(c) && (Long(c) == 0 <==> c == 0)
  {
  }

  lemma LongDown(x: int, c: int)
    requires x == Long(c)
    ensures Long(x - 1) == Long(c - 1) && Long(x + 1) == Long(c + 1)
  {
  }

  /** With at most 2^32 threads the counter never gets back to 0 once a thread is chosen. */
  lemma StepInv(s: State, i: nat)
    requires i < |s.pcs| <= LONG_VALUES && Inv(s)
    ensures Inv(Step(s, i))
  {
    hide Long, Count;
    var s' := Step(s, i);
    var pc := s'.pcs[i];
    assert s'.pcs == s.pcs[i := pc];
    var c := Count(s.pcs, Counting);
    CountMove(s.pcs, i, pc, Counting);
    CountMove(s.pcs, i, pc, Making);
    CountMove(s.pcs, i, pc, Made);
    CountNone(s.pcs, Making);
    CountNone(s'.pcs, Making);
    CountNone(s.pcs, Made);
    CountNone(s'.pcs, Made);
    if s.pcs[i].Increment? {
      if Chosen(s) { FewerCounting(s, i); }
      LongNear(s.started, if Chosen(s) then c + 1 else 0);
    }
    if s.pcs[i].Decrement? { LongDown(s.started, c); }
    if Making(s.pcs[i]) { OnlyMaker(s, i); }
    if s.done { StillOut(s, i); }
    if s.pcs[i].Decrement? { CountNone(s.pcs, Counting); }
  }

  lemma StillOut(s: State, i: nat)
    requires i < |s.pcs| && s.done && exists k :: 0 <= k < |s.pcs| && (s.pcs[k].Returned? || s.pcs[k].Start?)
    ensures exists k :: 0 <= k < |s.pcs| && (Step(s, i).pcs[k].Returned? || Step(s, i).pcs[k].Start?)
  {
    var k :| 0 <= k < |s.pcs| && (s.pcs[k].Returned? || s.pcs[k].Start?);
    assert Step(s, i).pcs[k].Returned? || Step(s, i).pcs[k].Start?;
  }

  /** One thread increments and another is past that: these two do not count. */
  lemma FewerCounting(s: State, i: nat)
    requires i < |s.pcs| <= LONG_VALUES && s.pcs[i].Increment? && Chosen(s)
    requires s.done ==> exists k :: 0 <= k < |s.pcs| && (s.pcs[k].Returned? || s.pcs[k].Start?)
    ensures Count(s.pcs, Counting) + 2 <= |s.pcs|
  {
    CountNone(s.pcs, Making);
    var k :| 0 <= k < |s.pcs| && (s.pcs[k].Returned? || s.pcs[k].Start? || Making(s.pcs[k]));
    var p := s.pcs[i := Decrement];
    CountMove(s.pcs, i, Decrement, Counting);
    CountMove(p, k, Decrement, Counting);
    CountNone(p[k := Decrement], Counting);
  }

  lemma OnlyMaker(s: State, i: nat)
    requires i < |s.pcs| && Making(s.pcs[i]) && Count(s.pcs, Making) <= 1
    ensures forall j | 0 <= j < |s.pcs| && j != i :: !Making(s.pcs[j])
  {
    CountMove(s.pcs, i, Start, Making);
    CountNone(s.pcs[i := Start], Making);
    forall j | 0 <= j < |s.pcs| && j != i ensures !Making(s.pcs[j]) { assert s.pcs[i := Start][j] == s.pcs[j]; }
  }

  lemma {:induction false} RunInv(n: nat, schedule: seq<nat>)
    requires n <= LONG_VALUES
    ensures Inv(Run(Initial(n, -1), schedule)) && |Run(Initial(n, -1), schedule).pcs| == n
    decreases |schedule|
  {
    hide Inv;
    if schedule == [] {
      InitialInv(n);
    } else {
      var rest, i := schedule[..|schedule| - 1], schedule[|schedule| - 1];
      RunInv(n, rest);
      if i < n { StepInv(Run(Initial(n, -1), rest), i); }
    }
  }

  /** The lock is initialized at most once, and before any caller gets it. */
  ghost predicate Safe(s: State) { s.made <= 1 && forall i | 0 <= i < |s.pcs| && s.pcs[i].Returned? :: s.made == 1 }

  /** Every run that starts from -1 is safe. */
  lemma InitializedOnce(n: nat, schedule: seq<nat>)
    requires n <= LONG_VALUES
    ensures Safe(Run(Initial(n, -1), schedule))
  {
    RunInv(n, schedule);
  }

  // ----- More than 2^32 threads -----

  /** Thread 0 has initialized; threads 1 to `k` have incremented the counter and not taken it
      back; the others have not begun. */
  ghost predicate Piled(s: State, n: nat, k: nat) {
    && |s.pcs| == n > k && s.pcs[0] == SetDone && s.started == Long(k) && !s.done && s.made == 1
    && (forall i | 1 <= i <= k :: s.pcs[i] == Decrement)
    && (forall i | k < i < n :: s.pcs[i] == Start)
  }

  lemma RunMore(s: State, schedule: seq<nat>, i: nat)
    ensures Run(s, schedule + [i]) == Step(Run(s, schedule), i)
  {
    assert (schedule + [i])[..|schedule|] == schedule;
  }

  lemma FirstMade(n: nat) returns (schedule: seq<nat>)
    requires n > 0
    ensures Piled(Run(Initial(n, -1), schedule), n, 0)
  {
    var s := Initial(n, -1);
    schedule := [] + [0] + [0] + [0];
    assert Run(s, []) == s;
    RunMore(s, [], 0);
    RunMore(s, [] + [0], 0);
    RunMore(s, [] + [0] + [0], 0);
    hide Run;
  }

  /** One more thread increments the counter. */
  lemma PileOne(s: State, n: nat, k: nat)
    requires Piled(s, n, k) && k + 1 < n && k < LONG_VALUES
    ensures var s' := Step(Step(s, k + 1), k + 1);
      && (k + 1 < LONG_VALUES ==> Piled(s', n, k + 1))
      && (k + 1 == LONG_VALUES ==> Step(s', k + 1).made == 2)
  {
    LongDown(s.started, k);
    LongZero(k + 1);
    hide Long;
  }

  lemma LongZero(c: nat)
    requires 0 < c <= LONG_VALUES
    ensures Long(c) == 0 <==> c == LONG_VALUES
  {
  }

  lemma {:induction false} PileUp(n: nat, k: nat) returns (schedule: seq<nat>)
    requires k < n && k < LONG_VALUES
    ensures Piled(Run(Initial(n, -1), schedule), n, k)
    decreases k
  {
    hide Run, Step, Piled, Long;
    if k == 0 {
      schedule := FirstMade(n);
    } else {
      var before := PileUp(n, k - 1);
      PileOne(Run(Initial(n, -1), before), n, k - 1);
      RunMore(Initial(n, -1), before, k);
      RunMore(Initial(n, -1), before + [k], k);
      schedule := before + [k] + [k];
    }
  }

  /** With one thread more the counter wraps around to 0 before the flag is set, and a second
      thread initializes. */
  lemma MadeTwice(n: nat) returns (schedule: seq<nat>)
    requires n > LONG_VALUES
    ensures Run(Initial(n, -1), schedule).made == 2
  {
    hide Run, Step, Piled, Long;
    var k := LONG_VALUES - 1;
    var before := PileUp(n, k);
    PileOne(Run(Initial(n, -1), before), n, k);
    RunMore(Initial(n, -1), before, k + 1);
    RunMore(Initial(n, -1), before + [k + 1], k + 1);
    RunMore(Initial(n, -1), before + [k + 1] + [k + 1], k + 1);
    schedule := before + [k + 1] + [k + 1] + [k + 1];
  }

  /** Every run is safe exactly up to 2^32 threads. */
  lemma SafeExactly(n: nat)
    ensures n <= 4294967296 <==> forall schedule :: Safe(Run(Initial(n, -1), schedule))
  {
    hide Run;
    if n <= LONG_VALUES {
      forall schedule ensures Safe(Run(Initial(n, -1), schedule)) { InitializedOnce(n, schedule); }
    } else {
      var schedule := MadeTwice(n);
      assert !Safe(Run(Initial(n, -1), schedule));
    }
  }

  // ----- Everyone returns -----

  /** A step of a thread that does not call again. */
  function LastStep(s: State, i: nat): State { if i < |s.pcs| && s.pcs[i].Returned? then s else Step(s, i) }

  /** At most so many steps are left until the thread returns, other than waiting. */
  function Togo(pc: Pc): (k: nat)
    ensures k <= 5 && (k == 0 <==> pc.Returned?)
  {
    match pc
    case Start => 5 case Increment => 4 case Initialize => 3 case SetDone => 2 case Decrement => 2 case Wait => 1 case Returned => 0
  }

  ghost predicate InvOf(s: State, n: nat) { Inv(s) && |s.pcs| == n }

  /** A thread that waits in vain waits for one that can go on. */
  lemma SomeoneCanStep(s: State, i: nat) returns (j: nat)
    requires Inv(s) && i < |s.pcs| && !s.pcs[i].Returned?
    ensures j < |s.pcs| && !s.pcs[j].Returned? && Step(s, j) != s
  {
    j := i;
    if s.pcs[i].Wait? && !s.done {
      CountNone(s.pcs, Making);
      j :| 0 <= j < |s.pcs| && Making(s.pcs[j]);
    }
    assert Step(s, j).pcs[j] != s.pcs[j];
  }

  lemma LastStepsProgress(n: nat)
    requires n <= LONG_VALUES
    ensures Progresses(LastStep, (s: State) => InvOf(s, n), (s: State) => Sum(s.pcs, Togo), n)
  {
    hide Inv;
    forall s: State, i: nat | InvOf(s, n)
      ensures InvOf(LastStep(s, i), n) && (LastStep(s, i) == s || Sum(LastStep(s, i).pcs, Togo) < Sum(s.pcs, Togo))
    {
      if i < n { StepInv(s, i); }
      LessToGo(s, i);
    }
    forall s: State | InvOf(s, n) && Sum(s.pcs, Togo) > 0 ensures exists j: nat :: j < n && LastStep(s, j) != s {
      SumBound(s.pcs, Togo, 5);
      var i :| 0 <= i < |s.pcs| && Togo(s.pcs[i]) != 0;
      var j := SomeoneCanStep(s, i);
      assert LastStep(s, j) != s;
    }
  }

  lemma LessToGo(s: State, i: nat)
    ensures LastStep(s, i) == s || Sum(LastStep(s, i).pcs, Togo) < Sum(s.pcs, Togo)
  {
    if i < |s.pcs| && LastStep(s, i) != s {
      var pc := LastStep(s, i).pcs[i];
      assert LastStep(s, i).pcs == s.pcs[i := pc];
      SumMove(s.pcs, i, pc, Togo);
    }
  }

  /** From any point of any run, if nobody calls again and everyone gets a turn in each of
      five rounds for every thread, all callers get the lock. */
  lemma EveryoneReturns(n: nat, schedule: seq<nat>, rounds: seq<seq<nat>>)
    requires n <= LONG_VALUES && Fair(rounds, n) && |rounds| >= 5 * n
    ensures var s := Rounds(LastStep, Run(Initial(n, -1), schedule), rounds);
      |s.pcs| == n && forall i | 0 <= i < n :: s.pcs[i].Returned?
  {
    RunInv(n, schedule);
    var s0 := Run(Initial(n, -1), schedule);
    SumBound(s0.pcs, Togo, 5);
    LastStepsProgress(n);
    FairRuns(LastStep, (s: State) => InvOf(s, n), (s: State) => Sum(s.pcs, Togo), n, s0, rounds);
    SumBound(Rounds(LastStep, s0, rounds).pcs, Togo, 5);
  }

  // ----- Why the counter has to start from -1 -----

  /** One caller alone. */
  ghost predicate Gone(v: int, s: State) {
    && |s.pcs| == 1 && !s.done
    && (s.pcs[0].Start? || s.pcs[0].Increment? || s.pcs[0].Wait? ==> s.started == v)
    && (s.pcs[0].Decrement? ==> s.started == Long(v + 1))
    && (s.pcs[0].Start? || s.pcs[0].Increment? || s.pcs[0].Decrement? || s.pcs[0].Wait?)
  }

  lemma {:induction false} NeverReturns(v: int, schedule: seq<nat>)
    requires IsLong(v) && v != -1
    ensures Gone(v, Run(Initial(1, v), schedule))
    decreases |schedule|
  {
    LongBack(v);
    if schedule != [] { NeverReturns(v, schedule[..|schedule| - 1]); }
  }

  lemma LongBack(v: int)
    requires IsLong(v)
    ensures Long(Long(v + 1) - 1) == v && (Long(v + 1) == 0 <==> v == -1)
  {
  }

  /** A caller on its own can get the lock exactly if the counter starts from -1. */
  lemma StartsFromMinusOne(v: int)
    requires -0x8000_0000 <= v < 0x8000_0000
    ensures v == -1 <==> exists schedule :: Run(Initial(1, v), schedule).pcs == [Returned]
  {
    if v == -1 {
      var s := Initial(1, -1);
      var s1, s2, s3, s4 := [0], [0, 0], [0, 0, 0], [0, 0, 0, 0];
      assert s1[..0] == [] && s2[..1] == s1 && s3[..2] == s2 && s4[..3] == s3;
      assert Run(s, s1).pcs == [Increment];
      assert Run(s, s2).pcs == [Initialize];
      assert Run(s, s3).pcs == [SetDone];
      assert Run(s, s4).pcs == [Returned];
    } else {
      forall schedule ensures Run(Initial(1, v), schedule).pcs != [Returned] { NeverReturns(v, schedule); }
    }
  }
}
