/** pthread_once for Cygwin: a lock, a 16-bit counter of callers and a word `done`. Every
    atomic access is one step of one thread; a run is any sequence of steps. */
module PthreadOnce {
  import opened Threads

  /** Where a thread is: the step it takes next. */
  datatype Pc =
    | Start        // if (done == 0)
    | Enter        // num_threads += 1
    | Recheck      // if (done == 0)
    | Lock         // pthread_mutex_lock
    | Locked       // if (done == 0)
    | Init         // call initfunction
    | Running      // inside initfunction
    | SetDone      // done = 1
    | Unlock       // pthread_mutex_unlock
    | Leave        // (num_threads -= 1) == 0
    | Cas          // compare_and_swap (&done, 1, 2)
    | Destroy      // pthread_mutex_destroy
    | Returned     // may call pthread_once again

  /** `owner` holds the mutex, -1 is nobody. The last three fields count the calls of
      initfunction begun and finished, and of pthread_mutex_destroy. */
  datatype State = State(pcs: seq<Pc>, num: nat, done: nat, owner: int, begun: nat, finished: nat, destroyed: nat)

  const USHORT := 0x1_0000

  function Initial(n: nat): State { State(seq(n, i => Start), 0, 0, -1, 0, 0, 0) }

  /** One step of thread `i`; a thread that waits for the mutex stays where it is. */
  function Step(s: State, i: nat): State {
    if i >= |s.pcs| then s else
    match s.pcs[i]
    case Start => s.(pcs := s.pcs[i := if s.done == 0 then Enter else Returned])
    case Enter => s.(num := (s.num + 1) % USHORT, pcs := s.pcs[i := Recheck])
    case Recheck => s.(pcs := s.pcs[i := if s.done == 0 then Lock else Leave])
    case Lock => if s.owner != -1 then s else s.(owner := i, pcs := s.pcs[i := Locked])
    case Locked => s.(pcs := s.pcs[i := if s.done == 0 then Init else Unlock])
    case Init => s.(begun := s.begun + 1, pcs := s.pcs[i := Running])
    case Running => s.(finished := s.finished + 1, pcs := s.pcs[i := SetDone])
    case SetDone => s.(done := 1, pcs := s.pcs[i := Unlock])
    case Unlock => s.(owner := -1, pcs := s.pcs[i := Leave])
    case Leave =>
      var num := (s.num + USHORT - 1) % USHORT;
      s.(num := num, pcs := s.pcs[i := if num == 0 then Cas else Returned])
    case Cas => if s.done == 1 then s.(done := 2, pcs := s.pcs[i := Destroy]) else s.(pcs := s.pcs[i := Returned])
    case Destroy => s.(destroyed := s.destroyed + 1, pcs := s.pcs[i := Returned])
    case Returned => s.(pcs := s.pcs[i := Start])
  }

  /** The state after the threads named in `schedule` have taken their steps in that order. */
  function Run(s: State, schedule: seq<nat>): State
    decreases |schedule|
  {
    if schedule == [] then s else Step(Run(s, schedule[..|schedule| - 1]), schedule[|schedule| - 1])
  }

  /** Between the increment and the decrement of num_threads. */
  predicate Inside(pc: Pc) { pc.Recheck? || UsesMutex(pc) || pc.Leave? }

  /** About to lock the mutex, or holding it. */
  predicate UsesMutex(pc: Pc) { pc.Lock? || HoldsMutex(pc) }

  predicate HoldsMutex(pc: Pc) { pc.Locked? || Initializing(pc) || pc.Unlock? }

  /** On the way from the test under the lock to the setting of `done`. */
  predicate Initializing(pc: Pc) { pc.Init? || pc.Running? || pc.SetDone? }

  /** Only reached once `done` is set. */
  predicate Past(pc: Pc) { pc.Unlock? || pc.Leave? || pc.Cas? || pc.Destroy? || pc.Returned? }

  predicate AtCas(pc: Pc) { pc.Cas? }

  predicate AtDestroy(pc: Pc) { pc.Destroy? }

  // ----- The invariant -----

  ghost predicate Counted(s: State) {
    && s.num == Count(s.pcs, Inside) % USHORT
    && Count(s.pcs, AtDestroy) + s.destroyed == (if s.done == 2 then 1 else 0)
    && (s.done == 1 ==> Count(s.pcs, Inside) > 0 || Count(s.pcs, AtCas) > 0)
  }

  /** The mutex is held by the one thread inside the critical section. */
  ghost predicate Owned(s: State) {
    -1 <= s.owner < |s.pcs| && forall i | 0 <= i < |s.pcs| :: HoldsMutex(s.pcs[i]) <==> i == s.owner
  }

  ghost predicate Phased(s: State) {
    && s.done <= 2
    && (forall i | 0 <= i < |s.pcs| && Initializing(s.pcs[i]) :: s.done == 0)
    && (forall i | 0 <= i < |s.pcs| && Past(s.pcs[i]) :: s.done > 0)
  }

  ghost predicate RunOnce(s: State)
    requires Owned(s)
  {
    && s.begun == (if s.done > 0 || (s.owner >= 0 && (s.pcs[s.owner].Running? || s.pcs[s.owner].SetDone?)) then 1 else 0)
    && s.finished == (if s.done > 0 || (s.owner >= 0 && s.pcs[s.owner].SetDone?) then 1 else 0)
  }

  /** After a moment without threads inside and with `done` set nobody comes near the mutex. */
  ghost predicate Drained(s: State) {
    forall i, j | 0 <= i < |s.pcs| && 0 <= j < |s.pcs| && (s.done == 2 || s.pcs[i].Cas? || s.pcs[i].Destroy?) ::
      !UsesMutex(s.pcs[j])
  }

  ghost predicate Inv(s: State) { Counted(s) && Owned(s) && Phased(s) && RunOnce(s) && Drained(s) }

  lemma InitialInv(n: nat)
    ensures Inv(Initial(n))
  {
    CountNone(Initial(n).pcs, Inside);
    CountNone(Initial(n).pcs, AtDestroy);
  }

  lemma WrapNext(c: nat)
    ensures (c % USHORT + 1) % USHORT == (c + 1) % USHORT
    ensures c > 0 ==> (c % USHORT + USHORT - 1) % USHORT == (c - 1) % USHORT
  {
  }

  lemma StepNum(s: State, i: nat)
    requires i < |s.pcs| <= USHORT && s.num == Count(s.pcs, Inside) % USHORT
    ensures Step(s, i).num == Count(Step(s, i).pcs, Inside) % USHORT && Count(Step(s, i).pcs, Inside) <= USHORT
  {
    hide Count, USHORT;
    var s' := Step(s, i);
    var c := Count(s.pcs, Inside);
    assert s'.pcs == s.pcs[i := s'.pcs[i]];
    CountMove(s.pcs, i, s'.pcs[i], Inside);
    CountNone(s.pcs, Inside);
    CountNone(s'.pcs, Inside);
    WrapNext(c);
  }

  lemma StepCounted(s: State, i: nat)
    requires i < |s.pcs| <= USHORT && Counted(s) && Phased(s)
    ensures Counted(Step(s, i))
    ensures s.pcs[i].Leave? && Step(s, i).num == 0 ==> Count(Step(s, i).pcs, Inside) == 0
  {
    hide Count;
    StepNum(s, i);
    hide USHORT;
    var s' := Step(s, i);
    var pc := s'.pcs[i];
    assert s'.pcs == s.pcs[i := pc];
    CountMove(s.pcs, i, pc, Inside);
    CountMove(s.pcs, i, pc, AtDestroy);
    CountMove(s.pcs, i, pc, AtCas);
    CountNone(s.pcs, Inside);
    CountNone(s'.pcs, AtCas);
    LeaveCounted(s, s', i, Count(s'.pcs, Inside));
  }

  lemma LeaveCounted(s: State, s': State, i: nat, c': nat)
    requires i < |s.pcs| && s' == Step(s, i) && s'.num == c' % USHORT && c' <= USHORT
    ensures s.pcs[i].Leave? && c' < USHORT && s'.num == 0 ==> c' == 0
  {
  }

  lemma StepOwned(s: State, i: nat)
    requires i < |s.pcs| && Owned(s)
    ensures Owned(Step(s, i)) && |Step(s, i).pcs| == |s.pcs|
    ensures forall k | 0 <= k < |s.pcs| && k != i :: Step(s, i).pcs[k] == s.pcs[k]
  {
  }

  lemma StepPhased(s: State, i: nat)
    requires i < |s.pcs| && Owned(s) && Phased(s)
    ensures Phased(Step(s, i))
  {
    var s' := Step(s, i);
    assert forall k | 0 <= k < |s.pcs| && k != i :: s'.pcs[k] == s.pcs[k];
    assert forall k | 0 <= k < |s.pcs| && Initializing(s.pcs[k]) :: HoldsMutex(s.pcs[k]);
  }

  lemma StepRunOnce(s: State, i: nat)
    requires i < |s.pcs| && Owned(s) && Phased(s) && RunOnce(s) && Owned(Step(s, i))
    ensures RunOnce(Step(s, i))
  {
    var s' := Step(s, i);
    assert s.owner >= 0 ==> HoldsMutex(s.pcs[s.owner]);
    assert s'.pcs == s.pcs[i := s'.pcs[i]];
  }

  lemma StepDrained(s: State, i: nat)
    requires i < |s.pcs| && Phased(s) && Drained(s)
    requires s.pcs[i].Leave? && Step(s, i).num == 0 ==> Count(Step(s, i).pcs, Inside) == 0
    ensures Drained(Step(s, i))
  {
    var s' := Step(s, i);
    CountNone(s'.pcs, Inside);
    hide Count;
    assert s'.pcs == s.pcs[i := s'.pcs[i]];
    if s.pcs[i].Leave? && s'.num == 0 {
      forall j | 0 <= j < |s'.pcs| ensures !UsesMutex(s'.pcs[j]) { assert !Inside(s'.pcs[j]); }
    } else {
      NoneComesNear(s, i);
    }
  }

  /** Outside the last moment, whoever bars the way to the mutex did so before. */
  lemma NoneComesNear(s: State, i: nat)
    requires i < |s.pcs| && Phased(s) && Drained(s) && !(s.pcs[i].Leave? && Step(s, i).num == 0)
    ensures Drained(Step(s, i))
  {
    var s' := Step(s, i);
    forall k, j | 0 <= k < |s'.pcs| && 0 <= j < |s'.pcs| && (s'.done == 2 || s'.pcs[k].Cas? || s'.pcs[k].Destroy?)
      ensures !UsesMutex(s'.pcs[j])
    {
      if k != i { assert s'.pcs[k] == s.pcs[k]; }
      if j != i { assert s'.pcs[j] == s.pcs[j]; }
      if s.done != 2 && s'.done == 2 { assert s.pcs[i].Cas?; }
    }
  }

  lemma StepInv(s: State, i: nat)
    requires |s.pcs| <= USHORT && Inv(s)
    ensures Inv(Step(s, i)) && |Step(s, i).pcs| == |s.pcs|
  {
    hide Counted, Phased, Drained, RunOnce;
    if i < |s.pcs| {
      StepCounted(s, i);
      StepOwned(s, i);
      StepPhased(s, i);
      StepRunOnce(s, i);
      StepDrained(s, i);
    }
  }

  lemma {:induction false} RunInv(n: nat, schedule: seq<nat>)
    requires n <= USHORT
    ensures Inv(Run(Initial(n), schedule)) && |Run(Initial(n), schedule).pcs| == n
    decreases |schedule|
  {
    if schedule == [] {
      InitialInv(n);
    } else {
      hide Inv, Step;
      RunInv(n, schedule[..|schedule| - 1]);
      StepInv(Run(Initial(n), schedule[..|schedule| - 1]), schedule[|schedule| - 1]);
    }
  }

  // ----- What callers may rely on -----

  /** initfunction is called at most once; a caller that has returned can rely on it being
      finished; the mutex is destroyed at most once, and from then on nobody holds it, waits
      for it or is about to lock it. */
  ghost predicate Safe(s: State) {
    && s.begun <= 1 && s.finished <= s.begun && s.destroyed <= 1
    && (forall i | 0 <= i < |s.pcs| && s.pcs[i].Returned? :: s.finished == 1)
    && (s.destroyed > 0 || (exists i :: 0 <= i < |s.pcs| && s.pcs[i].Destroy?) ==>
          s.owner == -1 && forall j | 0 <= j < |s.pcs| :: !UsesMutex(s.pcs[j]))
  }

  lemma InvSafe(s: State)
    requires Inv(s)
    ensures Safe(s)
  {
    if s.destroyed > 0 { assert s.done == 2; }
    if s.owner >= 0 { assert HoldsMutex(s.pcs[s.owner]); }
  }

  /** When every thread has returned, and at least one has called, initfunction has run
      exactly once, the counter is back at zero and the mutex has been destroyed. */
  lemma AllReturned(n: nat, schedule: seq<nat>)
    requires 0 < n <= USHORT
    requires forall i | 0 <= i < n :: i < |Run(Initial(n), schedule).pcs| && Run(Initial(n), schedule).pcs[i].Returned?
    ensures var s := Run(Initial(n), schedule);
      s.begun == 1 && s.finished == 1 && s.num == 0 && s.destroyed == 1 && s.done == 2
  {
    RunInv(n, schedule);
    var s := Run(Initial(n), schedule);
    assert s.pcs[0].Returned?;
    CountNone(s.pcs, Inside);
    CountNone(s.pcs, AtCas);
    CountNone(s.pcs, AtDestroy);
  }

  lemma SomeoneCanStep(s: State, i: nat) returns (j: nat)
    requires Inv(s) && i < |s.pcs| && !s.pcs[i].Returned?
    ensures j < |s.pcs| && !s.pcs[j].Returned? && Step(s, j) != s
  {
    j := if s.pcs[i].Lock? && s.owner != -1 then s.owner else i;
    assert HoldsMutex(s.pcs[j]) || !s.pcs[j].Lock? || s.owner == -1;
    assert Step(s, j).pcs[j] != s.pcs[j];
  }

  /** As long as some thread has not returned, some thread can take a step. */
  lemma NotStuck(n: nat, schedule: seq<nat>, i: nat) returns (j: nat)
    requires i < n <= USHORT && i < |Run(Initial(n), schedule).pcs| && !Run(Initial(n), schedule).pcs[i].Returned?
    ensures var s := Run(Initial(n), schedule);
      j < |s.pcs| && !s.pcs[j].Returned? && Step(s, j) != s
  {
    RunInv(n, schedule);
    j := SomeoneCanStep(Run(Initial(n), schedule), i);
  }

  // ----- Everyone returns -----

  /** A step of a thread that does not call again. */
  function LastStep(s: State, i: nat): State { if i < |s.pcs| && s.pcs[i].Returned? then s else Step(s, i) }

  /** At most so many steps are left until the thread returns, other than waiting. */
  function Togo(pc: Pc): (k: nat)
    ensures k <= 12 && (k == 0 <==> pc.Returned?)
  {
    match pc
    case Start => 12 case Enter => 11 case Recheck => 10 case Lock => 9 case Locked => 8 case Init => 7 case Running => 6
    case SetDone => 5 case Unlock => 4 case Leave => 3 case Cas => 2 case Destroy => 1 case Returned => 0
  }

  ghost predicate InvOf(s: State, n: nat) { Inv(s) && |s.pcs| == n }

  lemma LastStepsProgress(n: nat)
    requires n <= USHORT
    ensures Progresses(LastStep, (s: State) => InvOf(s, n), (s: State) => Sum(s.pcs, Togo), n)
  {
    forall s: State, i: nat | InvOf(s, n)
      ensures InvOf(LastStep(s, i), n) && (LastStep(s, i) == s || Sum(LastStep(s, i).pcs, Togo) < Sum(s.pcs, Togo))
    {
      StepInv(s, i);
      LessToGo(s, i);
    }
    forall s: State | InvOf(s, n) && Sum(s.pcs, Togo) > 0 ensures exists j: nat :: j < n && LastStep(s, j) != s {
      SumBound(s.pcs, Togo, 12);
      var i :| 0 <= i < |s.pcs| && Togo(s.pcs[i]) != 0;
      var j := SomeoneCanStep(s, i);
      assert LastStep(s, j) != s;
    }
  }

  lemma LessToGo(s: State, i: nat)
    ensures LastStep(s, i) == s || Sum(LastStep(s, i).pcs, Togo) < Sum(s.pcs, Togo)
  {
    if i < |s.pcs| && LastStep(s, i) != s {
      var pc := LastStep(s, i).pcs[i];
      assert LastStep(s, i).pcs == s.pcs[i := pc];
      SumMove(s.pcs, i, pc, Togo);
    }
  }

  /** From any point of any run, if nobody calls again and everyone gets a turn in each of
      twelve rounds for every thread, all calls return. */
  lemma EveryoneReturns(n: nat, schedule: seq<nat>, rounds: seq<seq<nat>>)
    requires n <= USHORT && Fair(rounds, n) && |rounds| >= 12 * n
    ensures var s := Rounds(LastStep, Run(Initial(n), schedule), rounds);
      |s.pcs| == n && forall i | 0 <= i < n :: s.pcs[i].Returned?
  {
    RunInv(n, schedule);
    var s0 := Run(Initial(n), schedule);
    SumBound(s0.pcs, Togo, 12);
    LastStepsProgress(n);
    FairRuns(LastStep, (s: State) => InvOf(s, n), (s: State) => Sum(s.pcs, Togo), n, s0, rounds);
    SumBound(Rounds(LastStep, s0, rounds).pcs, Togo, 12);
  }

  // ----- With one thread more than the counter can tell apart -----

  /** The first `k` threads have passed the first test and incremented the counter. */
  ghost function Entered(n: nat, k: nat): State {
    State(seq(n, i => if i < k then Recheck else Start), k % USHORT, 0, -1, 0, 0, 0)
  }

  lemma OneMoreEnters(n: nat, k: nat)
    requires k < n
    ensures Step(Step(Entered(n, k), k), k) == Entered(n, k + 1)
  {
    var s := Entered(n, k);
    WrapNext(k);
    assert s.pcs[k := Enter][k := Recheck] == Entered(n, k + 1).pcs;
  }

  lemma NoneEntered(n: nat)
    ensures Run(Initial(n), []) == Initial(n) == Entered(n, 0)
  {
    assert Initial(n).pcs == Entered(n, 0).pcs;
  }

  lemma {:induction false} AllEnter(n: nat, k: nat) returns (schedule: seq<nat>)
    requires k <= n
    ensures Run(Initial(n), schedule) == Entered(n, k)
  {
    hide Step, Run, Entered, Initial;
    if k == 0 {
      schedule := [];
      NoneEntered(n);
    } else {
      var before := AllEnter(n, k - 1);
      schedule := before + [k - 1] + [k - 1];
      RunMore(Initial(n), before, k - 1);
      RunMore(Initial(n), before + [k - 1], k - 1);
      OneMoreEnters(n, k - 1);
    }
  }

  lemma RunMore(s: State, schedule: seq<nat>, i: nat)
    ensures Run(s, schedule + [i]) == Step(Run(s, schedule), i)
  {
    assert (schedule + [i])[..|schedule|] == schedule;
  }

  /** Thread 0 takes `count` steps on its own. */
  ghost function Alone(s: State, count: nat): State
    decreases count
  {
    if count == 0 then s else Alone(Step(s, 0), count - 1)
  }

  lemma {:induction false} RunAlone(s: State, schedule: seq<nat>, count: nat) returns (longer: seq<nat>)
    ensures Run(s, longer) == Alone(Run(s, schedule), count)
    decreases count
  {
    longer := schedule;
    if count > 0 {
      RunMore(s, schedule, 0);
      longer := RunAlone(s, schedule + [0], count - 1);
    }
  }

  /** 65537 callers make the counter wrap: the first to finish sees it reach zero and
      destroys the mutex that all the others still need. */
  lemma TooMany(n: nat) returns (schedule: seq<nat>)
    requires n > USHORT
    ensures !Safe(Run(Initial(n), schedule))
  {
    var first := AllEnter(n, USHORT + 1);
    var s0 := Run(Initial(n), first);
    assert s0.num == 1;
    RunMore(Initial(n), first, 1);
    var s1 := Step(s0, 1);
    assert s1 == s0.(pcs := s0.pcs[1 := Lock]);
    schedule := RunAlone(Initial(n), first + [1], 10);
    FirstFinishes(s1);
    var s := Alone(s1, 10);
    assert UsesMutex(s.pcs[1]);
  }

  lemma FirstFinishes(s: State)
    requires |s.pcs| > 1 && s.pcs[0] == Recheck && s.pcs[1] == Lock && s.num == 1 && s.done == 0 && s.owner == -1
    requires s.destroyed == 0
    ensures Alone(s, 10).destroyed == 1 && |Alone(s, 10).pcs| == |s.pcs| && Alone(s, 10).pcs[1] == Lock
  {
    var s1 := Step(s, 0);
    assert s1.pcs[0] == Lock && Alone(s, 10) == Alone(s1, 9);
    var s2 := Step(s1, 0);
    assert s2.pcs[0] == Locked && Alone(s1, 9) == Alone(s2, 8);
    var s3 := Step(s2, 0);
    assert s3.pcs[0] == Init && Alone(s2, 8) == Alone(s3, 7);
    var s4 := Step(s3, 0);
    assert s4.pcs[0] == Running && Alone(s3, 7) == Alone(s4, 6);
    var s5 := Step(s4, 0);
    assert s5.pcs[0] == SetDone && Alone(s4, 6) == Alone(s5, 5);
    var s6 := Step(s5, 0);
    assert s6.pcs[0] == Unlock && Alone(s5, 5) == Alone(s6, 4);
    var s7 := Step(s6, 0);
    assert s7.pcs[0] == Leave && Alone(s6, 4) == Alone(s7, 3);
    var s8 := Step(s7, 0);
    assert s8.pcs[0] == Cas && Alone(s7, 3) == Alone(s8, 2);
    var s9 := Step(s8, 0);
    assert s9.pcs[0] == Destroy && Alone(s8, 2) == Alone(s9, 1);
    var s10 := Step(s9, 0);
    assert s10.destroyed == 1 && s10.pcs[1] == Lock && Alone(s9, 1) == Alone(s10, 0);
  }

  /** The protocol is safe in every run exactly up to 65536 concurrent threads. */
  lemma SafeExactly(n: nat)
    ensures (forall schedule :: Safe(Run(Initial(n), schedule))) <==> n <= 65536
  {
    if n <= USHORT {
      forall schedule ensures Safe(Run(Initial(n), schedule)) {
        RunInv(n, schedule);
        InvSafe(Run(Initial(n), schedule));
      }
    } else {
      var schedule := TooMany(n);
    }
  }
}
