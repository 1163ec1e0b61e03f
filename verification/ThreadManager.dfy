/** Completion of the benchmark threads: every thread leaves the barrier, counts itself down and
    the last one wakes the main thread (Vendor/benchmark/src/thread_manager.h). */
module ThreadManager {
  import opened Seqs
  import opened Sets
  import opened Symbols
  import B = Barrier

  /** NotifyThreadComplete, step by step: removed from the barrier; found alive_threads_ 0 after
      its decrement and wants the end mutex; holds it; through. */
  datatype Stage = Working | LeftBarrier | Signalling | Holding | Complete

  /** WaitForAllThreads: not called; wants the end mutex; holds it, about to test; holds it,
      having found a thread alive; asleep on the condition; returned. */
  datatype MainPlace = NotWaiting | WantsLock | Testing | GoingToSleep | Asleep | Returned

  datatype State = State(barrier: B.State, stages: seq<Stage>, alive: int, main: MainPlace)

  datatype Event =
    | InBarrier(e: B.Event)
    | Leave(t: nat)
    | CountDown(t: nat)
    | Lock(t: nat)
    | NotifyMain(t: nat)
    | MainCall
    | MainLock
    | MainTest
    | MainSleep
    | MainSpurious

  function Initial(n: nat): State {
    State(B.Initial(n), seq(n, _ => Working), n, NotWaiting)
  }

  ghost predicate MutexFree(s: State) {
    s.main != Testing && s.main != GoingToSleep && forall t :: 0 <= t < |s.stages| ==> s.stages[t] != Holding
  }

  ghost predicate Enabled(s: State, e: Event) {
    && |s.barrier.places| == |s.stages|
    && match e
       case InBarrier(b) => b.t < |s.stages| && s.stages[b.t] == Working && !b.Remove? && B.Enabled(s.barrier, b)
       case Leave(t) => t < |s.stages| && s.stages[t] == Working && B.Enabled(s.barrier, B.Remove(t))
       case CountDown(t) => t < |s.stages| && s.stages[t] == LeftBarrier
       case Lock(t) => t < |s.stages| && s.stages[t] == Signalling && MutexFree(s)
       case NotifyMain(t) => t < |s.stages| && s.stages[t] == Holding
       case MainCall => s.main == NotWaiting
       case MainLock => s.main == WantsLock && MutexFree(s)
       case MainTest => s.main == Testing
       case MainSleep => s.main == GoingToSleep
       case MainSpurious => s.main == Asleep
  }

  ghost function Step(s: State, e: Event): (s': State)
    requires Enabled(s, e)
  {
    match e
    case InBarrier(b) => s.(barrier := B.Step(s.barrier, b))
    case Leave(t) => s.(barrier := B.Step(s.barrier, B.Remove(t)), stages := s.stages[t := LeftBarrier])
    // The decrement is atomic but does not hold the mutex.
    case CountDown(t) =>
      s.(alive := s.alive - 1, stages := s.stages[t := if s.alive - 1 == 0 then Signalling else Complete])
    case Lock(t) => s.(stages := s.stages[t := Holding])
    case NotifyMain(t) =>
      s.(stages := s.stages[t := Complete], main := if s.main == Asleep then WantsLock else s.main)
    case MainCall => s.(main := WantsLock)
    case MainLock => s.(main := Testing)
    case MainTest => s.(main := if s.alive == 0 then Returned else GoingToSleep)
    case MainSleep => s.(main := Asleep)
    case MainSpurious => s.(main := WantsLock)
  }

  ghost function Run(n: nat, events: seq<Event>): Option<State> {
    if events == [] then Some(Initial(n))
    else
      var before := Run(n, events[..|events| - 1]);
      if before.Some? && Enabled(before.value, events[|events| - 1])
      then Some(Step(before.value, events[|events| - 1]))
      else None
  }

  ghost predicate Reachable(n: nat, s: State) {
    exists events :: Run(n, events) == Some(s)
  }

  // ---------------------------------------------------------------- the invariant

  ghost function Alive(stages: seq<Stage>): set<nat> {
    set t: nat | t < |stages| && IsAlive(stages[t])
  }

  predicate IsAlive(stage: Stage) {
    stage == Working || stage == LeftBarrier
  }

  predicate IsSignalling(stage: Stage) {
    stage == Signalling || stage == Holding
  }

  ghost predicate SomeoneSignals(s: State) {
    exists t: nat :: t < |s.stages| && IsSignalling(s.stages[t])
  }

  ghost predicate Inv(s: State) {
    && B.Inv(s.barrier)
    && |s.barrier.places| == |s.stages|
    && (forall t: nat :: t < |s.stages| ==> (s.stages[t] == Working <==> s.barrier.places[t] != B.Removed))
    && s.alive == |Alive(s.stages)|
    && (s.main == Returned ==> s.alive == 0)
    && ((s.main == Asleep || s.main == GoingToSleep) && s.alive == 0 ==> SomeoneSignals(s))
    && (forall t: nat :: t < |s.stages| && IsSignalling(s.stages[t]) ==> s.alive == 0)
    && (forall t: nat, u: nat ::
          t < |s.stages| && u < |s.stages| && IsSignalling(s.stages[t]) && IsSignalling(s.stages[u]) ==> t == u)
    && (forall t: nat :: t < |s.stages| && s.stages[t] == Holding ==> s.main != Testing && s.main != GoingToSleep)
  }

  lemma AliveAfterMove(stages: seq<Stage>, t: nat, to: Stage)
    requires t < |stages|
    ensures |Alive(stages[t := to])|
            == |Alive(stages)| - (if IsAlive(stages[t]) then 1 else 0) + (if IsAlive(to) then 1 else 0)
  {
    var before, after := Alive(stages), Alive(stages[t := to]);
    assert after - {t} == before - {t};
    SizeBut(before, after, t);
  }

  lemma {:induction false} AllAlive(n: nat)
    ensures |Alive(seq(n, _ => Working))| == n
  {
    if n > 0 {
      AllAlive(n - 1);
      assert Alive(seq(n, _ => Working)) == Alive(seq(n - 1, _ => Working)) + {n - 1};
    }
  }

  lemma InitialInv(n: nat)
    ensures Inv(Initial(n))
  {
    B.InitialInv(n);
    AllAlive(n);
  }

  /** A step inside the barrier removes nobody. */
  lemma BarrierStepRemovesNobody(s: B.State, e: B.Event)
    requires B.Inv(s) && B.Enabled(s, e) && !e.Remove?
    ensures |B.Step(s, e).places| == |s.places|
    ensures forall t: nat :: t < |s.places| ==> (B.Step(s, e).places[t] == B.Removed <==> s.places[t] == B.Removed)
  {}

  lemma InBarrierKeepsInv(s: State, e: B.Event)
    requires Inv(s) && Enabled(s, InBarrier(e))
    ensures Inv(Step(s, InBarrier(e)))
  {
    B.StepKeepsInv(s.barrier, e);
    BarrierStepRemovesNobody(s.barrier, e);
    var s' := Step(s, InBarrier(e));
    KeepsSignaller(s, s');
  }

  lemma KeepsSignaller(s: State, s': State)
    requires |s.stages| == |s'.stages|
    requires forall t: nat :: t < |s.stages| && IsSignalling(s.stages[t]) ==> IsSignalling(s'.stages[t])
    ensures SomeoneSignals(s) ==> SomeoneSignals(s')
  {
    if SomeoneSignals(s) {
      var t: nat :| t < |s.stages| && IsSignalling(s.stages[t]);
      assert IsSignalling(s'.stages[t]);
    }
  }

  lemma LeaveKeepsInv(s: State, t: nat)
    requires Inv(s) && Enabled(s, Leave(t))
    ensures Inv(Step(s, Leave(t)))
  {
    B.StepKeepsInv(s.barrier, B.Remove(t));
    AliveAfterMove(s.stages, t, LeftBarrier);
    KeepsSignaller(s, Step(s, Leave(t)));
  }

  lemma CountDownKeepsInv(s: State, t: nat)
    requires Inv(s) && Enabled(s, CountDown(t))
    ensures Inv(Step(s, CountDown(t)))
  {
    var s' := Step(s, CountDown(t));
    AliveAfterMove(s.stages, t, s'.stages[t]);
    KeepsSignaller(s, s');
    assert t in Alive(s.stages);
    if s'.alive == 0 {
      assert IsSignalling(s'.stages[t]);
    }
  }

  lemma LockKeepsInv(s: State, t: nat)
    requires Inv(s) && Enabled(s, Lock(t))
    ensures Inv(Step(s, Lock(t)))
  {
    AliveAfterMove(s.stages, t, Holding);
    assert IsSignalling(s.stages[t]);
    KeepsSignaller(s, Step(s, Lock(t)));
  }

  lemma NotifyMainKeepsInv(s: State, t: nat)
    requires Inv(s) && Enabled(s, NotifyMain(t))
    ensures Inv(Step(s, NotifyMain(t)))
  {
    AliveAfterMove(s.stages, t, Complete);
    assert IsSignalling(s.stages[t]);
  }

  lemma MainKeepsInv(s: State, e: Event)
    requires Inv(s) && Enabled(s, e)
    requires e.MainCall? || e.MainLock? || e.MainTest? || e.MainSleep? || e.MainSpurious?
    ensures Inv(Step(s, e))
  {
    KeepsSignaller(s, Step(s, e));
  }

  lemma {:induction false} RunKeepsInv(n: nat, events: seq<Event>)
    requires Run(n, events).Some?
    ensures Inv(Run(n, events).value)
  {
    if events == [] {
      InitialInv(n);
    } else {
      RunKeepsInv(n, events[..|events| - 1]);
      var s, e := Run(n, events[..|events| - 1]).value, events[|events| - 1];
      match e {
        case InBarrier(b) => InBarrierKeepsInv(s, b);
        case Leave(t) => LeaveKeepsInv(s, t);
        case CountDown(t) => CountDownKeepsInv(s, t);
        case Lock(t) => LockKeepsInv(s, t);
        case NotifyMain(t) => NotifyMainKeepsInv(s, t);
        case MainCall => MainKeepsInv(s, e);
        case MainLock => MainKeepsInv(s, e);
        case MainTest => MainKeepsInv(s, e);
        case MainSleep => MainKeepsInv(s, e);
        case MainSpurious => MainKeepsInv(s, e);
      }
    }
  }

  lemma ReachableInv(n: nat, s: State)
    requires Reachable(n, s)
    ensures Inv(s)
  {
    var events :| Run(n, events) == Some(s);
    RunKeepsInv(n, events);
  }

  // ---------------------------------------------------------------- what threads can do

  /** In every reachable state a running thread outside the barrier can enter it and can leave for good,
      one that has left can count down, the one that has to signal can take the mutex if nobody holds it
      and then notifies; and these come in no other order. */
  lemma CanHappenIff(n: nat, s: State, t: nat)
    requires Reachable(n, s) && t < n
    ensures |s.stages| == n == |s.barrier.places|
    ensures Enabled(s, Leave(t)) <==> s.stages[t] == Working && s.barrier.places[t] == B.Outside
    ensures Enabled(s, InBarrier(B.Enter(t))) <==> Enabled(s, Leave(t))
    ensures Enabled(s, CountDown(t)) <==> s.stages[t] == LeftBarrier
    ensures Enabled(s, Lock(t)) <==>
            s.stages[t] == Signalling && Holding !in s.stages && s.main != Testing && s.main != GoingToSleep
    ensures Enabled(s, NotifyMain(t)) <==> s.stages[t] == Holding
  {
    var events :| Run(n, events) == Some(s);
    SizesStay(n, events);
    ReachableInv(n, s);
    MutexFreeIff(s);
    if s.barrier.places[t] == B.Outside {
      B.EntryCheckHolds(s.barrier, t);
    }
  }

  /** The main thread calls, takes the mutex when nobody holds it, tests, and sleeps unless it returns. */
  lemma MainCanIff(n: nat, s: State)
    requires Reachable(n, s)
    ensures Enabled(s, MainCall) <==> s.main == NotWaiting
    ensures Enabled(s, MainLock) <==> s.main == WantsLock && Holding !in s.stages
    ensures Enabled(s, MainTest) <==> s.main == Testing
    ensures Enabled(s, MainSleep) <==> s.main == GoingToSleep
  {
    ReachableInv(n, s);
    MutexFreeIff(s);
  }

  lemma MutexFreeIff(s: State)
    ensures MutexFree(s) <==> s.main != Testing && s.main != GoingToSleep && Holding !in s.stages
  {}

  // ---------------------------------------------------------------- what every run satisfies

  /** Although the count goes down without the mutex, the main thread's wakeup is not lost: once
      every thread is through, it is not asleep and not about to be. */
  lemma MainCannotSleepForever(n: nat, s: State)
    requires Reachable(n, s)
    requires forall t: nat :: t < |s.stages| ==> s.stages[t] == Complete
    ensures s.main != Asleep && s.main != GoingToSleep && s.alive == 0
  {
    ReachableInv(n, s);
    assert Alive(s.stages) == {};
  }

  /** WaitForAllThreads returns only after every thread has left the barrier and counted down. */
  lemma MainReturnsLast(n: nat, s: State, t: nat)
    requires Reachable(n, s) && s.main == Returned && t < |s.stages|
    ensures s.stages[t] != Working && s.stages[t] != LeftBarrier
  {
    ReachableInv(n, s);
    assert Alive(s.stages) == {} ==> t !in Alive(s.stages);
  }

  /** Exactly one thread finds the count at 0, if any. */
  lemma AtMostOneSignals(n: nat, s: State, t: nat, u: nat)
    requires Reachable(n, s)
    requires t < |s.stages| && u < |s.stages| && IsSignalling(s.stages[t]) && IsSignalling(s.stages[u])
    ensures t == u && s.alive == 0
  {
    ReachableInv(n, s);
  }

  /** A step that is neither a spurious wakeup nor a waiter going back to sleep in the barrier. */
  ghost predicate Advances(s: State, e: Event) {
    Enabled(s, e) && !e.MainSpurious? && (e.InBarrier? ==> B.Advances(s.barrier, e.e))
  }

  /** No thread is left running benchmark code outside the barrier. */
  ghost predicate NobodyOutside(s: State) {
    forall t: nat :: t < |s.stages| && t < |s.barrier.places| && s.stages[t] == Working
      ==> s.barrier.places[t] != B.Outside
  }

  /** No deadlock: while the main thread waits and no thread is left running benchmark code outside
      the barrier, some thread can take a step that gets it further. */
  lemma NoDeadlock(n: nat, s: State)
    requires Reachable(n, s)
    requires s.main != Returned && s.main != NotWaiting
    requires NobodyOutside(s)
    ensures exists e :: Advances(s, e)
  {
    ReachableInv(n, s);
    var events :| Run(n, events) == Some(s);
    if t: nat :| t < |s.stages| && s.stages[t] == LeftBarrier {
      assert Advances(s, CountDown(t));
    } else if t: nat :| t < |s.stages| && s.stages[t] == Working {
      assert t in B.Present(s.barrier.places);
      BarrierAdvances(s);
    } else {
      assert Alive(s.stages) == {};
      MainAdvances(s);
    }
  }

  // Every such step brings the end closer, also the one by which the main thread goes to sleep: only
  // a notification or a spurious wakeup makes it test again.

  function StageToGo(stage: Stage): nat {
    match stage case Working => 8 case LeftBarrier => 7 case Signalling => 6 case Holding => 5 case Complete => 0
  }

  function MainToGo(main: MainPlace): nat {
    match main
    case NotWaiting => 5 case WantsLock => 4 case Testing => 3 case GoingToSleep => 2 case Asleep => 1
    case Returned => 0
  }

  function ToGo(s: State): nat {
    B.Pending(s.barrier) + Sum(StageToGo, s.stages) + MainToGo(s.main)
  }

  lemma {:induction false} AdvancingCountsDown(s: State, e: Event)
    requires Advances(s, e)
    ensures ToGo(Step(s, e)) < ToGo(s)
  {
    var s' := Step(s, e);
    match e {
      case InBarrier(b) => B.AdvancingCountsDown(s.barrier, b);
      case Leave(t) =>
        B.OtherStepsKeepPending(s.barrier, B.Remove(t));
        SumAfterUpdate(StageToGo, s.stages, t, LeftBarrier);
      case CountDown(t) => SumAfterUpdate(StageToGo, s.stages, t, s'.stages[t]);
      case Lock(t) => SumAfterUpdate(StageToGo, s.stages, t, Holding);
      case NotifyMain(t) => SumAfterUpdate(StageToGo, s.stages, t, Complete);
      case MainCall =>
      case MainLock =>
      case MainTest =>
      case MainSleep =>
    }
  }

  /** The events lead from s to s', and this many of them get further. */
  ghost predicate RunsTo(s: State, events: seq<Event>, s': State, advances: nat)
    decreases |events|
  {
    if events == [] then s' == s && advances == 0
    else
      && Enabled(s, events[0])
      && var one := if Advances(s, events[0]) then 1 else 0;
         advances >= one && RunsTo(Step(s, events[0]), events[1..], s', advances - one)
  }

  function SpuriousWakeups(events: seq<Event>): nat {
    if events == [] then 0 else (if events[0].MainSpurious? then 1 else 0) + SpuriousWakeups(events[1..])
  }

  predicate IsEntry(e: Event) {
    e.InBarrier? && e.e.Enter?
  }

  function Entries(events: seq<Event>): nat {
    if events == [] then 0 else (if IsEntry(events[0]) then 1 else 0) + Entries(events[1..])
  }

  /** A spurious wakeup makes the main thread test again, and a thread that enters the barrier has to
      get out of it; nothing else puts the end off. */
  lemma {:induction false} OtherStepsAddLittle(s: State, e: Event)
    requires Enabled(s, e) && !Advances(s, e)
    ensures ToGo(Step(s, e)) <= ToGo(s) + if e.MainSpurious? then 3 else if IsEntry(e) then 2 else 0
  {
    if e.InBarrier? {
      if e.e.Enter? {
        B.EnteringAddsTwo(s.barrier, e.e.t);
      } else {
        B.OtherStepsKeepPending(s.barrier, e.e);
      }
    }
  }

  /** However the steps of a run interleave. */
  lemma {:induction false} AdvancesAtMost(s: State, events: seq<Event>, s': State, advances: nat)
    requires RunsTo(s, events, s', advances)
    ensures advances + ToGo(s') <= ToGo(s) + 3 * SpuriousWakeups(events) + 2 * Entries(events)
    decreases |events|
  {
    if events != [] {
      var e := events[0];
      if Advances(s, e) {
        AdvancingCountsDown(s, e);
        AdvancesAtMost(Step(s, e), events[1..], s', advances - 1);
      } else {
        OtherStepsAddLittle(s, e);
        AdvancesAtMost(Step(s, e), events[1..], s', advances);
      }
    }
  }

  lemma {:induction false} RunningStaysReachable(n: nat, s: State, events: seq<Event>, s': State, advances: nat)
    requires Reachable(n, s) && RunsTo(s, events, s', advances)
    ensures Reachable(n, s')
    decreases |events|
  {
    if events != [] {
      var before :| Run(n, before) == Some(s);
      assert (before + [events[0]])[..|before|] == before;
      assert Run(n, before + [events[0]]) == Some(Step(s, events[0]));
      RunningStaysReachable(n, Step(s, events[0]), events[1..], s',
                            advances - if Advances(s, events[0]) then 1 else 0);
    }
  }

  lemma {:induction false} SizesStay(n: nat, events: seq<Event>)
    requires Run(n, events).Some?
    ensures |Run(n, events).value.stages| == n == |Run(n, events).value.barrier.places|
  {
    if events != [] {
      SizesStay(n, events[..|events| - 1]);
    }
  }

  lemma {:induction false} MainStaysCalled(s: State, events: seq<Event>, s': State, advances: nat)
    requires RunsTo(s, events, s', advances) && s.main != NotWaiting
    ensures s'.main != NotWaiting
    decreases |events|
  {
    if events != [] {
      MainStaysCalled(Step(s, events[0]), events[1..], s', advances - if Advances(s, events[0]) then 1 else 0);
    }
  }

  lemma {:induction false} ToGoAtMost(n: nat, s: State)
    requires Reachable(n, s) && s.main != NotWaiting
    ensures ToGo(s) <= 10 * n + 4
  {
    var before :| Run(n, before) == Some(s);
    SizesStay(n, before);
    SumBound(StageToGo, s.stages, 8);
    SumBound(B.StepsToGo, s.barrier.places, 2);
  }

  /** Once the main thread waits, any run makes at most ten steps per thread that get further and four
      more, three more for each spurious wakeup of the main thread and two for each call of wait; and
      where there is none left to make it has returned, unless a thread runs outside the barrier. */
  lemma {:induction false} WaitForAllThreadsEnds(
      n: nat, s: State, events: seq<Event>, s': State, advances: nat)
    requires Reachable(n, s) && s.main != NotWaiting
    requires RunsTo(s, events, s', advances)
    ensures advances <= 10 * n + 4 + 3 * SpuriousWakeups(events) + 2 * Entries(events)
    ensures (forall e :: !Advances(s', e)) && NobodyOutside(s') ==> s'.main == Returned
  {
    ToGoAtMost(n, s);
    AdvancesAtMost(s, events, s', advances);
    RunningStaysReachable(n, s, events, s', advances);
    MainStaysCalled(s, events, s', advances);
    if s'.main != Returned && NobodyOutside(s') {
      NoDeadlock(n, s');
    }
  }

  lemma BarrierAdvances(s: State)
    requires Inv(s) && B.Present(s.barrier.places) != {}
    requires forall t: nat :: t < |s.stages| && s.stages[t] == Working ==> s.barrier.places[t] != B.Outside
    ensures exists e :: Advances(s, e)
  {
    B.SomeStepAdvances(s.barrier);
    var e :| B.Advances(s.barrier, e);
    assert Advances(s, InBarrier(e));
  }

  lemma MainAdvances(s: State)
    requires Inv(s) && s.alive == 0
    requires s.main != Returned && s.main != NotWaiting
    ensures exists e :: Advances(s, e)
  {
    if t: nat :| t < |s.stages| && s.stages[t] == Holding {
      assert Advances(s, NotifyMain(t));
    } else {
      match s.main {
        case WantsLock => assert Advances(s, MainLock);
        case Testing => assert Advances(s, MainTest);
        case GoingToSleep => assert Advances(s, MainSleep);
        case Asleep =>
          var t: nat :| t < |s.stages| && IsSignalling(s.stages[t]);
          assert Advances(s, Lock(t));
      }
    }
  }
}
