/** The thread barrier of the vendored benchmark library: its critical sections, and the
    protocol that any number of threads run with them (Vendor/benchmark/src/mutex.h). */
module Barrier {
  import opened Seqs
  import opened Sets
  import opened Symbols

  // ---------------------------------------------------------------- the shared state

  /** running_threads_, phase_number_ and entered_. */
  datatype Shared = Shared(running: int, phase: int, entered: int)

  /** What BM_CHECK_LT demands on entry. */
  predicate EntryCheck(s: Shared) {
    s.entered < s.running
  }

  /** The last thread to arrive ends the phase. */
  function EndPhase(s: Shared): Shared {
    Shared(s.running, s.phase + 1, 0)
  }

  /** Entering: whether the thread then has to wait, and the state it leaves. */
  function Arrive(s: Shared): (Shared, bool) {
    var s' := s.(entered := s.entered + 1);
    if s'.entered < s'.running then (s', true) else (EndPhase(s'), false)
  }

  /** Leaving for good: the state it leaves, and whether the waiters are woken. */
  function Depart(s: Shared): (Shared, bool) {
    (s.(running := s.running - 1), s.entered != 0)
  }

  datatype Verdict = KeepWaiting | PhaseOver | LastThread

  /** What a waiter that wakes up in possession of the lock finds. */
  function Look(s: Shared, phase: int): Verdict {
    if s.phase > phase then PhaseOver
    else if s.entered == s.running then LastThread
    else KeepWaiting
  }

  /** The object, with one method for each stretch of code that runs under the lock. */
  class BarrierState {
    var runningThreads: int
    var phaseNumber: int
    var entered: int

    function View(): Shared
      reads this
    {
      Shared(runningThreads, phaseNumber, entered)
    }

    constructor (numThreads: int)
      ensures View() == Shared(numThreads, 0, 0)
    {
      runningThreads, phaseNumber, entered := numThreads, 0, 0;
    }

    /** createBarrier up to the wait. mustWait tells whether the thread goes to sleep on the
        condition; phase is then the copy its predicate compares with. */
    method EnterBarrier() returns (mustWait: bool, phase: int)
      requires EntryCheck(View())
      modifies this
      ensures (View(), mustWait) == Arrive(old(View()))
      ensures phase == old(phaseNumber) && runningThreads == old(runningThreads)
      ensures mustWait <==> old(entered) + 1 < runningThreads
      ensures mustWait ==> entered == old(entered) + 1 && phaseNumber == phase
      ensures !mustWait ==> entered == 0 && phaseNumber == phase + 1
    {
      phase := phaseNumber;
      entered := entered + 1;
      if entered < runningThreads {
        return true, phase;
      }
      phaseNumber := phaseNumber + 1;
      entered := 0;
      return false, phase;
    }

    /** One evaluation of the predicate, and the rest of createBarrier if it holds. */
    method Recheck(phase: int) returns (verdict: Verdict)
      modifies this
      ensures verdict == Look(old(View()), phase)
      ensures View() == if verdict == LastThread then EndPhase(old(View())) else old(View())
      ensures verdict == PhaseOver <==> old(phaseNumber) > phase
      ensures verdict == LastThread <==> old(phaseNumber) <= phase && old(entered) == old(runningThreads)
      ensures verdict == LastThread ==> entered == 0 && phaseNumber == old(phaseNumber) + 1
      ensures verdict != LastThread ==> entered == old(entered) && phaseNumber == old(phaseNumber)
      ensures runningThreads == old(runningThreads)
    {
      if !(phaseNumber > phase || entered == runningThreads) {
        return KeepWaiting;
      }
      if phaseNumber > phase {
        return PhaseOver;
      }
      phaseNumber := phaseNumber + 1;
      entered := 0;
      return LastThread;
    }

    /** removeThread; notify tells whether the waiters are woken. */
    method RemoveThread() returns (notify: bool)
      modifies this
      ensures (View(), notify) == Depart(old(View()))
      ensures View() == Shared(old(runningThreads) - 1, old(phaseNumber), old(entered))
      ensures notify == (old(entered) != 0)
    {
      runningThreads := runningThreads - 1;
      notify := entered != 0;
    }
  }

  // ---------------------------------------------------------------- the protocol

  /** Where a thread is. A waiter sleeps on the condition or is awake, about to recheck. The thread
      that ended phase p still has to notify, which it does without holding the lock. */
  datatype Place =
    | Outside
    | Waiting(phase: int, awake: bool)
    | Notifying(phase: int)
    | Removed

  /** places[t] is where thread t is, answers[t] what its calls of wait have returned so far. */
  datatype State = State(shared: Shared, places: seq<Place>, answers: seq<seq<bool>>)

  datatype Event =
    | Enter(t: nat)
    | Spurious(t: nat)
    | Wake(t: nat)
    | Notify(t: nat)
    | Remove(t: nat)

  function Initial(n: nat): State {
    State(Shared(n, 0, 0), seq(n, _ => Outside), seq(n, _ => []))
  }

  function WakeUp(p: Place): Place {
    if p.Waiting? then Waiting(p.phase, true) else p
  }

  function WakeAll(places: seq<Place>): seq<Place> {
    seq(|places|, i requires 0 <= i < |places| => WakeUp(places[i]))
  }

  function Answer(answers: seq<seq<bool>>, t: nat, last: bool): seq<seq<bool>>
    requires t < |answers|
  {
    answers[t := answers[t] + [last]]
  }

  predicate Sized(s: State) {
    |s.places| == |s.answers|
  }

  predicate Enabled(s: State, e: Event) {
    && Sized(s) && e.t < |s.places|
    && match e
       case Enter(t) => s.places[t] == Outside && EntryCheck(s.shared)
       case Spurious(t) => s.places[t].Waiting?
       case Wake(t) => s.places[t].Waiting? && s.places[t].awake
       case Notify(t) => s.places[t].Notifying?
       case Remove(t) => s.places[t] == Outside
  }

  function Step(s: State, e: Event): (s': State)
    requires Enabled(s, e)
    ensures Sized(s') && |s'.places| == |s.places|
  {
    match e
    case Enter(t) =>
      var (shared, mustWait) := Arrive(s.shared);
      s.(shared := shared,
         places := s.places[t := if mustWait then Waiting(s.shared.phase, false) else Notifying(s.shared.phase)])
    case Spurious(t) =>
      s.(places := s.places[t := Waiting(s.places[t].phase, true)])
    case Wake(t) => (
      match Look(s.shared, s.places[t].phase)
      case KeepWaiting => s.(places := s.places[t := Waiting(s.places[t].phase, false)])
      case PhaseOver => s.(places := s.places[t := Outside], answers := Answer(s.answers, t, false))
      case LastThread => s.(shared := EndPhase(s.shared), places := s.places[t := Notifying(s.places[t].phase)]))
    case Notify(t) =>
      s.(places := WakeAll(s.places)[t := Outside], answers := Answer(s.answers, t, true))
    case Remove(t) =>
      var (shared, notify) := Depart(s.shared);
      s.(shared := shared, places := (if notify then WakeAll(s.places) else s.places)[t := Removed])
  }

  /** The state after the events, starting with n threads outside; None if one was not enabled. */
  function Run(n: nat, events: seq<Event>): Option<State> {
    if events == [] then Some(Initial(n))
    else
      var before := Run(n, events[..|events| - 1]);
      if before.Some? && Enabled(before.value, events[|events| - 1])
      then Some(Step(before.value, events[|events| - 1]))
      else None
  }

  ghost predicate Reachable(n: nat, s: State) {
    exists events :: Run(n, events) == Some(s)
  }

  // ---------------------------------------------------------------- the invariant

  function WaitersOf(places: seq<Place>, phase: int): set<nat> {
    set t: nat | t < |places| && places[t].Waiting? && places[t].phase == phase
  }

  function Present(places: seq<Place>): set<nat> {
    set t: nat | t < |places| && places[t] != Removed
  }

  /** Thread t's call of wait number p ended phase p, whether or not it has returned yet. */
  predicate Won(s: State, t: nat, p: nat)
    requires Sized(s) && t < |s.places|
  {
    || (p < |s.answers[t]| && s.answers[t][p])
    || s.places[t] == Notifying(p)
  }

  ghost predicate PlaceOk(s: State, t: nat)
    requires Sized(s) && t < |s.places|
  {
    var answered := |s.answers[t]|;
    match s.places[t]
    // Everybody outside has an answer for every phase: the threads keep in step.
    case Outside => answered == s.shared.phase
    // A waiter waits for the phase in progress or has yet to see that the last one is over.
    case Waiting(phase, _) => answered == phase && (phase == s.shared.phase || phase == s.shared.phase - 1)
    case Notifying(phase) => answered == phase && phase == s.shared.phase - 1
    case Removed => answered <= s.shared.phase
  }

  ghost predicate SomeoneNotifies(s: State) {
    exists u: nat :: u < |s.places| && s.places[u].Notifying?
  }

  /** No wakeup is lost. */
  ghost predicate WakeupsOk(s: State) {
    && (forall t: nat ::
          t < |s.places| && s.places[t].Waiting? && s.places[t].phase < s.shared.phase && !s.places[t].awake
          ==> SomeoneNotifies(s))
    && (forall t: nat :: t < |s.places| && s.places[t].Waiting? && s.shared.entered == s.shared.running
          ==> s.places[t].awake)
  }

  ghost predicate HasWinner(s: State, p: nat)
    requires Sized(s)
  {
    exists t: nat :: t < |s.places| && Won(s, t, p)
  }

  ghost predicate WinnersOk(s: State)
    requires Sized(s)
  {
    && (forall p: nat :: p < s.shared.phase ==> HasWinner(s, p))
    && (forall p: nat, t: nat, u: nat :: t < |s.places| && u < |s.places| && Won(s, t, p) && Won(s, u, p) ==> t == u)
    && (forall p: nat, t: nat :: t < |s.places| && Won(s, t, p) ==> p < s.shared.phase)
  }

  ghost predicate CountsOk(s: State) {
    && s.shared.phase >= 0
    && s.shared.running == |Present(s.places)|
    && s.shared.entered == |WaitersOf(s.places, s.shared.phase)|
  }

  ghost predicate Inv(s: State) {
    && Sized(s)
    && CountsOk(s)
    && (forall t: nat :: t < |s.places| ==> PlaceOk(s, t))
    && WakeupsOk(s)
    && WinnersOk(s)
  }

  // ---------------------------------------------------------------- counting

  /** Moving one thread changes the counts by that thread only. */
  lemma CountsAfterMove(places: seq<Place>, t: nat, to: Place, phase: int)
    requires t < |places|
    ensures var was := places[t].Waiting? && places[t].phase == phase;
            var is_ := to.Waiting? && to.phase == phase;
            |WaitersOf(places[t := to], phase)|
            == |WaitersOf(places, phase)| - (if was then 1 else 0) + (if is_ then 1 else 0)
    ensures |Present(places[t := to])|
            == |Present(places)| - (if places[t] != Removed then 1 else 0) + (if to != Removed then 1 else 0)
  {
    WaitersAfterMove(places, t, to, phase);
    PresentAfterMove(places, t, to);
  }

  lemma WaitersAfterMove(places: seq<Place>, t: nat, to: Place, phase: int)
    requires t < |places|
    ensures var was := places[t].Waiting? && places[t].phase == phase;
            var is_ := to.Waiting? && to.phase == phase;
            |WaitersOf(places[t := to], phase)|
            == |WaitersOf(places, phase)| - (if was then 1 else 0) + (if is_ then 1 else 0)
  {
    var before, after := WaitersOf(places, phase), WaitersOf(places[t := to], phase);
    assert after - {t} == before - {t};
    SizeBut(before, after, t);
  }

  lemma PresentAfterMove(places: seq<Place>, t: nat, to: Place)
    requires t < |places|
    ensures |Present(places[t := to])|
            == |Present(places)| - (if places[t] != Removed then 1 else 0) + (if to != Removed then 1 else 0)
  {
    var before, after := Present(places), Present(places[t := to]);
    assert after - {t} == before - {t};
    SizeBut(before, after, t);
  }

  lemma WakingKeepsCounts(places: seq<Place>, phase: int)
    ensures WaitersOf(WakeAll(places), phase) == WaitersOf(places, phase)
    ensures Present(WakeAll(places)) == Present(places)
  {}

  lemma NoWaiters(places: seq<Place>, phase: int)
    requires forall t: nat :: t < |places| && places[t].Waiting? ==> places[t].phase < phase
    ensures WaitersOf(places, phase) == {}
  {}

  // ---------------------------------------------------------------- the invariant is kept

  lemma InitialInv(n: nat)
    ensures Inv(Initial(n))
  {
    var s := Initial(n);
    assert WaitersOf(s.places, 0) == {};
    AllPresent(n);
  }

  lemma {:induction false} AllPresent(n: nat)
    ensures |Present(seq(n, _ => Outside))| == n
  {
    if n > 0 {
      AllPresent(n - 1);
      assert Present(seq(n, _ => Outside)) == Present(seq(n - 1, _ => Outside)) + {n - 1};
    }
  }

  /** If all but t have entered, everyone else present is waiting for the phase to end. */
  lemma EveryoneElseWaits(s: State, t: nat)
    requires Inv(s) && t < |s.places|
    requires s.places[t] == Outside && s.shared.entered + 1 == s.shared.running
    ensures forall u: nat :: u < |s.places| && u != t && s.places[u] != Removed ==>
              s.places[u].Waiting? && s.places[u].phase == s.shared.phase
  {
    var waiters, present := WaitersOf(s.places, s.shared.phase), Present(s.places);
    assert t in present && t !in waiters;
    SubsetSize(waiters, present - {t});
    forall u: nat | u < |s.places| && u != t && s.places[u] != Removed
      ensures u in waiters
    {
      assert u in present - {t};
    }
  }

  /** If all have entered, everyone present is waiting for the phase to end. */
  lemma EveryoneWaits(s: State)
    requires Inv(s) && s.shared.entered == s.shared.running
    ensures forall u: nat :: u < |s.places| && s.places[u] != Removed ==>
              s.places[u].Waiting? && s.places[u].phase == s.shared.phase
  {
    var waiters, present := WaitersOf(s.places, s.shared.phase), Present(s.places);
    SubsetSize(waiters, present);
    forall u: nat | u < |s.places| && s.places[u] != Removed
      ensures u in waiters
    {
      assert u in present;
    }
  }

  /** The check on entry always passes: whoever is outside has not been counted yet. */
  lemma EntryCheckHolds(s: State, t: nat)
    requires Inv(s) && t < |s.places| && s.places[t] == Outside
    ensures EntryCheck(s.shared)
  {
    var waiters, present := WaitersOf(s.places, s.shared.phase), Present(s.places);
    assert t in present && t !in waiters;
    SubsetSize(waiters, present);
  }

  /** Thread t ended the phase when everyone else present was waiting for that. */
  ghost predicate PhaseEnded(s: State, s': State, t: nat) {
    && Sized(s) && t < |s.places|
    && s.places[t] != Removed && |s.answers[t]| == s.shared.phase
    && !s.places[t].Notifying?
    && (forall u: nat :: u < |s.places| && u != t && s.places[u] != Removed ==>
          s.places[u].Waiting? && s.places[u].phase == s.shared.phase)
    && s' == State(Shared(s.shared.running, s.shared.phase + 1, 0),
                   s.places[t := Notifying(s.shared.phase)], s.answers)
  }

  lemma EndingKeepsCounts(s: State, s': State, t: nat)
    requires Inv(s) && PhaseEnded(s, s', t)
    ensures CountsOk(s') && WakeupsOk(s')
    ensures forall u: nat :: u < |s'.places| ==> PlaceOk(s', u)
  {
    NoWaiters(s'.places, s'.shared.phase);
    PresentAfterMove(s.places, t, Notifying(s.shared.phase));
    assert t in Present(s.places);
    assert s'.places[t].Notifying?;
    forall u: nat | u < |s'.places|
      ensures PlaceOk(s', u)
    {
      assert PlaceOk(s, u);
    }
  }

  lemma EndingKeepsWinners(s: State, s': State, t: nat)
    requires Inv(s) && PhaseEnded(s, s', t)
    ensures WinnersOk(s')
  {
    var phase := s.shared.phase;
    forall p: nat, u: nat | u < |s.places|
      ensures Won(s', u, p) <==> Won(s, u, p) || (u == t && p == phase)
    {
      assert PlaceOk(s, u);
    }
    assert Won(s', t, phase);
    forall p: nat | p < s'.shared.phase
      ensures HasWinner(s', p)
    {
      if p < phase {
        assert HasWinner(s, p);
      }
    }
  }

  lemma EndingKeepsInv(s: State, s': State, t: nat)
    requires Inv(s) && PhaseEnded(s, s', t)
    ensures Inv(s')
  {
    EndingKeepsCounts(s, s', t);
    EndingKeepsWinners(s, s', t);
  }

  lemma SameWinners(s: State, s': State)
    requires Inv(s) && Sized(s') && |s'.places| == |s.places| && s'.shared.phase == s.shared.phase
    requires forall p: nat, t: nat :: t < |s.places| ==> (Won(s', t, p) <==> Won(s, t, p))
    ensures WinnersOk(s')
  {
    forall p: nat | p < s'.shared.phase
      ensures HasWinner(s', p)
    {
      assert HasWinner(s, p);
    }
  }

  lemma EnterKeepsInv(s: State, t: nat)
    requires Inv(s) && Enabled(s, Enter(t))
    ensures Inv(Step(s, Enter(t)))
  {
    var s' := Step(s, Enter(t));
    assert PlaceOk(s, t);
    if s.shared.entered + 1 < s.shared.running {
      CountsAfterMove(s.places, t, Waiting(s.shared.phase, false), s.shared.phase);
      SameWinners(s, s');
      forall u: nat | u < |s.places|
        ensures PlaceOk(s', u)
      {
        assert PlaceOk(s, u);
      }
      EnterKeepsWakeups(s, t);
    } else {
      EveryoneElseWaits(s, t);
      EndingKeepsInv(s, s', t);
    }
  }

  lemma EnterKeepsWakeups(s: State, t: nat)
    requires Inv(s) && Enabled(s, Enter(t)) && s.shared.entered + 1 < s.shared.running
    ensures WakeupsOk(Step(s, Enter(t)))
  {
    KeepsNotifier(s, Step(s, Enter(t)), t);
  }

  /** A step of a thread that was not about to notify leaves the notifiers in place. */
  lemma KeepsNotifier(s: State, s': State, t: nat)
    requires t < |s.places| == |s'.places| && !s.places[t].Notifying?
    requires forall u: nat :: u < |s.places| && u != t && s.places[u].Notifying? ==> s'.places[u].Notifying?
    ensures SomeoneNotifies(s) ==> SomeoneNotifies(s')
  {
    if SomeoneNotifies(s) {
      var u: nat :| u < |s.places| && s.places[u].Notifying?;
      assert s'.places[u].Notifying?;
    }
  }

  lemma SpuriousKeepsInv(s: State, t: nat)
    requires Inv(s) && Enabled(s, Spurious(t))
    ensures Inv(Step(s, Spurious(t)))
  {
    var s' := Step(s, Spurious(t));
    CountsAfterMove(s.places, t, Waiting(s.places[t].phase, true), s.shared.phase);
    SameWinners(s, s');
    KeepsNotifier(s, s', t);
    forall u: nat | u < |s.places|
      ensures PlaceOk(s', u)
    {
      assert PlaceOk(s, u);
    }
  }

  lemma WakeKeepsInv(s: State, t: nat)
    requires Inv(s) && Enabled(s, Wake(t))
    ensures Inv(Step(s, Wake(t)))
  {
    var s' := Step(s, Wake(t));
    assert PlaceOk(s, t);
    match Look(s.shared, s.places[t].phase) {
      case KeepWaiting =>
        CountsAfterMove(s.places, t, Waiting(s.places[t].phase, false), s.shared.phase);
        SameWinners(s, s');
        KeepsNotifier(s, s', t);
        forall u: nat | u < |s.places|
          ensures PlaceOk(s', u)
        {
          assert PlaceOk(s, u);
        }
      case PhaseOver =>
        CountsAfterMove(s.places, t, Outside, s.shared.phase);
        SameWinners(s, s');
        KeepsNotifier(s, s', t);
        forall u: nat | u < |s.places|
          ensures PlaceOk(s', u)
        {
          assert PlaceOk(s, u);
        }
      case LastThread =>
        EveryoneWaits(s);
        EndingKeepsInv(s, s', t);
    }
  }

  lemma NotifyKeepsInv(s: State, t: nat)
    requires Inv(s) && Enabled(s, Notify(t))
    ensures Inv(Step(s, Notify(t)))
  {
    var s' := Step(s, Notify(t));
    assert PlaceOk(s, t);
    WakingKeepsCounts(s.places, s.shared.phase);
    CountsAfterMove(WakeAll(s.places), t, Outside, s.shared.phase);
    SameWinners(s, s');
    forall u: nat | u < |s.places|
      ensures PlaceOk(s', u)
    {
      assert PlaceOk(s, u);
    }
  }

  lemma RemoveKeepsInv(s: State, t: nat)
    requires Inv(s) && Enabled(s, Remove(t))
    ensures Inv(Step(s, Remove(t)))
  {
    var s' := Step(s, Remove(t));
    assert PlaceOk(s, t);
    WakingKeepsCounts(s.places, s.shared.phase);
    CountsAfterMove(s.places, t, Removed, s.shared.phase);
    CountsAfterMove(WakeAll(s.places), t, Removed, s.shared.phase);
    SameWinners(s, s');
    KeepsNotifier(s, s', t);
    forall u: nat | u < |s.places|
      ensures PlaceOk(s', u)
    {
      assert PlaceOk(s, u);
    }
    RemoveKeepsWakeups(s, t);
  }

  lemma RemoveKeepsWakeups(s: State, t: nat)
    requires Inv(s) && Enabled(s, Remove(t)) && CountsOk(Step(s, Remove(t)))
    ensures WakeupsOk(Step(s, Remove(t)))
  {
    var s' := Step(s, Remove(t));
    KeepsNotifier(s, s', t);
    if s.shared.entered == 0 && s'.shared.running == 0 {
      assert Present(s'.places) == {};
      forall u: nat | u < |s'.places|
        ensures !s'.places[u].Waiting?
      {
        assert u !in Present(s'.places);
      }
    }
  }

  lemma StepKeepsInv(s: State, e: Event)
    requires Inv(s) && Enabled(s, e)
    ensures Inv(Step(s, e))
  {
    match e
    case Enter(t) => EnterKeepsInv(s, t);
    case Spurious(t) => SpuriousKeepsInv(s, t);
    case Wake(t) => WakeKeepsInv(s, t);
    case Notify(t) => NotifyKeepsInv(s, t);
    case Remove(t) => RemoveKeepsInv(s, t);
  }

  lemma {:induction false} RunKeepsInv(n: nat, events: seq<Event>)
    requires Run(n, events).Some?
    ensures Inv(Run(n, events).value)
    ensures |Run(n, events).value.places| == n
  {
    if events == [] {
      InitialInv(n);
    } else {
      RunKeepsInv(n, events[..|events| - 1]);
      StepKeepsInv(Run(n, events[..|events| - 1]).value, events[|events| - 1]);
    }
  }

  lemma ReachableInv(n: nat, s: State)
    requires Reachable(n, s)
    ensures Inv(s) && |s.places| == n
  {
    var events :| Run(n, events) == Some(s);
    RunKeepsInv(n, events);
  }

  // ---------------------------------------------------------------- what threads can do

  /** In every reachable state a thread outside can enter and can be removed, whatever the others do; a
      waiter can be woken and go on once it is awake; and nothing else can happen to a thread. */
  lemma CanHappenIff(n: nat, s: State, e: Event)
    requires Reachable(n, s)
    ensures |s.places| == n
    ensures Enabled(s, e) <==>
            e.t < n && match s.places[e.t]
                       case Outside => e.Enter? || e.Remove?
                       case Waiting(_, awake) => e.Spurious? || (awake && e.Wake?)
                       case Notifying(_) => e.Notify?
                       case Removed => false
  {
    ReachableInv(n, s);
    if e.Enter? && e.t < n && s.places[e.t] == Outside {
      EntryCheckHolds(s, e.t);
    }
  }

  // ---------------------------------------------------------------- what every run satisfies

  /** entered_ counts the waiters of the phase in progress and running_threads_ the threads not
      removed, no waiter is more than one phase behind, and the check on entry always passes. */
  lemma BarrierIsSafe(n: nat, s: State)
    requires Reachable(n, s)
    ensures s.shared.entered == |WaitersOf(s.places, s.shared.phase)|
    ensures s.shared.running == |Present(s.places)|
    ensures forall t: nat :: t < |s.places| && s.places[t].Waiting? ==>
              s.shared.phase - 1 <= s.places[t].phase <= s.shared.phase
    ensures forall t: nat :: t < |s.places| && s.places[t] == Outside ==> EntryCheck(s.shared)
  {
    ReachableInv(n, s);
    forall t: nat | t < |s.places|
      ensures s.places[t].Waiting? ==> s.shared.phase - 1 <= s.places[t].phase <= s.shared.phase
      ensures s.places[t] == Outside ==> EntryCheck(s.shared)
    {
      assert PlaceOk(s, t);
      if s.places[t] == Outside {
        EntryCheckHolds(s, t);
      }
    }
  }

  /** The protocol lets a thread that has to wait go straight to sleep. So it does: its first test of
      the predicate, which comes before it sleeps, always fails. */
  lemma FirstTestFails(n: nat, s: State, t: nat)
    requires Reachable(n, s) && Enabled(s, Enter(t))
    requires Step(s, Enter(t)).places[t].Waiting?
    ensures var s' := Step(s, Enter(t));
            !s'.places[t].awake && Look(s'.shared, s'.places[t].phase) == KeepWaiting
  {
    ReachableInv(n, s);
    EntryCheckHolds(s, t);
  }

  /** A phase ends one at a time, and only when every thread not yet removed has entered it:
      the one that takes the step, and all the others as its waiters. */
  lemma PhaseEndsTogether(n: nat, s: State, e: Event)
    requires Reachable(n, s) && Enabled(s, e)
    requires Step(s, e).shared.phase != s.shared.phase
    ensures Step(s, e).shared.phase == s.shared.phase + 1
    ensures Step(s, e).places[e.t] == Notifying(s.shared.phase)
    ensures forall u: nat :: u < |s.places| && u != e.t && s.places[u] != Removed ==>
              s.places[u].Waiting? && s.places[u].phase == s.shared.phase
  {
    ReachableInv(n, s);
    assert PlaceOk(s, e.t);
    match e {
      case Enter(t) => EveryoneElseWaits(s, t);
      case Wake(t) => EveryoneWaits(s);
      case Spurious(_) =>
      case Notify(_) =>
      case Remove(_) =>
    }
  }

  /** A step by which a call of wait gets somewhere: it returns, or its thread ends the phase. */
  predicate Advances(s: State, e: Event) {
    && Enabled(s, e)
    && (e.Notify? || (e.Wake? && Look(s.shared, s.places[e.t].phase) != KeepWaiting))
  }

  lemma SomeStepAdvances(s: State)
    requires Inv(s)
    requires Present(s.places) != {}
    requires forall t: nat :: t < |s.places| ==> s.places[t] != Outside
    ensures exists e :: Advances(s, e)
  {
    if SomeoneNotifies(s) {
      var t: nat :| t < |s.places| && s.places[t].Notifying?;
      assert Advances(s, Notify(t));
    } else {
      var t: nat :| t in Present(s.places);
      assert PlaceOk(s, t);
      if u: nat :| u < |s.places| && s.places[u].Waiting? && s.places[u].phase < s.shared.phase {
        assert Advances(s, Wake(u));
      } else {
        forall u: nat | u < |s.places| && s.places[u] != Removed
          ensures u in WaitersOf(s.places, s.shared.phase)
        {
          assert PlaceOk(s, u);
        }
        assert WaitersOf(s.places, s.shared.phase) == Present(s.places);
        assert Advances(s, Wake(t));
      }
    }
  }

  /** No wakeup is lost, also when threads leave early: whenever every remaining thread is in wait,
      one of them has a notification to make or is awake and will not go back to sleep. */
  lemma BarrierMakesProgress(n: nat, s: State)
    requires Reachable(n, s)
    requires Present(s.places) != {}
    requires forall t: nat :: t < |s.places| ==> s.places[t] != Outside
    ensures exists e :: Advances(s, e)
  {
    ReachableInv(n, s);
    SomeStepAdvances(s);
  }

  // A waiter has two steps to go at most, ending the phase and notifying.

  function StepsToGo(p: Place): nat {
    match p
    case Waiting(_, _) => 2
    case Notifying(_) => 1
    case Outside | Removed => 0
  }

  function Pending(s: State): nat {
    Sum(StepsToGo, s.places)
  }

  lemma {:induction false} WakingKeepsPending(places: seq<Place>)
    ensures Sum(StepsToGo, WakeAll(places)) == Sum(StepsToGo, places)
  {
    SameSum(StepsToGo, WakeAll(places), places);
  }

  /** Every step that gets somewhere brings the threads closer to being all outside. */
  lemma {:induction false} AdvancingCountsDown(s: State, e: Event)
    requires Advances(s, e)
    ensures Pending(Step(s, e)) < Pending(s)
  {
    WakingKeepsPending(s.places);
    SumAfterUpdate(StepsToGo, s.places, e.t, Step(s, e).places[e.t]);
    SumAfterUpdate(StepsToGo, WakeAll(s.places), e.t, Step(s, e).places[e.t]);
  }

  /** A step that gets nowhere or removes a thread changes nothing about that. */
  lemma {:induction false} OtherStepsKeepPending(s: State, e: Event)
    requires Enabled(s, e) && !e.Enter? && !Advances(s, e)
    ensures Pending(Step(s, e)) == Pending(s)
  {
    WakingKeepsPending(s.places);
    SumAfterUpdate(StepsToGo, s.places, e.t, Step(s, e).places[e.t]);
    SumAfterUpdate(StepsToGo, WakeAll(s.places), e.t, Step(s, e).places[e.t]);
  }

  /** A thread that enters has two steps to go at most. */
  lemma {:induction false} EnteringAddsTwo(s: State, t: nat)
    requires Enabled(s, Enter(t))
    ensures Pending(Step(s, Enter(t))) <= Pending(s) + 2
  {
    SumAfterUpdate(StepsToGo, s.places, t, Step(s, Enter(t)).places[t]);
  }

  /** How many of a run's steps get somewhere. */
  ghost predicate RunsTo(s: State, events: seq<Event>, s': State, advances: nat)
    decreases |events|
  {
    if events == [] then s' == s && advances == 0
    else
      && Enabled(s, events[0])
      && var one := if Advances(s, events[0]) then 1 else 0;
         advances >= one && RunsTo(Step(s, events[0]), events[1..], s', advances - one)
  }

  /** So however the steps of the waiters, spurious wakeups and removals interleave, as long as nobody
      enters, no more than two steps per thread get somewhere. */
  lemma {:induction false} WaitingEnds(s: State, events: seq<Event>, s': State, advances: nat)
    requires RunsTo(s, events, s', advances)
    requires forall e :: e in events ==> !e.Enter?
    ensures advances + Pending(s') <= Pending(s) <= 2 * |s.places|
    decreases |events|
  {
    SumBound(StepsToGo, s.places, 2);
    if events != [] {
      var e := events[0];
      if Advances(s, e) {
        AdvancingCountsDown(s, e);
        WaitingEnds(Step(s, e), events[1..], s', advances - 1);
      } else {
        OtherStepsKeepPending(s, e);
        WaitingEnds(Step(s, e), events[1..], s', advances);
      }
    }
  }

  /** Of the calls that entered a phase that is over exactly one has returned true or is about to,
      and none of a phase that is not over. */
  lemma OneWinnerPerPhase(n: nat, s: State, p: nat)
    requires Reachable(n, s)
    ensures Sized(s) && |s.places| == n
    ensures p < s.shared.phase ==> exists t: nat :: t < n && Won(s, t, p)
    ensures p >= s.shared.phase ==> forall t: nat :: t < n ==> !Won(s, t, p)
    ensures forall t: nat, u: nat :: t < n && u < n && Won(s, t, p) && Won(s, u, p) ==> t == u
  {
    ReachableInv(n, s);
    if p < s.shared.phase {
      assert HasWinner(s, p);
    }
  }

  /** The threads keep in step: one that is outside has had an answer for every phase so far,
      one inside for every phase before the one it entered, so call i of wait is about phase i. */
  lemma ThreadsKeepInStep(n: nat, s: State, t: nat)
    requires Reachable(n, s) && t < n
    ensures Sized(s) && |s.places| == n
    ensures match s.places[t]
            case Outside => |s.answers[t]| == s.shared.phase
            case Waiting(phase, _) => |s.answers[t]| == phase
            case Notifying(phase) => |s.answers[t]| == phase == s.shared.phase - 1
            case Removed => |s.answers[t]| <= s.shared.phase
  {
    ReachableInv(n, s);
    assert PlaceOk(s, t);
  }
}
