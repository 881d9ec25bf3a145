/** The semaphore that Serverlab/csapp.c builds from a mutex and a condition variable, as the steps of any
    number of threads inside P and V.  Each step is one statement of the code; they interleave freely, and a
    sleeping thread may wake up for no reason. */
module Semaphore {

  // Where a thread is: the statement it executes next.
  datatype At =
    | Idle                                       // in neither call
    | PEnter | PTest | Asleep | Awake | PTake | PLeave
    | VEnter | VAdd | VSignal | VLeave

  datatype Owner = Free | By(thread: nat)

  datatype State = State(ready: int, mutex: Owner, at: seq<At>)

  datatype Action =
    | CallP(t: nat) | CallV(t: nat)
    | Lock(t: nat)                // pthread_mutex_lock, or the return of pthread_cond_wait
    | Test(t: nat)                // the condition of the loop in P
    | Take(t: nat)                // --sem->ready
    | Add(t: nat)                 // sem->ready++
    | Signal(t: nat, woken: nat)  // pthread_cond_signal
    | Spurious(t: nat)            // pthread_cond_wait returns unsignalled
    | Unlock(t: nat)

  predicate InLock(a: At) {
    a == PTest || a == PTake || a == PLeave || a == VAdd || a == VSignal || a == VLeave
  }

  function Move(s: State, t: nat, to: At): State
    requires t < |s.at|
  {
    s.(at := s.at[t := to])
  }

  predicate Step(s: State, a: Action, next: State) {
    a.t < |s.at| &&
    var here := s.at[a.t];
    match a
    case CallP(t) => here == Idle && next == Move(s, t, PEnter)
    case CallV(t) => here == Idle && next == Move(s, t, VEnter)
    case Lock(t) =>
      && s.mutex == Free && (here == PEnter || here == Awake || here == VEnter)
      && next == Move(s, t, if here == VEnter then VAdd else PTest).(mutex := By(t))
    case Test(t) =>
      && here == PTest
      && next == if s.ready == 0 then Move(s, t, Asleep).(mutex := Free) else Move(s, t, PTake)
    case Take(t) => here == PTake && next == Move(s, t, PLeave).(ready := s.ready - 1)
    case Add(t) => here == VAdd && next == Move(s, t, VSignal).(ready := s.ready + 1)
    case Signal(t, woken) =>
      && here == VSignal
      && var told := Move(s, t, VLeave);
      if Asleep in s.at then woken < |s.at| && s.at[woken] == Asleep && next == Move(told, woken, Awake)
      else next == told
    case Spurious(t) => here == Asleep && next == Move(s, t, Awake)
    case Unlock(t) => (here == PLeave || here == VLeave) && next == Move(s, t, Idle).(mutex := Free)
  }

  // Sem_init, before any thread uses the semaphore.
  predicate Initial(s: State, value: nat) {
    && s.ready == value && s.mutex == Free
    && forall t :: 0 <= t < |s.at| ==> s.at[t] == Idle
  }

  ghost predicate Run(states: seq<State>, actions: seq<Action>, value: nat) {
    && |states| == |actions| + 1 && Initial(states[0], value)
    && forall i :: 0 <= i < |actions| ==> Step(states[i], actions[i], states[i + 1])
  }

  function Sleeping(s: State): nat { multiset(s.at)[Asleep] }

  // The threads that have been woken and must still look at ready again.
  function Woken(s: State): nat { multiset(s.at)[Awake] }

  ghost predicate MutexOk(s: State) {
    && (s.mutex.By? ==> s.mutex.thread < |s.at|)
    && forall t :: 0 <= t < |s.at| ==> (InLock(s.at[t]) <==> s.mutex == By(t))
  }

  // The thread in the lock may be about to use up one unit, or to announce one.
  function Pending(s: State): nat
    requires s.mutex.By? ==> s.mutex.thread < |s.at|
  {
    if s.mutex == Free then 0
    else
      var here := s.at[s.mutex.thread];
      if here == PTest || here == PTake || here == VSignal then 1 else 0
  }

  ghost predicate Invariant(s: State) {
    && MutexOk(s)
    && 0 <= s.ready && (s.mutex.By? && s.at[s.mutex.thread] == PTake ==> 0 < s.ready)
    && (0 < Sleeping(s) ==> s.ready <= Woken(s) + Pending(s))
  }

  lemma {:induction false} MutexStep(s: State, a: Action, next: State)
    requires MutexOk(s) && Step(s, a, next)
    ensures MutexOk(next)
  {
  }

  lemma {:induction false} InLockIs(s: State, t: nat)
    requires MutexOk(s) && t < |s.at|
    ensures InLock(s.at[t]) <==> s.mutex == By(t)
    ensures s.mutex.By? ==> s.mutex.thread < |s.at|
  {
  }

  lemma {:induction false} MoveCounts(s: State, t: nat, to: At, next: State)
    requires t < |s.at| && next.at == s.at[t := to]
    ensures Sleeping(next) ==
            Sleeping(s) - (if s.at[t] == Asleep then 1 else 0) + if to == Asleep then 1 else 0
    ensures Woken(next) ==
            Woken(s) - (if s.at[t] == Awake then 1 else 0) + if to == Awake then 1 else 0
  {
  }

  lemma {:induction false} SignalCounts(s: State, t: nat, woken: nat, next: State)
    requires Step(s, Signal(t, woken), next)
    ensures Sleeping(s) == 0 ==> Sleeping(next) == 0
    ensures Sleeping(s) > 0 ==> Woken(next) == Woken(s) + 1
  {
  }

  lemma {:induction false} InvariantStep(s: State, a: Action, next: State)
    requires Invariant(s) && Step(s, a, next)
    ensures Invariant(next)
  {
    hide Sleeping, Woken, MutexOk;
    MutexStep(s, a, next);
    InLockIs(s, a.t);
    InLockIs(next, a.t);
    match a {
      case CallP(t) => MoveCounts(s, t, PEnter, next);
      case CallV(t) => MoveCounts(s, t, VEnter, next);
      case Lock(t) => MoveCounts(s, t, if s.at[t] == VEnter then VAdd else PTest, next);
      case Test(t) => MoveCounts(s, t, if s.ready == 0 then Asleep else PTake, next);
      case Take(t) => MoveCounts(s, t, PLeave, next);
      case Add(t) => MoveCounts(s, t, VSignal, next);
      case Signal(t, woken) => SignalCounts(s, t, woken, next);
      case Spurious(t) => MoveCounts(s, t, Awake, next);
      case Unlock(t) => MoveCounts(s, t, Idle, next);
    }
  }

  lemma {:induction false} InvariantStarts(s: State, value: nat)
    requires Initial(s, value)
    ensures Invariant(s)
  {
  }

  lemma {:induction false} InvariantHolds(states: seq<State>, actions: seq<Action>, value: nat, i: nat)
    requires Run(states, actions, value) && i < |states|
    ensures Invariant(states[i])
  {
    if i == 0 {
      InvariantStarts(states[0], value);
    } else {
      InvariantHolds(states, actions, value, i - 1);
      InvariantStep(states[i - 1], actions[i - 1], states[i]);
    }
  }

  // How often the count went down and up.
  function Downs(actions: seq<Action>): nat {
    if actions == [] then 0 else Downs(actions[..|actions| - 1]) + if actions[|actions| - 1].Take? then 1 else 0
  }

  function Ups(actions: seq<Action>): nat {
    if actions == [] then 0 else Ups(actions[..|actions| - 1]) + if actions[|actions| - 1].Add? then 1 else 0
  }

  // ready counts what V has put in and P has not taken out; it never goes below zero.
  lemma {:induction false} ReadyCounts(states: seq<State>, actions: seq<Action>, value: nat, i: nat)
    requires Run(states, actions, value) && i <= |actions|
    ensures states[i].ready == value + Ups(actions[..i]) - Downs(actions[..i])
    ensures Downs(actions[..i]) <= value + Ups(actions[..i])
  {
    InvariantHolds(states, actions, value, i);
    if i > 0 {
      ReadyCounts(states, actions, value, i - 1);
      assert Step(states[i - 1], actions[i - 1], states[i]);
      assert actions[..i][..i - 1] == actions[..i - 1];
    }
  }

  // With the mutex free and somebody asleep, every unit there is has a woken thread on its way to it.
  lemma {:induction false} NoLostWakeup(states: seq<State>, actions: seq<Action>, value: nat, i: nat)
    requires Run(states, actions, value) && i < |states|
    requires states[i].mutex == Free && Asleep in states[i].at
    ensures states[i].ready <= Woken(states[i])
  {
    InvariantHolds(states, actions, value, i);
    assert Asleep in multiset(states[i].at);
  }

  // No thread can move but by a new call or a spurious wake-up.
  ghost predicate Stuck(s: State) {
    forall a: Action, next: State :: Step(s, a, next) ==> a.CallP? || a.CallV? || a.Spurious?
  }

  lemma {:induction false} SomebodyToSignal(s: State, u: nat)
    requires u < |s.at| && s.at[u] == VSignal
    ensures exists a: Action, next: State :: a.Signal? && Step(s, a, next)
  {
    if w :| 0 <= w < |s.at| && s.at[w] == Asleep {
      assert Step(s, Signal(u, w), Move(Move(s, u, VLeave), w, Awake));
    } else {
      assert Step(s, Signal(u, 0), Move(s, u, VLeave));
    }
  }

  lemma {:induction false} CanMove(s: State, t: nat)
    requires MutexOk(s) && t < |s.at| && Stuck(s)
    ensures s.mutex == Free && (s.at[t] == Idle || s.at[t] == Asleep)
  {
    if s.mutex.By? {
      var u := s.mutex.thread;
      assert InLock(s.at[u]);
      var here := s.at[u];
      if here == PTest {
        assert Step(s, Test(u), if s.ready == 0 then Move(s, u, Asleep).(mutex := Free) else Move(s, u, PTake));
      } else if here == PTake {
        assert Step(s, Take(u), Move(s, u, PLeave).(ready := s.ready - 1));
      } else if here == VAdd {
        assert Step(s, Add(u), Move(s, u, VSignal).(ready := s.ready + 1));
      } else if here == VSignal {
        SomebodyToSignal(s, u);
      } else {
        assert Step(s, Unlock(u), Move(s, u, Idle).(mutex := Free));
      }
    } else if s.at[t] == PEnter || s.at[t] == Awake || s.at[t] == VEnter {
      assert Step(s, Lock(t), Move(s, t, if s.at[t] == VEnter then VAdd else PTest).(mutex := By(t)));
    }
  }

  // P and V cannot lock each other up: when nothing moves, the sleepers sleep because the count is zero,
  // and everybody else has returned.
  lemma {:induction false} StuckMeansNothingReady(states: seq<State>, actions: seq<Action>, value: nat, i: nat)
    requires Run(states, actions, value) && i < |states|
    requires Stuck(states[i])
    ensures forall t :: 0 <= t < |states[i].at| ==> states[i].at[t] == Idle || states[i].at[t] == Asleep
    ensures Asleep in states[i].at ==> states[i].ready == 0
  {
    var s := states[i];
    InvariantHolds(states, actions, value, i);
    forall t | 0 <= t < |s.at| ensures s.at[t] == Idle || s.at[t] == Asleep {
      CanMove(s, t);
    }
    if Asleep in s.at {
      CanMove(s, 0);
      assert Awake !in s.at;
      assert Awake !in multiset(s.at);
      NoLostWakeup(states, actions, value, i);
    }
  }

  // The units one thread holds: those it has taken less those it has put back.
  function Held(actions: seq<Action>, t: nat): int {
    if actions == [] then 0
    else
      var last := actions[|actions| - 1];
      Held(actions[..|actions| - 1], t) + if last == Take(t) then 1 else if last == Add(t) then -1 else 0
  }

  function HeldBelow(actions: seq<Action>, n: nat): int {
    if n == 0 then 0 else HeldBelow(actions, n - 1) + Held(actions, n - 1)
  }

  lemma {:induction false} HeldBelowStep(actions: seq<Action>, a: Action, n: nat)
    ensures HeldBelow(actions + [a], n) ==
            HeldBelow(actions, n) + if a.t >= n then 0 else if a.Take? then 1 else if a.Add? then -1 else 0
  {
    if n > 0 {
      HeldBelowStep(actions, a, n - 1);
      assert (actions + [a])[..|actions|] == actions;
    }
  }

  lemma {:induction false} HeldNothing(n: nat)
    ensures HeldBelow([], n) == 0
  {
    if n > 0 { HeldNothing(n - 1); }
  }

  lemma {:induction false} SameThreads(states: seq<State>, actions: seq<Action>, value: nat, i: nat)
    requires Run(states, actions, value) && i < |states|
    ensures |states[i].at| == |states[0].at|
  {
    if i > 0 {
      SameThreads(states, actions, value, i - 1);
      assert Step(states[i - 1], actions[i - 1], states[i]);
    }
  }

  // The units held by all threads together and those that are ready make up the initial value.
  lemma {:induction false} UnitsAreConserved(states: seq<State>, actions: seq<Action>, value: nat, i: nat)
    requires Run(states, actions, value) && i <= |actions|
    ensures HeldBelow(actions[..i], |states[0].at|) + states[i].ready == value
    ensures HeldBelow(actions[..i], |states[0].at|) <= value
  {
    InvariantHolds(states, actions, value, i);
    var n := |states[0].at|;
    if i == 0 {
      HeldNothing(n);
    } else {
      UnitsAreConserved(states, actions, value, i - 1);
      SameThreads(states, actions, value, i - 1);
      assert Step(states[i - 1], actions[i - 1], states[i]);
      assert actions[..i] == actions[..i - 1] + [actions[i - 1]];
      HeldBelowStep(actions[..i - 1], actions[i - 1], n);
    }
  }

  lemma {:induction false} HeldByTwo(actions: seq<Action>, n: nat, t: nat, u: nat)
    requires t < u < n && forall v :: 0 <= v < n ==> 0 <= Held(actions, v)
    ensures Held(actions, t) + Held(actions, u) <= HeldBelow(actions, n)
  {
    if u < n - 1 {
      HeldByTwo(actions, n - 1, t, u);
    } else {
      HeldByOne(actions, n - 1, t);
    }
  }

  lemma {:induction false} HeldByOne(actions: seq<Action>, n: nat, t: nat)
    requires t < n && forall v :: 0 <= v < n ==> 0 <= Held(actions, v)
    ensures Held(actions, t) <= HeldBelow(actions, n)
  {
    if t < n - 1 {
      HeldByOne(actions, n - 1, t);
    } else {
      HeldNonNegative(actions, n - 1);
    }
  }

  lemma {:induction false} HeldNonNegative(actions: seq<Action>, n: nat)
    requires forall v :: 0 <= v < n ==> 0 <= Held(actions, v)
    ensures 0 <= HeldBelow(actions, n)
  {
    if n > 0 { HeldNonNegative(actions, n - 1); }
  }

  // A semaphore that starts at one is a lock, for threads that only put back what they have taken.
  lemma {:induction false} MutualExclusion(states: seq<State>, actions: seq<Action>, i: nat, t: nat, u: nat)
    requires Run(states, actions, 1) && i <= |actions|
    requires t < u < |states[0].at|
    requires forall v :: 0 <= v < |states[0].at| ==> 0 <= Held(actions[..i], v)
    ensures Held(actions[..i], t) == 0 || Held(actions[..i], u) == 0
  {
    UnitsAreConserved(states, actions, 1, i);
    HeldByTwo(actions[..i], |states[0].at|, t, u);
  }
}
