/** What can happen to the queue: any call at any time, any sleeper woken, every workload run as far as it
    goes, and an element handed to a call that waits for it. */
module QueueReach {
  import opened RingModel
  import opened Wrappers
  import opened QueueMachine
  import opened QueueSafety
  import opened QueueRuns
  import opened QueueLiveness

  // ---------------------------------------------------------------------------------------------
  // Single steps
  // ---------------------------------------------------------------------------------------------

  /** At any time some thread can call `pcq_enqueue` with any element, which adds one call, at its first
      line. */
  lemma CanEnqueue(s: State, elem: Pointer) returns (s': State)
    ensures Next(s, Enqueue(elem), s')
    ensures |s'.calls| == |s.calls| + 1 && s'.calls[..|s.calls|] == s.calls
    ensures s'.calls[|s.calls|] == Call(EnqLock, elem, false)
    ensures s' == s.(calls := s'.calls)
  {
    s' := s.(calls := s.calls + [Call(EnqLock, elem, false)]);
  }

  lemma CanDequeue(s: State) returns (s': State)
    ensures Next(s, Dequeue, s')
    ensures |s'.calls| == |s.calls| + 1 && s'.calls[..|s.calls|] == s.calls
    ensures s'.calls[|s.calls|] == Call(DeqLock, NULL, false)
    ensures s' == s.(calls := s'.calls)
  {
    s' := s.(calls := s.calls + [Call(DeqLock, NULL, false)]);
  }

  /** The call that is to be made is what its action says. */
  lemma CallMade(s: State, a: Action, s': State)
    requires Next(s, a, s') && (a.Enqueue? || a.Dequeue?)
    ensures s' == s.(calls := s.calls +
                     [if a.Enqueue? then Call(EnqLock, a.elem, false) else Call(DeqLock, NULL, false)])
  {
  }

  /** A call that has neither returned nor sleeps can execute its next line, unless that line locks a
      mutex that is taken. */
  lemma EnabledIff(s: State, t: nat)
    requires t < |s.calls|
    ensures var pc := s.calls[t].pc;
            Enabled(s, t) <==>
              if pc in {EnqLock, EnqAwake, DeqLock, DeqAwake} then s.sizeLock == Free
              else if pc in {EnqLockTail, DeqLockTail} then s.tailLock == Free
              else if pc in {EnqLockHead, DeqLockHead} then s.headLock == Free
              else pc !in {EnqSleep, DeqSleep, EnqDone, DeqDone}
  {
  }

  lemma SomeChoice(s: State, t: nat) returns (w: Option<nat>)
    requires t < |s.calls|
    ensures WakeChoice(s, t, w) && (w.Some? ==> w.value < |s.calls|)
    ensures s.calls[t].pc != EnqSignal && s.calls[t].pc != DeqSignal ==> w == None
  {
    w := None;
    if Line(s.calls[t].pc).Signal? {
      var sleepers := Line(s.calls[t].pc).sleepers;
      if u: nat :| u < |s.calls| && s.calls[u].pc == sleepers {
        w := Some(u);
      }
    }
  }

  /** And whichever call can execute its next line may be the next to do so. */
  lemma CanRun(s: State, t: nat) returns (w: Option<nat>, s': State)
    requires Inv(s) && t < |s.calls| && Enabled(s, t)
    ensures Next(s, Run(t, w), s')
    ensures s.calls[t].pc != EnqSignal && s.calls[t].pc != DeqSignal ==> w == None
  {
    NoFault(s, t);
    w := SomeChoice(s, t);
    s' := Wake(Act(s, t), w);
  }

  /** Every call waiting for a signal can be the one that it wakes. */
  lemma CanWake(s: State, t: nat, u: nat) returns (s': State)
    requires Inv(s) && t < |s.calls| && u < |s.calls|
    requires (s.calls[t].pc == EnqSignal && s.calls[u].pc == DeqSleep)
             || (s.calls[t].pc == DeqSignal && s.calls[u].pc == EnqSleep)
    ensures Next(s, Run(t, Some(u)), s')
    ensures s'.calls[u] == s.calls[u].(pc := if s.calls[u].pc == DeqSleep then DeqAwake else EnqAwake)
  {
    NoFault(s, t);
    s' := Wake(Act(s, t), Some(u));
  }

  /** And every waiting call can wake up for no reason. */
  lemma CanWakeSpuriously(s: State, u: nat) returns (s': State)
    requires u < |s.calls| && Asleep(s.calls[u])
    ensures Next(s, Spurious(u), s')
    ensures s'.calls[u] == s.calls[u].(pc := if s.calls[u].pc == DeqSleep then DeqAwake else EnqAwake)
  {
    s' := Wake(s, Some(u));
  }

  // ---------------------------------------------------------------------------------------------
  // Whole runs
  // ---------------------------------------------------------------------------------------------

  lemma Extended(
    capacity: nat, modulus: nat, states: seq<State>, actions: seq<Action>, a: Action, s': State)
    requires IsRun(capacity, modulus, states, actions) && Next(states[|actions|], a, s')
    ensures IsRun(capacity, modulus, states + [s'], actions + [a])
  {
    var states', actions' := states + [s'], actions + [a];
    forall i | 0 <= i < |actions'| ensures Next(states'[i], actions'[i], states'[i + 1]) {
    }
  }

  lemma OneMore(capacity: nat, modulus: nat, states: seq<State>, actions: seq<Action>)
    returns (a: Action, s': State)
    requires IsRun(capacity, modulus, states, actions) && capacity < modulus && !Stuck(states[|actions|])
    ensures IsRun(capacity, modulus, states + [s'], actions + [a]) && a.Run?
    ensures (states + [s'])[|actions| + 1] == s' && Work(s'.calls) < Work(states[|actions|].calls)
  {
    RunInv(capacity, modulus, states, actions, |actions|);
    a, s' := RunContinues(states[|actions|]);
    WorkNext(states[|actions|], a, s');
    Extended(capacity, modulus, states, actions, a, s');
  }

  /** Every run goes on, without further calls or spurious wake-ups, until nothing can. */
  lemma {:induction false} RunToTheEnd(capacity: nat, modulus: nat, states: seq<State>, actions: seq<Action>)
    returns (states': seq<State>, actions': seq<Action>)
    requires IsRun(capacity, modulus, states, actions) && capacity < modulus
    ensures IsRun(capacity, modulus, states', actions')
    ensures states <= states' && actions <= actions'
    ensures forall i :: |actions| <= i < |actions'| ==> actions'[i].Run?
    ensures Stuck(states'[|actions'|])
    decreases Work(states[|actions|].calls)
  {
    if Stuck(states[|actions|]) {
      states', actions' := states, actions;
    } else {
      var a, next := OneMore(capacity, modulus, states, actions);
      states', actions' := RunToTheEnd(capacity, modulus, states + [next], actions + [a]);
      assert actions'[|actions|] == (actions + [a])[|actions|];
    }
  }

  /** A workload: an element to enqueue, or None for a dequeue. */
  function Made(workload: seq<Option<Pointer>>): seq<Action> {
    seq(|workload|, i requires 0 <= i < |workload| =>
      if workload[i].Some? then Enqueue(workload[i].value) else Dequeue)
  }

  predicate IsCallOf(c: Call, w: Option<Pointer>) {
    && (IsEnqueue(c.pc) <==> w.Some?)
    && (w.Some? ==> c.item == w.value)
  }

  lemma {:induction false} CallsMade(capacity: nat, modulus: nat, workload: seq<Option<Pointer>>)
    returns (states: seq<State>)
    ensures IsRun(capacity, modulus, states, Made(workload))
    ensures |states[|workload|].calls| == |workload|
    ensures forall u :: 0 <= u < |workload| ==> IsCallOf(states[|workload|].calls[u], workload[u])
  {
    if workload == [] {
      states := [Created(capacity, modulus)];
    } else {
      var n := |workload| - 1;
      var before := CallsMade(capacity, modulus, workload[..n]);
      var s: State;
      if workload[n].Some? {
        s := CanEnqueue(before[n], workload[n].value);
      } else {
        s := CanDequeue(before[n]);
      }
      assert Made(workload) == Made(workload[..n]) + [Made(workload)[n]];
      Extended(capacity, modulus, before, Made(workload[..n]), Made(workload)[n], s);
      states := before + [s];
      forall u | 0 <= u < |workload| ensures IsCallOf(s.calls[u], workload[u]) {
        if u < n {
          assert s.calls[u] == s.calls[..n][u];
          assert workload[..n][u] == workload[u];
        }
      }
    }
  }

  function Enqueuing(workload: seq<Option<Pointer>>): nat {
    if workload == [] then 0
    else Enqueuing(workload[..|workload| - 1]) + if workload[|workload| - 1].Some? then 1 else 0
  }

  function Dequeuing(workload: seq<Option<Pointer>>): nat {
    if workload == [] then 0
    else Dequeuing(workload[..|workload| - 1]) + if workload[|workload| - 1].None? then 1 else 0
  }

  lemma {:induction false} CallsCounted(calls: seq<Call>, workload: seq<Option<Pointer>>)
    requires |calls| == |workload|
    requires forall u :: 0 <= u < |calls| ==> IsCallOf(calls[u], workload[u])
    ensures Count(calls, Enqueues) == Enqueuing(workload) && Count(calls, Dequeues) == Dequeuing(workload)
  {
    if calls != [] {
      var n := |calls| - 1;
      CallsCounted(calls[..n], workload[..n]);
    }
  }

  lemma CallsStay(
    capacity: nat, modulus: nat, states: seq<State>, actions: seq<Action>, i: nat, j: nat,
    workload: seq<Option<Pointer>>)
    requires IsRun(capacity, modulus, states, actions) && i <= j < |states|
    requires forall k :: i <= k < j ==> actions[k].Run?
    requires |states[i].calls| == |workload|
    requires forall u :: 0 <= u < |workload| ==> IsCallOf(states[i].calls[u], workload[u])
    ensures |states[j].calls| == |workload|
    ensures forall u :: 0 <= u < |workload| ==> IsCallOf(states[j].calls[u], workload[u])
    decreases j
  {
    if i < j {
      CallsStay(capacity, modulus, states, actions, i, j - 1, workload);
      WorkNext(states[j - 1], actions[j - 1], states[j]);
      forall u | 0 <= u < |workload| ensures IsCallOf(states[j].calls[u], workload[u]) {
        NextKeepsCall(states[j - 1], actions[j - 1], states[j], u);
      }
    }
  }

  /** Every workload, on a queue of any capacity, has a run that makes its calls and goes on until nothing
      can; and if the workload fits, that run returns from all of them. */
  lemma EveryWorkloadRuns(capacity: nat, modulus: nat, workload: seq<Option<Pointer>>)
    returns (states: seq<State>, actions: seq<Action>)
    requires capacity < modulus
    ensures IsRun(capacity, modulus, states, actions) && Made(workload) <= actions
    ensures var s := states[|actions|];
            && Stuck(s) && |s.calls| == |workload|
            && (forall u :: 0 <= u < |workload| ==> IsCallOf(s.calls[u], workload[u]))
            && (AllReturned(s) <==> Balanced(capacity, Enqueuing(workload), Dequeuing(workload)))
  {
    var first := CallsMade(capacity, modulus, workload);
    states, actions := RunToTheEnd(capacity, modulus, first, Made(workload));
    assert states[|workload|] == first[|workload|];
    CallsStay(capacity, modulus, states, actions, |workload|, |actions|, workload);
    CallsCounted(states[|actions|].calls, workload);
    EveryScheduleCompletes(capacity, modulus, states, actions);
  }

  // ---------------------------------------------------------------------------------------------
  // Handing over an element
  // ---------------------------------------------------------------------------------------------

  lemma SleeperWoken(s: State, a: Action, s': State, u: nat)
    requires Next(s, a, s') && a.Run? && u < |s.calls| && u < |s'.calls|
    requires s.calls[u].pc == DeqSleep && s'.calls[u].pc != DeqSleep
    ensures a.wakes == Some(u) && a.t < |s.calls| && s.calls[a.t].pc == EnqSignal && s'.calls[u].pc == DeqAwake
  {
    assert a.t != u;
    assert Act(s, a.t).calls[u] == s.calls[u];
    if a.wakes.Some? {
      WakeTarget(s, a.t, a.wakes.value);
    }
  }

  /** A call that sleeps and later does not was woken in between. */
  lemma {:induction false} WokenBetween(
    capacity: nat, modulus: nat, states: seq<State>, actions: seq<Action>, i: nat, n: nat, u: nat)
    returns (j: nat)
    requires IsRun(capacity, modulus, states, actions) && i <= n < |states|
    requires forall k :: i <= k < n ==> actions[k].Run?
    requires u < |states[i].calls| && states[i].calls[u].pc == DeqSleep
    requires u < |states[n].calls| && states[n].calls[u].pc != DeqSleep
    ensures i <= j < n && u < |states[j].calls| && states[j].calls[u].pc == DeqSleep
    ensures actions[j].wakes == Some(u) && actions[j].t < |states[j].calls|
    ensures states[j].calls[actions[j].t].pc == EnqSignal && states[j + 1].calls[u].pc == DeqAwake
    decreases n - i
  {
    assert Next(states[i], actions[i], states[i + 1]);
    NextKeepsCall(states[i], actions[i], states[i + 1], u);
    if states[i + 1].calls[u].pc == DeqSleep {
      j := WokenBetween(capacity, modulus, states, actions, i + 1, n, u);
    } else {
      j := i;
      SleeperWoken(states[i], actions[i], states[i + 1], u);
    }
  }

  /** On the new queue a dequeue falls asleep. */
  lemma FallsAsleep(capacity: nat, modulus: nat) returns (states: seq<State>)
    ensures IsRun(capacity, modulus, states, [Dequeue, Run(0, None), Run(0, None)])
    ensures states[3] == Created(capacity, modulus).(calls := [Call(DeqSleep, NULL, false)])
  {
    var s0 := Created(capacity, modulus);
    var s1 := s0.(calls := [Call(DeqLock, NULL, false)]);
    var s2 := s0.(calls := [Call(DeqTest, NULL, false)], sizeLock := HeldBy(0));
    var s3 := s0.(calls := [Call(DeqSleep, NULL, false)]);
    assert s1.calls == s0.calls + [Call(DeqLock, NULL, false)];
    assert s2 == Act(s1, 0);
    assert s3 == Act(s2, 0);
    states := [s0, s1, s2, s3];
  }

  lemma {:induction false} PushRecorded(log: seq<Event>, t: nat, x: Pointer)
    requires Push(t, x) in EventsOf(log, t)
    ensures x in Pushes(log)
  {
    if log[|log| - 1] != Push(t, x) {
      PushRecorded(log[..|log| - 1], t, x);
    }
  }

  lemma TwoCalls(calls: seq<Call>, g: Group)
    requires |calls| == 2
    ensures Count(calls, g) == One(g, calls[0]) + One(g, calls[1])
  {
    assert calls[..1][..0] == [];
    assert Count(calls[..1], g) == One(g, calls[0]);
  }

  /** With one enqueue and one dequeue, both returned, the dequeue returned the element. */
  lemma HandedOver(capacity: nat, modulus: nat, states: seq<State>, actions: seq<Action>, x: Pointer)
    requires IsRun(capacity, modulus, states, actions) && 0 < capacity < modulus
    requires var calls := states[|actions|].calls;
             |calls| == 2 && calls[0].pc == DeqDone && calls[1].pc == EnqDone && calls[1].item == x
    ensures states[|actions|].calls[0].item == x
  {
    var s := states[|actions|];
    RunWakeInv(capacity, modulus, states, actions, |actions|);
    RunGrows(capacity, modulus, states, actions, |actions|, |actions|);
    TwoCalls(s.calls, Pushed);
    TwoCalls(s.calls, Popped);
    RunLands(capacity, modulus, states, actions, |actions|);
    Linearisable(capacity, modulus, states, actions, |actions|);
    ReturnedOnce(capacity, modulus, states, actions, |actions|, 0);
    ReturnedOnce(capacity, modulus, states, actions, |actions|, 1);
    PopRecorded(s.log, 0, s.calls[0].item);
    PushRecorded(s.log, 1, x);
  }

  lemma PairCounts(calls: seq<Call>)
    requires |calls| == 2 && !IsEnqueue(calls[0].pc) && IsEnqueue(calls[1].pc)
    ensures Count(calls, Enqueues) == 1 && Count(calls, Dequeues) == 1
  {
    TwoCalls(calls, Enqueues);
    TwoCalls(calls, Dequeues);
  }

  /** One enqueue and one dequeue always fit. */
  lemma PairReturns(capacity: nat, modulus: nat, states: seq<State>, actions: seq<Action>)
    requires IsRun(capacity, modulus, states, actions) && 0 < capacity < modulus
    requires Stuck(states[|actions|]) && |states[|actions|].calls| == 2
    requires !IsEnqueue(states[|actions|].calls[0].pc) && IsEnqueue(states[|actions|].calls[1].pc)
    ensures states[|actions|].calls[0].pc == DeqDone && states[|actions|].calls[1].pc == EnqDone
  {
    var calls := states[|actions|].calls;
    PairCounts(calls);
    EveryScheduleCompletes(capacity, modulus, states, actions);
    assert Returned(calls[0]) && Returned(calls[1]);
  }

  /** A dequeue that sleeps and an enqueue that has just been made, run to the end. */
  lemma BothReturn(
    capacity: nat, modulus: nat, states: seq<State>, actions: seq<Action>, x: Pointer, i: nat)
    returns (j: nat)
    requires IsRun(capacity, modulus, states, actions) && 0 < capacity < modulus && i <= |actions|
    requires states[i].calls == [Call(DeqSleep, NULL, false), Call(EnqLock, x, false)]
    requires (forall k :: i <= k < |actions| ==> actions[k].Run?) && Stuck(states[|actions|])
    ensures i <= j < |actions| && |states[j].calls| == 2 && states[j].calls[0].pc == DeqSleep
    ensures actions[j] == Run(1, Some(0))
    ensures |states[|actions|].calls| == 2
    ensures states[|actions|].calls[0].pc == DeqDone && states[|actions|].calls[0].item == x
    ensures states[|actions|].calls[1].pc == EnqDone
  {
    var workload, n := [None, Some(x)], |actions|;
    CallsStay(capacity, modulus, states, actions, i, n, workload);
    assert IsCallOf(states[n].calls[0], workload[0]) && IsCallOf(states[n].calls[1], workload[1]);
    PairReturns(capacity, modulus, states, actions);
    j := WokenBetween(capacity, modulus, states, actions, i, n, 0);
    CallsStay(capacity, modulus, states, actions, i, j, workload);
    HandedOver(capacity, modulus, states, actions, x);
  }

  /** From `pcq_create` on, for every element there is a run in which a dequeue made on the empty queue
      sleeps, is woken by the enqueue of that element, and returns it. */
  lemma HandOver(capacity: nat, modulus: nat, x: Pointer)
    returns (states: seq<State>, actions: seq<Action>, i: nat, j: nat)
    requires 0 < capacity < modulus
    ensures IsRun(capacity, modulus, states, actions) && i < j < |actions|
    ensures actions[0] == Dequeue && actions[i] == Enqueue(x)
    ensures states[i].calls == [Call(DeqSleep, NULL, false)] && states[i].ring.size == 0
    ensures |states[j].calls| == 2 && states[j].calls[0].pc == DeqSleep && actions[j] == Run(1, Some(0))
    ensures |states[|actions|].calls| == 2
    ensures states[|actions|].calls[0].pc == DeqDone && states[|actions|].calls[0].item == x
    ensures states[|actions|].calls[1].pc == EnqDone
  {
    var first := FallsAsleep(capacity, modulus);
    var asleep := [Dequeue, Run(0, None), Run(0, None)];
    var s := CanEnqueue(first[3], x);
    Extended(capacity, modulus, first, asleep, Enqueue(x), s);
    assert s.calls == s.calls[..1] + [s.calls[1]];
    states, actions := RunToTheEnd(capacity, modulus, first + [s], asleep + [Enqueue(x)]);
    i := 3;
    assert states[3] == first[3] && states[4] == s && actions[3] == Enqueue(x) && actions[0] == Dequeue;
    j := BothReturn(capacity, modulus, states, actions, x, 4);
  }
}
