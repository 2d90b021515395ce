/** What holds along every run of the queue, whatever the threads call and however they are
    scheduled. */
module QueueRuns {
  import opened RingModel
  import opened QueueMachine
  import opened QueueSafety
  import opened QueueContents

  // ---------------------------------------------------------------------------------------------
  // The history only grows
  // ---------------------------------------------------------------------------------------------

  lemma {:induction false} PushesGrow(log: seq<Event>, log': seq<Event>)
    requires log <= log'
    ensures |Pushes(log)| <= |Pushes(log')|
  {
    if log == log' {
    } else {
      PushesGrow(log, log'[..|log'| - 1]);
    }
  }

  lemma {:induction false} LandedBefore(log: seq<Event>, log': seq<Event>, capacity: nat, modulus: nat)
    requires log <= log' && Landed(log', capacity, modulus)
    ensures Landed(log, capacity, modulus)
    decreases |log'|
  {
    if log != log' {
      LandedBefore(log, log'[..|log'| - 1], capacity, modulus);
    }
  }

  lemma NextGrows(s: State, a: Action, s': State)
    requires Next(s, a, s')
    ensures s.log <= s'.log && |s.calls| <= |s'.calls|
    ensures s'.ring.capacity == s.ring.capacity && s'.ring.modulus == s.ring.modulus
  {
  }

  lemma {:induction false} RunGrows(
    capacity: nat, modulus: nat, states: seq<State>, actions: seq<Action>, i: nat, j: nat)
    requires IsRun(capacity, modulus, states, actions) && i <= j < |states|
    ensures states[i].log <= states[j].log && |states[i].calls| <= |states[j].calls|
    ensures states[i].ring.capacity == states[j].ring.capacity == capacity
    ensures states[i].ring.modulus == states[j].ring.modulus == modulus
    decreases j
  {
    if j > 0 {
      RunGrows(capacity, modulus, states, actions, if i < j then i else j - 1, j - 1);
      NextGrows(states[j - 1], actions[j - 1], states[j]);
    }
  }

  /** Every state of every run satisfies the invariant. */
  lemma {:induction false} RunInv(
    capacity: nat, modulus: nat, states: seq<State>, actions: seq<Action>, i: nat)
    requires IsRun(capacity, modulus, states, actions) && i < |states| && capacity < modulus
    ensures Inv(states[i])
    ensures states[i].ring.capacity == capacity && states[i].ring.modulus == modulus
  {
    if i == 0 {
      InvCreated(capacity, modulus);
    } else {
      NextGrows(states[i - 1], actions[i - 1], states[i]);
      RunInv(capacity, modulus, states, actions, i - 1);
      InvNext(states[i - 1], actions[i - 1], states[i]);
    }
  }

  /** The buffer is in order as long as every element landed in a free slot. */
  lemma {:induction false} RunContents(
    capacity: nat, modulus: nat, states: seq<State>, actions: seq<Action>, i: nat)
    requires IsRun(capacity, modulus, states, actions) && i < |states| && capacity < modulus
    requires LandedNow(states[i])
    ensures ContentsOk(states[i])
  {
    if i == 0 {
      ContentsCreated(capacity, modulus);
    } else {
      NextGrows(states[i - 1], actions[i - 1], states[i]);
      LandedBefore(states[i - 1].log, states[i].log, states[i].ring.capacity, states[i].ring.modulus);
      RunContents(capacity, modulus, states, actions, i - 1);
      RunInv(capacity, modulus, states, actions, i - 1);
      ContentsNext(states[i - 1], actions[i - 1], states[i]);
    }
  }

  /** And no longer: the buffer is in order in all states of a run up to i exactly when every element
      landed in a free slot by then. */
  lemma {:induction false} RunContentsExact(
    capacity: nat, modulus: nat, states: seq<State>, actions: seq<Action>, i: nat)
    requires IsRun(capacity, modulus, states, actions) && i < |states| && capacity < modulus
    ensures (forall j :: 0 <= j <= i ==> ContentsOk(states[j])) <==> LandedNow(states[i])
  {
    if LandedNow(states[i]) {
      forall j | 0 <= j <= i ensures ContentsOk(states[j]) {
        RunGrows(capacity, modulus, states, actions, j, i);
        LandedBefore(states[j].log, states[i].log, capacity, modulus);
        RunContents(capacity, modulus, states, actions, j);
      }
    } else if i > 0 {
      RunContentsExact(capacity, modulus, states, actions, i - 1);
      if LandedNow(states[i - 1]) {
        RunInv(capacity, modulus, states, actions, i - 1);
        ContentsNext(states[i - 1], actions[i - 1], states[i]);
      }
    }
  }

  lemma QuietLands(s: State, t: nat)
    requires t < |s.calls| && !Fault(s, t) && LandedNow(s) && s.calls[t].pc != EnqStore
    ensures Landed(Act(s, t).log, s.ring.capacity, s.ring.modulus)
  {
    if s.calls[t].pc == DeqErase {
      LandedAppend(s.log, Pop(t, s.calls[t].item), s.ring.capacity, s.ring.modulus);
    } else {
      LogAct(s, t);
    }
  }

  lemma StoreLands(s: State, t: nat)
    requires Inv(s) && t < |s.calls| && !Fault(s, t) && LandedNow(s) && s.calls[t].pc == EnqStore
    requires Fits(s.ring.capacity, s.ring.modulus, |Pushes(Act(s, t).log)|)
    ensures Landed(Act(s, t).log, s.ring.capacity, s.ring.modulus)
  {
    LogAct(s, t);
    FitsLandsAct(s, t);
    StoreAct(s, t);
  }

  /** Where the counters fit, the element a step stores lands in a free slot. */
  lemma LandsNext(s: State, a: Action, s': State)
    requires Inv(s) && Next(s, a, s') && LandedNow(s)
    requires Fits(s.ring.capacity, s.ring.modulus, |Pushes(s'.log)|)
    ensures Landed(s'.log, s.ring.capacity, s.ring.modulus)
  {
    if a.Run? {
      assert s'.log == Act(s, a.t).log;
      if s.calls[a.t].pc == EnqStore {
        StoreLands(s, a.t);
      } else {
        QuietLands(s, a.t);
      }
    }
  }

  /** In particular it is in order for ever if the capacity divides the modulus, and otherwise for the
      first `modulus` enqueues. */
  lemma {:induction false} RunLands(
    capacity: nat, modulus: nat, states: seq<State>, actions: seq<Action>, i: nat)
    requires IsRun(capacity, modulus, states, actions) && i < |states| && capacity < modulus
    requires Fits(capacity, modulus, |Pushes(states[i].log)|)
    ensures LandedNow(states[i])
  {
    if i > 0 {
      NextGrows(states[i - 1], actions[i - 1], states[i]);
      PushesGrow(states[i - 1].log, states[i].log);
      RunLands(capacity, modulus, states, actions, i - 1);
      RunInv(capacity, modulus, states, actions, i - 1);
      RunGrows(capacity, modulus, states, actions, i, i);
      LandsNext(states[i - 1], actions[i - 1], states[i]);
    }
  }

  // ---------------------------------------------------------------------------------------------
  // First in, first out
  // ---------------------------------------------------------------------------------------------

  /** A history the sequential queue accepts pops what it pushed, in order. */
  lemma {:induction false} ReplayIsFifo(log: seq<Event>, capacity: nat)
    requires Replay(log, capacity).Some?
    ensures Pushes(log) == Pops(log) + Replay(log, capacity).value
    ensures |Replay(log, capacity).value| <= capacity
  {
    if log != [] {
      ReplayIsFifo(log[..|log| - 1], capacity);
    }
  }

  lemma {:induction false} EventsOfSplit(log: seq<Event>, more: seq<Event>, t: nat)
    ensures EventsOf(log + more, t) == EventsOf(log, t) + EventsOf(more, t)
  {
    if more == [] {
      assert log + more == log;
    } else {
      var n := |more| - 1;
      EventsOfSplit(log, more[..n], t);
      assert (log + more)[..|log + more| - 1] == log + more[..n];
    }
  }

  lemma {:induction false} EventCounted(log: seq<Event>, t: nat, p: nat)
    requires p < |log| && log[p].caller == t
    ensures EventsOf(log, t) != []
  {
    if p < |log| - 1 {
      EventCounted(log[..|log| - 1], t, p);
    }
  }

  predicate Returned(c: Call) { c.pc == EnqDone || c.pc == DeqDone }

  /** If all events of u are in the first part of a history and none of v's is, u's come first. */
  lemma EventsInOrder(log: seq<Event>, log': seq<Event>, u: nat, v: nat, p: nat, q: nat)
    requires log <= log' && EventsOf(log', u) == EventsOf(log, u) && EventsOf(log, v) == []
    requires p < |log'| && log'[p].caller == u
    requires q < |log'| && log'[q].caller == v
    ensures p < q
  {
    var more := log'[|log|..];
    assert log' == log + more;
    EventsOfSplit(log, more, u);
    assert |EventsOf(more, u)| == 0;
    if p >= |log| {
      EventCounted(more, u, p - |log|);
    }
    if q < |log| {
      EventCounted(log, v, q);
    }
  }

  /** The events of a call that has returned are final, and a call that has not begun has none. */
  lemma SettledEvents(
    capacity: nat, modulus: nat, states: seq<State>, actions: seq<Action>, i: nat, u: nat)
    requires IsRun(capacity, modulus, states, actions) && i < |states|
    requires capacity < modulus
    ensures u >= |states[i].calls| ==> EventsOf(states[i].log, u) == []
    ensures u < |states[i].calls| ==> EventsOf(states[i].log, u) == Due(u, states[i].calls[u])
  {
    RunInv(capacity, modulus, states, actions, i);
    if u < |states[i].calls| {
      assert CallOk(states[i].log, u, states[i].calls[u]);
    }
  }

  /** The event of a call that has returned. */
  function EventOf(u: nat, c: Call): Event {
    if c.pc == EnqDone then Push(u, c.item) else Pop(u, c.item)
  }

  /** Every call that has returned appears in the history exactly once, with the pointer it was given or
      returned. */
  lemma ReturnedOnce(capacity: nat, modulus: nat, states: seq<State>, actions: seq<Action>, i: nat, u: nat)
    requires IsRun(capacity, modulus, states, actions) && i < |states| && capacity < modulus
    requires u < |states[i].calls| && Returned(states[i].calls[u])
    ensures EventsOf(states[i].log, u) == [EventOf(u, states[i].calls[u])]
  {
    SettledEvents(capacity, modulus, states, actions, i, u);
  }

  /** The queue is linearisable as long as every element landed in a free slot: the history of the run is
      one the sequential bounded queue accepts, so what is dequeued is what was enqueued, in order, and
      the rest is waiting; and every call that has returned appears in it exactly once. */
  lemma Linearisable(capacity: nat, modulus: nat, states: seq<State>, actions: seq<Action>, i: nat)
    requires IsRun(capacity, modulus, states, actions) && i < |states| && capacity < modulus
    requires LandedNow(states[i])
    ensures var log := states[i].log;
            && Replay(log, capacity).Some?
            && Pushes(log) == Pops(log) + Replay(log, capacity).value
            && |Replay(log, capacity).value| <= capacity
    ensures forall u :: 0 <= u < |states[i].calls| && Returned(states[i].calls[u]) ==>
              EventsOf(states[i].log, u) == [EventOf(u, states[i].calls[u])]
  {
    RunContents(capacity, modulus, states, actions, i);
    RunGrows(capacity, modulus, states, actions, i, i);
    ReplayIsFifo(states[i].log, capacity);
    forall u | 0 <= u < |states[i].calls| && Returned(states[i].calls[u])
      ensures EventsOf(states[i].log, u) == [EventOf(u, states[i].calls[u])]
    {
      ReturnedOnce(capacity, modulus, states, actions, i, u);
    }
  }

  lemma ActKeepsCall(s: State, t: nat)
    requires t < |s.calls| && !Fault(s, t)
    ensures IsEnqueue(CallAfter(s, t).pc) <==> IsEnqueue(s.calls[t].pc)
    ensures IsEnqueue(s.calls[t].pc) ==> CallAfter(s, t).item == s.calls[t].item
  {
  }

  /** A call keeps its kind, and an enqueue its argument. */
  lemma NextKeepsCall(s: State, a: Action, s': State, u: nat)
    requires Next(s, a, s') && u < |s.calls|
    ensures u < |s'.calls|
    ensures IsEnqueue(s'.calls[u].pc) <==> IsEnqueue(s.calls[u].pc)
    ensures IsEnqueue(s.calls[u].pc) ==> s'.calls[u].item == s.calls[u].item
    ensures Returned(s.calls[u]) ==> s'.calls[u] == s.calls[u]
  {
    if a.Run? {
      ActKeepsCall(s, a.t);
    }
  }

  lemma {:induction false} RunKeepsCall(
    capacity: nat, modulus: nat, states: seq<State>, actions: seq<Action>, i: nat, j: nat, u: nat)
    requires IsRun(capacity, modulus, states, actions) && i <= j < |states| && u < |states[i].calls|
    ensures u < |states[j].calls|
    ensures IsEnqueue(states[j].calls[u].pc) <==> IsEnqueue(states[i].calls[u].pc)
    ensures IsEnqueue(states[i].calls[u].pc) ==> states[j].calls[u].item == states[i].calls[u].item
    ensures Returned(states[i].calls[u]) ==> states[j].calls[u] == states[i].calls[u]
    decreases j
  {
    if i < j {
      RunKeepsCall(capacity, modulus, states, actions, i, j - 1, u);
      NextKeepsCall(states[j - 1], actions[j - 1], states[j], u);
    }
  }

  /** The event of a call of `pcq_enqueue(elem)` is a push of `elem`, and that of a call of
      `pcq_dequeue` is a pop of what it returns. */
  lemma CallsGetTheirEvents(
    capacity: nat, modulus: nat, states: seq<State>, actions: seq<Action>, i: nat, j: nat)
    requires IsRun(capacity, modulus, states, actions) && i < |actions| && i < j < |states|
    requires capacity < modulus
    requires actions[i].Enqueue? || actions[i].Dequeue?
    ensures var u := |states[i].calls|;
            && u < |states[j].calls|
            && (Returned(states[j].calls[u]) ==>
                  EventsOf(states[j].log, u) ==
                  [if actions[i].Enqueue? then Push(u, actions[i].elem) else Pop(u, states[j].calls[u].item)])
  {
    var u := |states[i].calls|;
    assert Next(states[i], actions[i], states[i + 1]);
    RunKeepsCall(capacity, modulus, states, actions, i + 1, j, u);
    RunInv(capacity, modulus, states, actions, j);
    assert CallOk(states[j].log, u, states[j].calls[u]);
  }

  /** The history respects real time: if call u returned before call v was made, then u's event
      comes before v's. */
  lemma RealTimeOrder(
    capacity: nat, modulus: nat, states: seq<State>, actions: seq<Action>,
    i: nat, j: nat, u: nat, v: nat, p: nat, q: nat)
    requires IsRun(capacity, modulus, states, actions) && i <= j < |states|
    requires capacity < modulus
    requires u < |states[i].calls| <= v && Returned(states[i].calls[u])
    requires p < |states[j].log| && states[j].log[p].caller == u
    requires q < |states[j].log| && states[j].log[q].caller == v
    ensures p < q
  {
    RunGrows(capacity, modulus, states, actions, i, j);
    RunKeepsCall(capacity, modulus, states, actions, i, j, u);
    SettledEvents(capacity, modulus, states, actions, i, u);
    SettledEvents(capacity, modulus, states, actions, i, v);
    SettledEvents(capacity, modulus, states, actions, j, u);
    EventsInOrder(states[i].log, states[j].log, u, v, p, q);
  }

  // ---------------------------------------------------------------------------------------------
  // NULL elements
  // ---------------------------------------------------------------------------------------------

  /** No NULL was ever passed to `pcq_enqueue`. */
  ghost predicate NullFree(s: State) {
    && (forall u :: 0 <= u < |s.calls| && IsEnqueue(s.calls[u].pc) ==> s.calls[u].item != NULL)
    && NULL !in Pushes(s.log)
  }

  lemma NullFreeAct(s: State, t: nat)
    requires t < |s.calls| && !Fault(s, t) && NullFree(s)
    ensures NullFree(Act(s, t))
  {
    ActKeepsCall(s, t);
    if s.calls[t].pc == EnqStore {
      LogAppend(s.log, Push(t, s.calls[t].item));
    } else if s.calls[t].pc == DeqErase {
      LogAppend(s.log, Pop(t, s.calls[t].item));
    } else {
      LogAct(s, t);
    }
  }

  lemma NullFreeNext(s: State, a: Action, s': State)
    requires NullFree(s) && Next(s, a, s') && (a.Enqueue? ==> a.elem != NULL)
    ensures NullFree(s')
  {
    if a.Run? {
      NullFreeAct(s, a.t);
    }
  }

  lemma {:induction false} RunNullFree(
    capacity: nat, modulus: nat, states: seq<State>, actions: seq<Action>, i: nat)
    requires IsRun(capacity, modulus, states, actions) && i < |states|
    requires forall k :: 0 <= k < i && actions[k].Enqueue? ==> actions[k].elem != NULL
    ensures NullFree(states[i])
  {
    if i > 0 {
      RunNullFree(capacity, modulus, states, actions, i - 1);
      NullFreeNext(states[i - 1], actions[i - 1], states[i]);
    }
  }

  lemma {:induction false} PopRecorded(log: seq<Event>, t: nat, x: Pointer)
    requires Pop(t, x) in EventsOf(log, t)
    ensures x in Pops(log)
  {
    if log[|log| - 1] != Pop(t, x) {
      PopRecorded(log[..|log| - 1], t, x);
    }
  }

  /** If no NULL is enqueued, the line that reads through the dequeued pointer reads through no NULL. */
  lemma NoNullRead(capacity: nat, modulus: nat, states: seq<State>, actions: seq<Action>, i: nat, t: nat)
    requires IsRun(capacity, modulus, states, actions) && i < |states| && capacity < modulus
    requires forall k :: 0 <= k < i && actions[k].Enqueue? ==> actions[k].elem != NULL
    requires LandedNow(states[i])
    requires t < |states[i].calls| && states[i].calls[t].pc == DeqInspect
    ensures states[i].calls[t].item != NULL
  {
    RunNullFree(capacity, modulus, states, actions, i);
    SettledEvents(capacity, modulus, states, actions, i, t);
    PopRecorded(states[i].log, t, states[i].calls[t].item);
    Linearisable(capacity, modulus, states, actions, i);
  }
}
