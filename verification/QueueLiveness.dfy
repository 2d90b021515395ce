/** The queue never loses a wake-up, never deadlocks, and lets every workload that can be completed
    complete. */
module QueueLiveness {
  import opened RingModel
  import opened Wrappers
  import opened QueueMachine
  import opened QueueSafety
  import opened QueueContents
  import opened QueueRuns
  import opened PcQueue

  // ---------------------------------------------------------------------------------------------
  // Counting calls
  // ---------------------------------------------------------------------------------------------

  datatype Group =
    | SleepingPopper  // dequeues waiting for an element
    | MovingPopper    // dequeues awakened, or in the critical section with their element still counted
    | PopperSignal    // enqueues that counted their element and have a signal to send
    | SleepingPusher
    | MovingPusher
    | PusherSignal
    | Pushed          // enqueues past their store
    | Popped          // dequeues past their erase
    | Enqueues
    | Dequeues

  predicate In(g: Group, c: Call) {
    match g
    case SleepingPopper => c.pc == DeqSleep
    case MovingPopper =>
      (match c.pc
       case DeqAwake | DeqTest | DeqLockHead | DeqLockTail | DeqCompare | DeqDropTail | DeqFetch
          | DeqErase | DeqBump | DeqUnlockHead | DeqShrink => true
       case _ => false)
    case PopperSignal => c.pc == EnqUnlockSize || c.pc == EnqUnlockHead || c.pc == EnqSignal
    case SleepingPusher => c.pc == EnqSleep
    case MovingPusher =>
      (match c.pc
       case EnqAwake | EnqTest | EnqLockTail | EnqLockHead | EnqCompare | EnqDropHead | EnqStore
          | EnqBump | EnqUnlockTail | EnqGrow => true
       case _ => false)
    case PusherSignal => c.pc == DeqUnlockSize || c.pc == DeqUnlockTail || c.pc == DeqSignal
    case Pushed => HasPushed(c.pc)
    case Popped => HasPopped(c.pc)
    case Enqueues => IsEnqueue(c.pc)
    case Dequeues => !IsEnqueue(c.pc)
  }

  function One(g: Group, c: Call): nat { if In(g, c) then 1 else 0 }

  function Count(calls: seq<Call>, g: Group): nat {
    if calls == [] then 0 else Count(calls[..|calls| - 1], g) + One(g, calls[|calls| - 1])
  }

  lemma {:induction false} CountUpdate(calls: seq<Call>, u: nat, c: Call, g: Group)
    requires u < |calls|
    ensures Count(calls[u := c], g) == Count(calls, g) - One(g, calls[u]) + One(g, c)
  {
    var n := |calls| - 1;
    if u == n {
      assert calls[u := c][..n] == calls[..n];
    } else {
      CountUpdate(calls[..n], u, c, g);
      assert calls[u := c][..n] == calls[..n][u := c];
    }
  }

  lemma CountAppend(calls: seq<Call>, c: Call, g: Group)
    ensures Count(calls + [c], g) == Count(calls, g) + One(g, c)
  {
    assert (calls + [c])[..|calls|] == calls;
  }

  lemma {:induction false} CountAtMost(calls: seq<Call>, g: Group, h: Group)
    requires forall u :: 0 <= u < |calls| ==> In(g, calls[u]) ==> In(h, calls[u])
    ensures Count(calls, g) <= Count(calls, h)
    ensures (exists u :: 0 <= u < |calls| && In(h, calls[u]) && !In(g, calls[u])) ==>
              Count(calls, g) < Count(calls, h)
  {
    if calls != [] {
      var n := |calls| - 1;
      CountAtMost(calls[..n], g, h);
      if u :| 0 <= u < |calls| && In(h, calls[u]) && !In(g, calls[u]) {
        if u < n {
          assert calls[..n][u] == calls[u];
        }
      }
    }
  }

  lemma {:induction false} CountZero(calls: seq<Call>, g: Group)
    ensures Count(calls, g) == 0 <==> forall u :: 0 <= u < |calls| ==> !In(g, calls[u])
  {
    if calls != [] {
      var n := |calls| - 1;
      CountZero(calls[..n], g);
      if Count(calls[..n], g) > 0 {
        var u :| 0 <= u < n && In(g, calls[..n][u]);
        assert In(g, calls[u]);
      }
      if forall u :: 0 <= u < |calls| ==> !In(g, calls[u]) {
        forall u | 0 <= u < n ensures !In(g, calls[..n][u]) {
          assert calls[..n][u] == calls[u];
        }
      }
    }
  }

  // ---------------------------------------------------------------------------------------------
  // No lost wake-up
  // ---------------------------------------------------------------------------------------------

  /** Enough dequeues are awake, or about to be signalled, for the elements that wait. */
  ghost predicate PopperInv(calls: seq<Call>, r: Ring) {
    Count(calls, SleepingPopper) > 0 ==>
      r.size <= Count(calls, PopperSignal) + Count(calls, MovingPopper)
  }

  /** The same for enqueues and free slots. */
  ghost predicate PusherInv(calls: seq<Call>, r: Ring) {
    Count(calls, SleepingPusher) > 0 ==>
      r.capacity - r.size <= Count(calls, PusherSignal) + Count(calls, MovingPusher)
  }

  ghost predicate WakeInv(s: State) {
    PopperInv(s.calls, s.ring) && PusherInv(s.calls, s.ring)
  }

  /** As many calls are past their effect as the history has effects. */
  ghost predicate CountInv(s: State) {
    && Count(s.calls, Pushed) == |Pushes(s.log)|
    && Count(s.calls, Popped) == |Pops(s.log)|
  }

  predicate Asleep(c: Call) { c.pc == EnqSleep || c.pc == DeqSleep }

  /** A call only falls asleep on an empty queue, or on a full one. */
  lemma SleepDelta(s: State, t: nat)
    requires t < |s.calls| && Enabled(s, t) && !Fault(s, t)
    ensures var c, c' := s.calls[t], CallAfter(s, t);
            && RingAfter(s, t).capacity == s.ring.capacity
            && !Asleep(c)
            && (c'.pc == DeqSleep ==> RingAfter(s, t).size == 0)
            && (c'.pc == EnqSleep ==> RingAfter(s, t).size == s.ring.capacity)
  {
  }

  /** Only two lines change the size. */
  lemma SizeDelta(s: State, t: nat)
    requires t < |s.calls| && !Fault(s, t)
    ensures RingAfter(s, t).size ==
            s.ring.size + if s.calls[t].pc == EnqGrow then 1 else if s.calls[t].pc == DeqShrink then -1 else 0
  {
  }

  /** How a line of an enqueue moves it between the groups. */
  lemma EnqueueMoves(r: Ring, c: Call, c': Call)
    requires IsEnqueue(c.pc) && c'.pc == PcAfter(c.pc, r)
    ensures One(MovingPopper, c') == One(MovingPopper, c) == One(PusherSignal, c') == One(PusherSignal, c) == 0
    ensures c.pc != EnqSignal ==> One(PopperSignal, c') - One(PopperSignal, c) == if c.pc == EnqGrow then 1 else 0
    ensures c'.pc != EnqSleep ==> One(MovingPusher, c') - One(MovingPusher, c) >= if c.pc == EnqGrow then -1 else 0
  {
  }

  lemma DequeueSignals(r: Ring, c: Call, c': Call)
    requires !IsEnqueue(c.pc) && c'.pc == PcAfter(c.pc, r)
    ensures One(MovingPusher, c') == One(MovingPusher, c) == One(PopperSignal, c') == One(PopperSignal, c) == 0
    ensures c.pc != DeqSignal ==> One(PusherSignal, c') - One(PusherSignal, c) == if c.pc == DeqShrink then 1 else 0
  {
  }

  lemma DequeueMoves(r: Ring, c: Call, c': Call)
    requires !IsEnqueue(c.pc) && c'.pc == PcAfter(c.pc, r) && c'.pc != DeqSleep
    ensures One(MovingPopper, c') - One(MovingPopper, c) >= if c.pc == DeqShrink then -1 else 0
  {
  }

  /** One line of a call, seen from the poppers' side. */
  lemma PopperDelta(s: State, t: nat)
    requires t < |s.calls| && !Fault(s, t)
    requires CallAfter(s, t).pc != DeqSleep && s.calls[t].pc != EnqSignal
    ensures var c, c' := s.calls[t], CallAfter(s, t);
            RingAfter(s, t).size - s.ring.size <=
            One(PopperSignal, c') - One(PopperSignal, c) + One(MovingPopper, c') - One(MovingPopper, c)
  {
    SizeDelta(s, t);
    if IsEnqueue(s.calls[t].pc) {
      EnqueueMoves(s.ring, s.calls[t], CallAfter(s, t));
    } else {
      DequeueSignals(s.ring, s.calls[t], CallAfter(s, t));
      DequeueMoves(s.ring, s.calls[t], CallAfter(s, t));
    }
  }

  lemma PusherDelta(s: State, t: nat)
    requires t < |s.calls| && !Fault(s, t)
    requires CallAfter(s, t).pc != EnqSleep && s.calls[t].pc != DeqSignal
    ensures var c, c' := s.calls[t], CallAfter(s, t);
            s.ring.size - RingAfter(s, t).size <=
            One(PusherSignal, c') - One(PusherSignal, c) + One(MovingPusher, c') - One(MovingPusher, c)
  {
    SizeDelta(s, t);
    if IsEnqueue(s.calls[t].pc) {
      EnqueueMoves(s.ring, s.calls[t], CallAfter(s, t));
    } else {
      DequeueSignals(s.ring, s.calls[t], CallAfter(s, t));
    }
  }

  lemma EffectOne(s: State, t: nat)
    requires t < |s.calls| && Enabled(s, t) && !Fault(s, t)
    ensures var c, c' := s.calls[t], CallAfter(s, t);
            && One(Pushed, c') == One(Pushed, c) + (if Line(c.pc).Store? then 1 else 0)
            && One(Popped, c') == One(Popped, c) + (if Line(c.pc).Erase? then 1 else 0)
  {
  }

  lemma EffectLogged(s: State, t: nat)
    requires t < |s.calls| && !Fault(s, t)
    ensures |Pushes(Act(s, t).log)| == |Pushes(s.log)| + (if Line(s.calls[t].pc).Store? then 1 else 0)
    ensures |Pops(Act(s, t).log)| == |Pops(s.log)| + (if Line(s.calls[t].pc).Erase? then 1 else 0)
  {
    var c := s.calls[t];
    LogAppend(s.log, Push(t, c.item));
    LogAppend(s.log, Pop(t, c.item));
    assert s.log + [] == s.log;
  }

  lemma CountAct(s: State, t: nat, g: Group)
    requires t < |s.calls| && !Fault(s, t)
    ensures Count(Act(s, t).calls, g) ==
            Count(s.calls, g) - One(g, s.calls[t]) + One(g, CallAfter(s, t))
  {
    CountUpdate(s.calls, t, CallAfter(s, t), g);
  }

  lemma CountWake(s: State, u: nat, g: Group)
    requires u < |s.calls|
    ensures Count(Wake(s, Some(u)).calls, g) ==
            Count(s.calls, g) - One(g, s.calls[u]) + One(g, Woken(s.calls[u]))
  {
    CountUpdate(s.calls, u, Woken(s.calls[u]), g);
  }

  /** Waking a sleeper only helps. */
  lemma WakeInvWake(s: State, u: nat)
    requires u < |s.calls| && WakeInv(s)
    requires s.calls[u].pc == EnqSleep || s.calls[u].pc == DeqSleep
    ensures WakeInv(Wake(s, Some(u)))
  {
    CountWake(s, u, SleepingPopper);
    CountWake(s, u, PopperSignal);
    CountWake(s, u, MovingPopper);
    CountWake(s, u, SleepingPusher);
    CountWake(s, u, PusherSignal);
    CountWake(s, u, MovingPusher);
  }

  lemma PopperInvQuiet(s: State, t: nat)
    requires t < |s.calls| && Enabled(s, t) && !Fault(s, t) && PopperInv(s.calls, s.ring)
    requires s.calls[t].pc != EnqSignal
    ensures PopperInv(Act(s, t).calls, Act(s, t).ring)
  {
    SleepDelta(s, t);
    if CallAfter(s, t).pc != DeqSleep {
      PopperDelta(s, t);
      CountAct(s, t, SleepingPopper);
      CountAct(s, t, PopperSignal);
      CountAct(s, t, MovingPopper);
    }
  }

  lemma PusherInvQuiet(s: State, t: nat)
    requires t < |s.calls| && Enabled(s, t) && !Fault(s, t) && PusherInv(s.calls, s.ring)
    requires s.calls[t].pc != DeqSignal
    ensures PusherInv(Act(s, t).calls, Act(s, t).ring)
  {
    SleepDelta(s, t);
    if CallAfter(s, t).pc != EnqSleep {
      PusherDelta(s, t);
      CountAct(s, t, SleepingPusher);
      CountAct(s, t, PusherSignal);
      CountAct(s, t, MovingPusher);
    }
  }

  /** Every line but the two signals keeps the balance. */
  lemma WakeInvQuiet(s: State, t: nat)
    requires t < |s.calls| && Enabled(s, t) && !Fault(s, t) && WakeInv(s)
    requires s.calls[t].pc != EnqSignal && s.calls[t].pc != DeqSignal
    ensures WakeInv(Act(s, t))
  {
    PopperInvQuiet(s, t);
    PusherInvQuiet(s, t);
  }

  lemma SignalCounts(s: State, t: nat, w: nat, g: Group)
    requires t < |s.calls| && !Fault(s, t) && w < |s.calls| && w != t
    ensures Count(Wake(Act(s, t), Some(w)).calls, g) ==
            Count(s.calls, g) - One(g, s.calls[t]) + One(g, CallAfter(s, t))
            - One(g, s.calls[w]) + One(g, Woken(s.calls[w]))
  {
    CountAct(s, t, g);
    CountWake(Act(s, t), w, g);
  }

  lemma PopperSignalMoved(s: State, t: nat, w: nat, g: Group)
    requires t < |s.calls| && s.calls[t].pc == EnqSignal && w < |s.calls| && s.calls[w].pc == DeqSleep
    requires g == SleepingPopper || g == PopperSignal || g == MovingPopper
    ensures Count(Wake(Act(s, t), Some(w)).calls, g) == Count(s.calls, g) + if g == MovingPopper then 1 else -1
  {
    SignalCounts(s, t, w, g);
  }

  /** A signal moves its count to the sleeper it wakes. */
  lemma PopperSignalled(s: State, t: nat, w: nat)
    requires t < |s.calls| && s.calls[t].pc == EnqSignal && w < |s.calls| && s.calls[w].pc == DeqSleep
    requires PopperInv(s.calls, s.ring)
    ensures PopperInv(Wake(Act(s, t), Some(w)).calls, s.ring)
  {
    PopperSignalMoved(s, t, w, SleepingPopper);
    PopperSignalMoved(s, t, w, PopperSignal);
    PopperSignalMoved(s, t, w, MovingPopper);
  }

  lemma PusherSignalMoved(s: State, t: nat, w: nat, g: Group)
    requires t < |s.calls| && s.calls[t].pc == DeqSignal && w < |s.calls| && s.calls[w].pc == EnqSleep
    requires g == SleepingPusher || g == PusherSignal || g == MovingPusher
    ensures Count(Wake(Act(s, t), Some(w)).calls, g) == Count(s.calls, g) + if g == MovingPusher then 1 else -1
  {
    SignalCounts(s, t, w, g);
  }

  lemma PusherSignalled(s: State, t: nat, w: nat)
    requires t < |s.calls| && s.calls[t].pc == DeqSignal && w < |s.calls| && s.calls[w].pc == EnqSleep
    requires PusherInv(s.calls, s.ring)
    ensures PusherInv(Wake(Act(s, t), Some(w)).calls, s.ring)
  {
    PusherSignalMoved(s, t, w, SleepingPusher);
    PusherSignalMoved(s, t, w, PusherSignal);
    PusherSignalMoved(s, t, w, MovingPusher);
  }

  /** A signal to the poppers does not change the pushers' groups. */
  lemma PusherGroupKept(s: State, t: nat, w: nat, g: Group)
    requires t < |s.calls| && s.calls[t].pc == EnqSignal && w < |s.calls| && s.calls[w].pc == DeqSleep
    requires g == SleepingPusher || g == PusherSignal || g == MovingPusher
    ensures Count(Wake(Act(s, t), Some(w)).calls, g) == Count(s.calls, g)
  {
    SignalCounts(s, t, w, g);
  }

  lemma PusherUnaffected(s: State, t: nat, w: nat)
    requires t < |s.calls| && s.calls[t].pc == EnqSignal && w < |s.calls| && s.calls[w].pc == DeqSleep
    requires PusherInv(s.calls, s.ring)
    ensures PusherInv(Wake(Act(s, t), Some(w)).calls, s.ring)
  {
    PusherGroupKept(s, t, w, SleepingPusher);
    PusherGroupKept(s, t, w, PusherSignal);
    PusherGroupKept(s, t, w, MovingPusher);
  }

  lemma PopperGroupKept(s: State, t: nat, w: nat, g: Group)
    requires t < |s.calls| && s.calls[t].pc == DeqSignal && w < |s.calls| && s.calls[w].pc == EnqSleep
    requires g == SleepingPopper || g == PopperSignal || g == MovingPopper
    ensures Count(Wake(Act(s, t), Some(w)).calls, g) == Count(s.calls, g)
  {
    SignalCounts(s, t, w, g);
  }

  lemma PopperUnaffected(s: State, t: nat, w: nat)
    requires t < |s.calls| && s.calls[t].pc == DeqSignal && w < |s.calls| && s.calls[w].pc == EnqSleep
    requires PopperInv(s.calls, s.ring)
    ensures PopperInv(Wake(Act(s, t), Some(w)).calls, s.ring)
  {
    PopperGroupKept(s, t, w, SleepingPopper);
    PopperGroupKept(s, t, w, PopperSignal);
    PopperGroupKept(s, t, w, MovingPopper);
  }

  lemma PopperWoken(s: State, t: nat, w: nat)
    requires t < |s.calls| && s.calls[t].pc == EnqSignal && w < |s.calls| && s.calls[w].pc == DeqSleep
    requires WakeInv(s)
    ensures WakeInv(Wake(Act(s, t), Some(w)))
  {
    PopperSignalled(s, t, w);
    PusherUnaffected(s, t, w);
  }

  lemma PusherWoken(s: State, t: nat, w: nat)
    requires t < |s.calls| && s.calls[t].pc == DeqSignal && w < |s.calls| && s.calls[w].pc == EnqSleep
    requires WakeInv(s)
    ensures WakeInv(Wake(Act(s, t), Some(w)))
  {
    PusherSignalled(s, t, w);
    PopperUnaffected(s, t, w);
  }

  lemma WakeInvSignal(s: State, t: nat, w: nat)
    requires t < |s.calls| && WakeChoice(s, t, Some(w)) && WakeInv(s)
    requires w < |s.calls|
    ensures WakeInv(Wake(Act(s, t), Some(w)))
  {
    WakeTarget(s, t, w);
    if s.calls[t].pc == EnqSignal {
      PopperWoken(s, t, w);
    } else {
      PusherWoken(s, t, w);
    }
  }

  /** The sender of a signal was and is neither asleep nor on the move on either side. */
  lemma SenderCounts(s: State, t: nat, g: Group)
    requires t < |s.calls| && (s.calls[t].pc == EnqSignal || s.calls[t].pc == DeqSignal)
    requires g in {SleepingPopper, MovingPopper, SleepingPusher, MovingPusher}
    ensures Count(Act(s, t).calls, g) == Count(s.calls, g)
  {
    CountAct(s, t, g);
  }

  /** A signal to one side is no signal to the other. */
  lemma SenderSignals(s: State, t: nat)
    requires t < |s.calls| && (s.calls[t].pc == EnqSignal || s.calls[t].pc == DeqSignal)
    ensures s.calls[t].pc == EnqSignal ==> Count(Act(s, t).calls, PusherSignal) == Count(s.calls, PusherSignal)
    ensures s.calls[t].pc == DeqSignal ==> Count(Act(s, t).calls, PopperSignal) == Count(s.calls, PopperSignal)
  {
    CountAct(s, t, PusherSignal);
    CountAct(s, t, PopperSignal);
  }

  /** A signal is lost only when nobody sleeps. */
  lemma PopperLostSignal(s: State, t: nat)
    requires t < |s.calls| && WakeChoice(s, t, None) && PopperInv(s.calls, s.ring)
    requires s.calls[t].pc == EnqSignal || s.calls[t].pc == DeqSignal
    ensures PopperInv(Act(s, t).calls, s.ring)
  {
    SenderCounts(s, t, SleepingPopper);
    if s.calls[t].pc == EnqSignal {
      CountZero(s.calls, SleepingPopper);
    } else {
      SenderSignals(s, t);
      SenderCounts(s, t, MovingPopper);
    }
  }

  lemma PusherLostSignal(s: State, t: nat)
    requires t < |s.calls| && WakeChoice(s, t, None) && PusherInv(s.calls, s.ring)
    requires s.calls[t].pc == EnqSignal || s.calls[t].pc == DeqSignal
    ensures PusherInv(Act(s, t).calls, s.ring)
  {
    SenderCounts(s, t, SleepingPusher);
    if s.calls[t].pc == DeqSignal {
      CountZero(s.calls, SleepingPusher);
    } else {
      SenderSignals(s, t);
      SenderCounts(s, t, MovingPusher);
    }
  }

  lemma WakeInvLostSignal(s: State, t: nat)
    requires t < |s.calls| && WakeChoice(s, t, None) && WakeInv(s)
    requires s.calls[t].pc == EnqSignal || s.calls[t].pc == DeqSignal
    ensures WakeInv(Act(s, t))
  {
    assert Act(s, t).ring == s.ring;
    PopperLostSignal(s, t);
    PusherLostSignal(s, t);
  }

  /** A call that has just been made is in no group but its kind. */
  lemma NewCallUncounted(calls: seq<Call>, c: Call, g: Group)
    requires IsNewCall(c) && g != Enqueues && g != Dequeues
    ensures Count(calls + [c], g) == Count(calls, g)
  {
    CountAppend(calls, c, g);
  }

  lemma PopperCall(calls: seq<Call>, r: Ring, c: Call)
    requires PopperInv(calls, r) && IsNewCall(c)
    ensures PopperInv(calls + [c], r)
  {
    NewCallUncounted(calls, c, SleepingPopper);
    NewCallUncounted(calls, c, PopperSignal);
    NewCallUncounted(calls, c, MovingPopper);
  }

  lemma PusherCall(calls: seq<Call>, r: Ring, c: Call)
    requires PusherInv(calls, r) && IsNewCall(c)
    ensures PusherInv(calls + [c], r)
  {
    NewCallUncounted(calls, c, SleepingPusher);
    NewCallUncounted(calls, c, PusherSignal);
    NewCallUncounted(calls, c, MovingPusher);
  }

  lemma CountInvAct(s: State, t: nat)
    requires CountInv(s) && t < |s.calls| && Enabled(s, t) && !Fault(s, t)
    ensures CountInv(Act(s, t))
  {
    EffectOne(s, t);
    EffectLogged(s, t);
    CountAct(s, t, Pushed);
    CountAct(s, t, Popped);
  }

  lemma CountInvWake(s: State, u: nat)
    requires CountInv(s) && u < |s.calls| && Asleep(s.calls[u])
    ensures CountInv(Wake(s, Some(u)))
  {
    CountWake(s, u, Pushed);
    CountWake(s, u, Popped);
  }

  lemma CountInvNext(s: State, a: Action, s': State)
    requires CountInv(s) && Next(s, a, s')
    ensures CountInv(s')
  {
    match a
    case Enqueue(elem) =>
      NewCallUncounted(s.calls, Call(EnqLock, elem, false), Pushed);
      NewCallUncounted(s.calls, Call(EnqLock, elem, false), Popped);
    case Dequeue =>
      NewCallUncounted(s.calls, Call(DeqLock, NULL, false), Pushed);
      NewCallUncounted(s.calls, Call(DeqLock, NULL, false), Popped);
    case Run(t, w) =>
      CountInvAct(s, t);
      if w.Some? {
        WakeTarget(s, t, w.value);
        assert Act(s, t).calls[w.value] == s.calls[w.value];
        CountInvWake(Act(s, t), w.value);
      }
    case Spurious(t) => CountInvWake(s, t);
  }

  lemma WakeInvNext(s: State, a: Action, s': State)
    requires WakeInv(s) && Next(s, a, s')
    ensures WakeInv(s')
  {
    match a
    case Enqueue(elem) =>
      PopperCall(s.calls, s.ring, Call(EnqLock, elem, false));
      PusherCall(s.calls, s.ring, Call(EnqLock, elem, false));
    case Dequeue =>
      PopperCall(s.calls, s.ring, Call(DeqLock, NULL, false));
      PusherCall(s.calls, s.ring, Call(DeqLock, NULL, false));
    case Run(t, w) =>
      if s.calls[t].pc == EnqSignal || s.calls[t].pc == DeqSignal {
        if w.Some? {
          WakeInvSignal(s, t, w.value);
        } else {
          WakeInvLostSignal(s, t);
        }
      } else {
        WakeInvQuiet(s, t);
      }
    case Spurious(t) => WakeInvWake(s, t);
  }

  /** The balance holds along every run, spurious wake-ups included. */
  lemma {:induction false} RunWakeInv(
    capacity: nat, modulus: nat, states: seq<State>, actions: seq<Action>, i: nat)
    requires IsRun(capacity, modulus, states, actions) && i < |states|
    ensures WakeInv(states[i]) && CountInv(states[i])
  {
    if i > 0 {
      RunWakeInv(capacity, modulus, states, actions, i - 1);
      WakeInvNext(states[i - 1], actions[i - 1], states[i]);
      CountInvNext(states[i - 1], actions[i - 1], states[i]);
    }
  }

  // ---------------------------------------------------------------------------------------------
  // No deadlock
  // ---------------------------------------------------------------------------------------------

  lemma LocalLockOrder(s: State, t: nat)
    requires t < |s.calls| && LocalFacts(s, t)
    ensures var line := Line(s.calls[t].pc);
            && (line.Acquire? && line.name != SizeLock ==> s.sizeLock == HeldBy(t))
            && ((s.headLock == HeldBy(t) || s.tailLock == HeldBy(t)) && s.sizeLock != HeldBy(t) ==>
                  line.ReleaseKept? && s.calls[t].keep)
  {
  }

  /** Although enqueue takes the tail lock before the head lock and dequeue the other way round, no
      two calls can wait for each other: whoever waits for an end lock holds the size lock, and
      whoever holds an end lock without the size lock has only lines that never wait before it
      releases it. */
  lemma LockOrder(s: State, t: nat)
    requires Inv(s) && t < |s.calls|
    ensures var line := Line(s.calls[t].pc);
            && (line.Acquire? && line.name != SizeLock ==> s.sizeLock == HeldBy(t))
            && ((s.headLock == HeldBy(t) || s.tailLock == HeldBy(t)) && s.sizeLock != HeldBy(t) ==>
                  line.ReleaseKept? && s.calls[t].keep)
  {
    InvLocal(s, t);
    LocalLockOrder(s, t);
  }

  /** The holder of the size lock can move, or waits for an end lock whose owner can move. */
  lemma HolderMoves(s: State, t: nat) returns (u: nat)
    requires Inv(s) && t < |s.calls| && s.sizeLock == HeldBy(t)
    ensures u < |s.calls| && Enabled(s, u)
    ensures var line := Line(s.calls[t].pc);
            u == t || (line.Acquire? && line.name != SizeLock && LockOf(s, line.name) == HeldBy(u))
  {
    assert Holds(SizeLock, s.calls[t]);
    u := t;
    if !Enabled(s, t) {
      var lock := LockOf(s, Line(s.calls[t].pc).name);
      u := lock.owner;
      assert Holds(Line(s.calls[t].pc).name, s.calls[u]);
      LockOrder(s, u);
    }
  }

  /** As long as some call is neither asleep nor returned, some call can execute its next line. */
  lemma SomeoneMoves(s: State, t: nat) returns (u: nat)
    requires Inv(s) && t < |s.calls| && !Asleep(s.calls[t]) && !Returned(s.calls[t])
    ensures u < |s.calls| && Enabled(s, u) && !Fault(s, u)
  {
    u := t;
    if s.sizeLock.HeldBy? {
      u := HolderMoves(s, s.sizeLock.owner);
    } else {
      LockOrder(s, t);
    }
    NoFault(s, u);
  }

  ghost predicate Stuck(s: State) {
    forall t :: 0 <= t < |s.calls| ==> !Enabled(s, t)
  }

  lemma StuckCalls(s: State, t: nat)
    requires Inv(s) && Stuck(s) && t < |s.calls|
    ensures Asleep(s.calls[t]) || Returned(s.calls[t])
    ensures s.sizeLock == Free
  {
    if !Asleep(s.calls[t]) && !Returned(s.calls[t]) {
      var u := SomeoneMoves(s, t);
    }
    if s.sizeLock.HeldBy? {
      var u := HolderMoves(s, s.sizeLock.owner);
    }
  }

  /** Nobody is on the move or about to signal. */
  lemma QuietCounts(calls: seq<Call>, g: Group)
    requires forall t :: 0 <= t < |calls| ==> Asleep(calls[t]) || Returned(calls[t])
    requires g in {PopperSignal, MovingPopper, PusherSignal, MovingPusher}
    ensures Count(calls, g) == 0
  {
    CountZero(calls, g);
  }

  lemma SleepersMean(calls: seq<Call>, r: Ring, s: State)
    requires calls == s.calls && r == s.ring && WakeInv(s) && r.size <= r.capacity
    requires forall t :: 0 <= t < |calls| ==> Asleep(calls[t]) || Returned(calls[t])
    ensures forall t :: 0 <= t < |calls| && calls[t].pc == DeqSleep ==> r.size == 0
    ensures forall t :: 0 <= t < |calls| && calls[t].pc == EnqSleep ==> r.size == r.capacity
  {
    QuietCounts(calls, PopperSignal);
    QuietCounts(calls, MovingPopper);
    QuietCounts(calls, PusherSignal);
    QuietCounts(calls, MovingPusher);
    CountZero(calls, SleepingPopper);
    CountZero(calls, SleepingPusher);
  }

  /** Where nobody can move everybody is asleep or has returned, a sleeping dequeue means that the
      queue is empty, and a sleeping enqueue that it is full. */
  lemma StuckMeans(s: State)
    requires Inv(s) && WakeInv(s) && Stuck(s)
    ensures forall t :: 0 <= t < |s.calls| ==> Asleep(s.calls[t]) || Returned(s.calls[t])
    ensures forall t :: 0 <= t < |s.calls| && s.calls[t].pc == DeqSleep ==> s.ring.size == 0
    ensures forall t :: 0 <= t < |s.calls| && s.calls[t].pc == EnqSleep ==> s.ring.size == s.ring.capacity
    ensures s.ring.size == |Pushes(s.log)| - |Pops(s.log)| <= s.ring.capacity
  {
    forall t | 0 <= t < |s.calls| ensures Asleep(s.calls[t]) || Returned(s.calls[t]) {
      StuckCalls(s, t);
    }
    AtRest(s) by {
      if s.sizeLock.HeldBy? {
        StuckCalls(s, s.sizeLock.owner);
      }
    }
    SleepersMean(s.calls, s.ring, s);
  }

  // ---------------------------------------------------------------------------------------------
  // Completion
  // ---------------------------------------------------------------------------------------------

  /** Lines still to be executed, a signal weighing more than what it makes a sleeper repeat. */
  function Weight(pc: Pc): nat {
    match pc
    case EnqLock => 15 case EnqTest => 14 case EnqSleep => 13 case EnqAwake => 15
    case EnqLockTail => 13 case EnqLockHead => 12 case EnqCompare => 11 case EnqDropHead => 10
    case EnqStore => 9 case EnqBump => 8 case EnqUnlockTail => 7 case EnqGrow => 6
    case EnqUnlockSize => 5 case EnqUnlockHead => 4 case EnqSignal => 3 case EnqDone => 0
    case DeqLock => 17 case DeqTest => 16 case DeqSleep => 15 case DeqAwake => 17
    case DeqLockHead => 15 case DeqLockTail => 14 case DeqCompare => 13 case DeqDropTail => 12
    case DeqFetch => 11 case DeqErase => 10 case DeqBump => 9 case DeqUnlockHead => 8
    case DeqShrink => 7 case DeqUnlockSize => 6 case DeqUnlockTail => 5 case DeqSignal => 4
    case DeqInspect => 1 case DeqDone => 0
  }

  function Work(calls: seq<Call>): nat {
    if calls == [] then 0 else Work(calls[..|calls| - 1]) + Weight(calls[|calls| - 1].pc)
  }

  lemma {:induction false} WorkUpdate(calls: seq<Call>, u: nat, c: Call)
    requires u < |calls|
    ensures Work(calls[u := c]) == Work(calls) - Weight(calls[u].pc) + Weight(c.pc)
  {
    var n := |calls| - 1;
    if u == n {
      assert calls[u := c][..n] == calls[..n];
    } else {
      WorkUpdate(calls[..n], u, c);
      assert calls[u := c][..n] == calls[..n][u := c];
    }
  }

  lemma WeightEnqueue(pc: Pc, r: Ring)
    requires IsEnqueue(pc) && Line(pc) != Nothing
    ensures Weight(PcAfter(pc, r)) + (if Line(pc).Signal? then 3 else 1) <= Weight(pc)
  {
  }

  lemma WeightDequeue(pc: Pc, r: Ring)
    requires !IsEnqueue(pc) && Line(pc) != Nothing
    ensures Weight(PcAfter(pc, r)) + (if Line(pc).Signal? then 3 else 1) <= Weight(pc)
  {
  }

  lemma WeightWoken(c: Call)
    ensures Weight(Woken(c).pc) <= Weight(c.pc) + 2
  {
  }

  lemma WorkWoken(s: State, w: nat)
    requires w < |s.calls|
    ensures Work(Wake(s, Some(w)).calls) <= Work(s.calls) + 2
  {
    WeightWoken(s.calls[w]);
    WorkUpdate(s.calls, w, Woken(s.calls[w]));
  }

  lemma WorkAct(s: State, t: nat)
    requires t < |s.calls| && Enabled(s, t) && !Fault(s, t)
    ensures Work(Act(s, t).calls) + (if Line(s.calls[t].pc).Signal? then 3 else 1) <= Work(s.calls)
  {
    if IsEnqueue(s.calls[t].pc) {
      WeightEnqueue(s.calls[t].pc, s.ring);
    } else {
      WeightDequeue(s.calls[t].pc, s.ring);
    }
    WorkUpdate(s.calls, t, CallAfter(s, t));
  }

  /** Every line executed leaves less to do, whomever it wakes. */
  lemma WorkShrinks(s: State, t: nat, w: Option<nat>)
    requires t < |s.calls| && Enabled(s, t) && WakeChoice(s, t, w) && !Fault(s, t)
    requires w.Some? ==> w.value < |s.calls|
    ensures Work(Wake(Act(s, t), w).calls) < Work(s.calls)
  {
    WorkAct(s, t);
    if w.Some? {
      WakeTarget(s, t, w.value);
      WorkWoken(Act(s, t), w.value);
    }
  }

  lemma WorkCall(calls: seq<Call>, c: Call)
    ensures Work(calls + [c]) == Work(calls) + Weight(c.pc)
  {
    assert (calls + [c])[..|calls|] == calls;
  }

  /** How many lines a schedule executes. */
  function Lines(actions: seq<Action>): nat {
    if actions == [] then 0
    else Lines(actions[..|actions| - 1]) + if actions[|actions| - 1].Run? then 1 else 0
  }

  /** How many wake-ups in it are not the one that a signal gives. */
  function ExtraWakes(actions: seq<Action>): nat {
    if actions == [] then 0
    else ExtraWakes(actions[..|actions| - 1]) + if actions[|actions| - 1].Spurious? then 1 else 0
  }

  /** What one action adds to the work, or takes from it. */
  lemma WorkNext(s: State, a: Action, s': State)
    requires Next(s, a, s')
    ensures |s'.calls| == |s.calls| + if a.Enqueue? || a.Dequeue? then 1 else 0
    ensures a.Run? ==> Work(s'.calls) + 1 <= Work(s.calls)
    ensures a.Spurious? ==> Work(s'.calls) <= Work(s.calls) + 2
    ensures a.Enqueue? || a.Dequeue? ==> Work(s'.calls) <= Work(s.calls) + 17
  {
    match a
    case Enqueue(elem) => WorkCall(s.calls, Call(EnqLock, elem, false));
    case Dequeue => WorkCall(s.calls, Call(DeqLock, NULL, false));
    case Run(t, w) =>
      if w.Some? {
        WakeTarget(s, t, w.value);
      }
      WorkShrinks(s, t, w);
    case Spurious(t) => WorkWoken(s, t);
  }

  /** Every schedule is finite: it executes at most 17 lines for each call made and two more for each
      spurious wake-up, whatever the calls are and whenever they are made. */
  lemma {:induction false} SchedulesAreFinite(
    capacity: nat, modulus: nat, states: seq<State>, actions: seq<Action>, i: nat)
    requires IsRun(capacity, modulus, states, actions) && i < |states|
    ensures Lines(actions[..i]) + Work(states[i].calls) <= 17 * |states[i].calls| + 2 * ExtraWakes(actions[..i])
  {
    if i > 0 {
      assert Next(states[i - 1], actions[i - 1], states[i]);
      assert actions[..i][..i - 1] == actions[..i - 1];
      SchedulesAreFinite(capacity, modulus, states, actions, i - 1);
      WorkNext(states[i - 1], actions[i - 1], states[i]);
    }
  }

  /** Every run that is not stuck goes on. */
  lemma RunContinues(s: State) returns (a: Action, s': State)
    requires Inv(s) && !Stuck(s)
    ensures a.Run? && Next(s, a, s')
  {
    var t: nat :| t < |s.calls| && Enabled(s, t);
    NoFault(s, t);
    var w: Option<nat> := None;
    if Line(s.calls[t].pc).Signal? {
      var sleepers := Line(s.calls[t].pc).sleepers;
      if u: nat :| u < |s.calls| && s.calls[u].pc == sleepers {
        w := Some(u);
      }
    }
    a, s' := Run(t, w), Wake(Act(s, t), w);
  }

  /** A workload fits: no more dequeues than enqueues, and what is left over fits the queue. */
  predicate Balanced(capacity: nat, enqueues: nat, dequeues: nat) {
    dequeues <= enqueues <= dequeues + capacity && (capacity > 0 || enqueues + dequeues == 0)
  }

  ghost predicate AllReturned(s: State) {
    forall t :: 0 <= t < |s.calls| ==> Returned(s.calls[t])
  }

  /** Without sleeping calls of one kind, every call of that kind has had its effect. */
  lemma SettledCounts(calls: seq<Call>, g: Group, h: Group, sleep: Pc)
    requires (g, h, sleep) == (Enqueues, Pushed, EnqSleep) || (g, h, sleep) == (Dequeues, Popped, DeqSleep)
    requires forall t :: 0 <= t < |calls| ==> Asleep(calls[t]) || Returned(calls[t])
    ensures Count(calls, h) <= Count(calls, g)
    ensures Count(calls, h) == Count(calls, g) <==> forall t :: 0 <= t < |calls| ==> calls[t].pc != sleep
  {
    CountAtMost(calls, h, g);
    if t :| 0 <= t < |calls| && calls[t].pc == sleep {
      assert In(g, calls[t]) && !In(h, calls[t]);
    } else {
      CountAtMost(calls, g, h);
    }
  }

  lemma ReturnedIffAwake(calls: seq<Call>)
    requires forall t :: 0 <= t < |calls| ==> Asleep(calls[t]) || Returned(calls[t])
    ensures (forall t :: 0 <= t < |calls| ==> Returned(calls[t])) <==>
            ((forall t :: 0 <= t < |calls| ==> calls[t].pc != EnqSleep)
             && (forall t :: 0 <= t < |calls| ==> calls[t].pc != DeqSleep))
  {
  }

  /** The counting argument: what is in the queue is what was pushed and not popped. */
  lemma ReturnedIffBalanced(calls: seq<Call>, size: nat, capacity: nat)
    requires forall t :: 0 <= t < |calls| ==> Asleep(calls[t]) || Returned(calls[t])
    requires forall t :: 0 <= t < |calls| && calls[t].pc == DeqSleep ==> size == 0
    requires forall t :: 0 <= t < |calls| && calls[t].pc == EnqSleep ==> size == capacity
    requires size == Count(calls, Pushed) - Count(calls, Popped) <= capacity
    requires capacity == 0 ==> Count(calls, Pushed) == 0
    ensures (forall t :: 0 <= t < |calls| ==> Returned(calls[t])) <==>
            Balanced(capacity, Count(calls, Enqueues), Count(calls, Dequeues))
  {
    SettledCounts(calls, Enqueues, Pushed, EnqSleep);
    SettledCounts(calls, Dequeues, Popped, DeqSleep);
    ReturnedIffAwake(calls);
  }

  /** A schedule that cannot go on has completed every call exactly when the workload is balanced. */
  lemma Completion(s: State)
    requires Inv(s) && WakeInv(s) && CountInv(s) && Stuck(s)
    ensures AllReturned(s) <==>
            Balanced(s.ring.capacity, Count(s.calls, Enqueues), Count(s.calls, Dequeues))
  {
    StuckMeans(s);
    ReturnedIffBalanced(s.calls, s.ring.size, s.ring.capacity);
  }

  /** No schedule executes more than 17 lines for each call made and two for each spurious wake-up; one
      that cannot go on leaves dequeues asleep only on an empty queue and enqueues asleep only on a full
      one, and it has completed every call exactly when the workload is balanced. */
  lemma EveryScheduleCompletes(capacity: nat, modulus: nat, states: seq<State>, actions: seq<Action>)
    requires IsRun(capacity, modulus, states, actions) && capacity < modulus
    ensures var s := states[|actions|];
            && Lines(actions) <= 17 * |s.calls| + 2 * ExtraWakes(actions)
            && (Stuck(s) ==>
                  && (forall t :: 0 <= t < |s.calls| && s.calls[t].pc == DeqSleep ==> s.ring.size == 0)
                  && (forall t :: 0 <= t < |s.calls| && s.calls[t].pc == EnqSleep ==> s.ring.size == capacity)
                  && (AllReturned(s) <==>
                        Balanced(capacity, Count(s.calls, Enqueues), Count(s.calls, Dequeues))))
  {
    SchedulesAreFinite(capacity, modulus, states, actions, |actions|);
    assert actions[..|actions|] == actions;
    RunInv(capacity, modulus, states, actions, |actions|);
    RunWakeInv(capacity, modulus, states, actions, |actions|);
    if Stuck(states[|actions|]) {
      StuckMeans(states[|actions|]);
      Completion(states[|actions|]);
    }
  }

  lemma ThreadsCount(calls: seq<Call>, size: nat, capacity: nat, enqueues: nat, dequeues: nat)
    requires forall t :: 0 <= t < |calls| ==> Asleep(calls[t]) || Returned(calls[t])
    requires forall t :: 0 <= t < |calls| && calls[t].pc == DeqSleep ==> size == 0
    requires forall t :: 0 <= t < |calls| && calls[t].pc == EnqSleep ==> size == capacity
    requires size == Count(calls, Pushed) - Count(calls, Popped) <= capacity
    requires capacity == 0 ==> Count(calls, Pushed) == 0
    requires Count(calls, Enqueues) <= enqueues && Count(calls, Dequeues) <= dequeues
    requires Count(calls, Enqueues) < enqueues ==> exists t :: 0 <= t < |calls| && calls[t].pc == EnqSleep
    requires Count(calls, Dequeues) < dequeues ==> exists t :: 0 <= t < |calls| && calls[t].pc == DeqSleep
    ensures (forall t :: 0 <= t < |calls| ==> Returned(calls[t]))
            && Count(calls, Enqueues) == enqueues && Count(calls, Dequeues) == dequeues
            <==> Balanced(capacity, enqueues, dequeues)
  {
    SettledCounts(calls, Enqueues, Pushed, EnqSleep);
    SettledCounts(calls, Dequeues, Popped, DeqSleep);
    ReturnedIffAwake(calls);
  }

  /** Threads that make several calls one after the other, each thread of one kind: `enqueues` and
      `dequeues` are all the calls they are to make.  Where nothing can go on, a thread that has calls
      left to make is asleep in one; and then all calls have been made and completed exactly when the
      whole workload is balanced. */
  lemma ThreadsComplete(s: State, enqueues: nat, dequeues: nat)
    requires Inv(s) && WakeInv(s) && CountInv(s) && Stuck(s)
    requires Count(s.calls, Enqueues) <= enqueues && Count(s.calls, Dequeues) <= dequeues
    requires Count(s.calls, Enqueues) < enqueues ==> exists t :: 0 <= t < |s.calls| && s.calls[t].pc == EnqSleep
    requires Count(s.calls, Dequeues) < dequeues ==> exists t :: 0 <= t < |s.calls| && s.calls[t].pc == DeqSleep
    ensures AllReturned(s) && Count(s.calls, Enqueues) == enqueues && Count(s.calls, Dequeues) == dequeues
            <==> Balanced(s.ring.capacity, enqueues, dequeues)
  {
    StuckMeans(s);
    ThreadsCount(s.calls, s.ring.size, s.ring.capacity, enqueues, dequeues);
  }

  /** Destroying the queue after a run frees exactly the elements that were enqueued and never
      dequeued, each as often as it waits, but for NULL. */
  lemma DestroyFreesTheRest(s: State)
    requires Inv(s) && ContentsOk(s) && s.sizeLock == Free
    ensures |Pops(s.log)| <= |Pushes(s.log)| && Pushes(s.log)[..|Pops(s.log)|] == Pops(s.log)
    ensures multiset(NonNull(s.ring.buffer)) == multiset(NonNull(Pushes(s.log)[|Pops(s.log)|..]))
  {
    ReplayIsFifo(s.log, s.ring.capacity);
    NonNullAreTheContents(s.ring.buffer, s.ring.capacity, s.ring.modulus, Pushes(s.log), |Pops(s.log)|);
  }
}
