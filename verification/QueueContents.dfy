/** The buffer along the runs of the queue: as long as no element is stored over a waiting one, and no
    longer, the buffer holds what the history leaves in the sequential queue. */
module QueueContents {
  import opened RingModel
  import opened Wrappers
  import opened QueueMachine
  import opened QueueSafety

  /** Every element enqueued so far landed in a free slot. */
  ghost predicate Landed(log: seq<Event>, capacity: nat, modulus: nat) {
    if log == [] then true
    else
      var before := log[..|log| - 1];
      && Landed(before, capacity, modulus)
      && (log[|log| - 1].Push? ==> Lands(capacity, modulus, |Pops(before)|, |Pushes(before)|))
  }

  ghost predicate LandedNow(s: State) {
    Landed(s.log, s.ring.capacity, s.ring.modulus)
  }

  lemma LandedAppend(log: seq<Event>, e: Event, capacity: nat, modulus: nat)
    ensures Landed(log + [e], capacity, modulus) <==>
            Landed(log, capacity, modulus) && (e.Push? ==> Lands(capacity, modulus, |Pops(log)|, |Pushes(log)|))
  {
    assert (log + [e])[..|log|] == log;
  }

  /** The buffer holds what the history leaves in the sequential queue, which accepts it all. */
  ghost predicate ContentsInv(buffer: seq<Pointer>, capacity: nat, modulus: nat, log: seq<Event>) {
    var pushed, popped := Pushes(log), Pops(log);
    && Slots(buffer, capacity, modulus, pushed, |popped|)
    && Replay(log, capacity) == Some(pushed[|popped|..])
  }

  ghost predicate ContentsOk(s: State) {
    && ContentsInv(s.ring.buffer, s.ring.capacity, s.ring.modulus, s.log)
    && (HolderPc(s) == DeqErase ==>
          && |Pops(s.log)| < |Pushes(s.log)|
          && s.calls[s.sizeLock.owner].item == Pushes(s.log)[|Pops(s.log)|])
  }

  // ---------------------------------------------------------------------------------------------
  // The two writes to the buffer
  // ---------------------------------------------------------------------------------------------

  lemma ContentsStore(buffer: seq<Pointer>, capacity: nat, modulus: nat, log: seq<Event>, t: nat, x: Pointer)
    requires ContentsInv(buffer, capacity, modulus, log) && |Pushes(log)| < |Pops(log)| + capacity
    ensures ContentsInv(buffer[Cell(|Pushes(log)|, capacity, modulus) := x], capacity, modulus, log + [Push(t, x)])
            <==> Lands(capacity, modulus, |Pops(log)|, |Pushes(log)|)
  {
    var pushed, popped := Pushes(log), |Pops(log)|;
    LogAppend(log, Push(t, x));
    ReplayPush(log, t, x, capacity, pushed[popped..]);
    StoreExact(buffer, capacity, modulus, pushed, popped, x);
    assert (pushed + [x])[popped..] == pushed[popped..] + [x];
  }

  lemma ContentsErase(buffer: seq<Pointer>, capacity: nat, modulus: nat, log: seq<Event>, t: nat)
    requires ContentsInv(buffer, capacity, modulus, log) && |Pops(log)| < |Pushes(log)|
    ensures capacity > 0
    ensures buffer[Cell(|Pops(log)|, capacity, modulus)] == Pushes(log)[|Pops(log)|]
    ensures ContentsInv(buffer[Cell(|Pops(log)|, capacity, modulus) := NULL], capacity, modulus,
                        log + [Pop(t, Pushes(log)[|Pops(log)|])])
  {
    var pushed, popped := Pushes(log), |Pops(log)|;
    LogAppend(log, Pop(t, pushed[popped]));
    ReplayPop(log, t, capacity, pushed[popped..]);
    EraseKeepsSlots(buffer, capacity, modulus, pushed, popped);
    assert pushed[popped..][1..] == pushed[popped + 1..];
    assert Pushes(log + [Pop(t, pushed[popped])]) == pushed;
    assert |Pops(log + [Pop(t, pushed[popped])])| == popped + 1;
  }

  // ---------------------------------------------------------------------------------------------
  // The lines
  // ---------------------------------------------------------------------------------------------

  /** The slots the two ends select. */
  lemma Ends(s: State, t: nat)
    requires t < |s.calls| && HoldsSize(s.calls[t]) && s.sizeLock == HeldBy(t) && RingInv(s)
    requires s.calls[t].pc == EnqStore || s.calls[t].pc == DeqFetch || s.calls[t].pc == DeqErase
    ensures 0 < s.ring.capacity < s.ring.modulus && HolderPc(s) == s.calls[t].pc
    ensures s.calls[t].pc == EnqStore ==>
              && |Pushes(s.log)| < |Pops(s.log)| + s.ring.capacity
              && s.ring.tail % s.ring.capacity == Cell(|Pushes(s.log)|, s.ring.capacity, s.ring.modulus)
    ensures s.calls[t].pc != EnqStore ==>
              && |Pops(s.log)| < |Pushes(s.log)|
              && s.ring.head % s.ring.capacity == Cell(|Pops(s.log)|, s.ring.capacity, s.ring.modulus)
  {
    AtHolder(s, t);
  }

  lemma StoreAct(s: State, t: nat)
    requires t < |s.calls| && !Fault(s, t) && s.calls[t].pc == EnqStore
    ensures s.ring.capacity > 0 && s.ring.tail % s.ring.capacity < |s.ring.buffer|
    ensures Act(s, t).ring ==
            s.ring.(buffer := s.ring.buffer[s.ring.tail % s.ring.capacity := s.calls[t].item])
    ensures Act(s, t).log == s.log + [Push(t, s.calls[t].item)]
    ensures CallAfter(s, t).pc == EnqBump
  {
  }

  lemma EraseAct(s: State, t: nat)
    requires t < |s.calls| && !Fault(s, t) && s.calls[t].pc == DeqErase
    ensures s.ring.capacity > 0 && s.ring.head % s.ring.capacity < |s.ring.buffer|
    ensures Act(s, t).ring == s.ring.(buffer := s.ring.buffer[s.ring.head % s.ring.capacity := NULL])
    ensures Act(s, t).log == s.log + [Pop(t, s.calls[t].item)]
    ensures CallAfter(s, t).pc == DeqBump
  {
  }

  lemma StoreKeeps(s: State, t: nat)
    requires t < |s.calls| && !Fault(s, t) && s.calls[t].pc == EnqStore
    requires s.sizeLock == HeldBy(t) && RingInv(s) && ContentsOk(s) && LandedNow(s)
    ensures ContentsOk(Act(s, t)) <==> LandedNow(Act(s, t))
  {
    Ends(s, t);
    StoreAct(s, t);
    SizeLockAct(s, t);
    ContentsStore(s.ring.buffer, s.ring.capacity, s.ring.modulus, s.log, t, s.calls[t].item);
    LandedAppend(s.log, Push(t, s.calls[t].item), s.ring.capacity, s.ring.modulus);
  }

  lemma EraseKeeps(s: State, t: nat)
    requires t < |s.calls| && !Fault(s, t) && s.calls[t].pc == DeqErase
    requires s.sizeLock == HeldBy(t) && RingInv(s) && ContentsOk(s) && LandedNow(s)
    ensures ContentsOk(Act(s, t)) && LandedNow(Act(s, t))
  {
    Ends(s, t);
    EraseAct(s, t);
    SizeLockAct(s, t);
    ContentsErase(s.ring.buffer, s.ring.capacity, s.ring.modulus, s.log, t);
    LandedAppend(s.log, Pop(t, s.calls[t].item), s.ring.capacity, s.ring.modulus);
  }

  /** Whatever is fetched is the oldest waiting element. */
  lemma Fetched(s: State, t: nat)
    requires t < |s.calls| && s.calls[t].pc == DeqFetch && s.sizeLock == HeldBy(t)
    requires RingInv(s) && ContentsOk(s) && !Fault(s, t)
    ensures |Pops(s.log)| < |Pushes(s.log)|
    ensures CallAfter(s, t).item == Pushes(s.log)[|Pops(s.log)|]
  {
    Ends(s, t);
    ContentsErase(s.ring.buffer, s.ring.capacity, s.ring.modulus, s.log, t);
  }

  lemma FetchesBefore(pc: Pc, r: Ring)
    requires PcAfter(pc, r) == DeqErase
    ensures pc == DeqFetch || pc == DeqErase
  {
  }

  /** The other lines of the critical section leave the buffer and the history alone. */
  lemma OtherLine(s: State, t: nat)
    requires t < |s.calls| && !Fault(s, t)
    requires s.calls[t].pc != EnqStore && s.calls[t].pc != DeqErase
    ensures RingAfter(s, t).buffer == s.ring.buffer && RingAfter(s, t).capacity == s.ring.capacity
    ensures RingAfter(s, t).modulus == s.ring.modulus
  {
  }

  lemma HolderKeeps(s: State, t: nat)
    requires t < |s.calls| && !Fault(s, t) && HoldsSize(s.calls[t]) && s.sizeLock == HeldBy(t)
    requires s.calls[t].pc != EnqStore && s.calls[t].pc != DeqErase
    requires RingInv(s) && ContentsOk(s) && LandedNow(s)
    ensures ContentsOk(Act(s, t)) && LandedNow(Act(s, t))
  {
    OtherLine(s, t);
    LogAct(s, t);
    SizeLockAct(s, t);
    if s.calls[t].pc == DeqFetch {
      Fetched(s, t);
    } else if CallAfter(s, t).pc == DeqErase {
      FetchesBefore(s.calls[t].pc, s.ring);
    }
  }

  lemma OutsiderKeeps(s: State, t: nat)
    requires t < |s.calls| && Enabled(s, t) && !Fault(s, t) && !HoldsSize(s.calls[t])
    requires LockInv(s, SizeLock) && ContentsOk(s) && LandedNow(s)
    ensures ContentsOk(Act(s, t)) && LandedNow(Act(s, t))
  {
    OutsiderAct(s, t);
    OutsiderHolder(s, t);
  }

  lemma ContentsAct(s: State, t: nat)
    requires t < |s.calls| && Enabled(s, t) && !Fault(s, t)
    requires RingInv(s) && LockInv(s, SizeLock) && ContentsOk(s) && LandedNow(s)
    ensures ContentsOk(Act(s, t)) <==> LandedNow(Act(s, t))
  {
    assert Holds(SizeLock, s.calls[t]) <==> LockOf(s, SizeLock) == HeldBy(t);
    if !HoldsSize(s.calls[t]) {
      OutsiderKeeps(s, t);
    } else if s.calls[t].pc == EnqStore {
      StoreKeeps(s, t);
    } else if s.calls[t].pc == DeqErase {
      EraseKeeps(s, t);
    } else {
      HolderKeeps(s, t);
    }
  }

  /** Waking a call or making one touches neither. */
  lemma ContentsWake(s: State, u: nat)
    requires u < |s.calls| && LockInv(s, SizeLock)
    requires s.calls[u].pc == EnqSleep || s.calls[u].pc == DeqSleep
    ensures ContentsOk(Wake(s, Some(u))) <==> ContentsOk(s)
    ensures LandedNow(Wake(s, Some(u))) <==> LandedNow(s)
  {
    if s.sizeLock.HeldBy? {
      assert Holds(SizeLock, s.calls[s.sizeLock.owner]);
      assert s.sizeLock.owner != u;
    }
  }

  lemma ContentsCall(s: State, c: Call)
    requires LockInv(s, SizeLock)
    ensures var s' := s.(calls := s.calls + [c]);
            (ContentsOk(s') <==> ContentsOk(s)) && (LandedNow(s') <==> LandedNow(s))
  {
    assert HolderPc(s.(calls := s.calls + [c])) == HolderPc(s);
  }

  lemma ContentsRun(s: State, t: nat, w: Option<nat>)
    requires t < |s.calls| && Enabled(s, t) && WakeChoice(s, t, w) && !Fault(s, t)
    requires Inv(s) && ContentsOk(s) && LandedNow(s) && (w.Some? ==> w.value < |s.calls|)
    ensures ContentsOk(Wake(Act(s, t), w)) <==> LandedNow(Wake(Act(s, t), w))
  {
    ContentsAct(s, t);
    if w.Some? {
      InvAct(s, t);
      WakeTarget(s, t, w.value);
      assert Act(s, t).calls[w.value] == s.calls[w.value];
      ContentsWake(Act(s, t), w.value);
    }
  }

  /** A step from a state whose buffer is in order leaves it in order exactly when the element it
      stores, if it does, lands in a free slot. */
  lemma ContentsNext(s: State, a: Action, s': State)
    requires Inv(s) && ContentsOk(s) && LandedNow(s) && Next(s, a, s')
    ensures ContentsOk(s') <==> LandedNow(s')
  {
    match a
    case Enqueue(elem) => ContentsCall(s, Call(EnqLock, elem, false));
    case Dequeue => ContentsCall(s, Call(DeqLock, NULL, false));
    case Run(t, w) =>
      if w.Some? {
        WakeTarget(s, t, w.value);
      }
      ContentsRun(s, t, w);
    case Spurious(t) => ContentsWake(s, t);
  }

  lemma ContentsCreated(capacity: nat, modulus: nat)
    requires capacity < modulus
    ensures ContentsOk(Created(capacity, modulus)) && LandedNow(Created(capacity, modulus))
  {
  }

  /** Whenever the size lock is free the buffer is that of a queue at rest. */
  lemma BufferAtRest(s: State)
    requires Inv(s) && ContentsOk(s) && s.sizeLock == Free
    ensures RingOk(s.ring, Pushes(s.log), |Pops(s.log)|)
  {
    AtRest(s);
  }

  /** As long as the counters fit, every element lands in a free slot. */
  lemma FitsLandsAct(s: State, t: nat)
    requires Inv(s) && t < |s.calls| && !Fault(s, t) && s.calls[t].pc == EnqStore && LandedNow(s)
    requires Fits(s.ring.capacity, s.ring.modulus, |Pushes(s.log)| + 1)
    ensures LandedNow(Act(s, t))
  {
    assert Holds(SizeLock, s.calls[t]);
    Ends(s, t);
    StoreAct(s, t);
    AtHolder(s, t);
    FitsLands(s.ring.capacity, s.ring.modulus, |Pops(s.log)|, |Pushes(s.log)|);
    LandedAppend(s.log, Push(t, s.calls[t].item), s.ring.capacity, s.ring.modulus);
  }
}
