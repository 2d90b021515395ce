/** What every run of the queue keeps, whatever the counters do when they wrap around: the locks, the
    counters, and what each call has done. */
module QueueSafety {
  import opened RingModel
  import opened Wrappers
  import opened QueueMachine

  // ---------------------------------------------------------------------------------------------
  // Who holds which lock
  // ---------------------------------------------------------------------------------------------

  predicate HoldsSize(c: Call) {
    match c.pc
    case EnqTest | EnqLockTail | EnqLockHead | EnqCompare | EnqDropHead | EnqStore | EnqBump
       | EnqUnlockTail | EnqGrow | EnqUnlockSize => true
    case DeqTest | DeqLockHead | DeqLockTail | DeqCompare | DeqDropTail | DeqFetch | DeqErase
       | DeqBump | DeqUnlockHead | DeqShrink | DeqUnlockSize => true
    case _ => false
  }

  predicate HoldsHead(c: Call) {
    match c.pc
    case EnqCompare | EnqDropHead => true
    case EnqStore | EnqBump | EnqUnlockTail | EnqGrow | EnqUnlockSize | EnqUnlockHead => c.keep
    case DeqLockTail | DeqCompare | DeqDropTail | DeqFetch | DeqErase | DeqBump
       | DeqUnlockHead => true
    case _ => false
  }

  predicate HoldsTail(c: Call) {
    match c.pc
    case EnqLockHead | EnqCompare | EnqDropHead | EnqStore | EnqBump | EnqUnlockTail => true
    case DeqCompare | DeqDropTail => true
    case DeqFetch | DeqErase | DeqBump | DeqUnlockHead | DeqShrink | DeqUnlockSize
       | DeqUnlockTail => c.keep
    case _ => false
  }

  predicate Holds(name: LockName, c: Call) {
    match name
    case SizeLock => HoldsSize(c)
    case HeadLock => HoldsHead(c)
    case TailLock => HoldsTail(c)
  }

  /** Each lock is held by exactly the call whose program counter says so. */
  ghost predicate LockInv(s: State, name: LockName) {
    && (LockOf(s, name).HeldBy? ==> LockOf(s, name).owner < |s.calls|)
    && forall u :: 0 <= u < |s.calls| ==> (Holds(name, s.calls[u]) <==> LockOf(s, name) == HeldBy(u))
  }

  // ---------------------------------------------------------------------------------------------
  // The ring, while a call is in its critical section
  // ---------------------------------------------------------------------------------------------

  /** The program counter of the call that holds the size lock. */
  function HolderPc(s: State): Pc {
    if s.sizeLock.HeldBy? && s.sizeLock.owner < |s.calls| then s.calls[s.sizeLock.owner].pc else EnqDone
  }

  /** Stored but `pcq_tail` not yet incremented. */
  function TailLag(pc: Pc): nat { if pc == EnqBump then 1 else 0 }

  /** Erased but `pcq_head` not yet incremented. */
  function HeadLag(pc: Pc): nat { if pc == DeqBump then 1 else 0 }

  /** How far `pcq_current_size` is behind the number of waiting elements. */
  function SizeLag(pc: Pc): int {
    match pc
    case EnqBump | EnqUnlockTail | EnqGrow => 1
    case DeqBump | DeqUnlockHead | DeqShrink => -1
    case _ => 0
  }

  /** Past the wait for a free slot, before the store. */
  predicate HasRoom(pc: Pc) {
    match pc
    case EnqLockTail | EnqLockHead | EnqCompare | EnqDropHead | EnqStore => true
    case _ => false
  }

  /** Past the wait for an element, before the erase. */
  predicate HasElement(pc: Pc) {
    match pc
    case DeqLockHead | DeqLockTail | DeqCompare | DeqDropTail | DeqFetch | DeqErase => true
    case _ => false
  }

  ghost predicate TailOk(r: Ring, pushed: nat, pc: Pc) {
    TailLag(pc) <= pushed && 0 < r.modulus && r.tail == (pushed - TailLag(pc)) % r.modulus
  }

  ghost predicate HeadOk(r: Ring, popped: nat, pc: Pc) {
    HeadLag(pc) <= popped && 0 < r.modulus && r.head == (popped - HeadLag(pc)) % r.modulus
  }

  ghost predicate SizeOk(r: Ring, pushed: nat, popped: nat, pc: Pc) {
    && r.size == pushed - popped - SizeLag(pc)
    && popped <= pushed <= popped + r.capacity
    && r.size <= r.capacity
    && (HasRoom(pc) ==> r.size < r.capacity)
    && (HasElement(pc) ==> r.size > 0)
  }

  /** `Counters` with the corrections for the line the holder of the size lock is at. */
  ghost predicate InFlight(r: Ring, pushed: nat, popped: nat, pc: Pc) {
    && |r.buffer| == r.capacity < r.modulus
    && TailOk(r, pushed, pc)
    && HeadOk(r, popped, pc)
    && SizeOk(r, pushed, popped, pc)
  }

  /** The counters agree with the history, and a queue without slots has none. */
  ghost predicate RingInv(s: State) {
    && InFlight(s.ring, |Pushes(s.log)|, |Pops(s.log)|, HolderPc(s))
    && (s.ring.capacity == 0 ==> s.log == [])
  }

  // ---------------------------------------------------------------------------------------------
  // What each call has done so far
  // ---------------------------------------------------------------------------------------------

  predicate IsEnqueue(pc: Pc) {
    match pc
    case EnqLock | EnqTest | EnqSleep | EnqAwake | EnqLockTail | EnqLockHead | EnqCompare
       | EnqDropHead | EnqStore | EnqBump | EnqUnlockTail | EnqGrow | EnqUnlockSize
       | EnqUnlockHead | EnqSignal | EnqDone => true
    case _ => false
  }

  predicate HasPushed(pc: Pc) {
    match pc
    case EnqBump | EnqUnlockTail | EnqGrow | EnqUnlockSize | EnqUnlockHead | EnqSignal
       | EnqDone => true
    case _ => false
  }

  predicate HasPopped(pc: Pc) {
    match pc
    case DeqBump | DeqUnlockHead | DeqShrink | DeqUnlockSize | DeqUnlockTail | DeqSignal
       | DeqInspect | DeqDone => true
    case _ => false
  }

  /** The events call t owes to the history: its own, once, from its store or erase on. */
  function Due(t: nat, c: Call): seq<Event> {
    if HasPushed(c.pc) then [Push(t, c.item)]
    else if HasPopped(c.pc) then [Pop(t, c.item)]
    else []
  }

  predicate CallOk(log: seq<Event>, t: nat, c: Call) {
    && EventsOf(log, t) == Due(t, c)
    && (!IsEnqueue(c.pc) || c.pc == EnqDropHead ==> !c.keep)
  }

  ghost predicate CallsInv(s: State) {
    && (forall u :: 0 <= u < |s.calls| ==> CallOk(s.log, u, s.calls[u]))
    && (forall u: nat {:trigger EventsOf(s.log, u)} :: u >= |s.calls| ==> EventsOf(s.log, u) == [])
  }

  ghost predicate Inv(s: State) {
    && LockInv(s, SizeLock) && LockInv(s, HeadLock) && LockInv(s, TailLock)
    && RingInv(s) && CallsInv(s)
  }

  // ---------------------------------------------------------------------------------------------
  // Locks
  // ---------------------------------------------------------------------------------------------

  /** A call that is not asleep or returned holds after its line what its new line says. */
  lemma LockAct(s: State, t: nat, name: LockName)
    requires t < |s.calls| && Enabled(s, t) && !Fault(s, t)
    requires !IsEnqueue(s.calls[t].pc) || s.calls[t].pc == EnqDropHead ==> !s.calls[t].keep
    requires Holds(name, s.calls[t]) <==> LockOf(s, name) == HeldBy(t)
    ensures LockOf(Act(s, t), name) ==
            if Holds(name, CallAfter(s, t)) then HeldBy(t)
            else if Holds(name, s.calls[t]) then Free
            else LockOf(s, name)
    ensures Holds(name, CallAfter(s, t)) && !Holds(name, s.calls[t]) ==> LockOf(s, name) == Free
  {
  }

  lemma LockInvAct(s: State, t: nat, name: LockName)
    requires t < |s.calls| && Enabled(s, t) && !Fault(s, t)
    requires LockInv(s, name) && CallOk(s.log, t, s.calls[t])
    ensures LockInv(Act(s, t), name)
  {
    LockAct(s, t, name);
    var s' := Act(s, t);
    forall u | 0 <= u < |s'.calls|
      ensures Holds(name, s'.calls[u]) <==> LockOf(s', name) == HeldBy(u)
    {
      if u != t {
        assert s'.calls[u] == s.calls[u];
      }
    }
  }

  /** Sleepers and awakened calls hold no lock. */
  lemma LockInvWake(s: State, u: nat, name: LockName)
    requires u < |s.calls| && LockInv(s, name)
    requires s.calls[u].pc == EnqSleep || s.calls[u].pc == DeqSleep
    ensures LockInv(Wake(s, Some(u)), name)
  {
    var s' := Wake(s, Some(u));
    forall v | 0 <= v < |s'.calls|
      ensures Holds(name, s'.calls[v]) <==> LockOf(s', name) == HeldBy(v)
    {
      if v != u {
        assert s'.calls[v] == s.calls[v];
      }
    }
  }

  // ---------------------------------------------------------------------------------------------
  // The ring
  // ---------------------------------------------------------------------------------------------

  /** Only the holder of the size lock touches the queue's fields or the history. */
  lemma OutsiderAct(s: State, t: nat)
    requires t < |s.calls| && !Fault(s, t) && !HoldsSize(s.calls[t])
    ensures Act(s, t).ring == s.ring && Act(s, t).log == s.log
  {
  }

  /** The correction that applies once a line is done: none after leaving the critical section. */
  function PcOrOut(c: Call): Pc { if HoldsSize(c) then c.pc else EnqDone }

  lemma TailAct(s: State, t: nat, pushed: nat)
    requires t < |s.calls| && !Fault(s, t) && HoldsSize(s.calls[t])
    requires TailOk(s.ring, pushed, s.calls[t].pc)
    ensures TailOk(RingAfter(s, t), pushed + (if s.calls[t].pc == EnqStore then 1 else 0),
                   PcOrOut(CallAfter(s, t)))
  {
    if s.calls[t].pc == EnqBump {
      ModSuccessor(pushed - 1, s.ring.modulus);
    }
  }

  lemma HeadAct(s: State, t: nat, popped: nat)
    requires t < |s.calls| && !Fault(s, t) && HoldsSize(s.calls[t])
    requires HeadOk(s.ring, popped, s.calls[t].pc)
    ensures HeadOk(RingAfter(s, t), popped + (if s.calls[t].pc == DeqErase then 1 else 0),
                   PcOrOut(CallAfter(s, t)))
  {
    if s.calls[t].pc == DeqBump {
      ModSuccessor(popped - 1, s.ring.modulus);
    }
  }

  lemma SizeAct(s: State, t: nat, pushed: nat, popped: nat)
    requires t < |s.calls| && !Fault(s, t) && HoldsSize(s.calls[t])
    requires SizeOk(s.ring, pushed, popped, s.calls[t].pc)
    ensures SizeOk(RingAfter(s, t), pushed + (if s.calls[t].pc == EnqStore then 1 else 0),
                   popped + (if s.calls[t].pc == DeqErase then 1 else 0), PcOrOut(CallAfter(s, t)))
  {
  }

  /** The counters through one line of the critical section. */
  lemma InFlightAct(s: State, t: nat, pushed: nat, popped: nat)
    requires t < |s.calls| && !Fault(s, t) && HoldsSize(s.calls[t])
    requires InFlight(s.ring, pushed, popped, s.calls[t].pc)
    ensures InFlight(RingAfter(s, t), pushed + (if s.calls[t].pc == EnqStore then 1 else 0),
                     popped + (if s.calls[t].pc == DeqErase then 1 else 0), PcOrOut(CallAfter(s, t)))
  {
    TailAct(s, t, pushed);
    HeadAct(s, t, popped);
    SizeAct(s, t, pushed, popped);
  }

  /** What a line adds to the history. */
  lemma LogCounts(log: seq<Event>, t: nat, c: Call)
    ensures |Pushes(log + NewEvents(t, c))| == |Pushes(log)| + if c.pc == EnqStore then 1 else 0
    ensures |Pops(log + NewEvents(t, c))| == |Pops(log)| + if c.pc == DeqErase then 1 else 0
    ensures c.pc != EnqStore && c.pc != DeqErase ==> log + NewEvents(t, c) == log
  {
    if c.pc == EnqStore {
      LogAppend(log, Push(t, c.item));
    } else if c.pc == DeqErase {
      LogAppend(log, Pop(t, c.item));
    } else {
      assert log + [] == log;
    }
  }

  lemma SizeLockAct(s: State, t: nat)
    requires t < |s.calls| && !Fault(s, t) && HoldsSize(s.calls[t]) && s.sizeLock == HeldBy(t)
    ensures Act(s, t).sizeLock == if HoldsSize(CallAfter(s, t)) then HeldBy(t) else Free
    ensures HolderPc(Act(s, t)) == PcOrOut(CallAfter(s, t))
  {
  }

  /** What the invariant says at the line of the holder of the size lock. */
  lemma AtHolder(s: State, t: nat)
    requires t < |s.calls| && HoldsSize(s.calls[t]) && s.sizeLock == HeldBy(t) && RingInv(s)
    ensures InFlight(s.ring, |Pushes(s.log)|, |Pops(s.log)|, s.calls[t].pc)
    ensures s.ring.capacity == 0 ==> s.log == [] && s.calls[t].pc != EnqStore && s.calls[t].pc != DeqErase
  {
    assert HolderPc(s) == s.calls[t].pc;
  }

  lemma RingInvFrom(s: State, t: nat)
    requires t < |s.calls| && !Fault(s, t) && HolderPc(Act(s, t)) == PcOrOut(CallAfter(s, t))
    requires InFlight(RingAfter(s, t), |Pushes(Act(s, t).log)|, |Pops(Act(s, t).log)|, PcOrOut(CallAfter(s, t)))
    requires s.ring.capacity == 0 ==> Act(s, t).log == []
    ensures RingInv(Act(s, t))
  {
  }

  lemma LogAct(s: State, t: nat)
    requires t < |s.calls| && !Fault(s, t)
    ensures |Pushes(Act(s, t).log)| == |Pushes(s.log)| + if s.calls[t].pc == EnqStore then 1 else 0
    ensures |Pops(Act(s, t).log)| == |Pops(s.log)| + if s.calls[t].pc == DeqErase then 1 else 0
    ensures s.calls[t].pc != EnqStore && s.calls[t].pc != DeqErase ==> Act(s, t).log == s.log
  {
    LogCounts(s.log, t, s.calls[t]);
    assert Act(s, t).log == s.log + NewEvents(t, s.calls[t]);
  }

  lemma HolderInFlight(s: State, t: nat)
    requires t < |s.calls| && !Fault(s, t) && HoldsSize(s.calls[t])
    requires InFlight(s.ring, |Pushes(s.log)|, |Pops(s.log)|, s.calls[t].pc)
    ensures InFlight(RingAfter(s, t), |Pushes(Act(s, t).log)|, |Pops(Act(s, t).log)|, PcOrOut(CallAfter(s, t)))
  {
    InFlightAct(s, t, |Pushes(s.log)|, |Pops(s.log)|);
    LogAct(s, t);
  }

  lemma RingInvHolder(s: State, t: nat)
    requires t < |s.calls| && !Fault(s, t)
    requires HoldsSize(s.calls[t]) && s.sizeLock == HeldBy(t) && RingInv(s)
    ensures RingInv(Act(s, t))
  {
    AtHolder(s, t);
    HolderInFlight(s, t);
    LogAct(s, t);
    SizeLockAct(s, t);
    RingInvFrom(s, t);
  }

  lemma OutsiderLock(s: State, t: nat)
    requires t < |s.calls| && Enabled(s, t) && !Fault(s, t) && !HoldsSize(s.calls[t])
    ensures Act(s, t).sizeLock == s.sizeLock
            || (s.sizeLock == Free && Act(s, t).sizeLock == HeldBy(t)
                && (CallAfter(s, t).pc == EnqTest || CallAfter(s, t).pc == DeqTest))
  {
  }

  /** The corrections stay those of the holder, if there is one. */
  lemma OutsiderHolder(s: State, t: nat)
    requires t < |s.calls| && Enabled(s, t) && !Fault(s, t) && !HoldsSize(s.calls[t])
    requires LockInv(s, SizeLock)
    ensures var pc, pc' := HolderPc(s), HolderPc(Act(s, t));
            || (pc == EnqDone && (pc' == EnqTest || pc' == DeqTest))
            || (pc' == pc && Act(s, t).sizeLock == s.sizeLock
                && (pc == DeqErase ==> Act(s, t).calls[s.sizeLock.owner] == s.calls[s.sizeLock.owner]))
  {
    OutsiderLock(s, t);
    if s.sizeLock.HeldBy? {
      assert Holds(SizeLock, s.calls[s.sizeLock.owner]);
      assert s.sizeLock.owner != t;
    }
  }

  lemma NoCorrection(r: Ring, pushed: nat, popped: nat, pc: Pc)
    requires InFlight(r, pushed, popped, EnqDone) && (pc == EnqTest || pc == DeqTest)
    ensures InFlight(r, pushed, popped, pc)
  {
  }

  lemma RingInvOutsider(s: State, t: nat)
    requires t < |s.calls| && Enabled(s, t) && !Fault(s, t) && !HoldsSize(s.calls[t])
    requires RingInv(s) && LockInv(s, SizeLock)
    ensures RingInv(Act(s, t))
  {
    var pc, pc' := HolderPc(s), HolderPc(Act(s, t));
    OutsiderAct(s, t);
    OutsiderHolder(s, t);
    if pc' != pc {
      NoCorrection(s.ring, |Pushes(s.log)|, |Pops(s.log)|, pc');
    }
    assert InFlight(Act(s, t).ring, |Pushes(Act(s, t).log)|, |Pops(Act(s, t).log)|, pc');
  }

  lemma RingInvAct(s: State, t: nat)
    requires t < |s.calls| && Enabled(s, t) && !Fault(s, t)
    requires RingInv(s) && LockInv(s, SizeLock)
    ensures RingInv(Act(s, t))
  {
    assert Holds(SizeLock, s.calls[t]) <==> LockOf(s, SizeLock) == HeldBy(t);
    if HoldsSize(s.calls[t]) {
      RingInvHolder(s, t);
    } else {
      RingInvOutsider(s, t);
    }
  }

  lemma RingInvWake(s: State, u: nat)
    requires u < |s.calls| && RingInv(s) && LockInv(s, SizeLock)
    requires s.calls[u].pc == EnqSleep || s.calls[u].pc == DeqSleep
    ensures RingInv(Wake(s, Some(u)))
  {
    if s.sizeLock.HeldBy? {
      assert s.sizeLock.owner != u;
      assert Wake(s, Some(u)).calls[s.sizeLock.owner] == s.calls[s.sizeLock.owner];
    }
  }

  // ---------------------------------------------------------------------------------------------
  // The calls
  // ---------------------------------------------------------------------------------------------

  /** A call owes the history exactly what its line appends. */
  lemma DueAfter(s: State, t: nat)
    requires t < |s.calls| && Enabled(s, t) && !Fault(s, t)
    ensures Due(t, CallAfter(s, t)) == Due(t, s.calls[t]) + NewEvents(t, s.calls[t])
  {
    if IsEnqueue(s.calls[t].pc) {
      assert IsEnqueue(CallAfter(s, t).pc);
    } else {
      assert !IsEnqueue(CallAfter(s, t).pc);
    }
  }

  lemma EventsAfter(s: State, t: nat)
    requires t < |s.calls| && !Fault(s, t)
    ensures EventsOf(Act(s, t).log, t) == EventsOf(s.log, t) + NewEvents(t, s.calls[t])
  {
    var added := NewEvents(t, s.calls[t]);
    if added == [] {
      assert s.log + added == s.log;
    } else {
      EventsAppend(s.log, added[0], t);
      assert [added[0]] == added;
    }
  }

  /** The branch `pcq_head == pcq_tail` of pcq_dequeue is never taken. */
  lemma EmptyBranchUnreachable(s: State, t: nat)
    requires t < |s.calls| && s.sizeLock == HeldBy(t) && RingInv(s)
    requires s.calls[t].pc == DeqCompare
    ensures s.ring.head != s.ring.tail
  {
    SlotsDiffer(|Pops(s.log)|, |Pushes(s.log)|, s.ring.modulus);
  }

  lemma KeepAfter(s: State, t: nat)
    requires t < |s.calls| && Enabled(s, t) && !Fault(s, t)
    requires CallOk(s.log, t, s.calls[t]) && RingInv(s)
    requires HoldsSize(s.calls[t]) ==> s.sizeLock == HeldBy(t)
    ensures var c := CallAfter(s, t); !IsEnqueue(c.pc) || c.pc == EnqDropHead ==> !c.keep
  {
    if s.calls[t].pc == DeqCompare {
      EmptyBranchUnreachable(s, t);
    }
  }

  lemma CallActs(s: State, t: nat)
    requires t < |s.calls| && Enabled(s, t) && !Fault(s, t)
    requires CallOk(s.log, t, s.calls[t]) && RingInv(s)
    requires HoldsSize(s.calls[t]) ==> s.sizeLock == HeldBy(t)
    ensures CallOk(Act(s, t).log, t, CallAfter(s, t))
  {
    DueAfter(s, t);
    EventsAfter(s, t);
    KeepAfter(s, t);
  }

  lemma OthersEvents(s: State, t: nat, u: nat)
    requires t < |s.calls| && !Fault(s, t) && u != t
    ensures EventsOf(Act(s, t).log, u) == EventsOf(s.log, u)
  {
    EventsAppend(s.log, Push(t, s.calls[t].item), u);
    EventsAppend(s.log, Pop(t, s.calls[t].item), u);
    assert s.log + [] == s.log;
  }

  lemma CallsInvAct(s: State, t: nat)
    requires t < |s.calls| && Enabled(s, t) && !Fault(s, t)
    requires CallsInv(s) && RingInv(s) && LockInv(s, SizeLock)
    ensures CallsInv(Act(s, t))
  {
    var s' := Act(s, t);
    CallActs(s, t);
    forall u | 0 <= u < |s'.calls| ensures CallOk(s'.log, u, s'.calls[u]) {
      if u != t {
        OthersEvents(s, t, u);
      }
    }
    forall u: nat {:trigger EventsOf(s'.log, u)} | u >= |s'.calls| ensures EventsOf(s'.log, u) == [] {
      OthersEvents(s, t, u);
    }
  }

  // ---------------------------------------------------------------------------------------------
  // Every action keeps the invariant
  // ---------------------------------------------------------------------------------------------

  lemma InvAct(s: State, t: nat)
    requires t < |s.calls| && Enabled(s, t) && !Fault(s, t)
    requires Inv(s)
    ensures Inv(Act(s, t))
  {
    LockInvAct(s, t, SizeLock);
    LockInvAct(s, t, HeadLock);
    LockInvAct(s, t, TailLock);
    RingInvAct(s, t);
    CallsInvAct(s, t);
  }

  lemma CallsInvWake(s: State, u: nat)
    requires u < |s.calls| && CallsInv(s)
    requires s.calls[u].pc == EnqSleep || s.calls[u].pc == DeqSleep
    ensures CallsInv(Wake(s, Some(u)))
  {
    var s' := Wake(s, Some(u));
    forall v | 0 <= v < |s'.calls| ensures CallOk(s'.log, v, s'.calls[v]) {
      assert CallOk(s.log, v, s.calls[v]);
    }
  }

  lemma InvWake(s: State, u: nat)
    requires u < |s.calls| && Inv(s)
    requires s.calls[u].pc == EnqSleep || s.calls[u].pc == DeqSleep
    ensures Inv(Wake(s, Some(u)))
  {
    LockInvWake(s, u, SizeLock);
    LockInvWake(s, u, HeadLock);
    LockInvWake(s, u, TailLock);
    RingInvWake(s, u);
    CallsInvWake(s, u);
  }

  predicate IsNewCall(c: Call) {
    (c.pc == EnqLock || c.pc == DeqLock) && !c.keep
  }

  lemma LockInvCall(s: State, c: Call, name: LockName)
    requires LockInv(s, name) && IsNewCall(c)
    ensures LockInv(s.(calls := s.calls + [c]), name)
  {
  }

  lemma RingInvCall(s: State, c: Call)
    requires RingInv(s) && LockInv(s, SizeLock)
    ensures RingInv(s.(calls := s.calls + [c]))
  {
    assert HolderPc(s.(calls := s.calls + [c])) == HolderPc(s);
  }

  lemma CallsInvCall(s: State, c: Call)
    requires CallsInv(s) && IsNewCall(c)
    ensures CallsInv(s.(calls := s.calls + [c]))
  {
    assert EventsOf(s.log, |s.calls|) == [];
  }

  lemma InvCall(s: State, c: Call)
    requires Inv(s) && IsNewCall(c)
    ensures Inv(s.(calls := s.calls + [c]))
  {
    LockInvCall(s, c, SizeLock);
    LockInvCall(s, c, HeadLock);
    LockInvCall(s, c, TailLock);
    RingInvCall(s, c);
    CallsInvCall(s, c);
  }

  lemma InvCreated(capacity: nat, modulus: nat)
    requires capacity < modulus
    ensures Inv(Created(capacity, modulus))
  {
    ModUnique(0, 0, 0, modulus);
  }

  /** A signal wakes a call other than the sender. */
  lemma WakeTarget(s: State, t: nat, w: nat)
    requires t < |s.calls| && WakeChoice(s, t, Some(w))
    ensures w < |s.calls| && w != t
    ensures s.calls[w].pc == EnqSleep || s.calls[w].pc == DeqSleep
    ensures Line(s.calls[t].pc) == Signal(s.calls[w].pc, if s.calls[t].pc == EnqSignal then EnqDone else DeqInspect)
  {
  }

  lemma InvRun(s: State, t: nat, w: Option<nat>)
    requires t < |s.calls| && Enabled(s, t) && WakeChoice(s, t, w) && !Fault(s, t)
    requires Inv(s)
    ensures w.Some? ==> w.value < |s.calls|
    ensures Inv(Wake(Act(s, t), w))
  {
    InvAct(s, t);
    if w.Some? {
      WakeTarget(s, t, w.value);
      assert Act(s, t).calls[w.value] == s.calls[w.value];
      InvWake(Act(s, t), w.value);
    }
  }

  /** The invariant is inductive. */
  lemma InvNext(s: State, a: Action, s': State)
    requires Inv(s) && Next(s, a, s')
    ensures Inv(s')
  {
    match a
    case Enqueue(elem) => InvCall(s, Call(EnqLock, elem, false));
    case Dequeue => InvCall(s, Call(DeqLock, NULL, false));
    case Run(t, w) => InvRun(s, t, w);
    case Spurious(t) => InvWake(s, t);
  }

  // ---------------------------------------------------------------------------------------------
  // Consequences in every state with the invariant
  // ---------------------------------------------------------------------------------------------

  /** What the invariant says about call t alone. */
  ghost predicate LocalFacts(s: State, t: nat)
    requires t < |s.calls|
  {
    var c := s.calls[t];
    && (HoldsSize(c) <==> s.sizeLock == HeldBy(t))
    && (HoldsHead(c) <==> s.headLock == HeldBy(t))
    && (HoldsTail(c) <==> s.tailLock == HeldBy(t))
    && (HoldsSize(c) ==> SizeOk(s.ring, |Pushes(s.log)|, |Pops(s.log)|, c.pc))
    && |s.ring.buffer| == s.ring.capacity < s.ring.modulus
  }

  lemma InvLocal(s: State, t: nat)
    requires Inv(s) && t < |s.calls|
    ensures LocalFacts(s, t)
  {
    assert CallOk(s.log, t, s.calls[t]);
    assert Holds(SizeLock, s.calls[t]) <==> LockOf(s, SizeLock) == HeldBy(t);
    assert Holds(TailLock, s.calls[t]) <==> LockOf(s, TailLock) == HeldBy(t);
    assert Holds(HeadLock, s.calls[t]) <==> LockOf(s, HeadLock) == HeldBy(t);
  }

  lemma NoLocalFault(s: State, t: nat)
    requires t < |s.calls| && LocalFacts(s, t)
    ensures !Fault(s, t)
  {
  }

  /** No line ever goes wrong: no remainder by zero even at capacity 0, no access outside the buffer,
      no unlock by a thread that is not the owner. */
  lemma NoFault(s: State, t: nat)
    requires Inv(s) && t < |s.calls|
    ensures !Fault(s, t)
  {
    InvLocal(s, t);
    NoLocalFault(s, t);
  }

  /** The same line by line: where the buffer is accessed it has slots, a call waits and unlocks only with
      the mutex it waits with or unlocks, and the size is decremented only above zero. */
  lemma LinesAreSafe(s: State, t: nat)
    requires Inv(s) && t < |s.calls|
    ensures var pc := s.calls[t].pc;
            && (pc == EnqStore || pc == DeqFetch || pc == DeqErase ==>
                  0 < s.ring.capacity == |s.ring.buffer| && s.sizeLock == HeldBy(t))
            && (pc == EnqTest || pc == DeqTest || pc == EnqUnlockSize || pc == DeqUnlockSize ==>
                  s.sizeLock == HeldBy(t))
            && (pc == EnqDropHead || pc == DeqUnlockHead ==> s.headLock == HeldBy(t))
            && (pc == EnqUnlockTail || pc == DeqDropTail ==> s.tailLock == HeldBy(t))
            && (pc == EnqUnlockHead && s.calls[t].keep ==> s.headLock == HeldBy(t))
            && (pc == DeqUnlockTail && s.calls[t].keep ==> s.tailLock == HeldBy(t))
            && (pc == DeqShrink ==> s.ring.size > 0)
            && 0 < s.ring.modulus
  {
    InvLocal(s, t);
  }

  /** The line reads or writes the buffer, the counters or the size. */
  predicate TouchesQueue(line: Instr) {
    match line
    case Acquire(_, _) => false
    case Release(_, _) => false
    case ReleaseKept(_, _) => false
    case Signal(_, _) => false
    case Inspect(_) => false
    case Nothing => false
    case _ => true
  }

  lemma LocallyLocked(s: State, t: nat)
    requires t < |s.calls| && LocalFacts(s, t)
    ensures TouchesQueue(Line(s.calls[t].pc)) ==> s.sizeLock == HeldBy(t)
    ensures Line(s.calls[t].pc).BumpTail? ==> s.tailLock == HeldBy(t)
    ensures Line(s.calls[t].pc).BumpHead? ==> s.headLock == HeldBy(t)
  {
  }

  /** Every access to the queue is made under the size lock, and the two ends are moved only under
      their own locks as well. */
  lemma AccessesAreLocked(s: State, t: nat)
    requires Inv(s) && t < |s.calls|
    ensures TouchesQueue(Line(s.calls[t].pc)) ==> s.sizeLock == HeldBy(t)
    ensures Line(s.calls[t].pc).BumpTail? ==> s.tailLock == HeldBy(t)
    ensures Line(s.calls[t].pc).BumpHead? ==> s.headLock == HeldBy(t)
  {
    InvLocal(s, t);
    LocallyLocked(s, t);
  }

  /** Whenever the size lock is free the counters are those of a queue at rest. */
  lemma AtRest(s: State)
    requires Inv(s) && s.sizeLock == Free
    ensures Counters(s.ring, |Pushes(s.log)|, |Pops(s.log)|)
    ensures 0 <= s.ring.size == |Pushes(s.log)| - |Pops(s.log)| <= s.ring.capacity
  {
  }
}
