/** `pcq_enqueue` and `pcq_dequeue` (producer-consumer/producer-consumer.c:66-172) run by any number
    of threads, one line at a time.

    Every call is a record of its own with a program counter; calls may start at any moment, so the
    runs below include those of every set of producers and consumers, whatever they call in
    whatever order.  `pthread_cond_wait` releases the size lock and sleeps in one step,
    `pthread_cond_signal` wakes one sleeper if there is one, and spurious wake-ups may happen at any
    time.  The field `log` is a history variable: nothing the program does depends on it. */
module QueueMachine {
  import opened Wrappers
  import opened RingModel

  /** The next line of a call; the comments give the source lines. */
  datatype Pc =
    | EnqLock        // 70: lock the size
    | EnqTest        // 72: while the queue is full
    | EnqSleep       // 75: waiting on the pusher condition, size lock released
    | EnqAwake       // 75: awakened, must lock the size again
    | EnqLockTail    // 80
    | EnqLockHead    // 82
    | EnqCompare     // 83
    | EnqDropHead    // 88
    | EnqStore       // 95
    | EnqBump        // 96
    | EnqUnlockTail  // 99
    | EnqGrow        // 102
    | EnqUnlockSize  // 104
    | EnqUnlockHead  // 106-109
    | EnqSignal      // 113
    | EnqDone        // 116
    | DeqLock        // 123: lock the size
    | DeqTest        // 125: while the queue is empty
    | DeqSleep       // 128: waiting on the popper condition, size lock released
    | DeqAwake       // 128: awakened, must lock the size again
    | DeqLockHead    // 134
    | DeqLockTail    // 136
    | DeqCompare     // 137
    | DeqDropTail    // 142
    | DeqFetch       // 147
    | DeqErase       // 148
    | DeqBump        // 149
    | DeqUnlockHead  // 153
    | DeqShrink      // 156
    | DeqUnlockSize  // 158
    | DeqUnlockTail  // 160-163
    | DeqSignal      // 167
    | DeqInspect     // 169-170: reads through the returned pointer, if debug output is on
    | DeqDone        // 171

  /** One call.  `item` is the argument of an enqueue, or `first` in a dequeue; `keep` is
      `must_unlock_head` in an enqueue and `must_unlock_tail` in a dequeue. */
  datatype Call = Call(pc: Pc, item: Pointer, keep: bool)

  datatype Lock = Free | HeldBy(owner: nat)

  /** When a call takes effect: an enqueue at its store, a dequeue at its erase. */
  datatype Event = Push(caller: nat, elem: Pointer) | Pop(caller: nat, elem: Pointer)

  datatype State = State(
    ring: Ring,
    sizeLock: Lock,
    headLock: Lock,
    tailLock: Lock,
    calls: seq<Call>,
    log: seq<Event>)

  /** After `pcq_create`. */
  function Created(capacity: nat, modulus: nat): State {
    State(Ring(capacity, modulus, seq(capacity, _ => NULL), 0, 0, 0), Free, Free, Free, [], [])
  }

  // ---------------------------------------------------------------------------------------------
  // The program
  // ---------------------------------------------------------------------------------------------

  datatype LockName = SizeLock | HeadLock | TailLock

  /** What a line does, and where it goes from there. */
  datatype Instr =
    | Acquire(name: LockName, next: Pc)
    | Release(name: LockName, next: Pc)
    | ReleaseKept(name: LockName, next: Pc)   // only when the flag was set
    | WaitWhileFull(sleep: Pc, next: Pc)
    | WaitWhileEmpty(sleep: Pc, next: Pc)
    | CompareEnds(same: Pc, next: Pc)         // sets the flag when head and tail are equal
    | Store(next: Pc)
    | BumpTail(next: Pc)
    | Grow(next: Pc)
    | Fetch(next: Pc)
    | Erase(next: Pc)
    | BumpHead(next: Pc)
    | Shrink(next: Pc)
    | Signal(sleepers: Pc, next: Pc)
    | Inspect(next: Pc)
    | Nothing                                 // asleep or returned

  function Line(pc: Pc): Instr {
    match pc
    case EnqLock => Acquire(SizeLock, EnqTest)
    case EnqTest => WaitWhileFull(EnqSleep, EnqLockTail)
    case EnqSleep => Nothing
    case EnqAwake => Acquire(SizeLock, EnqTest)
    case EnqLockTail => Acquire(TailLock, EnqLockHead)
    case EnqLockHead => Acquire(HeadLock, EnqCompare)
    case EnqCompare => CompareEnds(EnqStore, EnqDropHead)
    case EnqDropHead => Release(HeadLock, EnqStore)
    case EnqStore => Store(EnqBump)
    case EnqBump => BumpTail(EnqUnlockTail)
    case EnqUnlockTail => Release(TailLock, EnqGrow)
    case EnqGrow => Grow(EnqUnlockSize)
    case EnqUnlockSize => Release(SizeLock, EnqUnlockHead)
    case EnqUnlockHead => ReleaseKept(HeadLock, EnqSignal)
    case EnqSignal => Signal(DeqSleep, EnqDone)
    case EnqDone => Nothing
    case DeqLock => Acquire(SizeLock, DeqTest)
    case DeqTest => WaitWhileEmpty(DeqSleep, DeqLockHead)
    case DeqSleep => Nothing
    case DeqAwake => Acquire(SizeLock, DeqTest)
    case DeqLockHead => Acquire(HeadLock, DeqLockTail)
    case DeqLockTail => Acquire(TailLock, DeqCompare)
    case DeqCompare => CompareEnds(DeqFetch, DeqDropTail)
    case DeqDropTail => Release(TailLock, DeqFetch)
    case DeqFetch => Fetch(DeqErase)
    case DeqErase => Erase(DeqBump)
    case DeqBump => BumpHead(DeqUnlockHead)
    case DeqUnlockHead => Release(HeadLock, DeqShrink)
    case DeqShrink => Shrink(DeqUnlockSize)
    case DeqUnlockSize => Release(SizeLock, DeqUnlockTail)
    case DeqUnlockTail => ReleaseKept(TailLock, DeqSignal)
    case DeqSignal => Signal(EnqSleep, DeqInspect)
    case DeqInspect => Inspect(DeqDone)
    case DeqDone => Nothing
  }

  // ---------------------------------------------------------------------------------------------
  // One line of one call
  // ---------------------------------------------------------------------------------------------

  function LockOf(s: State, name: LockName): Lock {
    match name
    case SizeLock => s.sizeLock
    case HeadLock => s.headLock
    case TailLock => s.tailLock
  }

  /** The call can execute its next line now. */
  predicate Enabled(s: State, t: nat)
    requires t < |s.calls|
  {
    var line := Line(s.calls[t].pc);
    line != Nothing && (line.Acquire? ==> LockOf(s, line.name) == Free)
  }

  /** The line would go wrong: a remainder by zero or an access outside the buffer, waiting with or
      unlocking a mutex the thread does not own, or decrementing a size of zero. */
  predicate Fault(s: State, t: nat)
    requires t < |s.calls|
  {
    var r, c := s.ring, s.calls[t];
    match Line(c.pc)
    case WaitWhileFull(_, _) => s.sizeLock != HeldBy(t)
    case WaitWhileEmpty(_, _) => s.sizeLock != HeldBy(t)
    case Release(name, _) => LockOf(s, name) != HeldBy(t)
    case ReleaseKept(name, _) => c.keep && LockOf(s, name) != HeldBy(t)
    case Store(_) => r.capacity == 0 || r.tail % r.capacity >= |r.buffer|
    case Fetch(_) => r.capacity == 0 || r.head % r.capacity >= |r.buffer|
    case Erase(_) => r.capacity == 0 || r.head % r.capacity >= |r.buffer|
    case BumpTail(_) => r.modulus == 0
    case BumpHead(_) => r.modulus == 0
    case Shrink(_) => r.size == 0
    case _ => false
  }

  function PcAfter(pc: Pc, r: Ring): Pc {
    match Line(pc)
    case WaitWhileFull(sleep, next) => if r.size == r.capacity then sleep else next
    case WaitWhileEmpty(sleep, next) => if r.size == 0 then sleep else next
    case CompareEnds(same, next) => if r.head == r.tail then same else next
    case Nothing => pc
    case line => line.next
  }

  /** The mutex after a line of call t: waiting releases the size lock. */
  function LockAfter(lock: Lock, name: LockName, t: nat, c: Call, r: Ring): Lock {
    match Line(c.pc)
    case Acquire(n, _) => if n == name then HeldBy(t) else lock
    case Release(n, _) => if n == name then Free else lock
    case ReleaseKept(n, _) => if n == name && c.keep then Free else lock
    case WaitWhileFull(_, _) => if name == SizeLock && r.size == r.capacity then Free else lock
    case WaitWhileEmpty(_, _) => if name == SizeLock && r.size == 0 then Free else lock
    case _ => lock
  }

  function RingAfter(s: State, t: nat): Ring
    requires t < |s.calls| && !Fault(s, t)
  {
    var r := s.ring;
    match Line(s.calls[t].pc)
    case Store(_) => r.(buffer := r.buffer[r.tail % r.capacity := s.calls[t].item])
    case BumpTail(_) => r.(tail := (r.tail + 1) % r.modulus)
    case Grow(_) => r.(size := r.size + 1)
    case Erase(_) => r.(buffer := r.buffer[r.head % r.capacity := NULL])
    case BumpHead(_) => r.(head := (r.head + 1) % r.modulus)
    case Shrink(_) => r.(size := r.size - 1)
    case _ => r
  }

  function CallAfter(s: State, t: nat): Call
    requires t < |s.calls| && !Fault(s, t)
  {
    var r, c := s.ring, s.calls[t];
    var pc := PcAfter(c.pc, r);
    match Line(c.pc)
    case CompareEnds(_, _) => Call(pc, c.item, r.head == r.tail)
    case Fetch(_) => Call(pc, r.buffer[r.head % r.capacity], c.keep)
    case _ => Call(pc, c.item, c.keep)
  }

  function NewEvents(t: nat, c: Call): seq<Event> {
    match Line(c.pc)
    case Store(_) => [Push(t, c.item)]
    case Erase(_) => [Pop(t, c.item)]
    case _ => []
  }

  /** The effect of the next line of call t. */
  function Act(s: State, t: nat): State
    requires t < |s.calls| && !Fault(s, t)
  {
    var c := s.calls[t];
    State(
      RingAfter(s, t),
      LockAfter(s.sizeLock, SizeLock, t, c, s.ring),
      LockAfter(s.headLock, HeadLock, t, c, s.ring),
      LockAfter(s.tailLock, TailLock, t, c, s.ring),
      s.calls[t := CallAfter(s, t)],
      s.log + NewEvents(t, c))
  }

  /** `w` is a sleeper the signal sent by call t may wake; a signal without sleepers is lost. */
  ghost predicate WakeChoice(s: State, t: nat, w: Option<nat>)
    requires t < |s.calls|
  {
    match Line(s.calls[t].pc)
    case Signal(sleepers, _) =>
      (match w
       case Some(u) => u < |s.calls| && s.calls[u].pc == sleepers
       case None => forall u :: 0 <= u < |s.calls| ==> s.calls[u].pc != sleepers)
    case _ => w == None
  }

  function Woken(c: Call): Call {
    c.(pc := if c.pc == EnqSleep then EnqAwake else if c.pc == DeqSleep then DeqAwake else c.pc)
  }

  function Wake(s: State, w: Option<nat>): State
    requires w.Some? ==> w.value < |s.calls|
  {
    if w == None then s else s.(calls := s.calls[w.value := Woken(s.calls[w.value])])
  }

  // ---------------------------------------------------------------------------------------------
  // Runs
  // ---------------------------------------------------------------------------------------------

  datatype Action =
    | Enqueue(elem: Pointer)          // some thread calls pcq_enqueue(elem)
    | Dequeue                         // some thread calls pcq_dequeue
    | Run(t: nat, wakes: Option<nat>) // call t executes its next line
    | Spurious(t: nat)                // a waiting call wakes up for no reason

  ghost predicate Next(s: State, a: Action, s': State) {
    match a
    case Enqueue(elem) => s' == s.(calls := s.calls + [Call(EnqLock, elem, false)])
    case Dequeue => s' == s.(calls := s.calls + [Call(DeqLock, NULL, false)])
    case Run(t, w) =>
      && t < |s.calls| && Enabled(s, t) && WakeChoice(s, t, w)
      && !Fault(s, t) && s' == Wake(Act(s, t), w)
    case Spurious(t) =>
      t < |s.calls| && s.calls[t].pc in {EnqSleep, DeqSleep} && s' == Wake(s, Some(t))
  }

  /** `states` are the states of a run from `pcq_create` on, one action apart. */
  ghost predicate IsRun(capacity: nat, modulus: nat, states: seq<State>, actions: seq<Action>) {
    && |states| == |actions| + 1
    && states[0] == Created(capacity, modulus)
    && forall i :: 0 <= i < |actions| ==> Next(states[i], actions[i], states[i + 1])
  }

  // ---------------------------------------------------------------------------------------------
  // The history
  // ---------------------------------------------------------------------------------------------

  function Pushes(log: seq<Event>): seq<Pointer> {
    if log == [] then []
    else
      var e := log[|log| - 1];
      Pushes(log[..|log| - 1]) + if e.Push? then [e.elem] else []
  }

  function Pops(log: seq<Event>): seq<Pointer> {
    if log == [] then []
    else
      var e := log[|log| - 1];
      Pops(log[..|log| - 1]) + if e.Pop? then [e.elem] else []
  }

  /** The events of call t. */
  function EventsOf(log: seq<Event>, t: nat): seq<Event> {
    if log == [] then []
    else
      var e := log[|log| - 1];
      EventsOf(log[..|log| - 1], t) + if e.caller == t then [e] else []
  }

  /** The sequential specification: a bounded first-in first-out queue.  Replaying a history yields
      the final contents, or None if some event is impossible: a push onto a full queue, or a pop
      that does not return the oldest element. */
  function Replay(log: seq<Event>, capacity: nat): Option<seq<Pointer>> {
    if log == [] then Some([])
    else
      var before := Replay(log[..|log| - 1], capacity);
      if before == None then None
      else
        var q := before.value;
        match log[|log| - 1]
        case Push(_, x) => if |q| < capacity then Some(q + [x]) else None
        case Pop(_, x) => if q != [] && q[0] == x then Some(q[1..]) else None
  }

  lemma LogAppend(log: seq<Event>, e: Event)
    ensures Pushes(log + [e]) == Pushes(log) + if e.Push? then [e.elem] else []
    ensures Pops(log + [e]) == Pops(log) + if e.Pop? then [e.elem] else []
  {
    assert (log + [e])[..|log|] == log;
  }

  lemma EventsAppend(log: seq<Event>, e: Event, t: nat)
    ensures EventsOf(log + [e], t) == EventsOf(log, t) + if e.caller == t then [e] else []
  {
    assert (log + [e])[..|log|] == log;
  }

  lemma ReplayPush(log: seq<Event>, t: nat, x: Pointer, capacity: nat, q: seq<Pointer>)
    requires Replay(log, capacity) == Some(q) && |q| < capacity
    ensures Replay(log + [Push(t, x)], capacity) == Some(q + [x])
  {
    assert (log + [Push(t, x)])[..|log|] == log;
  }

  lemma ReplayPop(log: seq<Event>, t: nat, capacity: nat, q: seq<Pointer>)
    requires Replay(log, capacity) == Some(q) && q != []
    ensures Replay(log + [Pop(t, q[0])], capacity) == Some(q[1..])
  {
    assert (log + [Pop(t, q[0])])[..|log|] == log;
  }
}
