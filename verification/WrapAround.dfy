/** First in, first out, when the counters of the queue wrap around: order is lost exactly by an enqueue
    that stores over a waiting element.  No capacity that divides the modulus ever sees one; any other
    does. */
module WrapAround {
  import opened RingModel
  import opened PcQueue

  /** The queue after n dequeues. */
  function PopN(r: Ring, n: nat): (r': Ring)
    requires 0 < r.capacity == |r.buffer| && 0 < r.modulus && n <= r.size
    ensures r'.capacity == r.capacity == |r'.buffer| && r'.modulus == r.modulus && r'.size == r.size - n
    decreases n
  {
    if n == 0 then r else PopN(RingPop(r).0, n - 1)
  }

  /** Dequeuing everything returns `elems`, in that order. */
  ghost predicate InOrder(r: Ring, elems: seq<Pointer>)
    requires 0 < r.capacity == |r.buffer| && 0 < r.modulus
  {
    && |elems| == r.size
    && forall n: nat {:trigger PopN(r, n)} :: n < r.size ==> RingPop(PopN(r, n)).1 == elems[n]
  }

  lemma {:induction false} PopNKeeps(r: Ring, pushed: seq<Pointer>, popped: nat, n: nat)
    requires RingOk(r, pushed, popped) && r.capacity > 0 && n <= r.size
    ensures RingOk(PopN(r, n), pushed, popped + n)
    decreases n
  {
    if n > 0 {
      PopKeeps(r, pushed, popped);
      PopNKeeps(RingPop(r).0, pushed, popped + 1, n - 1);
    }
  }

  /** A queue at rest returns its waiting elements in order. */
  lemma AtRestInOrder(r: Ring, pushed: seq<Pointer>, popped: nat)
    requires RingOk(r, pushed, popped) && r.capacity > 0
    ensures InOrder(r, pushed[popped..])
  {
    forall n: nat {:trigger PopN(r, n)} | n < r.size ensures RingPop(PopN(r, n)).1 == pushed[popped..][n] {
      PopNKeeps(r, pushed, popped, n);
      PopKeeps(PopN(r, n), pushed, popped + n);
    }
  }

  /** Dequeues leave a slot alone that they do not pass. */
  lemma {:induction false} PopNAt(r: Ring, popped: nat, n: nat, at: nat)
    requires 0 < r.capacity == |r.buffer| && 0 < r.modulus && n <= r.size && at < r.capacity
    requires r.head == popped % r.modulus && Unused(at, r.capacity, r.modulus, popped, popped + n)
    ensures PopN(r, n).head == (popped + n) % r.modulus && PopN(r, n).buffer[at] == r.buffer[at]
    decreases n
  {
    if n > 0 {
      ModSuccessor(popped, r.modulus);
      assert Cell(popped, r.capacity, r.modulus) != at;
      assert Unused(at, r.capacity, r.modulus, popped + 1, popped + 1 + (n - 1));
      PopNAt(RingPop(r).0, popped + 1, n - 1, at);
    }
  }

  /** An element stored over a waiting one comes out some dequeues later, instead of that one. */
  lemma StoredOver(r: Ring, pushed: seq<Pointer>, popped: nat, elem: Pointer) returns (n: nat)
    requires RingOk(r, pushed, popped) && r.size < r.capacity
    requires !Lands(r.capacity, r.modulus, popped, |pushed|)
    ensures n < r.size && RingPop(PopN(RingPush(r, elem), n)).1 == elem
  {
    var k: nat :| popped <= k < |pushed| &&
      Cell(k, r.capacity, r.modulus) == Cell(|pushed|, r.capacity, r.modulus);
    n := k - popped;
    PopNAt(RingPush(r, elem), popped, n, Cell(k, r.capacity, r.modulus));
  }

  /** An enqueue keeps the order of what comes out exactly when the element lands in a free slot, that
      is, exactly when the queue is still a queue at rest. */
  lemma FifoExact(r: Ring, pushed: seq<Pointer>, popped: nat, elem: Pointer)
    requires RingOk(r, pushed, popped) && r.size < r.capacity && elem !in pushed[popped..]
    ensures InOrder(RingPush(r, elem), pushed[popped..] + [elem])
            <==> Lands(r.capacity, r.modulus, popped, |pushed|)
    ensures InOrder(RingPush(r, elem), pushed[popped..] + [elem])
            <==> RingOk(RingPush(r, elem), pushed + [elem], popped)
  {
    PushExact(r, pushed, popped, elem);
    if Lands(r.capacity, r.modulus, popped, |pushed|) {
      AtRestInOrder(RingPush(r, elem), pushed + [elem], popped);
      assert (pushed + [elem])[popped..] == pushed[popped..] + [elem];
    } else {
      var n := StoredOver(r, pushed, popped, elem);
      assert (pushed[popped..] + [elem])[n] in pushed[popped..];
    }
  }

  /** Where no element is NULL, a caller can see from the buffer whether the next one lands. */
  lemma LandsIfNull(r: Ring, pushed: seq<Pointer>, popped: nat)
    requires RingOk(r, pushed, popped) && r.size < r.capacity && NULL !in pushed[popped..]
    ensures Lands(r.capacity, r.modulus, popped, |pushed|) <==> r.buffer[r.tail % r.capacity] == NULL
  {
    if !Lands(r.capacity, r.modulus, popped, |pushed|) {
      var k: nat :| popped <= k < |pushed| &&
        Cell(k, r.capacity, r.modulus) == Cell(|pushed|, r.capacity, r.modulus);
      assert pushed[popped..][k - popped] == pushed[k];
    }
  }

  /** Enqueues all of `elems` into a new queue, dequeuing whenever the queue would become full. */
  function Drive(capacity: nat, modulus: nat, elems: seq<Pointer>): (r: Ring)
    requires 1 < capacity < modulus
    ensures r.capacity == capacity == |r.buffer| && r.modulus == modulus
    ensures r.size == if |elems| < capacity then |elems| else capacity - 1
  {
    if elems == [] then Ring(capacity, modulus, seq(capacity, _ => NULL), 0, 0, 0)
    else
      var r := RingPush(Drive(capacity, modulus, elems[..|elems| - 1]), elems[|elems| - 1]);
      if r.size < capacity then r else RingPop(r).0
  }

  lemma {:induction false} DriveOk(capacity: nat, modulus: nat, elems: seq<Pointer>)
    requires 1 < capacity < modulus && |elems| <= modulus
    ensures RingOk(Drive(capacity, modulus, elems), elems, if |elems| < capacity then 0 else |elems| + 1 - capacity)
  {
    if elems == [] {
      ModUnique(0, 0, 0, modulus);
    } else {
      var n := |elems| - 1;
      var r, popped := Drive(capacity, modulus, elems[..n]), if n < capacity then 0 else n + 1 - capacity;
      DriveOk(capacity, modulus, elems[..n]);
      FitsLands(capacity, modulus, popped, n);
      PushExact(r, elems[..n], popped, elems[n]);
      assert elems[..n] + [elems[n]] == elems;
      if RingPush(r, elems[n]).size == capacity {
        PopKeeps(RingPush(r, elems[n]), elems, popped);
      }
    }
  }

  /** Every capacity that does not divide the modulus loses the order of a queue that was used from
      `pcq_create` on, whatever was enqueued: `elem` comes out instead of an older element. */
  lemma EveryWrapLosesAnElement(capacity: nat, modulus: nat, elems: seq<Pointer>, elem: Pointer)
    returns (n: nat)
    requires 0 < capacity < modulus && modulus % capacity != 0
    requires |elems| == modulus && elem !in elems
    ensures 1 < capacity && n < capacity - 1
    ensures var r := RingPush(Drive(capacity, modulus, elems), elem);
            && n < r.size
            && RingPop(PopN(r, n)).1 == elem != elems[modulus + 1 - capacity + n]
  {
    assert capacity != 1;
    DriveOk(capacity, modulus, elems);
    WrapLands(capacity, modulus);
    n := StoredOver(Drive(capacity, modulus, elems), elems, modulus + 1 - capacity, elem);
    assert elems[modulus + 1 - capacity + n] in elems;
  }
}
