/** The queue used by one thread at a time: what `pcq_create`, the critical sections of
    `pcq_enqueue` and `pcq_dequeue`, and `pcq_destroy` do to the fields of `pc_queue_t`.  How threads
    are interleaved around these critical sections is the subject of QueueMachine. */
module PcQueue {
  import opened RingModel

  /** The non-NULL pointers of a buffer, in slot order. */
  function NonNull(buffer: seq<Pointer>): seq<Pointer> {
    if buffer == [] then []
    else if buffer[|buffer| - 1] == NULL then NonNull(buffer[..|buffer| - 1])
    else NonNull(buffer[..|buffer| - 1]) + [buffer[|buffer| - 1]]
  }

  /** Lines 95, 96 and 102 of pcq_enqueue in a row. */
  function RingPush(r: Ring, elem: Pointer): Ring
    requires 0 < r.capacity == |r.buffer| && 0 < r.modulus
  {
    r.(buffer := r.buffer[r.tail % r.capacity := elem], tail := (r.tail + 1) % r.modulus, size := r.size + 1)
  }

  /** Lines 147, 148, 149 and 156 of pcq_dequeue in a row. */
  function RingPop(r: Ring): (Ring, Pointer)
    requires 0 < r.capacity == |r.buffer| && 0 < r.modulus && 0 < r.size
  {
    (r.(buffer := r.buffer[r.head % r.capacity := NULL], head := (r.head + 1) % r.modulus, size := r.size - 1),
     r.buffer[r.head % r.capacity])
  }

  /** What goes wrong once a counter wraps and the capacity does not divide the modulus, on the smallest
      example: after 1 2 3 4 went in and 1 2 came out, 5 is stored over 4, and 3 and then 5 come out. */
  lemma WrapLosesAnElement()
    ensures var full := RingPush(RingPush(RingPush(Ring(3, 4, [NULL, NULL, NULL], 0, 0, 0), 1), 2), 3);
            var (r1, a) := RingPop(full);
            var (r2, b) := RingPop(RingPush(r1, 4));
            var (r3, c) := RingPop(RingPush(r2, 5));
            var (r4, d) := RingPop(r3);
            a == 1 && b == 2 && c == 3 && d == 5
  {
    var r0 := Ring(3, 4, [NULL, NULL, NULL], 0, 0, 0);
    var full := RingPush(RingPush(RingPush(r0, 1), 2), 3);
    assert full == Ring(3, 4, [1, 2, 3], 0, 3, 3);
    var (r1, a) := RingPop(full);
    assert r1 == Ring(3, 4, [NULL, 2, 3], 1, 3, 2);
    var (r2, b) := RingPop(RingPush(r1, 4));
    assert r2 == Ring(3, 4, [4, NULL, 3], 2, 0, 2);
    var (r3, c) := RingPop(RingPush(r2, 5));
    assert r3 == Ring(3, 4, [5, NULL, NULL], 3, 1, 2);
  }

  // ---------------------------------------------------------------------------------------------
  // What pcq_destroy frees
  // ---------------------------------------------------------------------------------------------

  lemma {:induction false} NonNullAll(elems: seq<Pointer>)
    requires NULL !in elems
    ensures NonNull(elems) == elems
  {
    if elems != [] {
      var n := |elems| - 1;
      assert elems[n] in elems;
      NonNullAll(elems[..n]);
      assert elems == elems[..n] + [elems[n]];
    }
  }

  lemma NoNonNull(buffer: seq<Pointer>)
    requires forall i :: 0 <= i < |buffer| ==> buffer[i] == NULL
    ensures NonNull(buffer) == []
  {
  }

  /** A pointer, unless it is NULL. */
  function Single(x: Pointer): multiset<Pointer> {
    if x == NULL then multiset{} else multiset{x}
  }

  lemma NonNullLast(buffer: seq<Pointer>, n: nat)
    requires |buffer| == n + 1
    ensures multiset(NonNull(buffer)) == multiset(NonNull(buffer[..n])) + Single(buffer[n])
  {
  }

  lemma {:induction false} NonNullErase(buffer: seq<Pointer>, i: nat)
    requires i < |buffer|
    ensures multiset(NonNull(buffer)) == multiset(NonNull(buffer[i := NULL])) + Single(buffer[i])
  {
    var n, buffer' := |buffer| - 1, buffer[i := NULL];
    NonNullLast(buffer, n);
    NonNullLast(buffer', n);
    if i == n {
      assert buffer'[..n] == buffer[..n];
    } else {
      assert buffer'[..n] == buffer[..n][i := NULL];
      NonNullErase(buffer[..n], i);
    }
  }

  lemma {:induction false} NonNullFirst(x: Pointer, rest: seq<Pointer>)
    ensures multiset(NonNull([x] + rest)) == Single(x) + multiset(NonNull(rest))
  {
    var all := [x] + rest;
    NonNullLast(all, |rest|);
    if rest == [] {
      assert all[..0] == [];
    } else {
      var n := |rest| - 1;
      assert all[..n + 1] == [x] + rest[..n] && all[n + 1] == rest[n];
      NonNullFirst(x, rest[..n]);
      NonNullLast(rest, n);
    }
  }

  /** Erasing the oldest element takes it out of the buffer and of the waiting elements alike. */
  lemma OldestErased(buffer: seq<Pointer>, capacity: nat, modulus: nat, pushed: seq<Pointer>, popped: nat)
    returns (rest: seq<Pointer>)
    requires Slots(buffer, capacity, modulus, pushed, popped) && popped < |pushed|
    ensures Slots(rest, capacity, modulus, pushed, popped + 1)
    ensures multiset(NonNull(buffer)) == multiset(NonNull(rest)) + Single(pushed[popped])
    ensures multiset(NonNull(pushed[popped..])) == Single(pushed[popped]) + multiset(NonNull(pushed[popped + 1..]))
  {
    EraseKeepsSlots(buffer, capacity, modulus, pushed, popped);
    var at := Cell(popped, capacity, modulus);
    rest := buffer[at := NULL];
    NonNullErase(buffer, at);
    assert pushed[popped..] == [pushed[popped]] + pushed[popped + 1..];
    NonNullFirst(pushed[popped], pushed[popped + 1..]);
  }

  /** The live slots hold the waiting elements, each once, and all others are NULL. */
  lemma {:induction false} NonNullAreTheContents(
    buffer: seq<Pointer>, capacity: nat, modulus: nat, pushed: seq<Pointer>, popped: nat)
    requires Slots(buffer, capacity, modulus, pushed, popped)
    ensures multiset(NonNull(buffer)) == multiset(NonNull(pushed[popped..]))
    decreases |pushed| - popped
  {
    if popped == |pushed| {
      forall i | 0 <= i < capacity ensures buffer[i] == NULL {
        assert Unused(i, capacity, modulus, popped, |pushed|);
      }
      NoNonNull(buffer);
    } else {
      var rest := OldestErased(buffer, capacity, modulus, pushed, popped);
      NonNullAreTheContents(rest, capacity, modulus, pushed, popped + 1);
    }
  }

  // ---------------------------------------------------------------------------------------------
  // The queue
  // ---------------------------------------------------------------------------------------------

  /** An enqueue of a queue at rest that is not full leaves it in order exactly when the element lands in
      a free slot. */
  lemma PushExact(r: Ring, pushed: seq<Pointer>, popped: nat, elem: Pointer)
    requires RingOk(r, pushed, popped) && r.size < r.capacity
    ensures RingOk(RingPush(r, elem), pushed + [elem], popped)
            <==> Lands(r.capacity, r.modulus, popped, |pushed|)
  {
    StoreExact(r.buffer, r.capacity, r.modulus, pushed, popped, elem);
    ModSuccessor(|pushed|, r.modulus);
  }

  /** A dequeue of a queue at rest that is not empty returns and removes the oldest element. */
  lemma PopKeeps(r: Ring, pushed: seq<Pointer>, popped: nat)
    requires RingOk(r, pushed, popped) && r.size > 0
    ensures RingOk(RingPop(r).0, pushed, popped + 1) && RingPop(r).1 == pushed[popped]
  {
    EraseKeepsSlots(r.buffer, r.capacity, r.modulus, pushed, popped);
    ModSuccessor(popped, r.modulus);
  }

  // The fields of `pc_queue_t`, used by one thread at a time.  Elements may be NULL here.
  class Queue {
    const capacity: nat
    const modulus: nat
    const buffer: array<Pointer>
    var head: nat
    var tail: nat
    var size: nat
    // the history of the queue: every pointer ever enqueued, and how many were dequeued
    ghost var pushed: seq<Pointer>
    ghost var popped: nat

    ghost function View(): Ring
      reads this, buffer
    {
      Ring(capacity, modulus, buffer[..], head, tail, size)
    }

    ghost predicate Valid()
      reads this, buffer
    {
      RingOk(View(), pushed, popped)
    }

    /** The elements waiting in the queue, oldest first. */
    ghost function Contents(): seq<Pointer>
      reads this, buffer
      requires Valid()
    {
      pushed[popped..]
    }

    // pcq_create: calloc leaves every slot NULL
    constructor (capacity: nat, modulus: nat)
      requires capacity < modulus
      ensures Valid() && fresh(buffer)
      ensures this.capacity == capacity && this.modulus == modulus
      ensures pushed == [] && Contents() == []
    {
      this.capacity, this.modulus := capacity, modulus;
      buffer := new Pointer[capacity](_ => NULL);
      head, tail, size := 0, 0, 0;
      pushed, popped := [], 0;
      new;
      ModUnique(0, 0, 0, modulus);
    }

    // lines 93-102 of pcq_enqueue, once the wait for a free slot is over
    method Enqueue(elem: Pointer)
      requires Valid()
      requires size < capacity
      modifies this, buffer
      ensures View() == RingPush(old(View()), elem)
      ensures pushed == old(pushed) + [elem] && popped == old(popped)
      ensures Valid() <==> Lands(capacity, modulus, popped, |old(pushed)|)
      ensures Valid() ==> Contents() == old(Contents()) + [elem]
    {
      PushExact(View(), pushed, popped, elem);
      buffer[tail % capacity] := elem;
      tail := (tail + 1) % modulus;
      size := size + 1;
      pushed := pushed + [elem];
    }

    // lines 145-156 of pcq_dequeue, once the wait for an element is over
    method Dequeue() returns (first: Pointer)
      requires Valid()
      requires size > 0
      modifies this, buffer
      ensures Valid()
      ensures pushed == old(pushed) && popped == old(popped) + 1
      ensures old(Contents()) == [first] + Contents()
      ensures (View(), first) == RingPop(old(View()))
    {
      PopKeeps(View(), pushed, popped);
      first := buffer[head % capacity];
      buffer[head % capacity] := NULL;
      head := (head + 1) % modulus;
      size := size - 1;
      popped := popped + 1;
    }

    // pcq_destroy: `freed` lists the arguments of the calls to free, leaving out free(NULL)
    method Destroy() returns (freed: seq<Pointer>)
      requires Valid()
      ensures multiset(freed) == multiset(NonNull(Contents()))
    {
      freed := [];
      var i := 0;
      while i < capacity
        invariant 0 <= i <= capacity
        invariant freed == NonNull(buffer[..i])
      {
        assert buffer[..i + 1][..i] == buffer[..i];
        if buffer[i] != NULL {
          freed := freed + [buffer[i]];
        }
        i := i + 1;
      }
      assert buffer[..i] == buffer[..];
      NonNullAreTheContents(buffer[..], capacity, modulus, pushed, popped);
    }
  }
}
