/** The ring arithmetic of the bounded queue (producer-consumer/producer-consumer.c).
    `pcq_head` and `pcq_tail` are `size_t` counters that only ever grow, so they wrap at `modulus`;
    the slot of a counter is its remainder by the capacity.  Logical element k is the k-th element
    ever enqueued, counted without wrapping. */
module RingModel {

  /** A `void *`; zero is the NULL pointer. */
  type Pointer = nat
  const NULL: Pointer := 0

  /** The data fields of `pc_queue_t`. */
  datatype Ring = Ring(
    capacity: nat,
    modulus: nat,
    buffer: seq<Pointer>,
    head: nat,
    tail: nat,
    size: nat)

  /** The slot of counter value k. */
  function Slot(k: nat, capacity: nat): nat
    requires capacity > 0
  {
    k % capacity
  }

  /** The slot of logical index k, through a counter that wraps. */
  function Cell(k: nat, capacity: nat, modulus: nat): nat
    requires capacity > 0 && modulus > 0
  {
    Slot(k % modulus, capacity)
  }

  /** Slot i belongs to none of the logical indices from..to. */
  ghost predicate Unused(i: int, capacity: nat, modulus: nat, from: nat, to: nat)
    requires capacity > 0 && modulus > 0
  {
    forall k: nat {:trigger Cell(k, capacity, modulus)} :: from <= k < to ==> Cell(k, capacity, modulus) != i
  }

  /** The slot the next element is stored in belongs to no waiting element. */
  ghost predicate Lands(capacity: nat, modulus: nat, popped: nat, pushed: nat) {
    capacity > 0 && modulus > 0 && Unused(Cell(pushed, capacity, modulus), capacity, modulus, popped, pushed)
  }

  /** The buffer holds exactly the elements `pushed[popped..]`: each in the slot its counter selects, no
      two in the same slot, and every other slot is NULL. */
  ghost predicate Slots(buffer: seq<Pointer>, capacity: nat, modulus: nat, pushed: seq<Pointer>, popped: nat) {
    && |buffer| == capacity < modulus
    && popped <= |pushed| <= popped + capacity
    && (capacity > 0 ==>
          && (forall k: nat {:trigger Cell(k, capacity, modulus)} :: popped <= k < |pushed| ==>
                buffer[Cell(k, capacity, modulus)] == pushed[k])
          && (forall k: nat {:trigger Cell(k, capacity, modulus)} :: popped <= k < |pushed| ==>
                Unused(Cell(k, capacity, modulus), capacity, modulus, popped, k))
          && (forall i {:trigger buffer[i]} :: 0 <= i < capacity && Unused(i, capacity, modulus, popped, |pushed|) ==>
                buffer[i] == NULL))
  }

  /** The counters agree with the history: nothing is in flight. */
  ghost predicate Counters(r: Ring, pushed: nat, popped: nat) {
    && r.capacity < r.modulus
    && r.head == popped % r.modulus
    && r.tail == pushed % r.modulus
    && r.size == pushed - popped
    && popped <= pushed <= popped + r.capacity
  }

  /** The state of a queue whose history of enqueued pointers is `pushed`, the first `popped` of
      them already dequeued, while nobody is inside an operation. */
  ghost predicate RingOk(r: Ring, pushed: seq<Pointer>, popped: nat) {
    Counters(r, |pushed|, popped) && Slots(r.buffer, r.capacity, r.modulus, pushed, popped)
  }

  /** A capacity that divides the modulus, or at most `modulus` elements enqueued: then no element can
      have been stored over a waiting one. */
  predicate Fits(capacity: nat, modulus: nat, pushed: nat) {
    capacity == 0 || (modulus > 0 && modulus % capacity == 0) || pushed <= modulus
  }

  // ---------------------------------------------------------------------------------------------
  // Arithmetic
  // ---------------------------------------------------------------------------------------------

  /** A multiple of m is either zero or at least m away from it. */
  lemma Multiple(d: int, m: nat)
    requires m > 0
    ensures d * m == 0 || d * m >= m || d * m <= -(m as int)
  {
    if d >= 1 {
      assert d * m >= m;
    } else if d <= -1 {
      assert d * m <= -(m as int);
    }
  }

  lemma ModUnique(a: int, q: int, r: int, m: nat)
    requires m > 0 && 0 <= r < m && a == q * m + r
    ensures a % m == r
  {
    assert a == (a / m) * m + a % m;
    assert (a / m - q) * m == (a / m) * m - q * m;
    Multiple(a / m - q, m);
  }

  /** Two different logical indices less than one capacity apart never share a slot. */
  lemma SlotsDiffer(a: nat, b: nat, m: nat)
    requires m > 0 && a < b < a + m
    ensures a % m != b % m
  {
    assert a == (a / m) * m + a % m;
    assert b == (b / m) * m + b % m;
    assert (b / m - a / m) * m == (b / m) * m - (a / m) * m;
    Multiple(b / m - a / m, m);
  }

  lemma ModSuccessor(a: nat, m: nat)
    requires m > 0
    ensures (a % m + 1) % m == (a + 1) % m
  {
    var q, r := a / m, a % m;
    assert a == q * m + r;
    if r + 1 < m {
      ModUnique(a + 1, q, r + 1, m);
      ModUnique(r + 1, 0, r + 1, m);
    } else {
      assert a + 1 == (q + 1) * m + 0;
      ModUnique(a + 1, q + 1, 0, m);
      ModUnique(r + 1, 1, 0, m);
    }
  }

  /** The wrapped counter selects the slot of the logical index. */
  lemma WrappedSlot(k: nat, capacity: nat, modulus: nat)
    requires 0 < capacity < modulus
    requires modulus % capacity == 0 || k < modulus
    ensures (k % modulus) % capacity == k % capacity
  {
    if k < modulus {
      ModUnique(k, 0, k, modulus);
    } else {
      var q, r := k / modulus, k % modulus;
      var d := modulus / capacity;
      assert modulus == d * capacity;
      assert k == q * modulus + r;
      assert r == (r / capacity) * capacity + r % capacity;
      assert q * modulus == (q * d) * capacity by {
        assert q * (d * capacity) == (q * d) * capacity;
      }
      assert k == (q * d + r / capacity) * capacity + r % capacity by {
        assert (q * d + r / capacity) * capacity == (q * d) * capacity + (r / capacity) * capacity;
      }
      ModUnique(k, q * d + r / capacity, r % capacity, capacity);
    }
  }

  /** Exactly the capacities that divide the modulus keep every counter value on its slot. */
  lemma WrapExact(capacity: nat, modulus: nat)
    requires 0 < capacity < modulus
    ensures (forall k: nat {:trigger Slot(k, modulus)} ::
               Slot(Slot(k, modulus), capacity) == Slot(k, capacity))
            <==> modulus % capacity == 0
  {
    if modulus % capacity == 0 {
      forall k: nat {:trigger Slot(k, modulus)}
        ensures Slot(Slot(k, modulus), capacity) == Slot(k, capacity)
      {
        WrappedSlot(k, capacity, modulus);
      }
    } else {
      ModUnique(modulus, 1, 0, modulus);
      ModUnique(0, 0, 0, capacity);
      assert Slot(Slot(modulus, modulus), capacity) != Slot(modulus, capacity);
    }
  }

  /** Where the counter fits, the next element lands in a free slot. */
  lemma FitsLands(capacity: nat, modulus: nat, popped: nat, pushed: nat)
    requires 0 < capacity < modulus && popped <= pushed < popped + capacity
    requires Fits(capacity, modulus, pushed + 1)
    ensures Lands(capacity, modulus, popped, pushed)
  {
    WrappedSlot(pushed, capacity, modulus);
    forall k: nat {:trigger Cell(k, capacity, modulus)} | popped <= k < pushed
      ensures Cell(k, capacity, modulus) != Cell(pushed, capacity, modulus)
    {
      WrappedSlot(k, capacity, modulus);
      SlotsDiffer(k, pushed, capacity);
    }
  }

  /** When the counter wraps while all slots but one are in use, the next element lands in the free one
      exactly when the capacity divides the modulus. */
  lemma WrapLands(capacity: nat, modulus: nat)
    requires 0 < capacity < modulus
    ensures Lands(capacity, modulus, modulus + 1 - capacity, modulus) <==> modulus % capacity == 0
  {
    if modulus % capacity == 0 {
      FitsLands(capacity, modulus, modulus + 1 - capacity, modulus);
    } else {
      var k: int := modulus - modulus % capacity;
      assert modulus == (modulus / capacity) * capacity + modulus % capacity;
      ModUnique(k, modulus / capacity, 0, capacity);
      ModUnique(k, 0, k, modulus);
      ModUnique(modulus, 1, 0, modulus);
      ModUnique(0, 0, 0, capacity);
      assert Cell(k, capacity, modulus) == Cell(modulus, capacity, modulus);
    }
  }

  lemma SameQuotient(a: nat, b: nat, m: nat)
    requires m > 0 && a <= b < a + m && a % m <= b % m
    ensures a == (a / m) * m + a % m && b == (a / m) * m + b % m
  {
    assert a == (a / m) * m + a % m;
    assert b == (b / m) * m + b % m;
    assert (b / m - a / m) * m == (b / m) * m - (a / m) * m;
    Multiple(b / m - a / m, m);
  }

  /** And so it does whatever the capacity, unless the tail has wrapped and the head has not. */
  lemma HeadBeforeTailLands(capacity: nat, modulus: nat, popped: nat, pushed: nat)
    requires 0 < capacity < modulus && popped <= pushed < popped + capacity
    requires popped % modulus <= pushed % modulus
    ensures Lands(capacity, modulus, popped, pushed)
  {
    var q := popped / modulus;
    SameQuotient(popped, pushed, modulus);
    forall k: nat {:trigger Cell(k, capacity, modulus)} | popped <= k < pushed
      ensures Cell(k, capacity, modulus) != Cell(pushed, capacity, modulus)
    {
      ModUnique(k, q, k - q * modulus, modulus);
      SlotsDiffer(k % modulus, pushed % modulus, capacity);
    }
  }

  // ---------------------------------------------------------------------------------------------
  // The two writes to the buffer
  // ---------------------------------------------------------------------------------------------

  lemma StoreKeepsSlots(
    buffer: seq<Pointer>, capacity: nat, modulus: nat, pushed: seq<Pointer>, popped: nat, elem: Pointer)
    requires Slots(buffer, capacity, modulus, pushed, popped) && |pushed| < popped + capacity
    requires Lands(capacity, modulus, popped, |pushed|)
    ensures buffer[Cell(|pushed|, capacity, modulus)] == NULL
    ensures Slots(buffer[Cell(|pushed|, capacity, modulus) := elem], capacity, modulus, pushed + [elem], popped)
  {
    var at := Cell(|pushed|, capacity, modulus);
    var buffer', pushed' := buffer[at := elem], pushed + [elem];
    forall k: nat {:trigger Cell(k, capacity, modulus)} | popped <= k < |pushed'|
      ensures buffer'[Cell(k, capacity, modulus)] == pushed'[k]
      ensures Unused(Cell(k, capacity, modulus), capacity, modulus, popped, k)
    {
      if k < |pushed| {
        assert Cell(k, capacity, modulus) != at;
      }
    }
    forall i | 0 <= i < capacity && Unused(i, capacity, modulus, popped, |pushed'|) ensures buffer'[i] == NULL {
      assert Unused(i, capacity, modulus, popped, |pushed|);
      assert i != at;
    }
  }

  /** The store appends exactly one element to the live window if and only if it lands in a free slot. */
  lemma StoreExact(
    buffer: seq<Pointer>, capacity: nat, modulus: nat, pushed: seq<Pointer>, popped: nat, elem: Pointer)
    requires Slots(buffer, capacity, modulus, pushed, popped) && |pushed| < popped + capacity
    ensures Slots(buffer[Cell(|pushed|, capacity, modulus) := elem], capacity, modulus, pushed + [elem], popped)
            <==> Lands(capacity, modulus, popped, |pushed|)
  {
    if Lands(capacity, modulus, popped, |pushed|) {
      StoreKeepsSlots(buffer, capacity, modulus, pushed, popped, elem);
    }
  }

  /** Erasing the slot of the first live index drops it from the window. */
  lemma EraseKeepsSlots(
    buffer: seq<Pointer>, capacity: nat, modulus: nat, pushed: seq<Pointer>, popped: nat)
    requires Slots(buffer, capacity, modulus, pushed, popped) && popped < |pushed|
    ensures capacity > 0 && buffer[Cell(popped, capacity, modulus)] == pushed[popped]
    ensures Slots(buffer[Cell(popped, capacity, modulus) := NULL], capacity, modulus, pushed, popped + 1)
  {
    var at := Cell(popped, capacity, modulus);
    var buffer' := buffer[at := NULL];
    forall k: nat {:trigger Cell(k, capacity, modulus)} | popped + 1 <= k < |pushed|
      ensures buffer'[Cell(k, capacity, modulus)] == pushed[k]
      ensures Unused(Cell(k, capacity, modulus), capacity, modulus, popped + 1, k)
    {
      assert Unused(Cell(k, capacity, modulus), capacity, modulus, popped, k);
      assert Cell(k, capacity, modulus) != at;
    }
    forall i | 0 <= i < capacity && Unused(i, capacity, modulus, popped + 1, |pushed|) ensures buffer'[i] == NULL {
      if i != at {
        assert Unused(i, capacity, modulus, popped, |pushed|);
      }
    }
  }
}
