/** The deferred-call queue of pal_deferred_freertos.c: one priority's ring of callbacks, as the
    two critical sections update it in place. */
module Deferred {
  import opened Arith

  /** A callback (0 is NULL) and its argument. */
  datatype Slot = Slot(cb: nat, arg: int)

  const EMPTY_SLOT := Slot(0, 0)

  /** The queue as a list, with its two metrics. */
  datatype Queue = Queue(items: seq<Slot>, capacity: nat, highWater: nat, dropped: nat)

  predicate Sound(q: Queue) {
    && 0 < q.capacity && |q.items| <= q.highWater <= q.capacity && q.dropped < U32
    && AllSet(q.items)
  }

  predicate AllSet(items: seq<Slot>) {
    forall i :: 0 <= i < |items| ==> items[i].cb != 0
  }

  /** What a post does under the lock. */
  function Enqueue(q: Queue, slot: Slot): Queue {
    if |q.items| < q.capacity then
      q.(items := q.items + [slot], highWater := if |q.items| + 1 > q.highWater then |q.items| + 1 else q.highWater)
    else
      q.(dropped := (q.dropped + 1) % U32)
  }

  /** What the worker does under the lock, and the callback it takes away (NULL if there is none). */
  function Dequeue(q: Queue): (Slot, Queue) {
    if |q.items| > 0 then (q.items[0], q.(items := q.items[1..])) else (EMPTY_SLOT, q)
  }

  class Ring {
    const slots: array<Slot>
    const capacity: nat
    var head: nat
    var tail: nat
    var count: nat
    var highWater: nat
    var dropped: nat

    predicate Valid()
      reads this, slots
    {
      && slots.Length == capacity && 0 < capacity && tail < capacity && count <= capacity
      && head == EndIndex(tail, count, capacity)
      && count <= highWater <= capacity && dropped < U32
      && AllSet(Wrapped(slots[..], tail, count))
    }

    function View(): (q: Queue)
      reads this, slots
      requires Valid()
      ensures |q.items| == count
    {
      Queue(Wrapped(slots[..], tail, count), capacity, highWater, dropped)
    }

    constructor (capacity: nat)
      requires capacity > 0
      ensures Valid() && fresh(slots) && View() == Queue([], capacity, 0, 0)
    {
      this.capacity := capacity;
      slots := new Slot[capacity](_ => EMPTY_SLOT);
      head := 0;
      tail := 0;
      count := 0;
      highWater := 0;
      dropped := 0;
    }

    /** The poster's critical section; a NULL callback was refused before it. */
    method Post(slot: Slot) returns (posted: bool)
      requires Valid() && slot.cb != 0
      modifies this, slots
      ensures Valid() && View() == Enqueue(old(View()), slot)
      ensures posted == (old(count) < capacity)
    {
      posted := false;
      if count < capacity {
        WrappedPush(slots[..], tail, count, slot);
        EndPush(tail, count, capacity);
        hide Wrapped, NextIndex, EndIndex, At;
        slots[head] := slot;
        head := NextIndex(head, capacity);
        count := count + 1;
        if count > highWater {
          highWater := count;
        }
        posted := true;
        assert slots[..] == old(slots[..])[old(head) := slot];
      } else {
        dropped := (dropped + 1) % U32;
      }
    }

    /** The worker's critical section. */
    method Take() returns (slot: Slot)
      requires Valid()
      modifies this, slots
      ensures Valid() && slot == Dequeue(old(View())).0 && View() == Dequeue(old(View())).1
    {
      slot := EMPTY_SLOT;
      if count > 0 {
        WrappedPop(slots[..], tail, count, EMPTY_SLOT);
        EndPop(tail, count, capacity);
        hide Wrapped, NextIndex, EndIndex;
        slot := slots[tail];
        slots[tail] := EMPTY_SLOT;
        tail := NextIndex(tail, capacity);
        count := count - 1;
        assert slots[..] == old(slots[..])[old(tail) := EMPTY_SLOT];
      }
    }
  }
}
