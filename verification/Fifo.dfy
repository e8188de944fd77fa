/** The message queue between the threads of the control plane: a ring of fixed size. */
module Fifo {

  const QUEUE_SIZE: nat := 1024

  /** What adding and removing mean for the queued elements: a full queue drops the new element. */
  function Added<T>(q: seq<T>, x: T): seq<T> {
    if |q| < QUEUE_SIZE then q + [x] else q
  }

  function Removed<T>(q: seq<T>): seq<T> {
    if q == [] then [] else q[1..]
  }

  /** The ring slot of the `i`-th queued element. */
  function Slot(head: nat, i: nat): (s: nat)
    ensures s < QUEUE_SIZE
  {
    (head + i) % QUEUE_SIZE
  }

  class Queue<T(0)> {
    const ring: array<T>
    var head: nat
    var size: nat
    var tail: int

    ghost predicate Valid()
      reads this
    {
      && ring.Length == QUEUE_SIZE && head < QUEUE_SIZE && size <= QUEUE_SIZE
      && -1 <= tail < QUEUE_SIZE && (tail + 1) % QUEUE_SIZE == Slot(head, size)
    }

    /** The queued elements, oldest first. */
    ghost function Contents(): (q: seq<T>)
      requires Valid()
      reads this, ring
      ensures |q| == size
    {
      seq(size, i requires 0 <= i < size reads this, ring requires Valid() => ring[Slot(head, i)])
    }

    constructor ()
      ensures Valid() && Contents() == [] && fresh(ring)
    {
      ring := new T[QUEUE_SIZE];
      head, size, tail := 0, 0, -1;
    }

    /** Puts an element at the end, unless the queue is full. The caller is not told which. */
    method AddMsg(element: T)
      requires Valid()
      modifies this, ring
      ensures Valid() && Contents() == Added(old(Contents()), element)
    {
      if size < QUEUE_SIZE {
        tail := (tail + 1) % QUEUE_SIZE;
        size := size + 1;
        ring[tail] := element;
        forall i: nat | i < old(size) ensures Slot(head, i) != Slot(head, old(size)) {
          SlotsDiffer(head, i, old(size));
        }
      }
    }

    /** Takes the oldest element; none if the queue is empty. */
    method RemoveMsg() returns (taken: bool, result: T)
      requires Valid()
      modifies this
      ensures Valid() && taken == (old(Contents()) != []) && Contents() == Removed(old(Contents()))
      ensures taken ==> result == old(Contents())[0]
    {
      hide Slot;
      taken := false;
      result := ring[head];
      HeadSlot(head);
      if size > 0 {
        taken := true;
        var next := (head + 1) % QUEUE_SIZE;
        forall i: nat ensures Slot(next, i) == Slot(head, i + 1) {
          SlotShift(head, i);
        }
        head := next;
        size := size - 1;
      }
    }
  }

  /** Queued elements have different slots, and the slot after them is free unless the queue is full. */
  lemma {:induction false} SlotsDiffer(head: nat, i: nat, j: nat)
    requires i < j < QUEUE_SIZE
    ensures Slot(head, i) != Slot(head, j)
  {
    assert (head + j) - (head + i) < QUEUE_SIZE;
  }

  lemma {:induction false} SlotShift(head: nat, i: nat)
    ensures Slot((head + 1) % QUEUE_SIZE, i) == Slot(head, i + 1)
  {
  }

  lemma {:induction false} HeadSlot(head: nat)
    requires head < QUEUE_SIZE
    ensures Slot(head, 0) == head
  {
  }
}
