/**
 The queue object of GenericQueue/GenericQueue.c, proved against the ring functions of module RingQueue.
 */
module GenericQueue {
  import opened Options
  import opened RingQueue

  class Queue<T> {
    const queueArray: array<Option<T>>
    const size: nat
    var head: nat
    var tail: nat
    var nItems: nat

    ghost predicate Valid()
      reads this, queueArray
    {
      size == queueArray.Length && View().WellFormed()
    }

    ghost function View(): Ring<T>
      reads this, queueArray
    {
      Ring(queueArray[..], head, tail, nItems)
    }

    constructor (size: nat)
      requires 1 < size <= MAX_CELLS
      ensures Valid() && fresh(queueArray) && View() == NewRing(size)
    {
      this.size := size;
      queueArray := new Option<T>[size](_ => None);
      head, tail, nItems := 0, 0, 0;
      new;
      assert queueArray[..] == NewRing<T>(size).cells;
    }

    method Insert(item: T) returns (res: QueueErr)
      requires Valid()
      modifies this, queueArray
      ensures Valid() && (View(), res) == old(View()).Insert(item)
    {
      if nItems == size {
        return QErrOverflow;
      }
      queueArray[tail] := Some(item);
      ModSmall(tail, 1, size);
      tail := (tail + 1) % size;
      nItems := (nItems + 1) % SIZE_T_RANGE;
      return QErrOk;
    }

    method Remove() returns (item: Option<T>)
      requires Valid()
      modifies `head, `nItems
      ensures Valid() && (View(), item) == old(View()).Remove()
    {
      item := queueArray[head];
      ModSmall(head, 1, size);
      head := (head + 1) % size;
      nItems := (nItems - 1) % SIZE_T_RANGE;
    }

    method IsEmpty() returns (empty: bool)
      requires Valid()
      ensures empty == View().IsEmpty()
    {
      return nItems == 0 && head == tail;
    }
  }

  /** QueueCreate refuses a queue of fewer than two cells. */
  method Create<T>(size: nat) returns (q: Queue?<T>)
    requires size <= MAX_CELLS
    ensures q == null <==> size <= 1
    ensures q != null ==> q.Valid() && fresh(q) && fresh(q.queueArray) && q.size == size && q.View().Holds([])
  {
    if size <= 1 {
      return null;
    }
    q := new Queue(size);
  }
}
