/**
 What the ring buffer of GenericQueue/GenericQueue.c computes, as functions on a value, and the proof that it is a
 bounded first-in first-out queue as long as nothing is removed from it when it is empty.

 The item counter is a 64-bit size_t and wraps around; a cell that was never written holds NULL.
 */
module RingQueue {
  import opened Options

  const SIZE_T_RANGE: nat := 0x1_0000_0000_0000_0000
  // The most pointers that fit in memory.
  const MAX_CELLS: nat := 0x2000_0000_0000_0000

  datatype QueueErr = QErrOk | QErrOverflow

  datatype Ring<T> = Ring(cells: seq<Option<T>>, head: nat, tail: nat, nItems: nat) {
    ghost predicate WellFormed() {
      && 1 < |cells| <= MAX_CELLS
      && head < |cells| && tail < |cells| && nItems < SIZE_T_RANGE
    }

    function Insert(item: T): (Ring<T>, QueueErr)
      requires tail < |cells|
    {
      if nItems == |cells| then (this, QErrOverflow)
      else
        (Ring(cells[tail := Some(item)], head, Slot(tail, 1, |cells|), (nItems + 1) % SIZE_T_RANGE), QErrOk)
    }

    /** Removing never fails: the code asks whether there is room at all, not whether there is an item. */
    function Remove(): (Ring<T>, Option<T>)
      requires head < |cells|
    {
      (Ring(cells, Slot(head, 1, |cells|), tail, (nItems - 1) % SIZE_T_RANGE), cells[head])
    }

    predicate IsEmpty() {
      nItems == 0 && head == tail
    }

    /** balance is the number of insertions less the number of removals. */
    ghost predicate Balanced(balance: int) {
      && WellFormed()
      && nItems == balance % SIZE_T_RANGE
      && tail == (head + balance) % |cells|
    }

    /** The ring holds exactly the items s, oldest first. */
    ghost predicate Holds(s: seq<T>) {
      && WellFormed() && nItems == |s| <= |cells|
      && tail == Slot(head, |s|, |cells|) && Contains(cells, head, s)
    }
  }

  /** The cell k places after i in a ring of n cells: the code computes (i + k) % n (ModSmall below). */
  function Slot(i: nat, k: nat, n: nat): (j: nat)
    requires i < n && k <= n
    ensures j < n
  {
    if i + k < n then i + k else i + k - n
  }

  ghost predicate Contains<T>(cells: seq<Option<T>>, head: nat, s: seq<T>)
    requires head < |cells| && |s| <= |cells|
  {
    forall k :: 0 <= k < |s| ==> cells[Slot(head, k, |cells|)] == Some(s[k])
  }

  function NewRing<T>(size: nat): (q: Ring<T>)
    requires 1 < size <= MAX_CELLS
    ensures q.Holds([]) && |q.cells| == size
  {
    Ring(seq(size, _ => None), 0, 0, 0)
  }

  // ------------------------------------------------------------------------------------------------
  // Indices modulo the size

  lemma ModStep(a: int, n: nat)
    requires n > 0
    ensures (a + 1) % n == if a % n == n - 1 then 0 else a % n + 1
  {
    ModStepBy(n, a / n, a % n);
  }

  lemma ModStepBy(n: nat, q: int, r: nat)
    requires r < n
    ensures (n * q + r + 1) % n == if r == n - 1 then 0 else r + 1
  {
    if r == n - 1 {
      OneMore(n, q);
      ModOf(n, q + 1, 0);
    } else {
      ModOf(n, q, r + 1);
    }
  }

  lemma OneMore(n: nat, q: int)
    ensures n * (q + 1) == n * q + n
  {
  }

  lemma ModOf(n: nat, q: int, r: nat)
    requires r < n
    ensures (n * q + r) % n == r
  {
    var x := n * q + r;
    var d := x / n - q;
    assert x == n * (x / n) + x % n;
    assert n * d == r - x % n;
    if d >= 1 {
      AtLeast(n, d);
    } else if d <= -1 {
      AtLeast(n, -d);
    }
  }

  lemma AtLeast(n: nat, d: int)
    requires d >= 1
    ensures n * d >= n
  {
  }

  lemma ModShift(a: int, n: nat)
    requires n > 0
    ensures (a + n) % n == a % n
  {
    var q := a / n;
    assert a + n == n * q + n + a % n;
    OneMore(n, q);
    ModOf(n, q + 1, a % n);
  }

  /** Moving the head on by one and counting one item less leaves the tail where it is. */
  lemma HeadShift(head: nat, balance: int, n: nat)
    requires head < n
    ensures (Slot(head, 1, n) + (balance - 1)) % n == (head + balance) % n
  {
    if head == n - 1 {
      ModShift(balance - 1, n);
      assert head + balance == balance - 1 + n;
    }
  }

  lemma TailShift(a: int, n: nat)
    requires n > 0
    ensures a % n < n && (a + 1) % n == Slot(a % n, 1, n)
  {
    ModStep(a, n);
  }

  lemma ModSmall(i: nat, k: nat, n: nat)
    requires i < n && k <= n
    ensures (i + k) % n == Slot(i, k, n)
  {
    if i + k < n {
      ModOf(n, 0, i + k);
    } else {
      ModOf(n, 1, i + k - n);
    }
  }

  // ------------------------------------------------------------------------------------------------
  // One operation

  lemma CountUp(balance: int)
    ensures (balance % SIZE_T_RANGE + 1) % SIZE_T_RANGE == (balance + 1) % SIZE_T_RANGE
  {
  }

  lemma CountDown(balance: int)
    ensures (balance % SIZE_T_RANGE - 1) % SIZE_T_RANGE == (balance - 1) % SIZE_T_RANGE
  {
  }

  /** tail = head + insertions - removals, modulo the size, whatever has been done to the queue. */
  lemma InsertKeepsBalance<T>(q: Ring<T>, balance: int, item: T)
    requires q.Balanced(balance)
    ensures var (q', res) := q.Insert(item); q'.Balanced(if res == QErrOk then balance + 1 else balance)
  {
    TailShift(q.head + balance, |q.cells|);
    CountUp(balance);
  }

  lemma RemoveKeepsBalance<T>(q: Ring<T>, balance: int)
    requires q.Balanced(balance)
    ensures q.Remove().0.Balanced(balance - 1)
  {
    HeadShift(q.head, balance, |q.cells|);
    assert (q.nItems - 1) % SIZE_T_RANGE == (balance - 1) % SIZE_T_RANGE by {
      CountDown(balance);
    }
  }

  lemma InsertIsEnqueue<T>(q: Ring<T>, s: seq<T>, item: T)
    requires q.Holds(s)
    ensures var (q', res) := q.Insert(item);
            && (res == QErrOverflow <==> |s| == |q.cells|)
            && q'.Holds(if res == QErrOk then s + [item] else s)
  {
    if |s| < |q.cells| {
      InsertedContains(q.cells, q.head, s, item);
    }
  }

  lemma InsertedContains<T>(cells: seq<Option<T>>, head: nat, s: seq<T>, item: T)
    requires head < |cells| && |s| < |cells| && Contains(cells, head, s)
    ensures Contains(cells[Slot(head, |s|, |cells|) := Some(item)], head, s + [item])
  {
  }

  lemma RemovedContains<T>(cells: seq<Option<T>>, head: nat, s: seq<T>)
    requires head < |cells| && 0 < |s| <= |cells| && Contains(cells, head, s)
    ensures Contains(cells, Slot(head, 1, |cells|), s[1..]) && cells[head] == Some(s[0])
  {
    assert cells[Slot(head, 0, |cells|)] == Some(s[0]);
    forall k | 0 <= k < |s| - 1
      ensures cells[Slot(Slot(head, 1, |cells|), k, |cells|)] == Some(s[1..][k])
    {
      assert cells[Slot(head, k + 1, |cells|)] == Some(s[k + 1]);
    }
  }

  lemma RemoveIsDequeue<T>(q: Ring<T>, s: seq<T>)
    requires q.Holds(s) && s != []
    ensures var (q', item) := q.Remove(); item == Some(s[0]) && q'.Holds(s[1..])
  {
    RemovedContains(q.cells, q.head, s);
  }

  lemma EmptyTestExact<T>(q: Ring<T>, s: seq<T>)
    requires q.Holds(s)
    ensures q.IsEmpty() <==> s == []
  {
  }

  /** A ring that holds items s accounts for |s| more insertions than removals, so its tail is (head + |s|) % size. */
  lemma HoldsIsBalanced<T>(q: Ring<T>, s: seq<T>)
    requires q.Holds(s)
    ensures q.Balanced(|s|)
  {
    ModSmall(q.head, |s|, |q.cells|);
  }

  /**
   Taking an item keeps the ring a queue exactly when there was one. From an empty ring the code hands out a stale
   cell, reports success, wraps the counter to its largest value and no longer finds the ring empty.
   */
  lemma RemoveKeepsQueueIff<T>(q: Ring<T>, s: seq<T>)
    requires q.Holds(s)
    ensures (exists s' :: q.Remove().0.Holds(s')) <==> s != []
    ensures s == [] ==> q.Remove().0.nItems == SIZE_T_RANGE - 1 && !q.Remove().0.IsEmpty()
  {
    if s != [] {
      RemoveIsDequeue(q, s);
      assert q.Remove().0.Holds(s[1..]);
    } else {
      assert q.Remove().0.nItems == SIZE_T_RANGE - 1;
    }
  }

  // ------------------------------------------------------------------------------------------------
  // Whole runs

  datatype Op<T> = Enqueue(item: T) | Dequeue | TestEmpty

  datatype Reply<T> = Stored(res: QueueErr) | Taken(item: Option<T>) | Tested(empty: bool)

  ghost function OnRing<T>(q: Ring<T>, op: Op<T>): (Ring<T>, Reply<T>)
    requires q.head < |q.cells| && q.tail < |q.cells|
  {
    match op
    case Enqueue(item) => var (q', res) := q.Insert(item); (q', Stored(res))
    case Dequeue => var (q', item) := q.Remove(); (q', Taken(item))
    case TestEmpty => (q, Tested(q.IsEmpty()))
  }

  /** The same operation on a queue of at most bound items; only a Dequeue of the empty queue has no meaning. */
  ghost function OnQueue<T>(s: seq<T>, bound: nat, op: Op<T>): (seq<T>, Reply<T>)
    requires op.Dequeue? ==> s != []
  {
    match op
    case Enqueue(item) => if |s| == bound then (s, Stored(QErrOverflow)) else (s + [item], Stored(QErrOk))
    case Dequeue => (s[1..], Taken(Some(s[0])))
    case TestEmpty => (s, Tested(s == []))
  }

  /** No operation of the run removes from an empty queue. */
  ghost predicate NeverStarved<T>(s: seq<T>, bound: nat, ops: seq<Op<T>>)
    decreases |ops|
  {
    ops == [] || ((ops[0].Dequeue? ==> s != []) && NeverStarved(OnQueue(s, bound, ops[0]).0, bound, ops[1..]))
  }

  ghost function QueueRun<T>(s: seq<T>, bound: nat, ops: seq<Op<T>>): (seq<T>, seq<Reply<T>>)
    requires NeverStarved(s, bound, ops)
    decreases |ops|
  {
    if ops == [] then (s, [])
    else
      var (s1, reply) := OnQueue(s, bound, ops[0]);
      var (s2, replies) := QueueRun(s1, bound, ops[1..]);
      (s2, [reply] + replies)
  }

  ghost function RingRun<T>(q: Ring<T>, ops: seq<Op<T>>): (Ring<T>, seq<Reply<T>>)
    requires q.head < |q.cells| && q.tail < |q.cells|
    decreases |ops|
  {
    if ops == [] then (q, [])
    else
      var (q1, reply) := OnRing(q, ops[0]);
      var (q2, replies) := RingRun(q1, ops[1..]);
      (q2, [reply] + replies)
  }

  /** The items the replies say were stored less those taken. */
  ghost function Gain<T>(replies: seq<Reply<T>>): int {
    if replies == [] then 0
    else Change(replies[0]) + Gain(replies[1..])
  }

  ghost function Change<T>(reply: Reply<T>): int {
    match reply
    case Stored(res) => if res == QErrOk then 1 else 0
    case Taken(_) => -1
    case Tested(_) => 0
  }

  lemma OpKeepsBalance<T>(q: Ring<T>, balance: int, op: Op<T>)
    requires q.Balanced(balance)
    ensures var (q', reply) := OnRing(q, op); q'.Balanced(balance + Change(reply))
  {
    match op
    case Enqueue(item) => InsertKeepsBalance(q, balance, item);
    case Dequeue => RemoveKeepsBalance(q, balance);
    case TestEmpty =>
  }

  /**
   In every run, starved or not, the tail stays the head plus the insertions that succeeded minus the removals, modulo
   the size, and the counter stays that difference modulo its range.
   */
  lemma {:induction false} RunKeepsBalance<T>(q: Ring<T>, balance: int, ops: seq<Op<T>>)
    requires q.Balanced(balance)
    ensures var (q', replies) := RingRun(q, ops); q'.Balanced(balance + Gain(replies))
    decreases |ops|
  {
    if ops != [] {
      var (q1, reply) := OnRing(q, ops[0]);
      OpKeepsBalance(q, balance, ops[0]);
      RunKeepsBalance(q1, balance + Change(reply), ops[1..]);
      var replies := RingRun(q1, ops[1..]).1;
      assert ([reply] + replies)[1..] == replies;
    }
  }

  /** Every run that never starves gets from the ring what a bounded first-in first-out queue would answer. */
  lemma {:induction false} RunRefines<T>(q: Ring<T>, s: seq<T>, ops: seq<Op<T>>)
    requires q.Holds(s) && NeverStarved(s, |q.cells|, ops)
    ensures var (q', replies) := RingRun(q, ops); var (s', replies') := QueueRun(s, |q.cells|, ops);
            replies == replies' && q'.Holds(s') && |q'.cells| == |q.cells|
    decreases |ops|
  {
    if ops != [] {
      match ops[0] {
        case Enqueue(item) => InsertIsEnqueue(q, s, item);
        case Dequeue => RemoveIsDequeue(q, s);
        case TestEmpty =>
      }
      RunRefines(OnRing(q, ops[0]).0, OnQueue(s, |q.cells|, ops[0]).0, ops[1..]);
    }
  }
}
