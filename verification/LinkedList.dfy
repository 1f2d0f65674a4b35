/**
 The doubly linked list of GenericDLinkedList/LinkedListGeneric.c together with its iterators
 (GeneticListIter/LinkedListGenericIter.c).

 A list owns two sentinel nodes. The head sentinel has no predecessor, the tail sentinel is its own
 successor, and neither carries data. An iterator is a node; a ghost index says where in the list it stands.
 */
module LinkedList {
  import opened Options

  datatype ListResult = ListSuccess | ListNullElementError | ListIsEmpty

  /** s with x placed before position k. */
  function InsertAt<A>(s: seq<A>, k: nat, x: A): (r: seq<A>)
    requires k <= |s|
  {
    s[..k] + [x] + s[k..]
  }

  /** s without its element at position k. */
  function RemoveAt<A>(s: seq<A>, k: nat): (r: seq<A>)
    requires k < |s|
  {
    s[..k] + s[k + 1..]
  }

  class Node<T(==)> {
    var data: Option<T>
    var next: Node?<T>
    var prev: Node?<T>

    constructor (data: Option<T>, prev: Node?<T>, next: Node?<T>)
      ensures this.data == data && this.prev == prev && this.next == next
    {
      this.data, this.prev, this.next := data, prev, next;
    }
  }

  class List<T(==)> {
    const head: Node<T>
    const tail: Node<T>

    // The head sentinel, the element nodes in order, the tail sentinel.
    ghost var nodes: seq<Node<T>>
    // What the element nodes hold, in order.
    ghost var items: seq<T>
    ghost var Repr: set<object>

    ghost predicate Linked()
      reads this, set n | n in nodes
    {
      && (forall i {:trigger nodes[i].next} :: 0 <= i < |nodes| - 1 ==> nodes[i].next == nodes[i + 1])
      && (forall i {:trigger nodes[i].prev} :: 0 < i < |nodes| ==> nodes[i].prev == nodes[i - 1])
    }

    ghost predicate Valid()
      reads this, Repr
      ensures Valid() ==> this in Repr && |nodes| == |items| + 2
      ensures Valid() ==> forall n :: n in nodes ==> n in Repr
    {
      && this in Repr
      && (forall n :: n in nodes ==> n in Repr)
      && |nodes| == |items| + 2
      && nodes[0] == head && nodes[|nodes| - 1] == tail
      && (forall i, j :: 0 <= i < j < |nodes| ==> nodes[i] != nodes[j])
      && Linked()
      && head.prev == null && tail.next == tail
      && head.data == None && tail.data == None
      && (forall i {:trigger nodes[i].data} :: 0 < i < |nodes| - 1 ==> nodes[i].data == Some(items[i - 1]))
    }

    /** The iterator itr stands at position k: 0 is the head sentinel, |items| + 1 the tail sentinel. */
    ghost predicate At(k: nat, itr: Node<T>)
      reads this
    {
      k < |nodes| && nodes[k] == itr
    }

    constructor ()
      ensures Valid() && fresh(Repr) && items == []
    {
      head := new Node(None, null, null);
      tail := new Node(None, null, null);
      new;
      head.next := tail;
      tail.prev := head;
      tail.next := tail;
      nodes, items := [head, tail], [];
      Repr := {this, head, tail};
    }

    /** Makes the neighbours of a new node, whose own links are already set, point to it. */
    static method LinkIn(ghost l: List<T>, ghost k: nat, newNode: Node<T>)
      requires l.Valid() && 0 < k <= |l.items| + 1
      requires newNode !in l.Repr && newNode.data.Some?
      requires newNode.prev == l.nodes[k - 1] && newNode.next == l.nodes[k]
      modifies l, l.nodes`next, l.nodes`prev
      ensures l.Valid() && l.Repr == old(l.Repr) + {newNode}
      ensures l.nodes == InsertAt(old(l.nodes), k, newNode)
      ensures l.items == InsertAt(old(l.items), k - 1, newNode.data.value)
    {
      newNode.prev.next := newNode;
      newNode.next.prev := newNode;
      l.nodes, l.items := InsertAt(l.nodes, k, newNode), InsertAt(l.items, k - 1, newNode.data.value);
      l.Repr := l.Repr + {newNode};
    }

    method PushHead(item: Option<T>) returns (res: ListResult)
      requires Valid()
      modifies Repr
      ensures Valid() && fresh(Repr - old(Repr))
      ensures item.None? ==> res == ListNullElementError && nodes == old(nodes) && items == old(items)
      ensures item.Some? ==> res == ListSuccess && items == [item.value] + old(items)
      ensures item.Some? ==> |nodes| > 2 && fresh(nodes[1]) && nodes == InsertAt(old(nodes), 1, nodes[1])
    {
      if item == None {
        return ListNullElementError;
      }
      var newNode := new Node(item, head, head.next);
      assert head.next == nodes[0].next;
      LinkIn(this, 1, newNode);
      return ListSuccess;
    }

    method PushTail(item: Option<T>) returns (res: ListResult)
      requires Valid()
      modifies Repr
      ensures Valid() && fresh(Repr - old(Repr))
      ensures item.None? ==> res == ListNullElementError && nodes == old(nodes) && items == old(items)
      ensures item.Some? ==> res == ListSuccess && items == old(items) + [item.value]
      ensures item.Some? ==> |nodes| > 2 && fresh(nodes[|nodes| - 2])
                             && nodes == InsertAt(old(nodes), |old(nodes)| - 1, nodes[|nodes| - 2])
    {
      if item == None {
        return ListNullElementError;
      }
      var newNode := new Node(item, tail.prev, tail);
      assert tail.prev == nodes[|nodes| - 1].prev;
      LinkIn(this, |items| + 1, newNode);
      return ListSuccess;
    }

    method PopHead() returns (res: ListResult, item: Option<T>)
      requires Valid()
      modifies Repr
      ensures Valid() && fresh(Repr - old(Repr))
      ensures old(items) == [] ==> res == ListIsEmpty && item == None && nodes == old(nodes) && items == []
      ensures old(items) != [] ==> res == ListSuccess && item == Some(old(items)[0]) && items == old(items)[1..]
      ensures old(items) != [] ==> nodes == RemoveAt(old(nodes), 1)
    {
      assert head.next == nodes[0].next;
      if head.next == tail {
        return ListIsEmpty, None;
      }
      var removed := head.next;
      item := removed.data;
      head.next := removed.next;
      head.next.prev := head;
      nodes, items := RemoveAt(nodes, 1), items[1..];
      return ListSuccess, item;
    }

    method PopTail() returns (res: ListResult, item: Option<T>)
      requires Valid()
      modifies Repr
      ensures Valid() && fresh(Repr - old(Repr))
      ensures old(items) == [] ==> res == ListIsEmpty && item == None && nodes == old(nodes) && items == []
      ensures old(items) != [] ==> res == ListSuccess && item == Some(old(items)[|old(items)| - 1])
                                   && items == old(items)[..|old(items)| - 1]
      ensures old(items) != [] ==> nodes == RemoveAt(old(nodes), |old(items)|)
    {
      assert head.next == nodes[0].next;
      if head.next == tail {
        return ListIsEmpty, None;
      }
      var removed := tail.prev;
      item := removed.data;
      removed.prev.next := tail;
      tail.prev := removed.prev;
      nodes, items := RemoveAt(nodes, |items|), items[..|items| - 1];
      return ListSuccess, item;
    }

    /** The counting loop stops exactly at the tail sentinel. */
    method Size() returns (counter: nat)
      requires Valid()
      ensures counter == |items|
    {
      counter := 0;
      assert head.next == nodes[0].next;
      var itr := head.next;
      while itr != tail
        invariant itr != null
        invariant counter <= |items| && At(counter + 1, itr)
        decreases |items| - counter
      {
        counter := counter + 1;
        assert nodes[counter].next == nodes[counter + 1];
        itr := itr.next;
      }
    }
  }
}
