/**
 The iterators of GeneticListIter/LinkedListGenericIter.c.

 Every operation takes the list and the position as ghost arguments: the code only sees the node.
 */
module ListItr {
  import opened Options
  import opened LinkedList

  function Begin<T(==)>(l: List<T>): (itr: Node<T>)
    requires l.Valid()
    reads l, l.Repr
    ensures l.At(1, itr)
  {
    assert l.nodes[0].next == l.nodes[1];
    l.head.next
  }

  function End<T(==)>(l: List<T>): (itr: Node<T>)
    requires l.Valid()
    reads l, l.Repr
    ensures l.At(|l.items| + 1, itr)
  {
    l.tail.next
  }

  /** Iterators are compared by the data they carry, not by the nodes they are. */
  predicate Equals<T(==)>(a: Node<T>, b: Node<T>)
    reads a, b
  {
    a.data == b.data
  }

  /** One step towards the tail; the tail is its own successor. */
  function Next<T(==)>(ghost l: List<T>, ghost k: nat, itr: Node<T>): (r: Node<T>)
    requires l.Valid() && l.At(k, itr)
    reads l, l.Repr
    ensures l.At(if k <= |l.items| then k + 1 else k, r)
  {
    assert k <= |l.items| ==> l.nodes[k].next == l.nodes[k + 1];
    itr.next
  }

  /**
   One step towards the head. The guard that would return the iterator itself asks for a node that is its own
   predecessor; a valid list has none, so stepping back from the first element reaches the head sentinel.
   */
  function Prev<T(==)>(ghost l: List<T>, ghost k: nat, itr: Node<T>): (r: Node<T>)
    requires l.Valid() && l.At(k, itr) && k > 0
    reads l, l.Repr
    ensures l.At(k - 1, r) && r.prev != r
  {
    assert itr.prev == l.nodes[k - 1];
    assert k > 1 ==> l.nodes[k - 1].prev == l.nodes[k - 2];
    itr.prev
  }

  function Get<T(==)>(ghost l: List<T>, ghost k: nat, itr: Node<T>): (r: Option<T>)
    requires l.Valid() && l.At(k, itr)
    reads l, l.Repr
    ensures r == if 0 < k <= |l.items| then Some(l.items[k - 1]) else None
  {
    assert k <= |l.items| ==> l.nodes[k].next == l.nodes[k + 1];
    if itr.next == itr then None else itr.data
  }

  /**
   Replaces the data under the iterator and hands back the old data. Overwriting a sentinel destroys the
   list, because the end test then no longer finds the tail.
   */
  method Set<T(==)>(ghost l: List<T>, ghost k: nat, itr: Node<T>, element: Option<T>) returns (item: Option<T>)
    requires l.Valid() && l.At(k, itr)
    modifies l, itr
    ensures l.nodes == old(l.nodes) && l.Repr == old(l.Repr)
    ensures l.Valid() <==> element == None || 0 < k <= |old(l.items)|
    ensures element == None ==> item == None && l.items == old(l.items)
    ensures element.Some? ==> item == if 0 < k <= |old(l.items)| then Some(old(l.items)[k - 1]) else None
    ensures element.Some? && 0 < k <= |old(l.items)| ==> l.items == old(l.items)[k - 1 := element.value]
  {
    if element == None {
      return None;
    }
    item := itr.data;
    itr.data := element;
    if 0 < k <= |l.items| {
      l.items := l.items[k - 1 := element.value];
    }
  }

  method InsertBefore<T(==)>(ghost l: List<T>, ghost k: nat, itr: Node<T>, element: Option<T>) returns (r: Node?<T>)
    requires l.Valid() && l.At(k, itr) && k > 0
    modifies l, l.nodes`next, l.nodes`prev
    ensures l.Valid() && fresh(l.Repr - old(l.Repr))
    ensures element.None? ==> r == null && l.nodes == old(l.nodes) && l.items == old(l.items)
    ensures element.Some? ==> r != null && fresh(r) && l.nodes == InsertAt(old(l.nodes), k, r)
                              && l.items == InsertAt(old(l.items), k - 1, element.value)
  {
    if element == None {
      return null;
    }
    var newElement := new Node(element, itr.prev, itr);
    assert itr.prev == l.nodes[k].prev == l.nodes[k - 1];
    List.LinkIn(l, k, newElement);
    return newElement;
  }

  /** Unlinks the node under the iterator and hands back its data; the tail is left alone. */
  method Remove<T(==)>(ghost l: List<T>, ghost k: nat, itr: Node<T>) returns (data: Option<T>)
    requires l.Valid() && l.At(k, itr) && k > 0
    modifies l, l.nodes`next, l.nodes`prev
    ensures l.Valid() && l.Repr == old(l.Repr)
    ensures k == |old(l.items)| + 1 ==> data == None && l.nodes == old(l.nodes) && l.items == old(l.items)
    ensures k <= |old(l.items)| ==> data == Some(old(l.items)[k - 1]) && l.nodes == RemoveAt(old(l.nodes), k)
                                    && l.items == RemoveAt(old(l.items), k - 1)
  {
    if Next(l, k, itr) == itr {
      return None;
    }
    data := itr.data;
    assert l.nodes[k].next == l.nodes[k + 1] && l.nodes[k].prev == l.nodes[k - 1];
    itr.next.prev := itr.prev;
    itr.prev.next := itr.next;
    l.nodes := RemoveAt(l.nodes, k);
    l.items := RemoveAt(l.items, k - 1);
  }

  // ------------------------------------------------------------------------------------------------
  // What comparing by data decides

  /** The end test is right at every position except the head sentinel, which it takes for the end. */
  lemma EndTestExact<T>(l: List<T>, k: nat)
    requires l.Valid() && k < |l.nodes|
    ensures Equals(l.nodes[k], End(l)) <==> k == 0 || l.nodes[k] == End(l)
  {
    if 0 < k <= |l.items| {
      assert l.nodes[k].data == Some(l.items[k - 1]);
    }
  }

  /** Between elements, comparing by data is comparing nodes exactly when no two elements are the same. */
  lemma EqualsIsIdentityIffDistinct<T>(l: List<T>)
    requires l.Valid()
    ensures (forall j, k :: 0 < j < k <= |l.items| ==> !Equals(l.nodes[j], l.nodes[k]))
       <==> (forall j, k :: 0 <= j < k < |l.items| ==> l.items[j] != l.items[k])
  {
    forall j, k | 0 < j < k <= |l.items|
      ensures Equals(l.nodes[j], l.nodes[k]) <==> l.items[j - 1] == l.items[k - 1]
    {
      assert l.nodes[j].data == Some(l.items[j - 1]) && l.nodes[k].data == Some(l.items[k - 1]);
    }
    if forall j, k :: 0 < j < k <= |l.items| ==> !Equals(l.nodes[j], l.nodes[k]) {
      forall j, k | 0 <= j < k < |l.items|
        ensures l.items[j] != l.items[k]
      {
        assert !Equals(l.nodes[j + 1], l.nodes[k + 1]);
      }
    }
  }

  /** Removing what was inserted, and reinserting what was removed, give the list back. */
  lemma InsertRemoveInverse<A>(s: seq<A>, k: nat, x: A)
    requires k <= |s|
    ensures RemoveAt(InsertAt(s, k, x), k) == s
    ensures k < |s| ==> InsertAt(RemoveAt(s, k), k, s[k]) == s
  {
  }

  /** Inserting before an iterator and removing what was inserted gives the list back, node for node. */
  method InsertThenRemove<T(==)>(ghost l: List<T>, ghost k: nat, itr: Node<T>, element: T) returns (data: Option<T>)
    requires l.Valid() && l.At(k, itr) && k > 0
    modifies l, l.nodes`next, l.nodes`prev
    ensures l.Valid() && l.nodes == old(l.nodes) && l.items == old(l.items) && data == Some(element)
  {
    hide List.Valid;
    var inserted := InsertBefore(l, k, itr, Some(element));
    InsertRemoveInverse(old(l.nodes), k, inserted);
    InsertRemoveInverse(old(l.items), k - 1, element);
    data := Remove(l, k, inserted);
  }

  /** Removing an element and inserting it before the one behind it gives the elements back. */
  method RemoveThenInsert<T(==)>(ghost l: List<T>, ghost k: nat, itr: Node<T>) returns (r: Node?<T>)
    requires l.Valid() && l.At(k, itr) && 0 < k <= |l.items|
    modifies l, l.nodes`next, l.nodes`prev
    ensures l.Valid() && l.items == old(l.items) && r != null && l.At(k, r)
  {
    var behind := Next(l, k, itr);
    InsertRemoveInverse(l.items, k - 1, l.items[k - 1]);
    var data := Remove(l, k, itr);
    r := InsertBefore(l, k, behind, data);
  }
}
