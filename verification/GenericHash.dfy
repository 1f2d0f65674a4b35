/**
 The hash map object of GenericHash/GenericHash.c: an array of chains, each a sentinel list or not created yet.
 Its methods are proved against the table functions of module HashTable.
 */
module GenericHash {
  import opened Options
  import opened LinkedList
  import opened ListItr
  import opened HashTable
  import opened Footprints
  import Primes

  /** A chain laid out within footprint and holding items; a chain that was never created holds nothing. */
  ghost predicate ChainIs<T>(chain: List?<T>, items: seq<T>, footprint: set<object>)
    reads footprint
  {
    if chain == null then items == []
    else chain in footprint && chain.Repr == footprint && chain.Valid() && chain.items == items
  }

  lemma ChainHolds<T>(chain: List<T>)
    requires chain.Valid()
    ensures ChainIs(chain, chain.items, chain.Repr)
  {
  }

  lemma NoChain<T>(chain: List?<T>, items: seq<T>, footprint: set<object>)
    requires chain == null && ChainIs(chain, items, footprint)
    ensures items == []
  {
  }

  lemma ChainMeans<T>(chain: List<T>, items: seq<T>, footprint: set<object>)
    requires ChainIs(chain, items, footprint)
    ensures chain.Valid() && chain.items == items && chain.Repr == footprint
  {
  }

  /** Takes the item under the iterator out of a chain. */
  method Unlink<T(==)>(ghost chain: List<T>, ghost i: nat, itr: Node<T>) returns (item: T)
    requires chain.Valid() && i < |chain.items| && chain.At(i + 1, itr)
    modifies chain.Repr
    ensures chain.Valid() && chain.Repr == old(chain.Repr)
    ensures item == old(chain.items)[i] && chain.items == RemoveAt(old(chain.items), i)
  {
    var data := ListItr.Remove(chain, i + 1, itr);
    item := data.value;
  }

  /** The footprints of chains not created yet. */
  ghost function NoObjects(n: nat): (feet: map<nat, set<object>>)
    ensures forall b: nat :: b in feet <==> b < n
    ensures forall b :: b in feet ==> feet[b] == {}
  {
    if n == 0 then map[] else NoObjects(n - 1)[n - 1 := {}]
  }

  class HashMap<K(==), V(==)> {
    const hashing: Hashing<K>
    const data: array<List?<Item<K, V>>>
    const hashSize: nat
    const allocSize: nat
    var numOfItems: nat

    // The contents of the chains.
    ghost var table: seq<seq<Item<K, V>>>
    // The objects each chain is made of.
    ghost var footprints: map<nat, set<object>>
    ghost var Repr: set<object>

    ghost predicate Valid()
      reads this, Repr
      ensures Valid() ==> this in Repr
    {
      && this in Repr && data in Repr
      && 0 < allocSize == data.Length == |table| && (forall b: nat :: b in footprints <==> b < |table|)
      && Separate(footprints, {this, data}, Repr)
      && (forall b :: 0 <= b < |table| ==> ChainIs(data[b], table[b], footprints[b]))
      && TableOk(hashing, table)
      && numOfItems == Count(table)
    }

    constructor (capacity: nat, allocSize: nat, hashing: Hashing<K>)
      requires allocSize > 0
      ensures Valid() && fresh(Repr) && table == Empty(allocSize) && this.hashing == hashing
      ensures this.allocSize == allocSize && hashSize == capacity
      ensures forall b :: 0 <= b < allocSize ==> data[b] == null
    {
      this.hashing, this.allocSize, hashSize := hashing, allocSize, capacity;
      data := new List?<Item<K, V>>[allocSize](_ => null);
      numOfItems := 0;
      table, footprints := Empty(allocSize), NoObjects(allocSize);
      new;
      Repr := {this, data};
      CountEmpty<K, V>(allocSize);
    }

    /** The loop shared by insert, remove and find: walk the chain until a key is equal or the end is reached. */
    method SearchChain(b: nat, key: K) returns (itr: Node<Item<K, V>>, ghost i: nat)
      requires Valid() && b < data.Length && data[b] != null
      ensures i == IndexIn(hashing, table[b], key) && data[b].At(i + 1, itr)
    {
      var chain := data[b];
      assert ChainIs(data[b], table[b], footprints[b]);
      i := 0;
      itr := Begin(chain);
      while !Equals(itr, End(chain))
        invariant i <= |chain.items| && chain.At(i + 1, itr)
        invariant forall j :: 0 <= j < i ==> hashing.equal(chain.items[j].key, key) != 1
        decreases |chain.items| - i
      {
        EndTestExact(chain, i + 1);
        var foundData := Get(chain, i + 1, itr).value;
        if hashing.equal(foundData.key, key) == 1 {
          break;
        }
        itr := Next(chain, i + 1, itr);
        i := i + 1;
      }
      EndTestExact(chain, i + 1);
    }

    method Find(key: K) returns (value: Option<V>)
      requires Valid()
      ensures value == HashTable.Find(hashing, table, key)
    {
      var index := hashing.hash(key) % allocSize;
      assert ChainIs(data[index], table[index], footprints[index]);
      if data[index] == null {
        return None;
      }
      var itr, i := SearchChain(index, key);
      EndTestExact(data[index], i + 1);
      if Equals(itr, End(data[index])) {
        return None;
      }
      return Some(Get(data[index], i + 1, itr).value.value);
    }

    method Size() returns (n: nat)
      requires Valid()
      ensures n == Count(table)
    {
      return numOfItems;
    }

    /** Books new contents for chain b, whose nodes have already been relinked. */
    ghost method Record(b: nat, items: seq<Item<K, V>>)
      requires this in Repr && data in Repr && 0 < allocSize == data.Length == |table|
      requires (forall c: nat :: c in footprints <==> c < |table|) && b < |table|
      requires Separate(footprints, {this, data}, Repr)
      requires TableOk(hashing, table[b := items]) && numOfItems == Count(table[b := items])
      requires data[b] != null && ChainIs(data[b], items, data[b].Repr)
      requires data[b].Repr - footprints[b] !! Repr
      requires forall c :: 0 <= c < |table| && c != b ==> ChainIs(data[c], table[c], footprints[c])
      modifies `table, `footprints, `Repr
      ensures Valid() && Repr == old(Repr) + data[b].Repr
      ensures table == old(table)[b := items]
    {
      SeparateGrows(footprints, {this, data}, Repr, b, data[b].Repr);
      table, footprints, Repr := table[b := items], footprints[b := data[b].Repr], Repr + data[b].Repr;
    }

    /** A new pair at the head of chain b. */
    method PushPair(b: nat, item: Item<K, V>)
      requires Valid() && b < data.Length && data[b] != null
      requires TableOk(hashing, table[b := [item] + table[b]])
      modifies Repr
      ensures Valid() && fresh(Repr - old(Repr))
      ensures table == old(table)[b := [item] + old(table)[b]]
    {
      hide TableOk, List.Valid, Count, ChainIs;
      var chain := data[b];
      assert ChainIs(chain, table[b], footprints[b]);
      ChainMeans(chain, table[b], footprints[b]);
      var err := chain.PushHead(Some(item));
      ChainHolds(chain);
      assert forall c :: 0 <= c < |table| && c != b ==> ChainIs(data[c], table[c], footprints[c]);
      CountUpdate(table, b, [item] + table[b]);
      numOfItems := numOfItems + 1;
      Record(b, [item] + table[b]);
    }

    /** A chain is created when its bucket is first used. */
    method CreateChain(b: nat)
      requires Valid() && b < data.Length && data[b] == null
      modifies Repr
      ensures Valid() && fresh(Repr - old(Repr)) && data[b] != null
      ensures table == old(table)
    {
      hide TableOk, Count, List.Valid, ChainIs;
      assert ChainIs(data[b], table[b], footprints[b]);
      NoChain(data[b], table[b], footprints[b]);
      var chain := new List<Item<K, V>>();
      data[b] := chain;
      ChainHolds(chain);
      assert forall c :: 0 <= c < |table| && c != b ==> ChainIs(data[c], table[c], footprints[c]);
      assert table[b := []] == table;
      Record(b, []);
    }

    method Insert(key: K, value: V) returns (res: MapResult)
      requires Valid()
      modifies Repr
      ensures Valid() && fresh(Repr - old(Repr))
      ensures (table, res) == HashTable.Insert(hashing, old(table), key, value)
      ensures res == MapSuccess ==>
                var b := hashing.hash(key) % allocSize;
                table == old(table)[b := [Item(key, value)] + old(table)[b]]
    {
      var index := hashing.hash(key) % allocSize;
      hide Count, List.Valid, TableOk;
      assert ChainIs(data[index], table[index], footprints[index]);
      if data[index] == null {
        CreateChain(index);
      } else {
        var itr, i := SearchChain(index, key);
        EndTestExact(data[index], i + 1);
        if !Equals(itr, End(data[index])) {
          return MapKeyDuplicateError;
        }
      }
      InsertKeepsOk(hashing, table, key, value);
      PushPair(index, Item(key, value));
      return MapSuccess;
    }

    /** Unlinks the pair under the iterator from chain b. */
    method RemovePair(b: nat, ghost i: nat, itr: Node<Item<K, V>>) returns (item: Item<K, V>)
      requires Valid() && b < data.Length && data[b] != null
      requires i < |table[b]| && data[b].At(i + 1, itr)
      modifies Repr
      ensures Valid() && fresh(Repr - old(Repr))
      ensures item == old(table)[b][i] && table == old(table)[b := RemoveAt(old(table)[b], i)]
    {
      hide TableOk, Count, ChainIs, List.Valid;
      ghost var chain, shorter := data[b], RemoveAt(table[b], i);
      assert ChainIs(chain, table[b], footprints[b]);
      ChainMeans(chain, table[b], footprints[b]);
      RemoveKeepsOk(hashing, table, b, i);
      CountUpdate(table, b, shorter);
      numOfItems := numOfItems - 1;
      var foundData := Unlink(chain, i, itr);
      ChainHolds(chain);
      assert forall c :: 0 <= c < |table| && c != b ==> ChainIs(data[c], table[c], footprints[c]);
      item := foundData;
      Record(b, shorter);
    }

    method Remove(key: K) returns (item: Option<Item<K, V>>)
      requires Valid()
      modifies Repr
      ensures Valid() && fresh(Repr - old(Repr))
      ensures (table, item) == HashTable.Remove(hashing, old(table), key)
    {
      var index := hashing.hash(key) % allocSize;
      assert ChainIs(data[index], table[index], footprints[index]);
      if data[index] == null {
        return None;
      }
      var itr, i := SearchChain(index, key);
      EndTestExact(data[index], i + 1);
      if Equals(itr, End(data[index])) {
        return None;
      }
      var foundData := RemovePair(index, i, itr);
      return Some(foundData);
    }
  }

  /** HashMap_Create: no table for capacity 0, else one of prime size, or of size 1 for capacity 1. */
  method Create<K(==), V(==)>(capacity: nat, hashing: Hashing<K>) returns (m: HashMap?<K, V>)
    ensures m == null <==> capacity == 0
    ensures m != null ==> m.Valid() && fresh(m) && fresh(m.Repr) && m.hashing == hashing && m.hashSize == capacity
    ensures m != null ==> m.table == Empty(m.allocSize) && m.allocSize >= capacity
    ensures m != null ==> (Primes.Prime(m.allocSize) <==> capacity >= 2)
    ensures m != null ==> forall q :: capacity <= q < m.allocSize ==> !Primes.Prime(q)
  {
    if capacity == 0 {
      return null;
    }
    var newSize := Primes.FindPrimeLargerThan(capacity);
    m := new HashMap(capacity, newSize, hashing);
  }
}
