/**
 What the chained hash map of GenericHash/GenericHash.c computes, as functions on a table of chains, and the proof
 that it is a finite map for every hash that agrees with the key equality.

 Keys are compared by a caller's function that answers 1 for equal keys. Keys that are equal in this sense need not
 be identical, and the map hands back the key that was stored.
 */
module HashTable {
  import opened Options
  import opened LinkedList

  datatype Item<K, V> = Item(key: K, value: V)

  datatype Hashing<!K> = Hashing(hash: K -> nat, equal: (K, K) -> int)

  datatype MapResult = MapSuccess | MapKeyDuplicateError | MapKeyNotFoundError

  /** equal is an equivalence and equal keys have equal hashes. */
  ghost predicate Agrees<K(!new)>(h: Hashing<K>) {
    && (forall a :: h.equal(a, a) == 1)
    && (forall a, b :: h.equal(a, b) == 1 ==> h.equal(b, a) == 1)
    && (forall a, b, c :: h.equal(a, b) == 1 && h.equal(b, c) == 1 ==> h.equal(a, c) == 1)
    && (forall a, b :: h.equal(a, b) == 1 ==> h.hash(a) == h.hash(b))
  }

  function Bucket<K>(h: Hashing<K>, size: nat, key: K): (b: nat)
    requires size > 0
    ensures b < size
  {
    h.hash(key) % size
  }

  /** The first item of the chain whose key equals key, or the length of the chain. */
  function IndexIn<K, V>(h: Hashing<K>, chain: seq<Item<K, V>>, key: K): (i: nat)
    ensures i <= |chain|
    ensures forall j :: 0 <= j < i ==> h.equal(chain[j].key, key) != 1
    ensures i < |chain| ==> h.equal(chain[i].key, key) == 1
  {
    if chain == [] || h.equal(chain[0].key, key) == 1 then 0 else 1 + IndexIn(h, chain[1..], key)
  }

  function Count<K, V>(t: seq<seq<Item<K, V>>>): nat {
    if t == [] then 0 else |t[0]| + Count(t[1..])
  }

  function Empty<K, V>(size: nat): seq<seq<Item<K, V>>> {
    seq(size, _ => [])
  }

  function Insert<K, V>(h: Hashing<K>, t: seq<seq<Item<K, V>>>, key: K, value: V): (seq<seq<Item<K, V>>>, MapResult)
    requires t != []
  {
    var b := Bucket(h, |t|, key);
    if IndexIn(h, t[b], key) < |t[b]| then (t, MapKeyDuplicateError)
    else (t[b := [Item(key, value)] + t[b]], MapSuccess)
  }

  function Remove<K, V>(h: Hashing<K>, t: seq<seq<Item<K, V>>>, key: K): (seq<seq<Item<K, V>>>, Option<Item<K, V>>)
    requires t != []
  {
    var b := Bucket(h, |t|, key);
    var i := IndexIn(h, t[b], key);
    if i == |t[b]| then (t, None)
    else (t[b := RemoveAt(t[b], i)], Some(t[b][i]))
  }

  function Find<K, V>(h: Hashing<K>, t: seq<seq<Item<K, V>>>, key: K): Option<V>
    requires t != []
  {
    var b := Bucket(h, |t|, key);
    var i := IndexIn(h, t[b], key);
    if i == |t[b]| then None else Some(t[b][i].value)
  }

  // ------------------------------------------------------------------------------------------------
  // The invariant and the abstraction

  /** Every item of the chain belongs to bucket b and no two of its keys are equal. */
  ghost predicate ChainOk<K, V>(h: Hashing<K>, size: nat, b: nat, chain: seq<Item<K, V>>)
    requires size > 0
  {
    && (forall i :: 0 <= i < |chain| ==> Bucket(h, size, chain[i].key) == b)
    && (forall i, j :: 0 <= i < j < |chain| ==> h.equal(chain[j].key, chain[i].key) != 1)
  }

  ghost predicate TableOk<K, V>(h: Hashing<K>, t: seq<seq<Item<K, V>>>) {
    t != [] && forall b :: 0 <= b < |t| ==> ChainOk(h, |t|, b, t[b])
  }

  ghost predicate ChainIn<K, V>(chain: seq<Item<K, V>>, m: map<K, V>) {
    forall i :: 0 <= i < |chain| ==> chain[i].key in m && m[chain[i].key] == chain[i].value
  }

  /** The table stores exactly the pairs of m. */
  ghost predicate Stores<K, V>(h: Hashing<K>, t: seq<seq<Item<K, V>>>, m: map<K, V>)
    requires t != []
  {
    && (forall b :: 0 <= b < |t| ==> ChainIn(t[b], m))
    && (forall k :: k in m ==> Item(k, m[k]) in t[Bucket(h, |t|, k)])
    && |m| == Count(t)
  }

  /** The key of m that equals key. */
  ghost predicate Known<K(!new), V>(h: Hashing<K>, m: map<K, V>, key: K) {
    exists k :: k in m && h.equal(k, key) == 1
  }

  ghost function StoredKey<K(!new), V>(h: Hashing<K>, m: map<K, V>, key: K): (k: K)
    requires Known(h, m, key)
    ensures k in m && h.equal(k, key) == 1
  {
    var k :| k in m && h.equal(k, key) == 1;
    k
  }

  lemma {:induction false} CountUpdate<K, V>(t: seq<seq<Item<K, V>>>, b: nat, chain: seq<Item<K, V>>)
    requires b < |t|
    ensures Count(t[b := chain]) + |t[b]| == Count(t) + |chain|
  {
    if b == 0 {
      assert t[b := chain][1..] == t[1..];
    } else {
      assert t[b := chain][1..] == t[1..][b - 1 := chain];
      CountUpdate(t[1..], b - 1, chain);
    }
  }

  lemma {:induction false} CountEmpty<K, V>(size: nat)
    ensures Count(Empty<K, V>(size)) == 0
  {
    if size > 0 {
      assert Empty<K, V>(size)[1..] == Empty<K, V>(size - 1);
      CountEmpty<K, V>(size - 1);
    }
  }

  /** The chain search finds the one stored pair whose key equals the wanted one, if there is any. */
  lemma SearchIsLookup<K(!new), V>(h: Hashing<K>, t: seq<seq<Item<K, V>>>, m: map<K, V>, key: K)
    requires Agrees(h) && TableOk(h, t) && Stores(h, t, m)
    ensures var chain := t[Bucket(h, |t|, key)]; var i := IndexIn(h, chain, key);
            && (i < |chain| <==> Known(h, m, key))
            && (i < |chain| ==> StoredKey(h, m, key) == chain[i].key && m[chain[i].key] == chain[i].value)
  {
    var chain := t[Bucket(h, |t|, key)];
    var i := IndexIn(h, chain, key);
    if i < |chain| {
      assert chain[i].key in m && h.equal(chain[i].key, key) == 1;
    }
    if Known(h, m, key) {
      var k := StoredKey(h, m, key);
      assert h.hash(k) == h.hash(key);
      assert Item(k, m[k]) in chain;
      var j :| 0 <= j < |chain| && chain[j] == Item(k, m[k]);
      assert i <= j;
      assert h.equal(key, chain[j].key) == 1 && h.equal(chain[i].key, chain[j].key) == 1;
    }
  }

  lemma FindRefines<K(!new), V>(h: Hashing<K>, t: seq<seq<Item<K, V>>>, m: map<K, V>, key: K)
    requires Agrees(h) && TableOk(h, t) && Stores(h, t, m)
    ensures Find(h, t, key) == if Known(h, m, key) then Some(m[StoredKey(h, m, key)]) else None
  {
    SearchIsLookup(h, t, m, key);
  }

  /** In a table in order every pair lies in the bucket of its hash. */
  lemma InItsBucket<K, V>(h: Hashing<K>, t: seq<seq<Item<K, V>>>, b: nat, i: nat)
    requires TableOk(h, t) && b < |t| && i < |t[b]|
    ensures h.hash(t[b][i].key) % |t| == b
  {
    assert ChainOk(h, |t|, b, t[b]);
  }

  lemma InsertRefines<K(!new), V>(h: Hashing<K>, t: seq<seq<Item<K, V>>>, m: map<K, V>, key: K, value: V)
    requires Agrees(h) && TableOk(h, t) && Stores(h, t, m)
    ensures var (t', res) := Insert(h, t, key, value);
            && TableOk(h, t')
            && res == (if Known(h, m, key) then MapKeyDuplicateError else MapSuccess)
            && Stores(h, t', if Known(h, m, key) then m else m[key := value])
  {
    SearchIsLookup(h, t, m, key);
    if !Known(h, m, key) {
      assert h.equal(key, key) == 1;
      InsertKeepsOk(h, t, key, value);
      InsertedStores(h, t, m, key, value);
    }
  }

  lemma InsertedStores<K, V>(h: Hashing<K>, t: seq<seq<Item<K, V>>>, m: map<K, V>, key: K, value: V)
    requires TableOk(h, t) && Stores(h, t, m) && key !in m
    ensures var b := Bucket(h, |t|, key); Stores(h, t[b := [Item(key, value)] + t[b]], m[key := value])
  {
    var b := Bucket(h, |t|, key);
    var chain := [Item(key, value)] + t[b];
    CountUpdate(t, b, chain);
    forall c | 0 <= c < |t|
      ensures ChainIn(t[c], m[key := value])
    {
      assert ChainIn(t[c], m);
    }
    assert ChainIn(chain, m[key := value]);
    forall k | k in m[key := value]
      ensures Item(k, m[key := value][k]) in t[b := chain][Bucket(h, |t|, k)]
    {
      if k == key {
        assert chain[0] == Item(key, value);
      } else {
        assert Item(k, m[k]) in t[Bucket(h, |t|, k)];
      }
    }
  }

  /** Inserting keeps the table in order, whatever the equality function does. */
  lemma InsertKeepsOk<K, V>(h: Hashing<K>, t: seq<seq<Item<K, V>>>, key: K, value: V)
    requires TableOk(h, t) && var b := Bucket(h, |t|, key); IndexIn(h, t[b], key) == |t[b]|
    ensures var b := Bucket(h, |t|, key); TableOk(h, t[b := [Item(key, value)] + t[b]])
  {
    var b := Bucket(h, |t|, key);
    var longer := [Item(key, value)] + t[b];
    forall i, j | 0 <= i < j < |longer|
      ensures h.equal(longer[j].key, longer[i].key) != 1
    {
      assert longer[j] == t[b][j - 1] && h.equal(t[b][j - 1].key, key) != 1;
    }
    assert ChainOk(h, |t|, b, longer);
  }

  lemma RemoveKeepsOk<K, V>(h: Hashing<K>, t: seq<seq<Item<K, V>>>, b: nat, i: nat)
    requires TableOk(h, t) && b < |t| && i < |t[b]|
    ensures TableOk(h, t[b := RemoveAt(t[b], i)])
  {
    var shorter := RemoveAt(t[b], i);
    assert ChainOk(h, |t|, b, t[b]);
    assert forall j :: 0 <= j < |shorter| ==> shorter[j] == t[b][if j < i then j else j + 1];
    assert ChainOk(h, |t|, b, shorter);
  }

  lemma RemoveRefines<K(!new), V>(h: Hashing<K>, t: seq<seq<Item<K, V>>>, m: map<K, V>, key: K)
    requires Agrees(h) && TableOk(h, t) && Stores(h, t, m)
    ensures var (t', out) := Remove(h, t, key);
            && TableOk(h, t')
            && (out.Some? <==> Known(h, m, key))
            && (out.Some? ==> var k := StoredKey(h, m, key); out == Some(Item(k, m[k])) && Stores(h, t', m - {k}))
            && (out.None? ==> t' == t)
  {
    SearchIsLookup(h, t, m, key);
    if Known(h, m, key) {
      var b := Bucket(h, |t|, key);
      var i := IndexIn(h, t[b], key);
      RemoveKeepsOk(h, t, b, i);
      RemovedStores(h, t, m, b, i);
    }
  }

  lemma OneLess<K, V>(m: map<K, V>, k: K)
    requires k in m
    ensures |m - {k}| + 1 == |m|
    ensures forall j :: j in m && j != k ==> j in m - {k} && (m - {k})[j] == m[j]
  {
    assert m == (m - {k})[k := m[k]];
  }

  lemma ChainWithout<K, V>(h: Hashing<K>, size: nat, c: nat, chain: seq<Item<K, V>>, m: map<K, V>, k: K)
    requires size > 0 && ChainOk(h, size, c, chain) && ChainIn(chain, m) && Bucket(h, size, k) != c
    ensures ChainIn(chain, m - {k})
  {
  }

  lemma RemovedStores<K(!new), V>(h: Hashing<K>, t: seq<seq<Item<K, V>>>, m: map<K, V>, b: nat, i: nat)
    requires Agrees(h) && TableOk(h, t) && Stores(h, t, m) && b < |t| && i < |t[b]|
    ensures Stores(h, t[b := RemoveAt(t[b], i)], m - {t[b][i].key})
  {
    var k0, shorter := t[b][i].key, RemoveAt(t[b], i);
    var t', m' := t[b := shorter], m - {k0};
    assert k0 in m by {
      assert ChainIn(t[b], m);
    }
    forall c | 0 <= c < |t'|
      ensures ChainIn(t'[c], m')
    {
      if c == b {
        RemovedChain(h, |t|, b, t[b], m, i);
      } else {
        ChainWithout(h, |t|, c, t[c], m, k0);
      }
    }
    assert |m'| == Count(t') by {
      CountUpdate(t, b, shorter);
      OneLess(m, k0);
    }
    RemovedReach(h, t, m, b, i);
  }

  lemma RemovedChain<K(!new), V>(h: Hashing<K>, size: nat, b: nat, chain: seq<Item<K, V>>, m: map<K, V>, i: nat)
    requires Agrees(h) && size > 0 && ChainOk(h, size, b, chain) && ChainIn(chain, m) && i < |chain|
    ensures ChainIn(RemoveAt(chain, i), m - {chain[i].key})
  {
    var k0, shorter := chain[i].key, RemoveAt(chain, i);
    assert h.equal(k0, k0) == 1;
    forall j | 0 <= j < |shorter|
      ensures shorter[j].key in m && shorter[j].key != k0 && m[shorter[j].key] == shorter[j].value
    {
      assert shorter[j] == chain[if j < i then j else j + 1];
    }
  }

  lemma OthersStay<A>(s: seq<A>, i: nat, x: A)
    requires i < |s| && x in s && x != s[i]
    ensures x in RemoveAt(s, i)
  {
    var j :| 0 <= j < |s| && s[j] == x;
    assert RemoveAt(s, i)[if j < i then j else j - 1] == x;
  }

  lemma RemovedReach<K, V>(h: Hashing<K>, t: seq<seq<Item<K, V>>>, m: map<K, V>, b: nat, i: nat)
    requires TableOk(h, t) && Stores(h, t, m) && b < |t| && i < |t[b]|
    ensures forall k :: k in m && k != t[b][i].key ==> Item(k, m[k]) in t[b := RemoveAt(t[b], i)][Bucket(h, |t|, k)]
  {
    forall k | k in m && k != t[b][i].key
      ensures Item(k, m[k]) in t[b := RemoveAt(t[b], i)][Bucket(h, |t|, k)]
    {
      if Bucket(h, |t|, k) == b {
        OthersStay(t[b], i, Item(k, m[k]));
      }
    }
  }

  // ------------------------------------------------------------------------------------------------
  // Whole runs

  datatype Op<K, V> = OpInsert(key: K, value: V) | OpRemove(key: K) | OpFind(key: K) | OpSize

  datatype Reply<K, V> =
    | Inserted(res: MapResult)
    | Removed(item: Option<Item<K, V>>)
    | Found(value: Option<V>)
    | Size(n: nat)

  ghost function OnTable<K, V>(h: Hashing<K>, t: seq<seq<Item<K, V>>>, op: Op<K, V>)
    : (r: (seq<seq<Item<K, V>>>, Reply<K, V>))
    requires t != []
    ensures r.0 != []
  {
    match op
    case OpInsert(key, value) => var (t', res) := Insert(h, t, key, value); (t', Inserted(res))
    case OpRemove(key) => var (t', out) := Remove(h, t, key); (t', Removed(out))
    case OpFind(key) => (t, Found(Find(h, t, key)))
    case OpSize => (t, Size(Count(t)))
  }

  /** The same operation on a finite map. */
  ghost function OnMap<K(!new), V>(h: Hashing<K>, m: map<K, V>, op: Op<K, V>): (map<K, V>, Reply<K, V>) {
    match op
    case OpInsert(key, value) =>
      if Known(h, m, key) then (m, Inserted(MapKeyDuplicateError)) else (m[key := value], Inserted(MapSuccess))
    case OpRemove(key) =>
      if Known(h, m, key) then
        var k := StoredKey(h, m, key);
        (m - {k}, Removed(Some(Item(k, m[k]))))
      else (m, Removed(None))
    case OpFind(key) => (m, Found(if Known(h, m, key) then Some(m[StoredKey(h, m, key)]) else None))
    case OpSize => (m, Size(|m|))
  }

  ghost function TableRun<K, V>(h: Hashing<K>, t: seq<seq<Item<K, V>>>, ops: seq<Op<K, V>>)
    : (r: (seq<seq<Item<K, V>>>, seq<Reply<K, V>>))
    requires t != []
    ensures r.0 != []
    decreases |ops|
  {
    if ops == [] then (t, [])
    else
      var (t1, reply) := OnTable(h, t, ops[0]);
      var (t2, replies) := TableRun(h, t1, ops[1..]);
      (t2, [reply] + replies)
  }

  ghost function MapRun<K(!new), V>(h: Hashing<K>, m: map<K, V>, ops: seq<Op<K, V>>): (map<K, V>, seq<Reply<K, V>>)
    decreases |ops|
  {
    if ops == [] then (m, [])
    else
      var (m1, reply) := OnMap(h, m, ops[0]);
      var (m2, replies) := MapRun(h, m1, ops[1..]);
      (m2, [reply] + replies)
  }

  lemma StepRefines<K(!new), V>(h: Hashing<K>, t: seq<seq<Item<K, V>>>, m: map<K, V>, op: Op<K, V>)
    requires Agrees(h) && TableOk(h, t) && Stores(h, t, m)
    ensures var (t', reply) := OnTable(h, t, op); var (m', reply') := OnMap(h, m, op);
            reply == reply' && TableOk(h, t') && Stores(h, t', m')
  {
    match op
    case OpInsert(key, value) => InsertRefines(h, t, m, key, value);
    case OpRemove(key) => RemoveRefines(h, t, m, key);
    case OpFind(key) => SearchIsLookup(h, t, m, key);
    case OpSize =>
  }

  /** Every sequence of operations gets from the table the replies a finite map would give. */
  lemma {:induction false} RunRefines<K(!new), V>(h: Hashing<K>, t: seq<seq<Item<K, V>>>, m: map<K, V>,
                                                       ops: seq<Op<K, V>>)
    requires Agrees(h) && TableOk(h, t) && Stores(h, t, m)
    ensures var (t', replies) := TableRun(h, t, ops); var (m', replies') := MapRun(h, m, ops);
            replies == replies' && TableOk(h, t') && Stores(h, t', m')
    decreases |ops|
  {
    if ops != [] {
      StepRefines(h, t, m, ops[0]);
      RunRefines(h, OnTable(h, t, ops[0]).0, OnMap(h, m, ops[0]).0, ops[1..]);
    }
  }

  lemma FreshRunRefines<K(!new), V>(h: Hashing<K>, size: nat, ops: seq<Op<K, V>>)
    requires Agrees(h) && size > 0
    ensures var (t, replies) := TableRun(h, Empty<K, V>(size), ops); var (m, replies') := MapRun(h, map[], ops);
            replies == replies' && TableOk(h, t) && Stores(h, t, m)
  {
    CountEmpty<K, V>(size);
    RunRefines(h, Empty<K, V>(size), map[], ops);
  }
}
