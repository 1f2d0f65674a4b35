/**
 The hash maps of ServerDB/DataBase.c: their hash and equality, and what a HashMap object keyed by names holds.
 */
module DatabaseKeys {
  import opened Options
  import opened HashTable
  import opened GenericHash
  import RingQueue

  const CAPACITY: nat := 50
  const USER_GROUPS_CAPACITY: nat := 50

  /** A char of the source is signed. */
  function SignedChar(c: char): int {
    var code := c as int % 256;
    if code < 128 then code else code - 256
  }

  function CharSum(s: string): int {
    if s == [] then 0 else CharSum(s[..|s| - 1]) + SignedChar(s[|s| - 1])
  }

  /** The sum of the characters; returned as a size_t, a negative sum wraps around. */
  method HashFunctionUsers(key: string) returns (sum: nat)
    ensures sum == CharSum(key) % RingQueue.SIZE_T_RANGE
  {
    var total := 0;
    for i := 0 to |key|
      invariant total == CharSum(key[..i])
    {
      assert key[..i + 1][..i] == key[..i];
      total := total + SignedChar(key[i]);
    }
    assert key[..|key|] == key;
    sum := total % RingQueue.SIZE_T_RANGE;
  }

  /** A char from 128 on counts as negative. */
  lemma CharSumIs(s: string, c: char)
    requires c as int < 256
    ensures CharSum("") == 0
    ensures CharSum(s + [c]) == CharSum(s) + if c as int < 128 then c as int else c as int - 256
  {
    assert (s + [c])[..|s|] == s;
  }

  /** The hash and the equality that users and groups share. */
  const KEYS: Hashing<string> :=
    Hashing((s: string) => CharSum(s) % RingQueue.SIZE_T_RANGE, (a: string, b: string) => if a == b then 1 else 0)

  lemma KeysAgree()
    ensures Agrees(KEYS)
    ensures forall s :: KEYS.hash(s) == CharSum(s) % 0x1_0000_0000_0000_0000
  {
  }

  lemma KnownIsIn<V>(m: map<string, V>, key: string)
    ensures Known(KEYS, m, key) <==> key in m
    ensures key in m ==> StoredKey(KEYS, m, key) == key
  {
    if key in m {
      assert KEYS.equal(key, key) == 1;
    }
  }

  /** They agree, so such hash maps are maps: a run on any table gives a map's replies. */
  lemma KeysMakeMaps<V>(size: nat, ops: seq<Op<string, V>>)
    requires size > 0
    ensures Agrees(KEYS)
    ensures TableRun(KEYS, Empty<string, V>(size), ops).1 == MapRun(KEYS, map[], ops).1
    ensures forall m: map<string, V>, k: string :: Known(KEYS, m, k) <==> k in m
  {
    FreshRunRefines<string, V>(KEYS, size, ops);
    forall m: map<string, V>, k: string
      ensures Known(KEYS, m, k) <==> k in m
    {
      KnownIsIn(m, k);
    }
  }

  // ------------------------------------------------------------------------------------------------
  // A hash map object holding a map

  ghost predicate MapIs<V>(h: HashMap<string, V>, m: map<string, V>)
    reads h, h.Repr
    ensures MapIs(h, m) ==> h in h.Repr
  {
    h.Valid() && h.hashing == KEYS && Stores(KEYS, h.table, m)
  }

  method CreateMap<V(==)>(capacity: nat) returns (h: HashMap<string, V>)
    requires capacity > 0
    ensures fresh(h.Repr) && MapIs(h, map[])
  {
    var created := Create<string, V>(capacity, KEYS);
    h := created;
    CountEmpty<string, V>(h.allocSize);
  }

  method FindIn<V(==)>(h: HashMap<string, V>, ghost m: map<string, V>, key: string) returns (value: Option<V>)
    requires MapIs(h, m)
    ensures value == if key in m then Some(m[key]) else None
  {
    KeysAgree();
    SearchIsLookup(KEYS, h.table, m, key);
    KnownIsIn(m, key);
    value := h.Find(key);
  }

  method InsertIn<V(==)>(h: HashMap<string, V>, ghost m: map<string, V>, key: string, value: V) returns (res: MapResult)
    requires MapIs(h, m)
    modifies h.Repr
    ensures fresh(h.Repr - old(h.Repr))
    ensures key in m ==> res == MapKeyDuplicateError && MapIs(h, m)
    ensures key !in m ==> res == MapSuccess && MapIs(h, m[key := value])
  {
    KeysAgree();
    InsertRefines(KEYS, h.table, m, key, value);
    KnownIsIn(m, key);
    res := h.Insert(key, value);
  }

  method RemoveFrom<V(==)>(h: HashMap<string, V>, ghost m: map<string, V>, key: string)
    returns (item: Option<Item<string, V>>)
    requires MapIs(h, m)
    modifies h.Repr
    ensures fresh(h.Repr - old(h.Repr))
    ensures key in m ==> item == Some(Item(key, m[key])) && MapIs(h, m - {key})
    ensures key !in m ==> item == None && MapIs(h, m)
  {
    KeysAgree();
    RemoveRefines(KEYS, h.table, m, key);
    KnownIsIn(m, key);
    item := h.Remove(key);
  }
}
