/**
 What ServerDB/DataBase.c does with user names if its keys are taken as the pointers they are. Every register and login
 request lies in the same receive buffer, so all keys of the user map are one pointer, and whatever name was stored
 there, each key reads as the name of the request being served.
 */
module SharedKeys {
  import opened Options
  import opened Sequences
  import opened HashTable
  import opened DatabaseKeys

  /** Hash and equality of the pointer, while the buffer holds this name. */
  function BufferKeys(name: string): Hashing<()> {
    Hashing((p: ()) => KEYS.hash(name), (p: (), q: ()) => KEYS.equal(name, name))
  }

  datatype Registration = Registration(name: string, psw: string)

  /** The user map after these requests to register, each of them inserted unless it is found. */
  ghost function Registered(regs: seq<Registration>, size: nat): (t: seq<seq<Item<(), string>>>)
    requires size > 0
    ensures |t| == size
  {
    if regs == [] then Empty(size)
    else Insert(BufferKeys(Last(regs).name), Registered(Front(regs), size), (), Last(regs).psw).0
  }

  /** The password of the first registration whose name falls in the same bucket. */
  ghost function FirstInBucket(regs: seq<Registration>, size: nat, name: string): Option<string>
    requires size > 0
  {
    if regs == [] then None
    else if FirstInBucket(Front(regs), size, name).Some? then FirstInBucket(Front(regs), size, name)
    else if Bucket(KEYS, size, Last(regs).name) == Bucket(KEYS, size, name) then Some(Last(regs).psw)
    else None
  }

  /** A lookup finds something exactly when its bucket is not empty, and then the first user that fell in it. */
  lemma {:induction false} LookupFindsBucket(regs: seq<Registration>, size: nat, name: string)
    requires size > 0
    ensures Find(BufferKeys(name), Registered(regs, size), ()) == FirstInBucket(regs, size, name)
    ensures |Registered(regs, size)[Bucket(KEYS, size, name)]| <= 1
  {
    if regs != [] {
      LookupFindsBucket(Front(regs), size, name);
    }
  }

  /** So a name that was never registered is taken exactly if some registered name shares its bucket. */
  lemma {:induction false} TakenIff(regs: seq<Registration>, size: nat, name: string)
    requires size > 0
    ensures Find(BufferKeys(name), Registered(regs, size), ()).Some? <==>
            exists i :: 0 <= i < |regs| && KEYS.hash(regs[i].name) % size == KEYS.hash(name) % size
  {
    LookupFindsBucket(regs, size, name);
    if regs != [] {
      TakenIff(Front(regs), size, name);
      LookupFindsBucket(Front(regs), size, name);
      assert regs == Front(regs) + [Last(regs)];
    }
  }

  /** After ab has registered, the name ba, which nobody has registered, is taken, whatever the size of the table. */
  lemma AnagramTaken(size: nat, psw: string)
    requires size > 0
    ensures Find(BufferKeys("ba"), Registered([Registration("ab", psw)], size), ()) == Some(psw)
  {
    var regs := [Registration("ab", psw)];
    LookupFindsBucket(regs, size, "ba");
    assert Front(regs) == [];
    assert "ab"[..1] == "a" && "ba"[..1] == "b" && "a"[..0] == "" && "b"[..0] == "";
    assert CharSum("ab") == CharSum("ba") == 195;
  }
}
