/**
 The address pool object of PoolAddr/PoolMultyCastAdd.c: a queue of addresses and a counter, proved against the
 functions of module AddressPool.
 */
module PoolAddr {
  import opened Options
  import opened RingQueue
  import opened GenericQueue
  import opened AddressPool

  class IPPoolAddr {
    const queueAddr: Queue<string>
    var poolSize: nat
    var destroyed: bool

    ghost predicate Valid()
      reads this, queueAddr, queueAddr.queueArray
    {
      queueAddr.Valid() && View().WellFormed()
    }

    ghost function View(): Pool
      reads this, queueAddr, queueAddr.queueArray
    {
      Pool(queueAddr.View(), poolSize, destroyed)
    }

    constructor (capacity: nat)
      requires 1 < capacity <= MAX_CELLS
      ensures Valid() && fresh(queueAddr) && fresh(queueAddr.queueArray)
      ensures Filled(View(), capacity) && poolSize == capacity
    {
      queueAddr := new Queue(capacity);
      poolSize, destroyed := capacity, false;
      new;
      InsertAllIPAddrToList(capacity);
    }

    /** addr0 and addr1 are unsigned chars. */
    method InsertAllIPAddrToList(capacity: nat)
      requires 1 < capacity <= MAX_CELLS && Valid() && queueAddr.View() == NewRing(capacity)
      modifies queueAddr, queueAddr.queueArray
      ensures Valid() && Filled(View(), capacity)
    {
      var addr1, addr0 := 1, 0;
      assert Addresses(0) == [];
      for i := 0 to capacity
        invariant Valid() && queueAddr.View().head == 0 && queueAddr.size == capacity
        invariant addr0 == UpperByte(i) && addr1 == LowerByte(i)
        invariant queueAddr.View().Holds(Addresses(i))
      {
        var newIP := Dotted(addr0, addr1);
        InsertIsEnqueue(queueAddr.View(), Addresses(i), newIP);
        var res := queueAddr.Insert(newIP);
        NextAddress(i);
        OneMoreAddress(i);
        addr1 := (addr1 + 1) % 256;
        if addr1 == 255 {
          addr1 := 1;
          addr0 := (addr0 + 1) % 256;
        }
      }
    }

    method GetIPAddress() returns (ipAddr: Option<string>)
      requires Valid()
      modifies this, queueAddr
      ensures Valid() && (View(), ipAddr) == old(View()).Get()
    {
      ipAddr := queueAddr.Remove();
      poolSize := (poolSize - 1) % SIZE_T_RANGE;
    }

    /** On success the caller's pointer is cleared; a full queue is destroyed with the pool still pointing to it. */
    method ReturnIPAddress(ipAddress: string) returns (res: IPErr, left: Option<string>)
      requires Valid()
      modifies this, queueAddr, queueAddr.queueArray
      ensures (View(), res) == old(View()).Return(ipAddress)
      ensures Valid() <==> res == AddrSuccess
      ensures left == if res == AddrSuccess then None else Some(ipAddress)
    {
      var qres := queueAddr.Insert(ipAddress);
      if qres != QErrOk {
        destroyed := true;
        return AddrInsertFail, Some(ipAddress);
      }
      return AddrSuccess, None;
    }
  }
}
