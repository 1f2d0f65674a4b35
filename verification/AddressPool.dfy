/**
 The pool of multicast addresses of PoolAddr/PoolMultyCastAdd.c: which addresses it generates, in which order it hands
 them out, and what giving them back does to it.
 */
module AddressPool {
  import opened Options
  import opened RingQueue

  // ------------------------------------------------------------------------------------------------
  // Addresses in dotted decimal notation

  function Digit(d: nat): (c: char)
    requires d < 10
    ensures '0' <= c <= '9'
  {
    ['0', '1', '2', '3', '4', '5', '6', '7', '8', '9'][d]
  }

  /** What printf makes of %d for a number that is not negative. */
  function Decimal(n: nat): (s: string)
    ensures s != [] && forall i :: 0 <= i < |s| ==> '0' <= s[i] <= '9'
    ensures |s| == 1 <==> n < 10
    ensures |s| <= 2 <==> n < 100
    ensures |s| <= 3 <==> n < 1000
  {
    if n < 10 then [Digit(n)] else Decimal(n / 10) + [Digit(n % 10)]
  }

  /** The number that a string of digits denotes. */
  ghost function Value(s: string): int {
    if s == [] then 0 else 10 * Value(s[..|s| - 1]) + (s[|s| - 1] as int - '0' as int)
  }

  /** The digits denote the number, and there are no leading zeros. */
  lemma {:induction false} DecimalDenotes(n: nat)
    ensures Value(Decimal(n)) == n
    ensures |Decimal(n)| > 1 ==> Decimal(n)[0] != '0'
  {
    var s := Decimal(n);
    if n < 10 {
      assert s[..0] == [];
    } else {
      DecimalDenotes(n / 10);
      assert s[..|s| - 1] == Decimal(n / 10);
      if n < 100 {
        assert s[0] == Decimal(n / 10)[0] == Digit(n / 10);
      }
    }
  }

  function Dotted(addr0: nat, addr1: nat): string {
    "229.1." + Decimal(addr0) + "." + Decimal(addr1)
  }

  function UpperByte(i: nat): nat {
    (i / 254) % 256
  }

  function LowerByte(i: nat): nat {
    i % 254 + 1
  }

  /** The i-th generated address: the two bytes count up, the lower one from 1 to 254. */
  function AddressAt(i: nat): string {
    Dotted(UpperByte(i), LowerByte(i))
  }

  function Addresses(n: nat): (s: seq<string>)
    ensures |s| == n
  {
    seq(n, (i: nat) => AddressAt(i))
  }

  /** The unsigned chars of the generator after one more turn of its loop. */
  lemma NextAddress(i: nat)
    ensures var addr1 := (LowerByte(i) + 1) % 256;
            && LowerByte(i + 1) == (if addr1 == 255 then 1 else addr1)
            && UpperByte(i + 1) == (if addr1 == 255 then (UpperByte(i) + 1) % 256 else UpperByte(i))
  {
    NextUpper(i);
  }

  lemma NextUpper(i: nat)
    ensures UpperByte(i + 1) == if LowerByte(i) == 254 then (UpperByte(i) + 1) % 256 else UpperByte(i)
  {
    var q, r := i / 254, i % 254;
    if r == 253 {
      assert (i + 1) / 254 == q + 1;
    } else {
      assert (i + 1) / 254 == q;
    }
  }

  lemma OneMoreAddress(i: nat)
    ensures Addresses(i) + [AddressAt(i)] == Addresses(i + 1)
  {
  }

  /** The text of the i-th address, read as two decimal numbers behind 229.1: they are the digits of i to base 254. */
  lemma AddressText(i: nat) returns (a: string, b: string)
    requires i < 254 * 256
    ensures AddressAt(i) == "229.1." + a + "." + b
    ensures (forall k :: 0 <= k < |a| ==> '0' <= a[k] <= '9') && forall k :: 0 <= k < |b| ==> '0' <= b[k] <= '9'
    ensures (|a| > 1 ==> a[0] != '0') && (|b| > 1 ==> b[0] != '0')
    ensures i == 254 * Value(a) + Value(b) - 1 && 1 <= Value(b) <= 254 && 0 <= Value(a) <= 255
  {
    a, b := Decimal(UpperByte(i)), Decimal(LowerByte(i));
    DecimalDenotes(UpperByte(i));
    DecimalDenotes(LowerByte(i));
    BytesCount(i);
  }

  lemma FirstAddress()
    ensures AddressAt(0) == "229.1.0.1"
  {
  }

  /** Up to 254 * 256 addresses the bytes are the digits of i to base 254. */
  lemma BytesCount(i: nat)
    requires i < 254 * 256
    ensures i == 254 * UpperByte(i) + (LowerByte(i) - 1) && 1 <= LowerByte(i) <= 254
  {
  }

  lemma BytesInjective(i: nat, j: nat)
    requires i < 254 * 256 && j < 254 * 256 && UpperByte(i) == UpperByte(j) && LowerByte(i) == LowerByte(j)
    ensures i == j
  {
    BytesCount(i);
    BytesCount(j);
  }

  lemma {:induction false} DecimalInjective(a: nat, b: nat)
    requires Decimal(a) == Decimal(b)
    ensures a == b
  {
    var s, t := Decimal(a), Decimal(b);
    assert s[|s| - 1] == Digit(a % 10) && t[|t| - 1] == Digit(b % 10);
    if a >= 10 && b >= 10 {
      assert Decimal(a / 10) == s[..|s| - 1] && Decimal(b / 10) == t[..|t| - 1];
      DecimalInjective(a / 10, b / 10);
    }
  }

  /** The position of the dot separates the two numbers. */
  lemma SplitAtDot(a: string, b: string, c: string, d: string)
    requires '.' !in a && '.' !in c && a + "." + b == c + "." + d
    ensures a == c && b == d
  {
    var s, t := a + "." + b, c + "." + d;
    assert s[|a|] == '.' && t[|c|] == '.';
    assert (forall i :: 0 <= i < |a| ==> s[i] == a[i]) && (forall i :: 0 <= i < |c| ==> t[i] == c[i]);
    assert |a| == |c|;
    assert a == s[..|a|] && c == t[..|a|] && b == s[|a| + 1..] && d == t[|a| + 1..];
  }

  /** Different bytes print differently. */
  lemma DottedInjective(a: nat, b: nat, c: nat, d: nat)
    requires Dotted(a, b) == Dotted(c, d)
    ensures a == c && b == d
  {
    var s, t := Decimal(a) + "." + Decimal(b), Decimal(c) + "." + Decimal(d);
    assert Dotted(a, b) == "229.1." + s && Dotted(c, d) == "229.1." + t;
    assert s == Dotted(a, b)[6..] && t == Dotted(c, d)[6..];
    SplitAtDot(Decimal(a), Decimal(b), Decimal(c), Decimal(d));
    DecimalInjective(a, c);
    DecimalInjective(b, d);
  }

  /** With its terminating NUL the text fits the 17 bytes allocated for it, and the 16 of the server's answer. */
  lemma AddressFits(i: nat)
    ensures |AddressAt(i)| + 1 <= 16
  {
  }

  lemma AddressInjective(i: nat, j: nat)
    requires i < 254 * 256 && j < 254 * 256
    ensures AddressAt(i) == AddressAt(j) <==> i == j
  {
    if AddressAt(i) == AddressAt(j) {
      DottedInjective(UpperByte(i), LowerByte(i), UpperByte(j), LowerByte(j));
      BytesInjective(i, j);
    }
  }

  lemma AddressesRepeat()
    ensures AddressAt(254 * 256) == AddressAt(0)
  {
    assert UpperByte(254 * 256) == 0 && LowerByte(254 * 256) == 1;
  }

  /** The generator repeats itself exactly from address 254 * 256 on, where the upper byte wraps around. */
  lemma AddressesDistinctIff(n: nat)
    ensures (forall i, j :: 0 <= i < j < n ==> Addresses(n)[i] != Addresses(n)[j]) <==> n <= 254 * 256
  {
    if n <= 254 * 256 {
      forall i, j | 0 <= i < j < n
        ensures Addresses(n)[i] != Addresses(n)[j]
      {
        AddressInjective(i, j);
      }
    } else {
      AddressesRepeat();
      assert Addresses(n)[0] == AddressAt(0) && Addresses(n)[254 * 256] == AddressAt(254 * 256);
    }
  }

  // ------------------------------------------------------------------------------------------------
  // The pool

  const CAPACITY: nat := 50

  datatype IPErr = AddrSuccess | AddrInsertFail

  datatype Pool = Pool(ring: Ring<string>, poolSize: nat, destroyed: bool) {
    ghost predicate WellFormed() {
      ring.WellFormed() && poolSize < SIZE_T_RANGE && !destroyed
    }

    function Get(): (Pool, Option<string>)
      requires ring.head < |ring.cells|
    {
      var (ring', addr) := ring.Remove();
      (Pool(ring', (poolSize - 1) % SIZE_T_RANGE, destroyed), addr)
    }

    /** A full pool is destroyed. */
    function Return(addr: string): (Pool, IPErr)
      requires ring.tail < |ring.cells|
    {
      var (ring', res) := ring.Insert(addr);
      if res == QErrOk then (Pool(ring', poolSize, destroyed), AddrSuccess)
      else (Pool(ring', poolSize, true), AddrInsertFail)
    }
  }

  /** The pool as the generator leaves it: every cell holds its address and the oldest is the first. */
  ghost predicate Filled(p: Pool, n: nat) {
    && p.WellFormed() && p.ring.head == 0 && |p.ring.cells| == n && p.ring.Holds(Addresses(n))
  }

  /** In a pool that is only taken from, the k-th address taken is address k modulo the size, for ever. */
  ghost predicate Cycling(p: Pool, taken: nat) {
    && p.WellFormed() && |p.ring.cells| == CAPACITY
    && p.ring.head == taken % CAPACITY
    && forall i :: 0 <= i < CAPACITY ==> p.ring.cells[i] == Some(AddressAt(i))
  }

  lemma FilledCycles(p: Pool)
    requires Filled(p, CAPACITY)
    ensures Cycling(p, 0)
  {
    forall i | 0 <= i < CAPACITY
      ensures p.ring.cells[i] == Some(AddressAt(i))
    {
      assert p.ring.cells[Slot(p.ring.head, i, CAPACITY)] == Some(Addresses(CAPACITY)[i]);
    }
  }

  lemma NextCell(taken: nat)
    ensures Slot(taken % CAPACITY, 1, CAPACITY) == (taken + 1) % CAPACITY
  {
  }

  lemma GetCycles(p: Pool, taken: nat)
    requires Cycling(p, taken)
    ensures var (p', addr) := p.Get(); addr == Some(AddressAt(taken % 50)) && Cycling(p', taken + 1)
  {
    NextCell(taken);
  }

  // ------------------------------------------------------------------------------------------------
  // Conservation

  datatype PoolOp = TakeOne | GiveBack(addr: string)

  /** Addresses are only taken from a pool that has some, and only those out are given back. */
  ghost predicate Disciplined(queued: seq<string>, out: multiset<string>, ops: seq<PoolOp>)
    decreases |ops|
  {
    ops == [] ||
    match ops[0]
    case TakeOne => queued != [] && Disciplined(queued[1..], out + multiset{queued[0]}, ops[1..])
    case GiveBack(addr) => addr in out && Disciplined(queued + [addr], out - multiset{addr}, ops[1..])
  }

  /** What the pool and the handed-out addresses become; ok says that no operation failed. */
  ghost function PoolRun(p: Pool, out: multiset<string>, ops: seq<PoolOp>): (r: (Pool, multiset<string>, bool))
    requires p.ring.head < |p.ring.cells| && p.ring.tail < |p.ring.cells|
    decreases |ops|
  {
    if ops == [] then (p, out, true)
    else
      match ops[0]
      case TakeOne =>
        var (p1, addr) := p.Get();
        if addr == None then (p1, out, false) else PoolRun(p1, out + multiset{addr.value}, ops[1..])
      case GiveBack(addr) =>
        var (p1, res) := p.Return(addr);
        if res != AddrSuccess then (p1, out, false) else PoolRun(p1, out - multiset{addr}, ops[1..])
  }

  /** The pool holds some of the addresses of all, the others are out. */
  ghost predicate Accounted(p: Pool, out: multiset<string>, all: multiset<string>) {
    !p.destroyed && exists queued :: p.ring.Holds(queued) && multiset(queued) + out == all
  }

  lemma TakeConserves(p: Pool, queued: seq<string>, out: multiset<string>)
    requires p.WellFormed() && p.ring.Holds(queued) && queued != []
    ensures var (p', addr) := p.Get();
            && addr == Some(queued[0]) && p'.WellFormed() && p'.ring.Holds(queued[1..])
            && |p'.ring.cells| == |p.ring.cells|
    ensures multiset(queued[1..]) + (out + multiset{queued[0]}) == multiset(queued) + out
  {
    RemoveIsDequeue(p.ring, queued);
    assert queued == [queued[0]] + queued[1..];
  }

  lemma GiveConserves(p: Pool, queued: seq<string>, out: multiset<string>, addr: string)
    requires p.WellFormed() && p.ring.Holds(queued) && |queued| < |p.ring.cells| && addr in out
    ensures var (p', res) := p.Return(addr);
            && res == AddrSuccess && p'.WellFormed() && p'.ring.Holds(queued + [addr])
            && |p'.ring.cells| == |p.ring.cells|
    ensures multiset(queued + [addr]) + (out - multiset{addr}) == multiset(queued) + out
  {
    InsertIsEnqueue(p.ring, queued, addr);
  }

  ghost function Takes(ops: seq<PoolOp>): nat {
    if ops == [] then 0 else (if ops[0].TakeOne? then 1 else 0) + Takes(ops[1..])
  }

  lemma OneTaken(x: int, k: nat)
    ensures ((x - 1) % SIZE_T_RANGE - k) % SIZE_T_RANGE == (x - (1 + k)) % SIZE_T_RANGE
  {
  }

  /** The pool's counter falls by one for each address taken and does not rise when one is given back. */
  lemma {:induction false} CounterFalls(p: Pool, out: multiset<string>, ops: seq<PoolOp>)
    requires p.ring.head < |p.ring.cells| && p.ring.tail < |p.ring.cells| && p.poolSize < SIZE_T_RANGE
    ensures var (p', out', ok) := PoolRun(p, out, ops);
            ok ==> p'.poolSize == (p.poolSize - Takes(ops)) % 0x1_0000_0000_0000_0000
    decreases |ops|
  {
    if ops != [] {
      match ops[0] {
        case TakeOne =>
          var (p1, addr) := p.Get();
          if addr.Some? {
            CounterFalls(p1, out + multiset{addr.value}, ops[1..]);
            OneTaken(p.poolSize, Takes(ops[1..]));
          }
        case GiveBack(addr) =>
          var (p1, res) := p.Return(addr);
          if res == AddrSuccess {
            CounterFalls(p1, out - multiset{addr}, ops[1..]);
          }
      }
    }
  }

  /** Giving back fails, and destroys the pool, exactly when every cell is taken. */
  lemma GiveFailsIff(p: Pool, queued: seq<string>, addr: string)
    requires p.WellFormed() && p.ring.Holds(queued)
    ensures var (p', res) := p.Return(addr);
            && (res == AddrInsertFail <==> |queued| == |p.ring.cells|) && (p'.destroyed <==> res == AddrInsertFail)
  {
    InsertIsEnqueue(p.ring, queued, addr);
  }

  /** Nothing is lost or duplicated and giving back never finds the pool full. */
  lemma {:induction false} RunConserves(p: Pool, queued: seq<string>, out: multiset<string>, ops: seq<PoolOp>)
    requires p.WellFormed() && p.ring.Holds(queued) && |queued| + |out| <= |p.ring.cells|
    requires Disciplined(queued, out, ops)
    ensures var (p', out', ok) := PoolRun(p, out, ops); ok && Accounted(p', out', multiset(queued) + out)
    decreases |ops|
  {
    if ops != [] {
      match ops[0] {
        case TakeOne =>
          TakeConserves(p, queued, out);
          RunConserves(p.Get().0, queued[1..], out + multiset{queued[0]}, ops[1..]);
        case GiveBack(addr) =>
          assert |out - multiset{addr}| == |out| - 1;
          GiveConserves(p, queued, out, addr);
          RunConserves(p.Return(addr).0, queued + [addr], out - multiset{addr}, ops[1..]);
      }
    }
  }

  lemma {:induction false} NoDuplicates(s: seq<string>, a: string)
    requires forall i, j :: 0 <= i < j < |s| ==> s[i] != s[j]
    ensures multiset(s)[a] <= 1
  {
    if s != [] {
      NoDuplicates(s[1..], a);
      assert s == [s[0]] + s[1..];
      assert s[0] !in s[1..];
    }
  }

  /** From the filled pool on, at every moment each generated address is either queued or out, exactly once. */
  lemma FilledPoolConserves(p: Pool, n: nat, ops: seq<PoolOp>)
    requires Filled(p, n) && n <= 254 * 256 && Disciplined(Addresses(n), multiset{}, ops)
    ensures var (p', out, ok) := PoolRun(p, multiset{}, ops); ok && Accounted(p', out, multiset(Addresses(n)))
    ensures forall a :: multiset(Addresses(n))[a] <= 1
  {
    RunConserves(p, Addresses(n), multiset{}, ops);
    AddressesDistinctIff(n);
    forall a: string
      ensures multiset(Addresses(n))[a] <= 1
    {
      NoDuplicates(Addresses(n), a);
    }
  }
}
