/**
 The prime search that sizes a hash table (GenericHash/GenericHash.c:58-94). size_t is taken as unbounded.
 */
module Primes {
  ghost predicate Prime(n: nat) {
    n >= 2 && forall d :: 2 <= d < n ==> n % d != 0
  }

  ghost predicate NoneBelow(n: nat, i: nat) {
    forall d :: 2 <= d < i ==> n % d != 0
  }

  /** Trial division by 2 and by the odd numbers up to the square root is exact, but for taking 1 as a prime. */
  method CheckIfPrime(numToCheck: nat) returns (primeNum: bool)
    ensures primeNum <==> numToCheck == 1 || Prime(numToCheck)
  {
    if numToCheck == 2 {
      return true;
    }
    if numToCheck % 2 == 0 {
      return false;
    }
    var i := 3;
    while i * i <= numToCheck
      invariant i >= 3 && i % 2 == 1
      invariant NoneBelow(numToCheck, i)
      decreases numToCheck - i
    {
      if numToCheck % i == 0 {
        NoSmallSquare(i, numToCheck);
        return false;
      }
      NoneBelowStep(numToCheck, i);
      NoSmallSquare(i, numToCheck);
      i := i + 2;
    }
    if numToCheck >= 3 {
      NoDivisorAtAll(numToCheck, i);
    }
    return true;
  }

  /** The search ends because there is a prime above every number. */
  method FindPrimeLargerThan(number: nat) returns (p: nat)
    ensures p >= 1 && p >= number
    ensures number <= 1 ==> p == 1
    ensures number >= 2 ==> Prime(p) && forall q :: number <= q < p ==> !Prime(q)
  {
    ghost var bound := PrimeAbove(number);
    p := number;
    var found := CheckIfPrime(p);
    while !found
      invariant number <= p <= bound
      invariant found <==> p == 1 || Prime(p)
      invariant number <= 1 ==> p <= 1
      invariant forall q :: number <= q < p ==> !Prime(q)
      decreases bound - p, !found
    {
      p := p + 1;
      found := CheckIfPrime(p);
    }
  }

  // ------------------------------------------------------------------------------------------------
  // Trial division

  lemma NoSmallSquare(i: nat, n: nat)
    requires i >= 2 && i * i <= n
    ensures i + i <= n
  {
  }

  lemma EvenDivisor(n: nat, d: nat)
    requires n % 2 == 1 && d > 0 && d % 2 == 0
    ensures n % d != 0
  {
    if n % d == 0 {
      EvenMultiple(n, d);
    }
  }

  lemma NoneBelowStep(n: nat, i: nat)
    requires n % 2 == 1 && i > 0 && i % 2 == 1 && NoneBelow(n, i) && n % i != 0
    ensures NoneBelow(n, i + 2)
  {
    EvenDivisor(n, i + 1);
  }

  lemma EvenMultiple(n: nat, d: nat)
    requires d > 0 && d % 2 == 0 && n % d == 0
    ensures n % 2 == 0
  {
    var q, h := n / d, d / 2;
    assert n == d * q && d == 2 * h;
    assert n == 2 * (h * q);
  }

  /** A divisor at or above the square root has a partner below it. */
  lemma NoDivisorAtAll(n: nat, i: nat)
    requires n >= 3 && i >= 2 && i * i > n
    requires NoneBelow(n, i)
    ensures Prime(n)
  {
    forall d | 2 <= d < n
      ensures n % d != 0
    {
      if n % d == 0 && d >= i {
        var q := n / d;
        assert n == d * q;
        Partner(n, d, q, i);
        MultipleMod(q, d);
        assert false;
      }
    }
  }

  lemma Partner(n: nat, d: nat, q: nat, i: nat)
    requires n == d * q && i <= d < n && i * i > n && i >= 2
    ensures 2 <= q < i
  {
    if q >= i {
      MulMono(i, d, q);
      MulMono(i, q, i);
    } else if q <= 1 {
      MulMono(q, 1, d);
    }
  }

  lemma MulMono(a: nat, b: nat, c: nat)
    requires a <= b
    ensures a * c <= b * c
  {
  }

  lemma {:induction false} MultipleMod(q: nat, k: nat)
    requires q > 0
    ensures (k * q) % q == 0
  {
    var r := (k * q) % q;
    var x := k - (k * q) / q;
    assert k * q == q * ((k * q) / q) + r;
    assert q * x == r;
    if x >= 1 {
      MulMono(1, x, q);
    } else if x <= -1 {
      MulMono(1, -x, q);
    }
  }

  // ------------------------------------------------------------------------------------------------
  // There is no largest prime

  ghost function Factorial(n: nat): (f: nat)
    ensures f >= 1
  {
    if n == 0 then 1 else n * Factorial(n - 1)
  }

  lemma {:induction false} DividesFactorial(d: nat, n: nat) returns (k: nat)
    requires 1 <= d <= n
    ensures Factorial(n) == d * k
  {
    if d == n {
      k := Factorial(n - 1);
    } else {
      var j := DividesFactorial(d, n - 1);
      k := n * j;
      assert n * (d * j) == d * (n * j);
    }
  }

  lemma DivisorOfDivisor(n: nat, p: nat, e: nat)
    requires p > 0 && e > 0 && n % p == 0 && p % e == 0
    ensures n % e == 0
  {
    var a, b := p / e, n / p;
    assert p == e * a && n == p * b;
    Reassociate(e, a, b);
    MultipleMod(e, a * b);
  }

  lemma Reassociate(e: nat, a: nat, b: nat)
    ensures (e * a) * b == (a * b) * e
  {
  }

  lemma LeastDivisorIsPrime(n: nat, d: nat) returns (p: nat)
    requires 2 <= d <= n && forall e :: 2 <= e < d ==> n % e != 0
    ensures Prime(p) && n % p == 0
    decreases n - d
  {
    if n % d == 0 {
      p := d;
      forall e | 2 <= e < p
        ensures p % e != 0
      {
        if p % e == 0 {
          DivisorOfDivisor(n, p, e);
        }
      }
    } else {
      p := LeastDivisorIsPrime(n, d + 1);
    }
  }

  /** Euclid: a prime divisor of n! + 1 lies above n. */
  lemma PrimeAbove(n: nat) returns (p: nat)
    ensures Prime(p) && p >= n
  {
    var m := Factorial(n) + 1;
    p := LeastDivisorIsPrime(m, 2);
    if p < n {
      var k := DividesFactorial(p, n);
      var j := m / p;
      assert m == p * j;
      assert p * (j - k) == 1;
      assert false by {
        UnitProduct(p, j - k);
      }
    }
  }

  lemma UnitProduct(p: nat, x: int)
    requires p >= 2
    ensures p * x != 1
  {
    if x >= 1 {
      assert p * x >= 2 * x;
    } else {
      assert p * x <= 0;
    }
  }
}
