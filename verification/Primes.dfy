/** Four tests for primality: trial division, odd trial division, the sieve, and the hybrid of
    trial division and sieve. */
module Primes {

  // ---------- Primes ----------

  ghost predicate Divides(d: int, n: int)
    requires d > 0
  {
    n % d == 0
  }

  ghost predicate Prime(n: int) {
    n >= 2 && forall d :: 2 <= d < n ==> !Divides(d, n)
  }

  /** q is the smallest prime above p. */
  ghost predicate NextPrime(p: int, q: int) {
    Prime(q) && q > p && forall n :: p < n < q ==> !Prime(n)
  }

  // ---------- Division ----------

  lemma DivisionUnique(m: nat, d: nat, q: nat, r: nat)
    requires r < d && m == q * d + r
    ensures m % d == r
  {
    var q' := m / d;
    assert m == q' * d + m % d;
    assert q' < q ==> (q' + 1) * d <= q * d;
    assert q < q' ==> (q + 1) * d <= q' * d;
  }

  lemma ProductModulo(k: nat, d: nat)
    requires d > 0
    ensures Divides(d, k * d)
  {
    DivisionUnique(k * d, d, k, 0);
  }

  lemma ProductAssociative(a: nat, b: nat, c: nat)
    ensures a * (b * c) == (a * b) * c
  {}

  lemma ProductExchange(a: nat, b: nat, c: nat)
    ensures (a * b) * c == (a * c) * b
  {}

  lemma DividesTransitive(n: nat, i: nat, e: nat)
    requires i > 0 && e > 0 && Divides(i, n) && Divides(e, i)
    ensures Divides(e, n)
  {
    var a, b := n / i, i / e;
    assert n == a * i && i == b * e;
    ProductAssociative(a, b, e);
    ProductModulo(a * b, e);
  }

  lemma DividesMultiple(d: nat, f: nat, n: nat)
    requires d > 0 && Divides(d, f)
    ensures Divides(d, f * n)
  {
    var k := f / d;
    assert f == k * d;
    ProductExchange(k, d, n);
    ProductModulo(k * n, d);
  }

  lemma Cofactor(n: nat, d: nat) returns (c: nat)
    requires 2 <= d < n && Divides(d, n)
    ensures n == c * d && 2 <= c < n && Divides(c, n)
  {
    c := n / d;
    assert n == c * d;
    assert c == 0 ==> n == 0;
    assert c == 1 ==> n == d;
    ProductMonotone(2, d, c);
    ProductModulo(d, c);
  }

  /** A composite number has a divisor whose square does not exceed it. */
  lemma SmallDivisor(n: nat, d: nat) returns (e: nat)
    requires 2 <= d < n && Divides(d, n)
    ensures 2 <= e < n && Divides(e, n) && e * e <= n
  {
    var c := Cofactor(n, d);
    if d <= c {
      ProductMonotone(d, c, d);
      e := d;
    } else {
      ProductMonotone(c, d, c);
      e := c;
    }
  }

  lemma NoSmallDivisor(n: nat, i: nat)
    requires n >= 2 && i * i > n
    requires forall d :: 2 <= d < i && d < n ==> !Divides(d, n)
    ensures Prime(n)
  {
    forall d | 2 <= d < n
      ensures !Divides(d, n)
    {
      if Divides(d, n) {
        var e := SmallDivisor(n, d);
        SquareMonotone(i, e);
      }
    }
  }

  lemma ProductMonotone(a: nat, b: nat, c: nat)
    requires a <= b
    ensures a * c <= b * c
  {}

  lemma SquareMonotone(a: nat, b: nat)
    ensures a <= b ==> a * a <= b * b
  {}

  // ---------- Euclid's theorem ----------

  function Factorial(n: nat): (f: nat)
    ensures f >= 1
  {
    if n == 0 then 1 else Factorial(n - 1) * n
  }

  lemma {:induction false} DividesFactorial(d: nat, n: nat)
    requires 1 <= d <= n
    ensures Divides(d, Factorial(n))
  {
    if d == n {
      ProductModulo(Factorial(n - 1), n);
    } else {
      DividesFactorial(d, n - 1);
      DividesMultiple(d, Factorial(n - 1), n);
    }
  }

  lemma LeastDivisor(m: nat, d: nat) returns (q: nat)
    requires 2 <= d <= m
    requires forall e :: 2 <= e < d ==> !Divides(e, m)
    ensures Prime(q) && Divides(q, m)
    decreases m - d
  {
    if Divides(d, m) {
      q := d;
      forall e | 2 <= e < d
        ensures !Divides(e, d)
      {
        if Divides(e, d) {
          DividesTransitive(m, d, e);
        }
      }
    } else {
      q := LeastDivisor(m, d + 1);
    }
  }

  lemma PrimeAbove(p: nat) returns (q: nat)
    ensures Prime(q) && q > p
  {
    var m := Factorial(p) + 1;
    q := LeastDivisor(m, 2);
    if q <= p {
      DividesFactorial(q, p);
      var k := Factorial(p) / q;
      DivisionUnique(m, q, k, 1);
    }
  }

  // ---------- Trial division ----------

  class OnTheFlyPrimeTable {
    constructor () {}

    method IsPrime(n: int) returns (prime: bool)
      ensures prime <==> Prime(n)
    {
      if n <= 1 {
        return false;
      }
      var i := 2;
      while i * i <= n
        invariant 2 <= i
        invariant forall d :: 2 <= d < i ==> !Divides(d, n)
        decreases n - i
      {
        assert i < i * i;
        if n % i == 0 {
          assert Divides(i, n);
          return false;
        }
        i := i + 1;
      }
      NoSmallDivisor(n, i);
      return true;
    }

    method GetNextPrime(p: int) returns (next: int)
      ensures p >= 0 ==> NextPrime(p, next)
      ensures p < 0 ==> next == -1
    {
      ghost var bound := 0;
      if p >= 0 {
        bound := PrimeAbove(p);
      }
      var n := p + 1;
      while n > 0
        invariant p >= 0 ==> p < n <= bound
        invariant p < 0 ==> n == p + 1
        invariant forall k :: p < k < n ==> !Prime(k)
        decreases bound - n
      {
        var prime := IsPrime(n);
        if prime {
          return n;
        }
        n := n + 1;
      }
      return -1;
    }
  }

  /** Trial division by odd numbers. */
  method IsPrime(n: int) returns (prime: bool)
    ensures prime <==> Prime(n)
  {
    if n <= 1 {
      return false;
    }
    if n % 2 == 0 {
      assert Divides(2, n);
      return n == 2;
    }
    var i := 3;
    while true
      invariant i >= 3 && i % 2 == 1 && i <= n + 2
      invariant forall d :: 2 <= d < i && d < n ==> !Divides(d, n)
      decreases n - i
    {
      if i > n / i {
        SquareAbove(n, i);
        NoSmallDivisor(n, i);
        break;
      }
      QuotientBelow(n, i);
      if n % i == 0 {
        assert Divides(i, n);
        return false;
      }
      OddNumber(n, i + 1);
      i := i + 2;
    }
    return true;
  }

  lemma SquareAbove(n: nat, i: nat)
    requires 0 < i && i > n / i
    ensures i * i > n
  {
    var q := n / i;
    assert n == q * i + n % i;
    ProductMonotone(q + 1, i, i);
  }

  lemma QuotientBelow(n: nat, i: nat)
    requires 3 <= i <= n / i
    ensures i + 2 <= n
  {
    var q := n / i;
    assert n == q * i + n % i;
    ProductMonotone(i, q, i);
    ProductMonotone(3, i, i);
  }

  lemma OddNumber(n: nat, d: nat)
    requires n % 2 == 1 && d > 0 && d % 2 == 0
    ensures !Divides(d, n)
  {
    if Divides(d, n) {
      DividesTransitive(n, d, 2);
    }
  }

  // ---------- The sieve ----------

  class PreCalculatedPrimeTable {
    const size: nat
    const isPrime: array<bool>

    ghost predicate Valid()
      reads this, isPrime
    {
      isPrime.Length == size && forall n :: 0 <= n < size ==> (isPrime[n] <==> Prime(n))
    }

    /** A table needs room for 0 and 1, which it marks unconditionally. */
    constructor (max: nat)
      requires max >= 1
      ensures Valid() && size == max + 1 && fresh(isPrime)
    {
      size := max + 1;
      isPrime := new bool[max + 1];
      new;
      CalculatePrimesUpTo(isPrime, max);
    }

    method IsPrime(n: int) returns (prime: bool)
      requires Valid()
      ensures prime <==> n < size && Prime(n)
    {
      return 0 <= n < size && isPrime[n];
    }

    method GetNextPrime(p: int) returns (next: int)
      requires Valid() && p >= -1
      ensures next == -1 ==> forall n :: p < n < size ==> !Prime(n)
      ensures next != -1 ==> NextPrime(p, next) && next < size
    {
      var n := p + 1;
      while n < size
        invariant p < n
        invariant forall k :: p < k < n ==> !Prime(k)
      {
        if isPrime[n] {
          return n;
        }
        n := n + 1;
      }
      return -1;
    }
  }

  /** No number below i, except itself, divides n. */
  ghost predicate Unmarked(n: nat, i: nat) {
    n >= 2 && forall d :: 2 <= d < i && d < n ==> !Divides(d, n)
  }

  lemma CompositeMarksNothing(n: nat, i: nat)
    requires i >= 2 && !Prime(i)
    ensures Unmarked(n, i + 1) <==> Unmarked(n, i)
  {
    if Divides(i, n) {
      var e :| 2 <= e < i && Divides(e, i);
      DividesTransitive(n, i, e);
    }
  }

  method CalculatePrimesUpTo(isPrime: array<bool>, max: nat)
    requires max >= 1 && isPrime.Length == max + 1
    modifies isPrime
    ensures forall n :: 0 <= n <= max ==> (isPrime[n] <==> Prime(n))
  {
    forall n | 0 <= n <= max {
      isPrime[n] := true;
    }
    isPrime[0] := false;
    isPrime[1] := false;
    for i := 2 to max + 1
      invariant forall n :: 0 <= n <= max ==> (isPrime[n] <==> Unmarked(n, i))
    {
      UnmarkedStep(i, max);
      if !isPrime[i] {
        continue;
      }
      MarkMultiples(isPrime, max, i);
    }
    UnmarkedStep(max + 1, max);
  }

  lemma UnmarkedStep(i: nat, max: nat)
    requires i >= 2
    ensures Unmarked(i, i) <==> Prime(i)
    ensures forall n: nat :: n <= max ==>
              (Unmarked(n, i + 1) <==> Unmarked(n, i) && (Unmarked(i, i) ==> !MarkedBelow(n, i, max + 1)))
    ensures i > max ==> forall n: nat :: n <= max ==> (Unmarked(n, i) <==> Prime(n))
  {
    if !Prime(i) {
      forall n: nat { CompositeMarksNothing(n, i); }
    }
  }

  /** The inner loop of the sieve. */
  method MarkMultiples(isPrime: array<bool>, max: nat, i: nat)
    requires i >= 2 && isPrime.Length == max + 1
    modifies isPrime
    ensures forall n :: 0 <= n <= max ==> (isPrime[n] <==> old(isPrime[n]) && !MarkedBelow(n, i, max + 1))
  {
    var j := 2 * i;
    FirstMultiple(i);
    while j <= max
      invariant i < j && Divides(i, j)
      invariant forall n :: 0 <= n <= max ==> (isPrime[n] <==> old(isPrime[n]) && !MarkedBelow(n, i, j))
      decreases max - j
    {
      isPrime[j] := false;
      MarkMultiple(i, j);
      j := j + i;
    }
  }

  ghost predicate MarkedBelow(n: nat, i: nat, j: nat) {
    i > 0 && i < n < j && Divides(i, n)
  }

  lemma MarkMultiple(i: nat, j: nat)
    requires 0 < i < j && Divides(i, j)
    ensures Divides(i, j + i)
    ensures forall n: nat :: MarkedBelow(n, i, j + i) <==> MarkedBelow(n, i, j) || n == j
  {
    var k := j / i;
    assert j == k * i && j + i == (k + 1) * i;
    ProductModulo(k + 1, i);
    forall n: nat
      ensures MarkedBelow(n, i, j + i) <==> MarkedBelow(n, i, j) || n == j
    {
      if j < n < j + i {
        DivisionUnique(n, i, k, n - j);
      }
    }
  }

  lemma FirstMultiple(i: nat)
    requires i > 0
    ensures Divides(i, 2 * i)
    ensures forall n: nat :: !MarkedBelow(n, i, 2 * i)
  {
    ProductModulo(2, i);
    forall n: nat
      ensures !MarkedBelow(n, i, 2 * i)
    {
      if i < n < 2 * i {
        DivisionUnique(n, i, 1, n - i);
      }
    }
  }

  // ---------- The hybrid ----------

  class HybridPrimeTable {
    const onTheFly: OnTheFlyPrimeTable
    const precalculated: PreCalculatedPrimeTable?
    const maxPrecalculated: int

    ghost predicate Valid()
      reads this, precalculated, if precalculated == null then {} else {precalculated.isPrime}
    {
      precalculated != null ==> precalculated.Valid() && precalculated.size == maxPrecalculated + 1
    }

    constructor (forceOnTheFly: bool, max: int)
      requires !forceOnTheFly ==> max >= 1
      ensures Valid() && maxPrecalculated == max && (precalculated == null <==> forceOnTheFly)
    {
      onTheFly := new OnTheFlyPrimeTable();
      if forceOnTheFly {
        precalculated := null;
      } else {
        precalculated := new PreCalculatedPrimeTable(max);
      }
      maxPrecalculated := max;
    }

    method IsPrime(n: int) returns (prime: bool)
      requires Valid()
      ensures prime <==> Prime(n)
    {
      if precalculated != null && n < maxPrecalculated {
        prime := precalculated.IsPrime(n);
      } else {
        prime := onTheFly.IsPrime(n);
      }
    }

    /** For p == -1 the answer depends on the table; below, the table would be read out of its
        bounds. */
    method GetNextPrime(p: int) returns (next: int)
      requires Valid() && (precalculated != null ==> p >= -1)
      ensures p >= 0 ==> NextPrime(p, next)
      ensures p < 0 ==> next == if precalculated != null && maxPrecalculated >= 2 then 2 else -1
    {
      next := -1;
      if precalculated != null && p < maxPrecalculated {
        next := precalculated.GetNextPrime(p);
        assert Prime(2);
      }
      if next == -1 {
        next := onTheFly.GetNextPrime(p);
      }
    }
  }
}
