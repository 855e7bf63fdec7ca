/** Primality by trial division over `6k - 1` and `6k + 1`, and prime counting
    with the sieve of Eratosthenes. */
module Primes {

  /** `d` is a positive divisor of `m`. */
  predicate Divides(d: int, m: int) {
    d > 0 && m % d == 0
  }

  /** The reference definition: at least 2 and no divisor strictly between 1 and itself. */
  predicate IsPrimeNumber(n: int) {
    n >= 2 && forall d :: 2 <= d < n ==> !Divides(d, n)
  }

  /** How many primes lie in `[2, n]`. */
  function PrimeCount(n: int): nat
    decreases n
  {
    if n < 2 then 0 else PrimeCount(n - 1) + (if IsPrimeNumber(n) then 1 else 0)
  }

  // ---------------------------------------------------------------------
  // Arithmetic facts

  lemma MulMonotone(a: int, b: int, c: int)
    requires 0 <= a <= b && c >= 0
    ensures a * c <= b * c
  {
  }

  /** Multiplying by a positive `i` keeps `x` on the same side of -1, 0 and 1. */
  lemma MulBound(i: int, x: int)
    requires i > 0
    ensures x >= 1 ==> i * x >= i
    ensures x <= 1 ==> i * x <= i
    ensures x <= -1 ==> i * x <= -i
  {
    if x >= 1 {
      MulMonotone(1, x, i);
    } else if x <= -1 {
      MulMonotone(1, -x, i);
    }
  }

  /** Quotient and remainder are unique. */
  lemma DivUnique(m: int, i: int, q: int, r: int)
    requires i > 0 && m == i * q + r && 0 <= r < i
    ensures m % i == r && m / i == q
  {
    var x := m / i - q;
    assert i * x == r - m % i;
    MulBound(i, x);
  }

  lemma MultipleDivides(a: int, k: int)
    requires a > 0
    ensures Divides(a, a * k)
  {
    DivUnique(a * k, a, k, 0);
  }

  lemma DividesTransitive(a: int, b: int, m: int)
    requires Divides(a, b) && Divides(b, m)
    ensures Divides(a, m)
  {
    var x, y := b / a, m / b;
    assert b == a * x;
    assert m == b * y;
    assert m == a * (x * y);
    MultipleDivides(a, x * y);
  }

  /** Squaring is monotone on the naturals. */
  lemma SquareMonotone(e: int, i: int)
    requires 0 <= e && 0 <= i
    ensures i <= e ==> i * i <= e * e
  {
    if i <= e {
      MulMonotone(i, e, i);
      MulMonotone(i, e, e);
    }
  }

  /** A number with a proper divisor has one whose square does not exceed it. */
  lemma SmallFactor(m: int, d: int) returns (e: int)
    requires 2 <= d < m && Divides(d, m)
    ensures 2 <= e && e * e <= m && Divides(e, m)
  {
    var q := m / d;
    assert m == d * q;
    MulBound(d, q);
    assert q >= 2;
    MultipleDivides(q, d);
    assert Divides(q, m);
    if d <= q {
      MulMonotone(d, q, d);
      e := d;
    } else {
      MulMonotone(q, d, q);
      e := q;
    }
  }

  /** No divisor with a square up to `m` means `m` is prime. */
  lemma NoSmallFactorIsPrime(m: int)
    requires m >= 2
    requires forall d :: 2 <= d && d * d <= m ==> !Divides(d, m)
    ensures IsPrimeNumber(m)
  {
    forall d | 2 <= d < m
      ensures !Divides(d, m)
    {
      if Divides(d, m) {
        var e := SmallFactor(m, d);
      }
    }
  }

  /** `5 <= i` and `i * i <= n` leave room for `i + 2` below `n`. */
  lemma SquareRoom(i: int, n: int)
    requires 5 <= i && i * i <= n
    ensures i + 2 < n
  {
    MulMonotone(5, i, i);
  }

  lemma SquareBelow(e: int, i: int)
    requires 0 <= e && 0 <= i && e * e < i * i
    ensures e < i
  {
    SquareMonotone(e, i);
  }

  // ---------------------------------------------------------------------
  // `isPrime`

  /** A number at least 4 and next to a multiple of 6 is divisible by neither 2, 3 nor 4. */
  lemma SixNeighbour(n: int)
    requires n >= 4 && ((n - 1) % 6 == 0 || (n + 1) % 6 == 0)
    ensures forall d :: 2 <= d < 5 ==> !Divides(d, n)
  {
  }

  /** A number at least 4 and not next to a multiple of 6 is divisible by 2 or 3. */
  lemma NotSixNeighbour(n: int)
    requires n >= 4 && (n - 1) % 6 != 0 && (n + 1) % 6 != 0
    ensures !IsPrimeNumber(n)
  {
    var q, r := n / 6, n % 6;
    assert n == 6 * q + r;
    if r >= 1 {
      DivUnique(n - 1, 6, q, r - 1);
    }
    if r <= 4 {
      DivUnique(n + 1, 6, q, r + 1);
    }
    if r == 0 || r == 2 || r == 4 {
      assert n == 2 * (3 * q + r / 2);
      MultipleDivides(2, 3 * q + r / 2);
    } else {
      assert r == 3;
      assert n == 3 * (2 * q + 1);
      MultipleDivides(3, 2 * q + 1);
    }
  }

  /** Of `i .. i + 5` with `i = 6k + 5`, only `i` and `i + 2` are prime to 6; the
      others are multiples of 2 or 3, so they divide `n` only if 2 or 3 does. */
  lemma NoDivisorInBlock(n: int, i: int, k: nat)
    requires i == 6 * k + 5
    requires !Divides(2, n) && !Divides(3, n) && !Divides(i, n) && !Divides(i + 2, n)
    ensures forall d :: i <= d < i + 6 ==> !Divides(d, n)
  {
    MultipleDivides(2, 3 * k + 3);
    MultipleDivides(2, 3 * k + 4);
    MultipleDivides(2, 3 * k + 5);
    MultipleDivides(3, 2 * k + 3);
    forall d | i <= d < i + 6
      ensures !Divides(d, n)
    {
      if d == i + 1 || d == i + 3 || d == i + 5 {
        if Divides(d, n) {
          DividesTransitive(2, d, n);
        }
      } else if d == i + 4 {
        if Divides(d, n) {
          DividesTransitive(3, d, n);
        }
      }
    }
  }

  /** `algo::isPrime`. */
  method IsPrime(n: int) returns (r: bool)
    ensures r <==> IsPrimeNumber(n)
  {
    if n <= 1 {
      return false;
    }
    if n == 2 || n == 3 {
      assert n == 3 ==> !Divides(2, n);
      return true;
    }
    if (n - 1) % 6 != 0 && (n + 1) % 6 != 0 {
      NotSixNeighbour(n);
      return false;
    }
    SixNeighbour(n);
    var i := 5;
    ghost var k: nat := 0;
    while i * i <= n
      invariant i == 6 * k + 5
      invariant forall d :: 2 <= d < i ==> !Divides(d, n)
      decreases n - i
    {
      SquareRoom(i, n);
      if n % i == 0 || n % (i + 2) == 0 {
        assert Divides(i, n) || Divides(i + 2, n);
        return false;
      }
      NoDivisorInBlock(n, i, k);
      i, k := i + 6, k + 1;
    }
    forall d | 2 <= d && d * d <= n
      ensures !Divides(d, n)
    {
      SquareBelow(d, i);
    }
    NoSmallFactorIsPrime(n);
    return true;
  }

  // ---------------------------------------------------------------------
  // `countPrimes`

  /** What the sieve still marks after crossing out the multiples of every
      `d < i`, starting each at `d * d`. */
  predicate Sieved(m: int, i: int) {
    m >= 2 && forall d :: 2 <= d < i && d * d <= m ==> !Divides(d, m)
  }

  /** Crossing out the multiples of `i` from `i * i` on. */
  method CrossOut(primes: seq<bool>, i: int) returns (p: seq<bool>)
    requires 2 <= i && i * i < |primes|
    ensures |p| == |primes|
    ensures forall m :: 0 <= m < |p| ==> (p[m] <==> primes[m] && !(i * i <= m && Divides(i, m)))
  {
    p := primes;
    var j := i * i;
    ghost var q := i;
    while j < |p|
      invariant j == i * q && i <= q
      invariant |p| == |primes|
      invariant forall m :: 0 <= m < |p| ==> (p[m] <==> primes[m] && !(i * i <= m < j && Divides(i, m)))
      decreases |p| - j
    {
      MultipleDivides(i, q);
      NextMultiple(i, j);
      p := p[j := false];
      j, q := j + i, q + 1;
    }
  }

  /** Between two consecutive multiples of `i` lies no multiple of `i`. */
  lemma NextMultiple(i: int, j: int)
    requires i > 0 && Divides(i, j)
    ensures forall m :: j < m < j + i ==> !Divides(i, m)
  {
    forall m | j < m < j + i
      ensures !Divides(i, m)
    {
      DivUnique(m, i, j / i, m - j);
    }
  }

  /** A marked `i` adds the condition for `d = i`. */
  lemma SievedStep(m: int, i: int)
    requires i >= 2
    ensures Sieved(m, i + 1) <==> Sieved(m, i) && !(i * i <= m && Divides(i, m))
  {
    if Sieved(m, i + 1) {
      assert 2 <= i < i + 1;
    }
    if Sieved(m, i) && !(i * i <= m && Divides(i, m)) {
      forall d | 2 <= d < i + 1 && d * d <= m
        ensures !Divides(d, m)
      {
        if d < i {
          assert 2 <= d < i && d * d <= m;
        }
      }
    }
  }

  /** An unmarked `i` has a factor `d` with `d * d <= i`, which also divides
      every multiple of `i`. */
  lemma CompositeMultiples(m: int, i: int)
    requires 2 <= i && !Sieved(i, i)
    ensures i * i <= m && Divides(i, m) ==> !Sieved(m, i)
  {
    if i * i <= m && Divides(i, m) {
      var d :| 2 <= d < i && d * d <= i && Divides(d, i);
      DividesTransitive(d, i, m);
      MulMonotone(1, i, i);
      assert 2 <= d < i && d * d <= m && Divides(d, m);
    }
  }

  /** An unmarked `i` adds nothing: its multiples from `i * i` on were crossed out
      by a smaller factor. */
  lemma SievedComposite(m: int, i: int)
    requires 2 <= i && !Sieved(i, i)
    ensures Sieved(m, i + 1) <==> Sieved(m, i)
  {
    SievedStep(m, i);
    CompositeMultiples(m, i);
  }

  /** Once `i * i` passes `m`, what is still marked is exactly the primes. */
  lemma SievedIsPrime(m: int, i: int)
    requires 2 <= i && m < i * i
    ensures Sieved(m, i) <==> IsPrimeNumber(m)
  {
    if Sieved(m, i) {
      forall d | 2 <= d && d * d <= m
        ensures !Divides(d, m)
      {
        SquareBelow(d, i);
      }
      NoSmallFactorIsPrime(m);
    }
    if IsPrimeNumber(m) {
      forall d | 2 <= d < i && d * d <= m
        ensures !Divides(d, m)
      {
        MulMonotone(2, d, d);
      }
    }
  }

  /** The size of `primes` after `remove_if` drops the `false` entries. */
  function CountTrue(s: seq<bool>): nat {
    if |s| == 0 then 0 else CountTrue(s[..|s| - 1]) + (if s[|s| - 1] then 1 else 0)
  }

  lemma {:induction false} CountTrueIsPrimeCount(s: seq<bool>, n: int)
    requires n >= -1 && |s| == n + 1
    requires forall m :: 0 <= m <= n ==> (s[m] <==> IsPrimeNumber(m))
    ensures CountTrue(s) == PrimeCount(n)
    decreases |s|
  {
    if |s| > 0 {
      CountTrueIsPrimeCount(s[..n], n - 1);
    }
  }

  /** `algo::countPrimes`. */
  method CountPrimes(n: int) returns (count: int)
    ensures count == PrimeCount(n)
  {
    if n < 2 {
      return 0;
    }
    var primes := seq(n + 1, _ => true);
    primes := primes[0 := false][1 := false];
    var i := 2;
    while i * i <= n
      invariant 2 <= i
      invariant |primes| == n + 1
      invariant forall m :: 0 <= m <= n ==> (primes[m] <==> Sieved(m, i))
      decreases n - i
    {
      MulMonotone(1, i, i);
      if primes[i] {
        primes := CrossOut(primes, i);
        forall m | 0 <= m <= n
          ensures primes[m] <==> Sieved(m, i + 1)
        {
          SievedStep(m, i);
        }
      } else {
        forall m | 0 <= m <= n
          ensures primes[m] <==> Sieved(m, i + 1)
        {
          SievedComposite(m, i);
        }
      }
      i := i + 1;
    }
    forall m | 0 <= m <= n
      ensures primes[m] <==> IsPrimeNumber(m)
    {
      SievedIsPrime(m, i);
    }
    CountTrueIsPrimeCount(primes, n);
    return CountTrue(primes);
  }

  /** Four primes up to ten: 2, 3, 5 and 7. */
  lemma PrimesUpToTen()
    ensures PrimeCount(10) == 4
  {
    assert IsPrimeNumber(2);
    assert IsPrimeNumber(3) by { assert !Divides(2, 3); }
    assert !IsPrimeNumber(4) by { assert Divides(2, 4); }
    assert IsPrimeNumber(5) by { assert forall d :: 2 <= d < 5 ==> !Divides(d, 5); }
    assert !IsPrimeNumber(6) by { assert Divides(2, 6); }
    assert IsPrimeNumber(7) by { assert forall d :: 2 <= d < 7 ==> !Divides(d, 7); }
    assert !IsPrimeNumber(8) by { assert Divides(2, 8); }
    assert !IsPrimeNumber(9) by { assert Divides(3, 9); }
    assert !IsPrimeNumber(10) by { assert Divides(2, 10); }
  }
}
