/** `countPrimes` on the bounds of the repository's unit tests. Primes
    below 121 need trial division only by 2, 3, 5 and 7. */
module PrimesExamples {
  import opened Primes

  /** A number in `[11, 121)` that 2, 3, 5 and 7 do not divide is prime. */
  lemma SmallPrime(p: int)
    requires 11 <= p < 121
    requires !Divides(2, p) && !Divides(3, p) && !Divides(5, p) && !Divides(7, p)
    ensures IsPrimeNumber(p)
  {
    forall d | 2 <= d < 11 && d * d <= p
      ensures !Divides(d, p)
    {
      if d == 4 || d == 6 || d == 8 || d == 10 {
        if Divides(d, p) {
          DividesTransitive(2, d, p);
        }
      } else if d == 9 {
        if Divides(d, p) {
          DividesTransitive(3, d, p);
        }
      }
    }
    SievedIsPrime(p, 11);
  }

  lemma Decade20()
    ensures PrimeCount(20) == PrimeCount(10) + 4
  {
    SmallPrime(11);
    assert !IsPrimeNumber(12) by { assert Divides(2, 12); }
    SmallPrime(13);
    assert !IsPrimeNumber(14) by { assert Divides(2, 14); }
    assert !IsPrimeNumber(15) by { assert Divides(3, 15); }
    assert !IsPrimeNumber(16) by { assert Divides(2, 16); }
    SmallPrime(17);
    assert !IsPrimeNumber(18) by { assert Divides(2, 18); }
    SmallPrime(19);
    assert !IsPrimeNumber(20) by { assert Divides(2, 20); }
  }

  lemma Decade30()
    ensures PrimeCount(30) == PrimeCount(20) + 2
  {
    assert !IsPrimeNumber(21) by { assert Divides(3, 21); }
    assert !IsPrimeNumber(22) by { assert Divides(2, 22); }
    SmallPrime(23);
    assert !IsPrimeNumber(24) by { assert Divides(2, 24); }
    assert !IsPrimeNumber(25) by { assert Divides(5, 25); }
    assert !IsPrimeNumber(26) by { assert Divides(2, 26); }
    assert !IsPrimeNumber(27) by { assert Divides(3, 27); }
    assert !IsPrimeNumber(28) by { assert Divides(2, 28); }
    SmallPrime(29);
    assert !IsPrimeNumber(30) by { assert Divides(2, 30); }
  }

  lemma Decade40()
    ensures PrimeCount(40) == PrimeCount(30) + 2
  {
    SmallPrime(31);
    assert !IsPrimeNumber(32) by { assert Divides(2, 32); }
    assert !IsPrimeNumber(33) by { assert Divides(3, 33); }
    assert !IsPrimeNumber(34) by { assert Divides(2, 34); }
    assert !IsPrimeNumber(35) by { assert Divides(5, 35); }
    assert !IsPrimeNumber(36) by { assert Divides(2, 36); }
    SmallPrime(37);
    assert !IsPrimeNumber(38) by { assert Divides(2, 38); }
    assert !IsPrimeNumber(39) by { assert Divides(3, 39); }
    assert !IsPrimeNumber(40) by { assert Divides(2, 40); }
  }

  lemma Decade50()
    ensures PrimeCount(50) == PrimeCount(40) + 3
  {
    SmallPrime(41);
    assert !IsPrimeNumber(42) by { assert Divides(2, 42); }
    SmallPrime(43);
    assert !IsPrimeNumber(44) by { assert Divides(2, 44); }
    assert !IsPrimeNumber(45) by { assert Divides(3, 45); }
    assert !IsPrimeNumber(46) by { assert Divides(2, 46); }
    SmallPrime(47);
    assert !IsPrimeNumber(48) by { assert Divides(2, 48); }
    assert !IsPrimeNumber(49) by { assert Divides(7, 49); }
    assert !IsPrimeNumber(50) by { assert Divides(2, 50); }
  }

  lemma Decade60()
    ensures PrimeCount(60) == PrimeCount(50) + 2
  {
    assert !IsPrimeNumber(51) by { assert Divides(3, 51); }
    assert !IsPrimeNumber(52) by { assert Divides(2, 52); }
    SmallPrime(53);
    assert !IsPrimeNumber(54) by { assert Divides(2, 54); }
    assert !IsPrimeNumber(55) by { assert Divides(5, 55); }
    assert !IsPrimeNumber(56) by { assert Divides(2, 56); }
    assert !IsPrimeNumber(57) by { assert Divides(3, 57); }
    assert !IsPrimeNumber(58) by { assert Divides(2, 58); }
    SmallPrime(59);
    assert !IsPrimeNumber(60) by { assert Divides(2, 60); }
  }

  lemma Decade70()
    ensures PrimeCount(70) == PrimeCount(60) + 2
  {
    SmallPrime(61);
    assert !IsPrimeNumber(62) by { assert Divides(2, 62); }
    assert !IsPrimeNumber(63) by { assert Divides(3, 63); }
    assert !IsPrimeNumber(64) by { assert Divides(2, 64); }
    assert !IsPrimeNumber(65) by { assert Divides(5, 65); }
    assert !IsPrimeNumber(66) by { assert Divides(2, 66); }
    SmallPrime(67);
    assert !IsPrimeNumber(68) by { assert Divides(2, 68); }
    assert !IsPrimeNumber(69) by { assert Divides(3, 69); }
    assert !IsPrimeNumber(70) by { assert Divides(2, 70); }
  }

  lemma Decade80()
    ensures PrimeCount(80) == PrimeCount(70) + 3
  {
    SmallPrime(71);
    assert !IsPrimeNumber(72) by { assert Divides(2, 72); }
    SmallPrime(73);
    assert !IsPrimeNumber(74) by { assert Divides(2, 74); }
    assert !IsPrimeNumber(75) by { assert Divides(3, 75); }
    assert !IsPrimeNumber(76) by { assert Divides(2, 76); }
    assert !IsPrimeNumber(77) by { assert Divides(7, 77); }
    assert !IsPrimeNumber(78) by { assert Divides(2, 78); }
    SmallPrime(79);
    assert !IsPrimeNumber(80) by { assert Divides(2, 80); }
  }

  lemma Decade90()
    ensures PrimeCount(90) == PrimeCount(80) + 2
  {
    assert !IsPrimeNumber(81) by { assert Divides(3, 81); }
    assert !IsPrimeNumber(82) by { assert Divides(2, 82); }
    SmallPrime(83);
    assert !IsPrimeNumber(84) by { assert Divides(2, 84); }
    assert !IsPrimeNumber(85) by { assert Divides(5, 85); }
    assert !IsPrimeNumber(86) by { assert Divides(2, 86); }
    assert !IsPrimeNumber(87) by { assert Divides(3, 87); }
    assert !IsPrimeNumber(88) by { assert Divides(2, 88); }
    SmallPrime(89);
    assert !IsPrimeNumber(90) by { assert Divides(2, 90); }
  }

  lemma Decade100()
    ensures PrimeCount(100) == PrimeCount(90) + 1
  {
    assert !IsPrimeNumber(91) by { assert Divides(7, 91); }
    assert !IsPrimeNumber(92) by { assert Divides(2, 92); }
    assert !IsPrimeNumber(93) by { assert Divides(3, 93); }
    assert !IsPrimeNumber(94) by { assert Divides(2, 94); }
    assert !IsPrimeNumber(95) by { assert Divides(5, 95); }
    assert !IsPrimeNumber(96) by { assert Divides(2, 96); }
    SmallPrime(97);
    assert !IsPrimeNumber(98) by { assert Divides(2, 98); }
    assert !IsPrimeNumber(99) by { assert Divides(3, 99); }
    assert !IsPrimeNumber(100) by { assert Divides(2, 100); }
  }

  /** Eight primes up to twenty and twenty-five up to a hundred. */
  lemma PrimesUpToHundred()
    ensures PrimeCount(20) == 8 && PrimeCount(100) == 25
  {
    PrimesUpToTen();
    Decade20();
    Decade30();
    Decade40();
    Decade50();
    Decade60();
    Decade70();
    Decade80();
    Decade90();
    Decade100();
  }

  method CountSamples() returns (ten: int, twenty: int, one: int, zero: int, hundred: int)
    ensures ten == 4 && twenty == 8 && one == 0 && zero == 0 && hundred == 25
  {
    ten := CountPrimes(10);
    twenty := CountPrimes(20);
    one := CountPrimes(1);
    zero := CountPrimes(0);
    hundred := CountPrimes(100);
    PrimesUpToTen();
    PrimesUpToHundred();
  }
}
