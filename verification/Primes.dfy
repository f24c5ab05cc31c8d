/** next_prime(): table sizes by trial division, in wrapping size_t arithmetic. */
module Primes {
  import opened Arith

  predicate Factor(d: nat, n: nat) {
    d > 0 && n % d == 0
  }

  ghost predicate IsPrime(n: nat) {
    n >= 2 && forall d: nat :: 2 <= d < n ==> !Factor(d, n)
  }

  function Square(n: nat): nat { n * n }

  lemma ProductOrder(a: nat, b: nat, c: nat, d: nat)
    requires a <= c && b <= d
    ensures a * b <= c * d
  {
    assert a * b <= c * b;
    assert c * b <= c * d;
  }

  lemma LargeQuotient(e: nat, d: nat, n: nat)
    requires e * d == n && 0 < d < n
    ensures e >= 2
  {}

  lemma Quotient(n: nat, d: nat) returns (e: nat)
    requires Factor(d, n)
    ensures e * d == n
  {
    e := n / d;
    MultipleOf(n, d);
  }

  lemma ProductFactor(e: nat, d: nat, n: nat)
    requires e * d == n && e > 0
    ensures Factor(e, n)
  {
    MulMod(d, e);
  }

  lemma Cofactor(n: nat, d: nat) returns (e: nat)
    requires n > 0 && 0 < d < n && Factor(d, n)
    ensures e >= 2 && e * d == n && Factor(e, n)
  {
    hide Factor;
    e := Quotient(n, d);
    LargeQuotient(e, d, n);
    ProductFactor(e, d, n);
  }

  /** A number with no factor up to `b` is prime once `b` squared reaches it. */
  lemma PrimeBySquare(n: nat, b: nat)
    requires n >= 2 && Square(b) >= n
    requires forall d: nat :: 2 <= d < b ==> !Factor(d, n)
    requires b < n ==> !Factor(b, n)
    ensures IsPrime(n)
  {
    hide Factor;
    forall d: nat | 2 <= d < n
      ensures !Factor(d, n)
    {
      if Factor(d, n) {
        var e := Cofactor(n, d);
        SmallCofactor(d, e, b);
        assert false;
      }
    }
  }

  lemma SmallCofactor(d: nat, e: nat, b: nat)
    requires d > b > 0 && d * e <= Square(b)
    ensures e < b
  {
    assert (b + 1) * b == b * b + b;
    if e >= b {
      ProductOrder(b + 1, b, d, e);
    }
  }

  lemma NotBothOdd(n: nat, d: nat)
    requires n % 2 == 1 && d % 2 == 0
    ensures !Factor(d, n)
  {
    if Factor(d, n) {
      EvenMultiple(n, d);
    }
  }

  lemma EvenMultiple(n: nat, d: nat)
    requires d % 2 == 0 && Factor(d, n)
    ensures n % 2 == 0
  {
    MultipleOf(n, d);
    var q, e := n / d, d / 2;
    assert n == 2 * (q * e);
  }

  lemma SquareStep(d: nat)
    ensures Square(d + 2) == Square(d) + 4 * (d + 1)
    ensures d >= 3 ==> Square(d) >= d + 6
    ensures Square(d) < TWO64 ==> d < TWO32
  {
    if d >= 3 {
      ProductOrder(3, d, d, d);
    }
    if d >= TWO32 {
      ProductOrder(TWO32, TWO32, d, d);
    }
  }

  /** is_prime(): right for every odd candidate above 3, and wrong for the other two. */
  method IsPrimeOdd(candidate: nat) returns (r: bool)
    requires candidate % 2 == 1 && candidate < TWO64
    ensures (r <==> IsPrime(candidate)) <==> candidate > 3
    ensures candidate == 1 ==> r
    ensures candidate == 3 ==> !r
  {
    hide Square, Factor;
    SmallPrimes();
    var divn := 3;
    var sq := 9;
    assert Square(3) == 9 by { ThreeSquared(); }
    NotBothOdd(candidate, 2);
    while sq < candidate && !Factor(divn, candidate)
      invariant divn >= 3 && divn % 2 == 1 && sq == Square(divn) < TWO64
      invariant if candidate > 3 then divn < candidate else divn == 3
      invariant forall d: nat :: 2 <= d < divn ==> !Factor(d, candidate)
      decreases TWO64 - sq
    {
      SquareStep(divn);
      NotBothOdd(candidate, divn + 1);
      var oldSq := sq;
      divn := divn + 1;
      sq := (sq + 4 * divn) % TWO64;
      if sq < oldSq {
        assert forall d: nat :: 2 <= d < divn + 1 ==> !Factor(d, candidate);
        assert Square(divn + 1) >= TWO64;
        NoFactorBySquare(candidate, divn + 1);
        return true;
      }
      divn := divn + 1;
    }
    r := !Factor(divn, candidate);
    if candidate > 3 {
      if r {
        PrimeBySquare(candidate, divn);
      }
    } else {
      SmallRemainders();
    }
  }

  lemma ThreeSquared()
    ensures Square(3) == 9
  {}

  lemma SmallRemainders()
    ensures !Factor(3, 1) && Factor(3, 3)
  {}

  /** No factor below `b`, the square of which is out of range: then `b` cannot be a factor either. */
  lemma NoFactorBySquare(n: nat, b: nat)
    requires n >= 2 && b >= 2 && Square(b) > n
    requires forall d: nat :: 2 <= d < b ==> !Factor(d, n)
    ensures IsPrime(n)
  {
    hide Factor;
    if b < n && Factor(b, n) {
      var e := Cofactor(n, b);
      if e >= b {
        ProductOrder(b, b, e, b);
      }
      assert false;
    }
    PrimeBySquare(n, b);
  }

  lemma SmallPrimes()
    ensures !IsPrime(0) && !IsPrime(1) && IsPrime(2) && IsPrime(3)
  {
    assert !Factor(2, 3);
  }

  function OddFrom(seed: nat): nat {
    if seed % 2 == 0 then seed + 1 else seed
  }

  ghost predicate PrimeFits(from: nat) {
    exists p: nat :: from <= p < TWO64 && IsPrime(p)
  }

  /** The largest number that a search can start at */
  lemma NoPrimeAtTheTop()
    ensures !PrimeFits(TWO64 - 1)
  {
    assert Factor(3, TWO64 - 1);
  }

  ghost predicate LeastPrime(p: nat, from: nat) {
    IsPrime(p) && from <= p && forall q: nat :: from <= q < p ==> !IsPrime(q)
  }

  lemma EvenNotPrime(n: nat)
    requires n % 2 == 0 && n > 2
    ensures !IsPrime(n)
  {
    assert Factor(2, n);
  }

  /** From 4 on, a search that starts at the next odd number misses no prime. */
  lemma FromOdd(seed: nat)
    requires seed >= 4
    ensures PrimeFits(seed) <==> PrimeFits(OddFrom(seed))
    ensures forall p: nat :: LeastPrime(p, seed) <==> LeastPrime(p, OddFrom(seed))
  {
    hide IsPrime;
    if seed % 2 == 0 {
      EvenNotPrime(seed);
    }
  }

  /** A prime has no divisor but one and itself. */
  lemma PrimeIs(n: nat)
    ensures IsPrime(n) <==> n > 1 && forall d: nat {:trigger n % d} :: 1 < d < n ==> n % d != 0
  {
    assert forall d: nat {:trigger Factor(d, n)} {:trigger n % d} :: d > 0 ==> (Factor(d, n) <==> n % d == 0);
  }

  /**
   * next_prime(): the least prime not below `seed`, for seeds from 4 up that have one in range.  It always
   * returns: past the last prime the seed wraps to 1, which is_prime() accepts.
   */
  method NextPrime(seed: nat) returns (r: nat)
    requires seed < TWO64
    ensures r < TWO64
    ensures LeastPrime(r, seed) <==> seed >= 4 && PrimeFits(seed)
    ensures seed >= 4 && !PrimeFits(seed) ==> r == 1
    ensures seed < 2 ==> r == 1
    ensures 2 <= seed < 4 ==> r == 5
  {
    hide Factor, IsPrime;
    SmallPrimes();
    if seed >= 4 {
      FromOdd(seed);
    }
    FiveIsPrime();
    var s := OddFrom(seed);
    ghost var from := s;
    var p := IsPrimeOdd(s);
    while !p
      invariant s % 2 == 1 && s < TWO64 && (s == 1 || from <= s)
      invariant (p <==> IsPrime(s)) <==> s > 3
      invariant s == 1 ==> p
      invariant s == 3 ==> !p && from == 3
      invariant from >= 4 && s > 1 ==> forall q: nat :: from <= q < s ==> !IsPrime(q)
      invariant from >= 4 && s == 1 ==> !PrimeFits(from)
      invariant from == 1 ==> s == 1
      invariant from == 3 ==> s == 3 || s == 5
      decreases if s == 1 then 0 else TWO64 - s
    {
      if s + 1 > 2 {
        EvenNotPrime(s + 1);
      }
      s := (s + 2) % TWO64;
      p := IsPrimeOdd(s);
    }
    r := s;
  }

  lemma FiveIsPrime()
    ensures IsPrime(5)
  {
    assert !Factor(2, 5) && !Factor(3, 5) && !Factor(4, 5);
  }

  // ----- stepping through a table of prime size

  /** A prime divides no product of two smaller numbers. */
  lemma {:induction false} NoZeroDivisor(n: nat, d: nat, s: nat)
    requires IsPrime(n) && 0 < d < n && 0 < s < n
    ensures d * s % n != 0
    decreases d
  {
    if d == 1 {
      assert d * s == s;
    } else {
      assert !Factor(d, n);
      hide IsPrime, Factor;
      var q, r := n / d, n % d;
      DivMod(n, d);
      NoZeroDivisor(n, r, s);
      if d * s % n == 0 {
        MultipleOf(d * s, n);
        var m := d * s / n;
        TimesRemainder(n, d, s, q, r, m);
        MulMod(s - q * m, n);
      }
    }
  }

  lemma TimesRemainder(n: int, d: int, s: int, q: int, r: int, m: int)
    requires n == q * d + r && d * s == m * n
    ensures r * s == (s - q * m) * n
  {
    assert q * d * s == q * (d * s) == q * (m * n) == q * m * n;
    assert r * s == (n - q * d) * s == n * s - q * d * s;
  }
}
