/** Rounding, powers of two and integer division facts used by the layout engines. */
module Arith {

  const TWO32: nat := 0x1_0000_0000
  const TWO64: nat := 0x1_0000_0000_0000_0000

  /** `roundup(x, a)` of <sys/param.h>. */
  function RoundUp(x: nat, a: nat): nat
    requires a > 0
  {
    (x + a - 1) / a * a
  }

  lemma DivMod(x: int, a: nat)
    requires a > 0
    ensures x == x / a * a + x % a
    ensures 0 <= x % a < a
  {}

  lemma MulMod(q: int, a: nat)
    requires a > 0
    ensures q * a % a == 0
  {
    DivMod(q * a, a);
    var k := q - q * a / a;
    assert q * a % a == k * a;
  }

  lemma MultipleOf(x: int, a: nat)
    requires a > 0 && x % a == 0
    ensures x == x / a * a
  {}

  lemma SumMod(x: int, y: int, a: nat)
    requires a > 0 && x % a == 0 && y % a == 0
    ensures (x + y) % a == 0
    ensures (x - y) % a == 0
  {
    MultipleOf(x, a);
    MultipleOf(y, a);
    var p, q := x / a, y / a;
    assert x + y == (p + q) * a;
    assert x - y == (p - q) * a;
    MulMod(p + q, a);
    MulMod(p - q, a);
  }

  /** A multiple of `a` strictly between -a and a is zero. */
  lemma SmallMultiple(x: int, a: int)
    requires a > 0 && x % a == 0 && -a < x < a
    ensures x == 0
  {
    ModSmall(x, a);
  }

  lemma ModSmall(x: int, a: int)
    requires a > 0 && -a < x < a
    ensures x % a == if x < 0 then x + a else x
  {}

  lemma LessProduct(p: nat, q: nat, a: nat)
    requires p < q && a > 0
    ensures p * a < q * a
  {}

  lemma ModUnique(x: int, r: int, a: nat)
    requires a > 0 && 0 <= r < a && (x - r) % a == 0
    ensures x % a == r
  {
    DivMod(x, a);
    MulMod(x / a, a);
    SumMod(x - r, x / a * a, a);
    SmallMultiple(x % a - r, a);
  }

  /** Rounding up gives the least multiple of `a` that is not below `x`. */
  lemma RoundUpIsLeast(x: nat, a: nat)
    requires a > 0
    ensures x <= RoundUp(x, a) < x + a
    ensures RoundUp(x, a) % a == 0
    ensures forall m: nat {:trigger m % a} :: m % a == 0 && x <= m ==> RoundUp(x, a) <= m
  {
    var r := RoundUp(x, a);
    DivMod(x + a - 1, a);
    MulMod((x + a - 1) / a, a);
    forall m: nat | m % a == 0 && x <= m
      ensures r <= m
    {
      if m < r {
        SumMod(r, m, a);
        SmallMultiple(r - m, a);
      }
    }
  }

  lemma RoundUpFixed(x: nat, a: nat)
    requires a > 0
    ensures RoundUp(x, a) == x <==> x % a == 0
  {
    RoundUpIsLeast(x, a);
  }

  lemma RoundUpUnique(x: nat, a: nat, m: nat)
    requires a > 0 && m % a == 0 && x <= m < x + a
    ensures m == RoundUp(x, a)
  {
    RoundUpIsLeast(x, a);
    SumMod(m, RoundUp(x, a), a);
    SmallMultiple(m - RoundUp(x, a), a);
  }

  /** What the bit test `n != 0 && (n & (n - 1)) == 0` decides. */
  predicate PowerOfTwo(n: nat): (r: bool)
    ensures r ==> n > 0
  {
    n == 1 || (n > 1 && n % 2 == 0 && PowerOfTwo(n / 2))
  }

  function Pow2(k: nat): (p: nat)
    ensures p > 0
  {
    if k == 0 then 1 else 2 * Pow2(k - 1)
  }

  /** These are the powers of two. */
  lemma {:induction false} PowerIff(n: nat)
    ensures PowerOfTwo(n) <==> exists k: nat :: n == Pow2(k)
    ensures Pow2(0) == 1 && forall k: nat :: Pow2(k + 1) == 2 * Pow2(k)
    decreases n
  {
    if n > 1 {
      if n % 2 == 0 {
        PowerIff(n / 2);
        if k: nat :| n / 2 == Pow2(k) {
          assert n == Pow2(k + 1);
        }
        if k: nat :| n == Pow2(k) {
          assert k > 0 && n / 2 == Pow2(k - 1);
        }
      } else if k: nat :| n == Pow2(k) {
        assert k > 0 && n == 2 * Pow2(k - 1);
      }
    } else {
      assert Pow2(0) == 1;
    }
  }

  lemma {:induction false} PowersDivide(a: nat, b: nat)
    requires PowerOfTwo(a) && PowerOfTwo(b) && a <= b
    ensures b % a == 0
    decreases a
  {
    if a > 1 {
      PowersDivide(a / 2, b / 2);
      var q := (b / 2) / (a / 2);
      MultipleOf(b / 2, a / 2);
      assert b == q * a;
      MulMod(q, a);
    }
  }

  lemma ModTrans(x: int, b: nat, a: nat)
    requires a > 0 && b > 0 && b % a == 0 && x % b == 0
    ensures x % a == 0
  {
    MultipleOf(x, b);
    MultipleOf(b, a);
    var p, q := x / b, b / a;
    assert x == p * q * a;
    MulMod(p * q, a);
  }
}
