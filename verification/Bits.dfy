/** Bitwise operations on natural numbers, bit by bit. */
module Bits {
  function Or(a: nat, b: nat): (r: nat)
    decreases a + b
  {
    if a == 0 then b
    else if b == 0 then a
    else (if a % 2 == 1 || b % 2 == 1 then 1 else 0) + 2 * Or(a / 2, b / 2)
  }

  function Xor(a: nat, b: nat): (r: nat)
    decreases a + b
  {
    if a == 0 then b
    else if b == 0 then a
    else (if a % 2 != b % 2 then 1 else 0) + 2 * Xor(a / 2, b / 2)
  }

  function Pow2(n: nat): (p: nat)
    ensures p > 0
  {
    if n == 0 then 1 else 2 * Pow2(n - 1)
  }

  lemma OrStep(a: nat, b: nat)
    ensures Or(a, b) == (if a % 2 == 1 || b % 2 == 1 then 1 else 0) + 2 * Or(a / 2, b / 2)
  {
  }

  /** The lowest `n` bits of `a` are zero. */
  predicate ClearBelow(a: nat, n: nat) {
    n == 0 || (a % 2 == 0 && ClearBelow(a / 2, n - 1))
  }

  lemma ClearDouble(x: nat, n: nat)
    requires ClearBelow(x, n)
    ensures ClearBelow(2 * x, n + 1)
  {
    assert 2 * x / 2 == x;
  }

  lemma ClearShifted(x: nat)
    ensures ClearBelow(x * 4, 2) && ClearBelow(x * 16, 4) && ClearBelow(x * 64, 6)
  {
    ClearDouble(x, 0);
    ClearDouble(x * 2, 1);
    ClearDouble(x * 4, 2);
    ClearDouble(x * 8, 3);
    ClearDouble(x * 16, 4);
    ClearDouble(x * 32, 5);
  }

  /** Or on numbers without a common bit is addition. */
  lemma {:induction false} OrDisjoint(a: nat, n: nat, lo: nat)
    requires ClearBelow(a, n) && lo < Pow2(n)
    ensures Or(a, lo) == a + lo
  {
    if n > 0 {
      OrDisjoint(a / 2, n - 1, lo / 2);
      OrStep(a, lo);
    }
  }

  lemma {:induction false} OrBound(a: nat, b: nat, n: nat)
    requires a < Pow2(n) && b < Pow2(n)
    ensures Or(a, b) < Pow2(n)
  {
    if n > 0 && a > 0 && b > 0 {
      OrBound(a / 2, b / 2, n - 1);
    }
  }

  lemma {:induction false} XorBound(a: nat, b: nat, n: nat)
    requires a < Pow2(n) && b < Pow2(n)
    ensures Xor(a, b) < Pow2(n)
  {
    if n > 0 && a > 0 && b > 0 {
      XorBound(a / 2, b / 2, n - 1);
    }
  }

  lemma XorParts(a: nat, b: nat)
    ensures Xor(a, b) / 2 == Xor(a / 2, b / 2)
    ensures Xor(a, b) % 2 == if a % 2 != b % 2 then 1 else 0
  {
    assert Xor(a, b) == (if a % 2 != b % 2 then 1 else 0) + 2 * Xor(a / 2, b / 2);
  }

  /** Applying the same mask twice restores the number. */
  lemma {:induction false} XorTwice(a: nat, m: nat)
    ensures Xor(Xor(a, m), m) == a
    decreases a + m
  {
    if a == 0 {
      XorSelf(m);
    } else if m > 0 {
      var x := Xor(a, m);
      XorTwice(a / 2, m / 2);
      XorParts(a, m);
      XorParts(x, m);
      assert Xor(x, m) / 2 == a / 2 && Xor(x, m) % 2 == a % 2;
    }
  }

  function Bit(a: nat, k: nat): (b: nat)
    ensures b < 2
  {
    if k == 0 then a % 2 else Bit(a / 2, k - 1)
  }

  lemma SmallMultiple(d: int, x: int)
    requires -d < d * x < d
    ensures x == 0
  {
  }

  lemma QuotientIs(a: nat, d: nat, q: nat, r: nat)
    requires r < d && a == d * q + r
    ensures a / d == q
  {
    assert d * (a / d - q) == r - a % d;
    SmallMultiple(d, a / d - q);
  }

  lemma Spread(d: nat, e: nat, q: nat, r: nat)
    ensures d * (e * q + r) == d * e * q + d * r
  {
    assert d * (e * q) == d * e * q;
  }

  lemma RemaindersBelow(d: nat, e: nat, r: nat, s: nat)
    requires r < e && s < d
    ensures d * r + s < d * e
  {
    assert d * r + d == d * (r + 1) <= d * e;
  }

  lemma Recomposed(a: nat, d: nat, e: nat)
    requires d > 0 && e > 0
    ensures a == d * e * (a / d / e) + (d * (a / d % e) + a % d)
  {
    Spread(d, e, a / d / e, a / d % e);
  }

  /** Dividing twice is dividing by the product. */
  lemma QuotientTwice(a: nat, d: nat, e: nat)
    requires d > 0 && e > 0
    ensures a / (d * e) == a / d / e
  {
    var q, r := a / d / e, d * (a / d % e) + a % d;
    assert a == d * e * q + r by {
      Recomposed(a, d, e);
    }
    assert r < d * e by {
      RemaindersBelow(d, e, a / d % e, a % d);
    }
    QuotientIs(a, d * e, q, r);
  }

  /** It is the bit worth two to the `k`. */
  lemma {:induction false} BitValue(a: nat, k: nat)
    ensures Bit(a, k) == a / Pow2(k) % 2
  {
    if k > 0 {
      BitValue(a / 2, k - 1);
      QuotientTwice(a, 2, Pow2(k - 1));
    }
  }

  lemma OrParts(a: nat, b: nat)
    ensures Or(a, b) / 2 == Or(a / 2, b / 2)
    ensures Or(a, b) % 2 == if a % 2 == 1 || b % 2 == 1 then 1 else 0
  {
    OrStep(a, b);
  }

  lemma {:induction false} OrBits(a: nat, b: nat, k: nat)
    ensures Bit(Or(a, b), k) == 1 <==> Bit(a, k) == 1 || Bit(b, k) == 1
  {
    OrParts(a, b);
    if k > 0 {
      OrBits(a / 2, b / 2, k - 1);
    }
  }

  lemma {:induction false} XorBits(a: nat, b: nat, k: nat)
    ensures Bit(Xor(a, b), k) == (Bit(a, k) + Bit(b, k)) % 2
  {
    XorParts(a, b);
    if k > 0 {
      XorBits(a / 2, b / 2, k - 1);
    }
  }

  lemma {:induction false} XorSelf(m: nat)
    ensures Xor(m, m) == 0
  {
    if m > 0 {
      XorSelf(m / 2);
    }
  }
}
