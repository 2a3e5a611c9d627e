/** Integer helpers shared by several modules. */
module Integers {

  const TWO_32: int := 0x1_0000_0000

  function Max(x: int, y: int): int { if x < y then y else x }

  function Min(x: int, y: int): int { if y < x then y else x }

  function TwoTo(n: nat): (p: nat)
    ensures p > 0
  {
    if n == 0 then 1 else 2 * TwoTo(n - 1)
  }

  lemma {:induction false} TwoToAdd(m: nat, n: nat)
    ensures TwoTo(m + n) == TwoTo(m) * TwoTo(n)
  {
    if m > 0 {
      TwoToAdd(m - 1, n);
      TwoToStep(m);
      TwoToStep(m + n);
      hide TwoTo;
      DoubleProduct(TwoTo(m - 1), TwoTo(n));
    }
  }

  lemma TwoToStep(n: nat)
    requires n > 0
    ensures TwoTo(n) == 2 * TwoTo(n - 1)
  {
  }

  lemma DoubleProduct(x: int, y: int)
    ensures 2 * x * y == 2 * (x * y)
  {
  }

  /** The bitwise or of two numbers. */
  function Or(a: nat, b: nat): nat
    decreases a + b
  {
    if a == 0 && b == 0 then 0 else 2 * Or(a / 2, b / 2) + if a % 2 == 1 || b % 2 == 1 then 1 else 0
  }

  lemma {:induction false} OrZero(b: nat)
    ensures Or(0, b) == b
  {
    if b > 0 { OrZero(b / 2); }
  }

  /** The or of numbers without a common bit, one of them below the other's lowest, is their sum. */
  lemma {:induction false} OrDisjoint(a: nat, k: nat, n: nat)
    requires a < TwoTo(n)
    ensures Or(a, k * TwoTo(n)) == a + k * TwoTo(n)
    decreases n
  {
    var b := k * TwoTo(n);
    if n == 0 {
      OrZero(b);
    } else {
      var h := k * TwoTo(n - 1);
      assert b == 2 * h;
      OrDisjoint(a / 2, k, n - 1);
      OrStep(a, h);
    }
  }

  lemma OrStep(a: nat, h: nat)
    ensures Or(a, 2 * h) == 2 * Or(a / 2, h) + a % 2
  {
    assert 2 * h / 2 == h && 2 * h % 2 == 0;
    if a == 0 && h == 0 { assert Or(0, 0) == 0; }
  }

  lemma NonNegativeProduct(x: nat, y: nat)
    ensures x * y >= 0
  {
  }

  lemma Distribute(x: int, y: int, p: int)
    ensures (x + y) * p == x * p + y * p
  {
  }

  lemma Multiples(m: nat, e: int)
    ensures e >= 1 ==> m * e >= m
    ensures e <= -1 ==> m * e + m <= 0
  {
    if e >= 1 { assert m * (e - 1) >= 0; }
    if e <= -1 { assert m * (-1 - e) >= 0; }
  }

  /** Division with remainder is unique. */
  lemma Remainder(x: int, d: int, q: int, r: int)
    requires d > 0 && 0 <= r < d && x == q * d + r
    ensures x % d == r
  {
    var e := x / d - q;
    assert x == d * (x / d) + x % d;
    assert d * e == r - x % d;
    Multiples(d, e);
  }

  lemma ScaledRemainder(x: nat, d: nat, p: nat)
    requires d > 0 && p > 0
    ensures d * p > 0 && x * p % (d * p) == x % d * p
  {
    var q, r := x / d, x % d;
    assert x == q * d + r;
    assert x * p == q * (d * p) + r * p by { assert (q * d + r) * p == q * d * p + r * p; }
    assert (d - r) * p > 0;
    assert (d - r) * p == d * p - r * p;
    Remainder(x * p, d * p, q, r * p);
  }
}
