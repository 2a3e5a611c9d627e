/** Bytes and powers of 256, shared by everything that lays numbers out in bytes. */
module Octets {
  import opened Integers

  type Byte = x: int | 0 <= x < 256

  function Pow256(i: nat): (p: nat)
    ensures p > 0
  {
    if i == 0 then 1 else 256 * Pow256(i - 1)
  }

  function Zeros(n: nat): (s: seq<Byte>)
    ensures |s| == n
  {
    seq(n, _ => 0)
  }

  /** The b low-order bytes in two's complement. */
  function LowBytes(v: int, b: nat): (s: seq<Byte>)
    ensures |s| == b
    decreases b
  {
    if b == 0 then [] else [v % 256] + LowBytes(v / 256, b - 1)
  }

  /** Byte i is what remains after a shift by i bytes. */
  lemma {:induction false} LowByteAt(v: nat, b: nat, i: nat)
    requires i < b
    ensures LowBytes(v, b)[i] == v / Pow256(i) % 256
    decreases i
  {
    if i > 0 {
      LowByteAt(v / 256, b - 1, i - 1);
      DivideTwice(v, Pow256(i - 1));
    }
  }

  lemma DivideTwice(v: nat, p: nat)
    requires p > 0
    ensures v / (256 * p) == v / 256 / p
  {
    var q, r := v / 256, v % 256;
    var u, t := q / p, q % p;
    assert v == 256 * q + r && q == p * u + t;
    assert v == 256 * p * u + (256 * t + r) by { assert 256 * (p * u + t) == 256 * p * u + 256 * t; }
    assert 0 <= 256 * t + r < 256 * p;
    Quotient(v, 256 * p, u, 256 * t + r);
  }

  lemma Quotient(x: int, d: int, q: int, r: int)
    requires d > 0 && 0 <= r < d && x == d * q + r
    ensures x / d == q
  {
    var e := x / d - q;
    assert x == d * (x / d) + x % d;
    assert d * e == r - x % d by { assert d * (x / d) - d * q == d * e; }
    Multiples(d, e);
  }
}
