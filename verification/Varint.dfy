/**
  Variable-length integers: seven bits a byte, least significant first, the top
  bit set on every byte but the last. Values are 64-bit unsigned numbers.
*/
module Varint {
  import opened Integers
  import opened Octets

  type U64 = x: int | 0 <= x < 0x1_0000_0000_0000_0000

  const MAX_LENGTH: nat := 10

  datatype Decoded = Value(v: U64, length: nat) | NoBufferSpace | InvalidBuffer

  // ----- writing -----

  function Encode(v: nat): (s: seq<Byte>)
    ensures |s| > 0
  {
    if v < 0x80 then [v] else [v % 0x80 + 0x80] + Encode(v / 0x80)
  }

  method SerializeVarint(value: U64) returns (out: seq<Byte>)
    ensures out == Encode(value)
  {
    var v: nat := value;
    out := [];
    while v >= 0x80
      invariant out + Encode(v) == Encode(value)
    {
      assert out + Encode(v) == out + [v % 0x80 + 0x80] + Encode(v / 0x80);
      out := out + [v % 0x80 + 0x80];
      v := v / 0x80;
    }
    out := out + [v];
  }

  /** The size pass counts exactly the bytes the writer produces. */
  method CalculateVarintSize(value: U64) returns (size: nat)
    ensures size == |Encode(value)|
  {
    var t: nat := value;
    size := 1;
    t := t / 0x80;
    while t != 0
      invariant |Encode(value)| == if t == 0 then size else size + |Encode(t)|
    {
      size := size + 1;
      t := t / 0x80;
    }
  }

  // ----- reading -----

  function Pow128(i: nat): (p: nat)
    ensures p > 0
  {
    if i == 0 then 1 else 0x80 * Pow128(i - 1)
  }

  /** Seven more bits at position i; bits shifted past the sixty-fourth are lost. */
  function Shifted(bits: nat, i: nat): (r: U64) { Scaled(bits, i) % 0x1_0000_0000_0000_0000 }

  function Scaled(bits: nat, i: nat): nat { bits * Pow128(i) }

  lemma {:induction false} SevenBits(i: nat)
    ensures Pow128(i) == TwoTo(7 * i)
  {
    if i > 0 {
      SevenBits(i - 1);
      TwoToAdd(7, 7 * i - 7);
      assert TwoTo(7) == 0x80 by { assert TwoTo(3) == 8; }
    }
  }

  /** A shift that drops the high bits keeps a multiple of the weight of its position. */
  lemma ShiftedBits(bits: nat, i: nat) returns (d: nat, k: nat)
    requires i < MAX_LENGTH
    ensures k < d && k <= bits && d * Pow128(i) == 0x1_0000_0000_0000_0000
    ensures Shifted(bits, i) == k * Pow128(i)
  {
    hide TwoTo, Pow128;
    d := TwoTo(64 - 7 * i);
    k := bits % d;
    SevenBits(i);
    TwoToAdd(64 - 7 * i, 7 * i);
    Width64();
    ScaledRemainder(bits, d, Pow128(i));
    RemainderAtMost(bits, d);
  }

  lemma RemainderAtMost(x: nat, d: nat)
    requires d > 0
    ensures x % d <= x
  {
    assert x == x / d * d + x % d;
    assert x / d >= 0 && x / d * d >= 0;
  }

  lemma Width8()
    ensures TwoTo(8) == 0x100
  {
    assert TwoTo(4) == 0x10;
  }

  lemma Width64()
    ensures TwoTo(64) == 0x1_0000_0000_0000_0000
  {
    hide TwoTo;
    Width8();
    TwoToAdd(8, 8);
    TwoToAdd(16, 16);
    TwoToAdd(32, 32);
  }

  lemma AtMostProduct(x: nat, y: nat, p: nat)
    requires x < y
    ensures x * p + p <= y * p
  {
    NonNegativeProduct(y - x - 1, p);
    Distribute(x + 1, y - x - 1, p);
    Distribute(x, 1, p);
  }

  lemma NextPower(i: nat)
    ensures Pow128(i + 1) == 0x80 * Pow128(i)
  {
  }

  /** What is added is a multiple of the position's weight, and no more than fits. */
  lemma ShiftedRange(bits: nat, i: nat) returns (k: nat)
    requires i < MAX_LENGTH && bits < 0x80
    ensures Shifted(bits, i) == k * TwoTo(7 * i) && Pow128(i) == TwoTo(7 * i)
    ensures Shifted(bits, i) + Pow128(i) <= 0x1_0000_0000_0000_0000
    ensures Shifted(bits, i) + Pow128(i) <= Pow128(i + 1)
  {
    hide TwoTo, Shifted, Pow128;
    var d;
    d, k := ShiftedBits(bits, i);
    SevenBits(i);
    NextPower(i);
    AtMostProduct(k, d, Pow128(i));
    AtMostProduct(k, 0x80, Pow128(i));
  }

  /** The bits read so far lie below those added, so the bitwise or is a sum, and fits 64 bits. */
  lemma OrIsSum(acc: nat, bits: nat, i: nat)
    requires i < MAX_LENGTH && acc < Pow128(i) && bits < 0x80
    ensures
      var next := Or(acc, Shifted(bits, i));
      next == acc + Shifted(bits, i) < 0x1_0000_0000_0000_0000 && next < Pow128(i + 1)
  {
    hide TwoTo, Or, Shifted, Pow128;
    var k := ShiftedRange(bits, i);
    OrDisjoint(acc, k, 7 * i);
  }

  /** Reads byte i onwards, after bytes that gave `acc`. */
  function DecodeFrom(input: seq<Byte>, i: nat, acc: nat): Decoded
    requires acc < Pow128(i)
    decreases MAX_LENGTH - i
  {
    if i >= MAX_LENGTH then InvalidBuffer
    else if i >= |input| then NoBufferSpace
    else
      OrIsSum(acc, input[i] % 0x80, i);
      var next := Or(acc, Shifted(input[i] % 0x80, i));
      if input[i] < 0x80 then Value(next, i + 1) else DecodeFrom(input, i + 1, next)
  }

  method DeserializeVarint(input: seq<Byte>) returns (r: Decoded)
    ensures r == DecodeFrom(input, 0, 0)
    ensures r.Value? ==> 1 <= r.length <= MAX_LENGTH && r.length <= |input|
  {
    hide Or, Shifted, Pow128;
    var v: nat := 0;
    for i := 0 to MAX_LENGTH
      invariant v < Pow128(i) && DecodeFrom(input, 0, 0) == DecodeFrom(input, i, v)
    {
      if i >= |input| { return NoBufferSpace; }
      OrIsSum(v, input[i] % 0x80, i);
      v := Or(v, Shifted(input[i] % 0x80, i));
      if input[i] < 0x80 { return Value(v, i + 1); }
    }
    return InvalidBuffer;
  }

  // ----- what is written is read back -----

  lemma TenDigits()
    ensures Pow128(10) > 0x1_0000_0000_0000_0000
  {
    assert Pow128(1) == 0x80 && Pow128(2) == 0x4000 && Pow128(3) == 0x20_0000;
    assert Pow128(4) == 0x1000_0000 && Pow128(5) == 0x8_0000_0000 && Pow128(6) == 0x400_0000_0000;
    assert Pow128(7) == 0x2_0000_0000_0000 && Pow128(8) == 0x100_0000_0000_0000;
    assert Pow128(9) == 0x8000_0000_0000_0000;
  }

  /** The length is the number of base-128 digits, so no shorter coding holds the value. */
  lemma {:induction false} LengthIsLeast(v: nat)
    ensures v < Pow128(|Encode(v)|)
    ensures |Encode(v)| > 1 ==> v >= Pow128(|Encode(v)| - 1)
    decreases v
  {
    if v >= 0x80 {
      LengthIsLeast(v / 0x80);
      assert |Encode(v)| == 1 + |Encode(v / 0x80)|;
    } else {
      assert Pow128(1) == 0x80;
    }
  }

  lemma {:induction false} PowMonotone(i: nat, j: nat)
    ensures i <= j ==> Pow128(i) <= Pow128(j)
    decreases j
  {
    if i < j { PowMonotone(i, j - 1); }
  }

  lemma AtMostTen(v: U64)
    ensures |Encode(v)| <= MAX_LENGTH
  {
    LengthIsLeast(v);
    TenDigits();
    PowMonotone(10, |Encode(v)| - 1);
  }

  lemma Digit(v: nat, i: nat)
    ensures Scaled(v, i) == Scaled(v % 0x80, i) + Scaled(v / 0x80, i + 1)
  {
    var p := Pow128(i);
    assert v == v % 0x80 + v / 0x80 * 0x80;
    assert (v % 0x80 + v / 0x80 * 0x80) * p == v % 0x80 * p + v / 0x80 * (0x80 * p);
  }

  lemma DecodeStep(input: seq<Byte>, i: nat, acc: nat)
    requires i < MAX_LENGTH && i < |input|
    requires acc < Pow128(i) && acc + Scaled(input[i] % 0x80, i) < 0x1_0000_0000_0000_0000
    ensures
      var next := acc + Scaled(input[i] % 0x80, i);
      next < Pow128(i + 1) &&
      DecodeFrom(input, i, acc) == if input[i] < 0x80 then Value(next, i + 1) else DecodeFrom(input, i + 1, next)
  {
    hide Scaled, Or, Pow128;
    OrIsSum(acc, input[i] % 0x80, i);
  }

  lemma EncodeStep(v: nat)
    ensures Encode(v)[0] % 0x80 == v % 0x80 && (Encode(v)[0] < 0x80 <==> v < 0x80)
    ensures if v < 0x80 then v / 0x80 == 0 && |Encode(v)| == 1 else Encode(v)[1..] == Encode(v / 0x80)
  {
  }

  /** The first i bytes read leave the number whose digits they are. */
  lemma {:induction false} DecodeSuffix(input: seq<Byte>, i: nat, acc: nat, v: nat, rest: seq<Byte>)
    requires i <= |input| && input[i..] == Encode(v) + rest && acc < Pow128(i)
    requires acc + Scaled(v, i) < 0x1_0000_0000_0000_0000 && i + |Encode(v)| <= MAX_LENGTH
    ensures DecodeFrom(input, i, acc) == Value(acc + Scaled(v, i), i + |Encode(v)|)
    decreases v
  {
    hide Scaled, Encode, DecodeFrom, Pow128;
    Digit(v, i);
    EncodeStep(v);
    assert input[i] == input[i..][0] == Encode(v)[0];
    DecodeStep(input, i, acc);
    if v >= 0x80 {
      assert input[i + 1..] == input[i..][1..] == Encode(v / 0x80) + rest;
      DecodeSuffix(input, i + 1, acc + Scaled(v % 0x80, i), v / 0x80, rest);
    } else {
      assert Scaled(0, i + 1) == 0 by { NoBits(i + 1); }
    }
  }

  lemma NoBits(i: nat)
    ensures Scaled(0, i) == 0
  {
  }

  /** Every 64-bit value is read back, whatever follows it. */
  lemma RoundTrip(v: U64, rest: seq<Byte>)
    ensures DecodeFrom(Encode(v) + rest, 0, 0) == Value(v, |Encode(v)|)
  {
    AtMostTen(v);
    var input := Encode(v) + rest;
    assert input[0..] == input;
    assert Scaled(v, 0) == v;
    DecodeSuffix(input, 0, 0, v, rest);
  }

  /** A stream that stops inside a value is reported, not misread. */
  lemma {:induction false} TruncatedFrom(input: seq<Byte>, i: nat, acc: nat)
    requires i <= |input| < MAX_LENGTH && acc < Pow128(i) && forall j :: i <= j < |input| ==> input[j] >= 0x80
    ensures DecodeFrom(input, i, acc) == NoBufferSpace
    decreases |input| - i
  {
    if i < |input| {
      OrIsSum(acc, input[i] % 0x80, i);
      TruncatedFrom(input, i + 1, Or(acc, Shifted(input[i] % 0x80, i)));
    }
  }

  lemma {:induction false} ContinuationBits(v: nat, j: nat)
    requires j < |Encode(v)| - 1
    ensures Encode(v)[j] >= 0x80
    decreases v
  {
    if v >= 0x80 && j > 0 { ContinuationBits(v / 0x80, j - 1); }
  }

  lemma Truncated(v: U64, k: nat)
    requires k < |Encode(v)|
    ensures DecodeFrom(Encode(v)[..k], 0, 0) == NoBufferSpace
  {
    AtMostTen(v);
    forall j | 0 <= j < k ensures Encode(v)[..k][j] >= 0x80 { ContinuationBits(v, j); }
    TruncatedFrom(Encode(v)[..k], 0, 0);
  }

  // ----- signed values -----

  /** Small magnitudes of either sign become small unsigned numbers. */
  function Zigzag(t: int): (u: nat) { if t >= 0 then 2 * t else -2 * t - 1 }

  function Unzigzag(u: nat): int { if u % 2 == 0 then u / 2 else -(u / 2) - 1 }

  /** Zigzag is a bijection, and keeps a number in the unsigned range of its width. */
  lemma ZigzagInverse(t: int, u: nat)
    ensures Unzigzag(Zigzag(t)) == t && Zigzag(Unzigzag(u)) == u
    ensures -0x8000_0000 <= t < 0x8000_0000 <==> Zigzag(t) < 0x1_0000_0000
    ensures -0x8000_0000_0000_0000 <= t < 0x8000_0000_0000_0000 <==> Zigzag(t) < 0x1_0000_0000_0000_0000
  {
  }

  /** The program's forms, on bits: an arithmetic shift and an exclusive or. */
  function ZigzagBits32(t: bv32): bv64 { ((t << 1) ^ (0 - (t >> 31))) as bv64 }

  function ZigzagBits64(t: bv64): bv64 { (t << 1) ^ (0 - (t >> 63)) }

  function UnzigzagBits(u: bv64): bv64 { (u >> 1) ^ (0 - (u & 1)) }

  lemma Unzigzag64(t: bv64)
    ensures UnzigzagBits((t << 1) ^ (0 - (t >> 63))) == t
  {
  }

  lemma ZigzagBits64Inverse(t: bv64)
    ensures UnzigzagBits(ZigzagBits64(t)) == t
  {
    hide UnzigzagBits;
    Unzigzag64(t);
  }

  lemma Unzigzag32(t: bv32)
    ensures UnzigzagBits(((t << 1) ^ (0 - (t >> 31))) as bv64) & 0xffff_ffff == t as bv64
  {
  }

  /** The narrow width too is read back through the 64-bit inverse, and cut. */
  lemma ZigzagBits32Inverse(t: bv32)
    ensures UnzigzagBits(ZigzagBits32(t)) & 0xffff_ffff == t as bv64
  {
    hide UnzigzagBits;
    Unzigzag32(t);
  }
}
