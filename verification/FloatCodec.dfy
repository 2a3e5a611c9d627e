/**
  The logarithmic float codec of the quantile sketch: a 32-bit float becomes a
  14-bit bucket index (sign, 7-bit exponent, 6-bit fraction) and back.

  A float is its 32-bit pattern. Shifts are written as multiplication and
  division by powers of two, low masks as remainders, and `|` of fields that
  share no bit as addition.
*/
module FloatCodec {
  import opened Integers

  const TWO_16: int := 0x1_0000
  const TWO_64: int := 0x1_0000_0000_0000_0000
  const BUCKETS: int := 16384
  const HALF: int := 8192

  type Bits32 = x: int | 0 <= x < 0x1_0000_0000
  type RawIndex = x: int | 0 <= x < 16384
  type OrderedIndex = x: int | -8192 <= x < 8192

  // ----- IEEE 754 single precision: fields and value -----

  function SignBit(b: Bits32): int { b / 0x8000_0000 }
  function ExponentField(b: Bits32): int { b / 0x80_0000 % 0x100 }
  function MantissaField(b: Bits32): int { b % 0x80_0000 }
  function Magnitude(b: Bits32): int { b % 0x8000_0000 }

  predicate IsNaN(b: Bits32) { ExponentField(b) == 0xff && MantissaField(b) != 0 }

  function Pow2(k: int): real
    decreases if k < 0 then -k else k
  {
    if k == 0 then 1.0 else if k > 0 then 2.0 * Pow2(k - 1) else Pow2(k + 1) / 2.0
  }

  /** The absolute value a magnitude stands for. At an infinity the formula yields
      2^128, which lies above every finite float, so the order is kept. */
  function MagnitudeValue(m: nat): real
  {
    if m < 0x80_0000 then Scale(m, Pow2(-149))
    else Scale(0x80_0000 + m % 0x80_0000, Pow2(m / 0x80_0000 - 150))
  }

  function Scale(n: int, p: real): real { n as real * p }

  function Signed(sign: int, m: nat): real
  {
    if sign == 1 then -MagnitudeValue(m) else MagnitudeValue(m)
  }

  function Value(b: Bits32): real { Signed(SignBit(b), Magnitude(b)) }

  function RealAbs(x: real): real { if x < 0.0 then -x else x }

  // ----- the codec, operation by operation -----

  function BitAnd(x: nat, y: nat): nat
  {
    if x == 0 || y == 0 then 0 else 2 * BitAnd(x / 2, y / 2) + (x % 2) * (y % 2)
  }

  /** The branch-free exponent step: an arithmetic shift of a signed difference,
      read as unsigned and shifted again, masks another difference. */
  function MaskedExponent(tmp: int): int
    requires 0 <= tmp < 0x100
  {
    var mask := ((0x40 - tmp) / 0x40) % 0x1_0000_0000 / 0x200_0000;
    BitAnd((tmp - 0x40) % 0x1_0000_0000, mask) % 0x1_0000
  }

  function Clamp(b: Bits32): Bits32
  {
    if RealAbs(Value(b)) >= Pow2(64) || IsNaN(b)
    then SignBit(b) * 0x8000_0000 + 0x5f80_0000   // plus or minus 2^64
    else b
  }

  function Encode(b: Bits32): (i: RawIndex)
  {
    var c := Clamp(b);
    ClampBounds(b);
    var tmp := MaskedExponent(ExponentField(c));
    MaskedExponentSaturates(ExponentField(c));
    Fields(c);
    PackedFields(SignBit(c), ExponentField(c), MantissaField(c), tmp);
    ((SignBit(c) * 0x80 + tmp) * 0x100 + c / 0x8000 % 0x100) / 4
  }

  function DecodeBits(i: RawIndex): (b: Bits32)
  {
    var v := i * 4 % 0x1_0000;
    var sign, exponent, fraction := v / 0x8000, v / 0x100 % 0x80, v % 0x100;
    if exponent == 0 then
      sign * 0x8000_0000
    else if exponent == 0x7f then
      sign * 0x8000_0000 + 191 * 0x80_0000
    else
      sign * 0x8000_0000 + (exponent + 64) * 0x80_0000 + fraction * 0x8000
  }

  function Decode(i: RawIndex): real { Value(DecodeBits(i)) }

  function Quantize(b: Bits32): real { Decode(Encode(b)) }

  // ----- bucket order -----

  function ToU16(x: int): int { x % 0x1_0000 }
  function ToU64(x: int): int { x % 0x1_0000_0000_0000_0000 }
  function ToI16(x: int): int { var u := x % 0x1_0000; if u >= 0x8000 then u - TWO_16 else u }

  /** The 64-bit difference wraps, is cut to 16 unsigned bits and is stored as a
      signed 16-bit index. */
  function GetOrderedIndex(raw: RawIndex): int
  {
    ToI16(if ToU64(raw) >= HALF then ToU16(ToU64(HALF - 1 - raw)) else ToU16(raw))
  }

  function GetRawIndex(o: OrderedIndex): int
  {
    ToU16(if o < 0 then ToU64(HALF - 1 - ToU64(o)) else ToU64(o))
  }

  // Negative buckets are stored in decreasing order of value, so turning the
  // upper half of the raw indices around makes the index order the value order.
  function OrderedOf(raw: RawIndex): OrderedIndex { if raw >= HALF then HALF - 1 - raw else raw }
  function RawOf(o: OrderedIndex): RawIndex { if o < 0 then HALF - 1 - o else o }

  /** Despite the wrap-around the two conversions are inverse to each other. */
  lemma IndexConversionsInverse(raw: RawIndex, o: OrderedIndex)
    ensures GetOrderedIndex(raw) == OrderedOf(raw) && GetRawIndex(GetOrderedIndex(raw)) == raw
    ensures GetRawIndex(o) == RawOf(o) && GetOrderedIndex(GetRawIndex(o)) == o
  {
    UnwrappedOrdered(raw);
    UnwrappedRaw(OrderedOf(raw));
    UnwrappedRaw(o);
    UnwrappedOrdered(RawOf(o));
  }

  lemma UnwrappedOrdered(raw: RawIndex)
    ensures GetOrderedIndex(raw) == OrderedOf(raw)
  {
    hide ToU64, ToU16, ToI16;
    Unwrap64(raw);
    Unwrap16(raw);
    Unwrap16(HALF - 1 - raw);
  }

  lemma Unwrap16(x: int)
    ensures 0 <= x < 0x8000 ==> ToI16(ToU16(x)) == x
    ensures -0x8000 <= x < 0 ==> ToI16(ToU16(ToU64(x))) == x
  {
    Unwrap64(x);
    if -0x8000 <= x < 0 { assert ToU64(x) == 0x1_0000 * 0xffff_ffff_ffff + (0x1_0000 + x); }
  }

  lemma UnwrappedRaw(o: OrderedIndex)
    ensures GetRawIndex(o) == RawOf(o)
  {
    Unwrap64(o);
    Unwrap64(HALF - 1 - ToU64(o));
  }

  lemma Unwrap64(x: int)
    ensures 0 <= x < TWO_64 ==> ToU64(x) == x
    ensures -TWO_64 <= x < 0 ==> ToU64(x) == x + TWO_64
  {
    if 0 <= x < TWO_64 {
      assert x / 0x1_0000_0000_0000_0000 == 0;
    } else if -TWO_64 <= x < 0 {
      assert x / 0x1_0000_0000_0000_0000 == -1;
    }
  }

  // ----- the exponent mask -----

  lemma {:induction false} BitAndOnes(x: nat, k: nat)
    requires x < TwoTo(k)
    ensures BitAnd(x, TwoTo(k) - 1) == x
  {
    if k > 0 && x > 0 {
      var p := TwoTo(k - 1);
      BitAndOnes(x / 2, k - 1);
      assert (2 * p - 1) / 2 == p - 1 && (2 * p - 1) % 2 == 1;
    }
  }

  lemma MaskedExponentSaturates(tmp: int)
    requires 0 <= tmp <= 191
    ensures MaskedExponent(tmp) == if tmp > 64 then tmp - 64 else 0
  {
    hide TwoTo, BitAnd;
    Mask(tmp);
    NoMask((tmp - 0x40) % 0x1_0000_0000);
    if tmp > 64 { SevenBits(tmp - 0x40); }
  }

  lemma NoMask(x: nat)
    ensures BitAnd(x, 0) == 0
  {
  }

  lemma SevenBits(x: nat)
    requires x < 128
    ensures BitAnd(x, 127) == x
  {
    hide TwoTo, BitAnd;
    SevenOnes();
    BitAndOnes(x, 7);
  }

  lemma SevenOnes()
    ensures TwoTo(7) == 128
  {
    assert TwoTo(4) == 16;
  }

  lemma Mask(tmp: int)
    requires 0 <= tmp <= 191
    ensures ((0x40 - tmp) / 0x40) % 0x1_0000_0000 / 0x200_0000 == if tmp > 64 then 127 else 0
    ensures tmp > 64 ==> (tmp - 0x40) % 0x1_0000_0000 == tmp - 0x40
  {
    var q := (0x40 - tmp) / 0x40;
    assert -2 <= q <= 1;
    assert tmp > 64 <==> q < 0;
  }

  // ----- powers of two and the order of magnitudes -----

  lemma Pow2Facts(k: int)
    ensures Pow2(k) > 0.0
    ensures Pow2(k + 1) == 2.0 * Pow2(k)
    decreases if k < 0 then -k else k
  {
    if k > 0 { Pow2Facts(k - 1); } else if k < 0 { Pow2Facts(k + 1); }
  }

  lemma Pow2Monotone(j: int, k: int)
    requires j <= k
    ensures 0.0 < Pow2(j) <= Pow2(k)
    decreases k - j
  {
    Pow2Facts(j);
    if j < k {
      Pow2Facts(k - 1);
      Pow2Monotone(j, k - 1);
    }
  }

  lemma ScaleMonotone(x: int, y: int, p: real)
    requires p > 0.0 && x <= y
    ensures Scale(x, p) <= Scale(y, p)
    ensures x < y ==> Scale(x, p) < Scale(y, p)
  {
    var d := y - x;
    assert Scale(d, p) >= 0.0;
    assert y as real == x as real + d as real;
  }

  lemma Fields(b: Bits32)
    ensures Magnitude(b) == ExponentField(b) * 0x80_0000 + MantissaField(b)
    ensures b == SignBit(b) * 0x8000_0000 + Magnitude(b)
    ensures SignBit(b) == 0 || SignBit(b) == 1
  {
  }

  lemma MagnitudeValueRange(m: nat)
    ensures 0.0 <= MagnitudeValue(m) < Pow2(m / 0x80_0000 - 126)
    ensures m >= 0x80_0000 ==> MagnitudeValue(m) >= Pow2(m / 0x80_0000 - 127)
  {
    var e, f := m / 0x80_0000, m % 0x80_0000;
    if e == 0 {
      Pow2Facts(-149);
      Pow2Twenty3(-149);
      ScaleMonotone(m, 0x80_0000, Pow2(-149));
      ScaleMonotone(0, m, Pow2(-149));
    } else {
      Pow2Facts(e - 150);
      Pow2Twenty3(e - 150);
      Pow2Facts(e - 127);
      ScaleMonotone(0x80_0000, 0x80_0000 + f, Pow2(e - 150));
      ScaleMonotone(0x80_0000 + f, 0x100_0000, Pow2(e - 150));
    }
  }

  lemma Pow2Twenty3(k: int)
    ensures Pow2(k + 23) == 8388608.0 * Pow2(k)
  {
    Pow2Facts(k); Pow2Facts(k + 1); Pow2Facts(k + 2); Pow2Facts(k + 3); Pow2Facts(k + 4); Pow2Facts(k + 5);
    Pow2Facts(k + 6); Pow2Facts(k + 7); Pow2Facts(k + 8); Pow2Facts(k + 9); Pow2Facts(k + 10); Pow2Facts(k + 11);
    Pow2Facts(k + 12); Pow2Facts(k + 13); Pow2Facts(k + 14); Pow2Facts(k + 15); Pow2Facts(k + 16);
    Pow2Facts(k + 17); Pow2Facts(k + 18); Pow2Facts(k + 19); Pow2Facts(k + 20); Pow2Facts(k + 21); Pow2Facts(k + 22);
  }

  /** Bit patterns compare like the numbers they stand for. */
  lemma MagnitudeOrder(m: nat, n: nat)
    ensures m < n <==> MagnitudeValue(m) < MagnitudeValue(n)
  {
    if m < n {
      MagnitudeOrderStrict(m, n);
    } else if n < m {
      MagnitudeOrderStrict(n, m);
    }
  }

  lemma MagnitudeOrderStrict(m: nat, n: nat)
    requires m < n
    ensures MagnitudeValue(m) < MagnitudeValue(n)
  {
    var e, g := m / 0x80_0000, n / 0x80_0000;
    if e == g == 0 {
      Pow2Facts(-149);
      ScaleMonotone(m, n, Pow2(-149));
    } else if e == g {
      Pow2Facts(e - 150);
      ScaleMonotone(0x80_0000 + m % 0x80_0000, 0x80_0000 + n % 0x80_0000, Pow2(e - 150));
    } else {
      MagnitudeValueRange(m);
      MagnitudeValueRange(n);
      Pow2Monotone(e - 126, g - 127);
    }
  }

  lemma Limits()
    ensures MagnitudeValue(0) == 0.0
    ensures MagnitudeValue(65 * 0x80_0000) == Pow2(-62) > 0.0
    ensures MagnitudeValue(191 * 0x80_0000) == Pow2(64)
  {
    hide MagnitudeValue, Pow2;
    PowerMagnitude(65);
    PowerMagnitude(191);
    Pow2Facts(-62);
    ZeroMagnitude();
  }

  /** An exponent field alone stands for a power of two. */
  lemma PowerMagnitude(e: int)
    requires e > 0
    ensures MagnitudeValue(e * 0x80_0000) == Pow2(e - 127)
  {
    hide Pow2;
    Pow2Twenty3(e - 150);
    assert e * 0x80_0000 / 0x80_0000 == e && e * 0x80_0000 % 0x80_0000 == 0;
  }

  lemma ZeroMagnitude()
    ensures MagnitudeValue(0) == 0.0
  {
  }

  /** The value test of the clamp is a test of the bit pattern. */
  lemma ClampBounds(b: Bits32)
    ensures
      var c, big := Clamp(b), IsNaN(b) || Magnitude(b) >= 191 * 0x80_0000;
      && c == (if big then SignBit(b) * 0x8000_0000 + 191 * 0x80_0000 else b)
      && ExponentField(c) <= 191
      && (ExponentField(c) == 191 <==> big)
      && (big ==> MantissaField(c) == 0)
      && SignBit(c) == SignBit(b)
  {
    Limits();
    Fields(b);
    MagnitudeOrder(Magnitude(b), 191 * 0x80_0000);
    MagnitudeOrder(Magnitude(b), 0);
    Assembled(SignBit(b), 191 * 0x80_0000);
  }

  lemma Assembled(sign: int, m: int)
    requires 0 <= sign < 2 && 0 <= m < 0x8000_0000
    ensures
      var b := sign * 0x8000_0000 + m;
      && SignBit(b) == sign && Magnitude(b) == m
      && ExponentField(b) == m / 0x80_0000 && MantissaField(b) == m % 0x80_0000
  {
  }

  // ----- what the codec does to a float -----

  /** The decoded magnitude: below 2^-62 zero, from 2^64 on 2^64, and otherwise
      the observed one with its low 17 mantissa bits cut. */
  function Truncated(m: nat): (t: nat)
    ensures t <= m
  {
    if m >= 191 * 0x80_0000 then 191 * 0x80_0000
    else if m < 65 * 0x80_0000 then 0
    else m / 0x2_0000 * 0x2_0000
  }

  lemma PackedFields(sign: int, e: int, m: int, tmp: int)
    requires 0 <= sign < 2 && 0 <= e < 0x100 && 0 <= m < 0x80_0000
    ensures
      var c := sign * 0x8000_0000 + e * 0x80_0000 + m;
      ((sign * 0x80 + tmp) * 0x100 + c / 0x8000 % 0x100) / 4 == sign * 8192 + tmp * 64 + m / 0x2_0000
  {
    var c, h := sign * 0x8000_0000 + e * 0x80_0000 + m, m / 0x8000;
    assert c / 0x8000 == sign * 0x1_0000 + e * 0x100 + h;
    assert c / 0x8000 % 0x100 == h;
    assert m / 0x2_0000 == h / 4;
  }

  lemma EncodedFields(b: Bits32)
    ensures
      var e, f := ExponentField(Clamp(b)), MantissaField(Clamp(b)) / 0x2_0000;
      Encode(b) == SignBit(b) * 8192 + (if e > 64 then e - 64 else 0) * 64 + f && 0 <= f < 64
  {
    ClampBounds(b);
    var c := Clamp(b);
    Fields(c);
    MaskedExponentSaturates(ExponentField(c));
    PackedFields(SignBit(c), ExponentField(c), MantissaField(c), MaskedExponent(ExponentField(c)));
  }

  lemma DecodedFields(sign: int, e: int, f: int)
    requires 0 <= sign < 2 && 0 <= e < 128 && 0 <= f < 64
    ensures DecodeBits(sign * 8192 + e * 64 + f) ==
            sign * 0x8000_0000 +
            if e == 0 then 0 else if e == 127 then 191 * 0x80_0000 else (e + 64) * 0x80_0000 + f * 0x2_0000
  {
    IndexFields(sign, e, f);
  }

  lemma IndexFields(sign: int, e: int, f: int)
    requires 0 <= sign < 2 && 0 <= e < 128 && 0 <= f < 64
    ensures
      var v := (sign * 8192 + e * 64 + f) * 4 % 0x1_0000;
      v / 0x8000 == sign && v / 0x100 % 0x80 == e && v % 0x100 == f * 4
  {
    var v := (sign * 8192 + e * 64 + f) * 4;
    assert v % 0x1_0000 == v;
    assert v / 0x100 == sign * 128 + e;
    assert (sign * 128 + e) % 0x80 == e;
  }

  lemma DecodeEncode(b: Bits32)
    ensures
      DecodeBits(Encode(b)) ==
      SignBit(b) * 0x8000_0000 + if IsNaN(b) then 191 * 0x80_0000 else Truncated(Magnitude(b))
  {
    hide DecodeBits, Encode, Clamp;
    EncodedFields(b);
    ClampBounds(b);
    var e, f := ExponentField(Clamp(b)), MantissaField(Clamp(b)) / 0x2_0000;
    DecodedFields(SignBit(b), if e > 64 then e - 64 else 0, f);
    Fields(b);
    if e < 191 {
      TruncatedFields(ExponentField(b), MantissaField(b));
    }
  }

  lemma TruncatedFields(e: int, m: int)
    requires 0 <= e < 191 && 0 <= m < 0x80_0000
    ensures Truncated(e * 0x80_0000 + m) == if e < 65 then 0 else e * 0x80_0000 + m / 0x2_0000 * 0x2_0000
  {
  }

  lemma QuantizedValue(b: Bits32)
    requires !IsNaN(b)
    ensures Quantize(b) == Signed(SignBit(b), Truncated(Magnitude(b)))
  {
    Fields(b);
    DecodeEncode(b);
    Assembled(SignBit(b), Truncated(Magnitude(b)));
  }

  /** The order of signed values, read off sign and magnitude. */
  predicate SignedLeq(s: int, m: nat, r: int, n: nat)
  {
    if s == 1 then r != 1 || n <= m else if r == 1 then m == n == 0 else m <= n
  }

  lemma SignedOrder(s: int, m: nat, r: int, n: nat)
    ensures SignedLeq(s, m, r, n) <==> Signed(s, m) <= Signed(r, n)
  {
    Limits();
    MagnitudeOrder(0, m);
    MagnitudeOrder(0, n);
    MagnitudeOrder(m, n);
    MagnitudeOrder(n, m);
  }

  lemma TruncatedMonotone(m: nat, n: nat)
    requires m <= n
    ensures Truncated(m) <= Truncated(n)
  {
  }

  lemma SignedTruncationMonotone(s: int, m: nat, r: int, n: nat)
    requires SignedLeq(s, m, r, n)
    ensures SignedLeq(s, Truncated(m), r, Truncated(n))
  {
    if m <= n { TruncatedMonotone(m, n); } else { TruncatedMonotone(n, m); }
  }

  /** Quantising never reorders two observations. */
  lemma QuantizeMonotone(x: Bits32, y: Bits32)
    requires !IsNaN(x) && !IsNaN(y) && Value(x) <= Value(y)
    ensures Quantize(x) <= Quantize(y)
  {
    SignedOrder(SignBit(x), Magnitude(x), SignBit(y), Magnitude(y));
    SignedTruncationMonotone(SignBit(x), Magnitude(x), SignBit(y), Magnitude(y));
    SignedOrder(SignBit(x), Truncated(Magnitude(x)), SignBit(y), Truncated(Magnitude(y)));
    QuantizedValue(x);
    QuantizedValue(y);
  }

  /** Buckets in index order decode to values in order. */
  lemma DecodeMonotone(o1: OrderedIndex, o2: OrderedIndex)
    requires o1 <= o2
    ensures Decode(RawOf(o1)) <= Decode(RawOf(o2))
  {
    BucketBits(o1);
    BucketBits(o2);
    var b1, b2 := DecodeBits(RawOf(o1)), DecodeBits(RawOf(o2));
    SignedOrder(SignBit(b1), Magnitude(b1), SignBit(b2), Magnitude(b2));
  }

  lemma BucketBits(o: OrderedIndex)
    ensures
      var n := if o < 0 then -1 - o else o;
      var b := DecodeBits(RawOf(o));
      && SignBit(b) == (if o < 0 then 1 else 0)
      && Magnitude(b) ==
         if n < 64 then 0 else if n >= 127 * 64 then 191 * 0x80_0000 else n * 0x2_0000 + 64 * 0x80_0000
  {
    var n := if o < 0 then -1 - o else o;
    DecodedFields(if o < 0 then 1 else 0, n / 64, n % 64);
  }

  /** The bound of the sketch: between 2^-62 and 2^64 the decoded value keeps the
      sign and lies below the observation by less than one part in 64; smaller
      observations decode to zero, larger ones to plus or minus 2^64. */
  lemma QuantizeAccuracy(b: Bits32)
    requires !IsNaN(b)
    ensures
      var x, a := Value(b), Quantize(b);
      if RealAbs(x) < Pow2(-62) then a == 0.0
      else if RealAbs(x) >= Pow2(64) then a == if x < 0.0 then -Pow2(64) else Pow2(64)
      else (x < 0.0 <==> a < 0.0) && RealAbs(a) <= RealAbs(x) < RealAbs(a) * (1.0 + 1.0 / 64.0)
  {
    QuantizedValue(b);
    TruncationAccuracy(SignBit(b), Magnitude(b));
  }

  lemma TruncationAccuracy(s: int, m: nat)
    ensures
      var x, a := Signed(s, m), Signed(s, Truncated(m));
      if RealAbs(x) < Pow2(-62) then a == 0.0
      else if RealAbs(x) >= Pow2(64) then a == if x < 0.0 then -Pow2(64) else Pow2(64)
      else (x < 0.0 <==> a < 0.0) && RealAbs(a) <= RealAbs(x) < RealAbs(a) * (1.0 + 1.0 / 64.0)
  {
    Limits();
    MagnitudeOrder(m, 65 * 0x80_0000);
    MagnitudeOrder(m, 191 * 0x80_0000);
    MagnitudeOrder(m, 0);
    MagnitudeOrder(0, m);
    MagnitudeOrder(m, Truncated(m));
    if 65 * 0x80_0000 <= m < 191 * 0x80_0000 {
      TruncationError(m);
    }
  }

  lemma TruncationError(m: nat)
    requires m >= 0x80_0000
    ensures 0.0 < MagnitudeValue(m / 0x2_0000 * 0x2_0000)
    ensures MagnitudeValue(m) < MagnitudeValue(m / 0x2_0000 * 0x2_0000) * (1.0 + 1.0 / 64.0)
  {
    var t := m / 0x2_0000 * 0x2_0000;
    var e, f, g := m / 0x80_0000, 0x80_0000 + m % 0x80_0000, 0x80_0000 + t % 0x80_0000;
    CutFields(m);
    var p := Pow2(e - 150);
    Pow2Facts(e - 150);
    ScaleMonotone(64 * f, 65 * g, p);
    ScaleTimes(64, f, p);
    ScaleTimes(65, g, p);
    ScaleMonotone(0, g, p);
  }

  lemma CutFields(m: nat)
    ensures
      var t := m / 0x2_0000 * 0x2_0000;
      t / 0x80_0000 == m / 0x80_0000 && t % 0x80_0000 <= m % 0x80_0000 < t % 0x80_0000 + 0x2_0000
  {
    var e, r := m / 0x80_0000, m % 0x80_0000;
    var h := r / 0x2_0000;
    assert m / 0x2_0000 == 64 * e + h && 0 <= h < 64;
    assert m / 0x2_0000 * 0x2_0000 == e * 0x80_0000 + h * 0x2_0000;
  }

  lemma ScaleTimes(k: int, n: int, p: real)
    ensures Scale(k * n, p) == k as real * Scale(n, p)
  {
    assert (k * n) as real == k as real * n as real;
  }

  /** A decoded bucket encodes to itself, so quantising twice changes nothing. */
  lemma EncodeDecode(i: RawIndex)
    requires 64 <= i % 8192 < 127 * 64
    ensures Encode(DecodeBits(i)) == i
  {
    var sign, e, f := i / 8192, i % 8192 / 64, i % 64;
    assert i == sign * 8192 + e * 64 + f;
    DecodedFields(sign, e, f);
    Assembled(sign, (e + 64) * 0x80_0000 + f * 0x2_0000);
    ReencodedFields(DecodeBits(i), e, f);
  }

  lemma ReencodedFields(b: Bits32, e: int, f: int)
    requires 1 <= e < 127 && 0 <= f < 64
    requires ExponentField(b) == e + 64 && MantissaField(b) == f * 0x2_0000
    ensures Encode(b) == SignBit(b) * 8192 + e * 64 + f
  {
    Fields(b);
    ClampBounds(b);
    EncodedFields(b);
  }
}
