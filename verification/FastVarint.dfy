/**
  Fast varint coding of the integer fields of one struct: a bitset of the
  non-zero fields and a shared width, then the low bytes of each non-zero field.
*/
module FastVarint {
  import opened Integers
  import opened Octets

  /** An integer field of four or eight bytes. */
  datatype Field = Field(wide: bool, signed: bool, v: int)

  function SizeOf(f: Field): nat { if f.wide then 8 else 4 }

  predicate InRange(f: Field) { Fits(f.v, f.signed, SizeOf(f)) }

  predicate AllInRange(fs: seq<Field>) { forall i :: 0 <= i < |fs| ==> InRange(fs[i]) }

  // ----- little-endian integers -----

  function FromBytes(s: seq<Byte>): nat
  {
    if s == [] then 0 else s[0] + 256 * FromBytes(s[1..])
  }

  /** Reading into a wider integer, with or without sign extension. */
  function Extend(signed: bool, s: seq<Byte>): int
  {
    var u, p := FromBytes(s), Pow256(|s|);
    if signed && u >= p / 2 then u - p else u
  }

  predicate Fits(v: int, signed: bool, b: nat)
  {
    if signed then -(Pow256(b) / 2) <= v < Pow256(b) / 2 else 0 <= v < Pow256(b)
  }

  lemma {:induction false} FromLowBytes(v: int, b: nat)
    ensures exists k: int :: FromBytes(LowBytes(v, b)) == v + Turn(k, b)
    ensures FromBytes(LowBytes(v, b)) < Pow256(b)
    decreases b
  {
    if b == 0 {
      assert FromBytes(LowBytes(v, 0)) == v + Turn(-v, 0);
    } else {
      FromLowBytes(v / 256, b - 1);
      var k: int :| FromBytes(LowBytes(v / 256, b - 1)) == v / 256 + Turn(k, b - 1);
      assert LowBytes(v, b)[1..] == LowBytes(v / 256, b - 1);
      TurnStep(k, b);
      assert FromBytes(LowBytes(v, b)) == v + Turn(k, b);
    }
  }

  /** Whole turns of the b-byte counter. */
  function Turn(k: int, b: nat): int { k * Pow256(b) }

  lemma TurnStep(k: int, b: nat)
    requires b > 0
    ensures Turn(k, b) == 256 * Turn(k, b - 1)
  {
    var p := Pow256(b - 1);
    assert k * (256 * p) == 256 * (k * p);
  }

  lemma OneTurn(k: int, b: nat)
    ensures k >= 1 ==> Turn(k, b) >= Pow256(b)
    ensures k <= -1 ==> Turn(k, b) + Pow256(b) <= 0
    ensures k >= 2 ==> Turn(k, b) >= 2 * Pow256(b)
    ensures k <= -2 ==> Turn(k, b) + 2 * Pow256(b) <= 0
    ensures k == 0 ==> Turn(k, b) == 0
    ensures k == 1 ==> Turn(k, b) == Pow256(b)
  {
    var p := Pow256(b);
    if k >= 2 { assert (k - 2) * p >= 0; }
    if k >= 1 { assert (k - 1) * p >= 0; }
    if k <= -1 { assert (-1 - k) * p >= 0; }
    if k <= -2 { assert (-2 - k) * p >= 0; }
  }

  lemma EvenPower(b: nat)
    requires b > 0
    ensures Pow256(b) % 2 == 0
  {
    assert Pow256(b) == 2 * (128 * Pow256(b - 1));
  }

  /** Cutting an integer to b bytes loses nothing exactly when it fits. */
  lemma LosslessIff(v: int, signed: bool, b: nat)
    requires b > 0
    ensures Extend(signed, LowBytes(v, b)) == v <==> Fits(v, signed, b)
  {
    hide LowBytes, FromBytes, Pow256, Turn;
    FromLowBytes(v, b);
    var k: int :| FromBytes(LowBytes(v, b)) == v + Turn(k, b);
    OneTurn(k, b);
    EvenPower(b);
  }

  // ----- choosing the width -----

  /** What a non-zero signed value contributes: its size on the positive side. */
  function Magnitude(v: int): int { if v > 0 then v else -(v + 1) }

  function MaxUnsigned(fs: seq<Field>): nat
    requires AllInRange(fs)
  {
    if fs == [] then 0
    else if fs[0].v != 0 && !fs[0].signed then Max(fs[0].v, MaxUnsigned(fs[1..]))
    else MaxUnsigned(fs[1..])
  }

  function MaxSigned(fs: seq<Field>): (m: nat)
    requires AllInRange(fs)
  {
    if fs == [] then 0
    else if fs[0].v != 0 && fs[0].signed then Max(Magnitude(fs[0].v), MaxSigned(fs[1..]))
    else MaxSigned(fs[1..])
  }

  /** The two-bit width code: 1, 2, 4 or 8 bytes. */
  function WidthFromMax(unsignedMax: nat, signedMax: nat): (code: nat)
    ensures code <= 3
  {
    Max(if unsignedMax <= 0xff then 0
        else if unsignedMax <= 0xffff then 1
        else if unsignedMax <= 0xffff_ffff then 2
        else 3,
        if signedMax <= 0x7f then 0
        else if signedMax <= 0x7fff then 1
        else if signedMax <= 0x7fff_ffff then 2
        else 3)
  }

  function Bytes(code: nat): nat
    requires code <= 3
  {
    if code == 0 then 1 else if code == 1 then 2 else if code == 2 then 4 else 8
  }

  function WidthCode(fs: seq<Field>): (code: nat)
    requires AllInRange(fs)
    ensures code <= 3
  {
    WidthFromMax(MaxUnsigned(fs), MaxSigned(fs))
  }

  predicate FitAll(fs: seq<Field>, b: nat) { forall i :: 0 <= i < |fs| ==> Fits(fs[i].v, fs[i].signed, b) }

  lemma {:induction false} MaxUnsignedBounds(fs: seq<Field>, m: nat)
    requires AllInRange(fs)
    ensures MaxUnsigned(fs) <= m <==> forall i :: 0 <= i < |fs| && !fs[i].signed ==> fs[i].v <= m
  {
    if fs != [] {
      MaxUnsignedBounds(fs[1..], m);
      assert forall i :: 0 < i < |fs| ==> fs[i] == fs[1..][i - 1];
    }
  }

  lemma {:induction false} MaxSignedBounds(fs: seq<Field>, m: nat)
    requires AllInRange(fs)
    ensures MaxSigned(fs) <= m <==> forall i :: 0 <= i < |fs| && fs[i].signed ==> -1 - m <= fs[i].v <= m
  {
    if fs != [] {
      MaxSignedBounds(fs[1..], m);
      assert forall i :: 0 < i < |fs| ==> fs[i] == fs[1..][i - 1];
    }
  }

  lemma Powers()
    ensures Pow256(1) == 0x100 && Pow256(2) == 0x1_0000 && Pow256(4) == 0x1_0000_0000
    ensures Pow256(8) == 0x1_0000_0000_0000_0000
  {
    assert Pow256(3) == 0x100_0000 && Pow256(5) == 0x100_0000_0000;
    assert Pow256(6) == 0x1_0000_0000_0000 && Pow256(7) == 0x100_0000_0000_0000;
  }

  /** One width suits all fields exactly when the two maxima fit it. */
  lemma FitAllIff(fs: seq<Field>, code: nat)
    requires AllInRange(fs) && code <= 3
    ensures FitAll(fs, Bytes(code)) <==> WidthCode(fs) <= code
  {
    hide MaxUnsigned, MaxSigned;
    Powers();
    var p := Pow256(Bytes(code));
    hide Pow256;
    MaxUnsignedBounds(fs, p - 1);
    MaxSignedBounds(fs, p / 2 - 1);
    Widest(fs);
  }

  lemma {:induction false} Widest(fs: seq<Field>)
    requires AllInRange(fs)
    ensures MaxUnsigned(fs) <= 0xffff_ffff_ffff_ffff && MaxSigned(fs) <= 0x7fff_ffff_ffff_ffff
  {
    Powers();
    if fs != [] { Widest(fs[1..]); }
  }

  /** The chosen width fits every field, and no narrower one does. */
  lemma WidthIsLeast(fs: seq<Field>)
    requires AllInRange(fs)
    ensures FitAll(fs, Bytes(WidthCode(fs)))
    ensures forall code: nat :: code < WidthCode(fs) ==> !FitAll(fs, Bytes(code))
  {
    hide WidthCode, FitAll, Bytes;
    FitAllIff(fs, WidthCode(fs));
    forall code: nat | code < WidthCode(fs) ensures !FitAll(fs, Bytes(code)) { FitAllIff(fs, code); }
  }

  /** Eight bytes are only ever chosen for a struct that has an eight-byte field. */
  lemma NarrowFields(fs: seq<Field>)
    requires AllInRange(fs) && forall i :: 0 <= i < |fs| ==> !fs[i].wide
    ensures WidthCode(fs) <= 2
  {
    Powers();
    FitAllIff(fs, 2);
    assert FitAll(fs, 4);
  }

  // ----- the size pass -----

  function NonZero(fs: seq<Field>, wide: bool): nat
  {
    if fs == [] then 0 else (if fs[0].v != 0 && fs[0].wide == wide then 1 else 0) + NonZero(fs[1..], wide)
  }

  function BitsetSize(count: nat): nat { (count + 2 + 7) / 8 }

  /** A bitset, the width for each non-zero wide field, at most four for the others. */
  function FastSize(fs: seq<Field>): nat
    requires AllInRange(fs)
  {
    if fs == [] then 0
    else
      var width := Bytes(WidthCode(fs));
      BitsetSize(|fs|) + width * NonZero(fs, true) + Min(width, 4) * NonZero(fs, false)
  }

  /** The fold over the fields, with its running maxima and counts. */
  method CalculateFastVarintSize(fs: seq<Field>) returns (size: nat)
    requires AllInRange(fs)
    ensures size == FastSize(fs)
  {
    var unsignedMax, signedMax := 0, 0;
    var nonZero32, nonZero64 := 0, 0;
    for i := 0 to |fs|
      invariant unsignedMax >= 0 && signedMax >= 0
      invariant Max(unsignedMax, MaxUnsigned(fs[i..])) == MaxUnsigned(fs)
      invariant Max(signedMax, MaxSigned(fs[i..])) == MaxSigned(fs)
      invariant nonZero32 + NonZero(fs[i..], false) == NonZero(fs, false)
      invariant nonZero64 + NonZero(fs[i..], true) == NonZero(fs, true)
    {
      assert fs[i..][0] == fs[i] && fs[i..][1..] == fs[i + 1..];
      assert InRange(fs[i]);
      if fs[i].v != 0 {
        if fs[i].wide { nonZero64 := nonZero64 + 1; } else { nonZero32 := nonZero32 + 1; }
        if fs[i].signed {
          signedMax := Max(signedMax, Magnitude(fs[i].v));
        } else {
          unsignedMax := Max(unsignedMax, fs[i].v);
        }
      }
    }
    if |fs| == 0 { return 0; }
    var width := Bytes(WidthFromMax(unsignedMax, signedMax));
    size := width * nonZero64 + (if width > 4 then 4 else width) * nonZero32 + BitsetSize(|fs|);
  }

  // ----- the bytes -----

  function Bit(c: bool, weight: nat): nat { if c then weight else 0 }

  /** Bits as a number, the first the least significant. */
  function Binary(c: seq<bool>): nat { if c == [] then 0 else Bit(c[0], 1) + 2 * Binary(c[1..]) }

  lemma {:induction false} BinaryBound(c: seq<bool>, n: nat)
    requires |c| <= n
    ensures Binary(c) < TwoTo(n)
  {
    if c != [] { BinaryBound(c[1..], n - 1); }
  }

  function ByteOf(c: seq<bool>): Byte
    requires |c| == 8
  {
    BinaryBound(c, 8);
    assert TwoTo(8) == 256 by { assert TwoTo(4) == 16; }
    Binary(c)
  }

  /** Eight bits from position p, with zeros past the end. */
  function Eight(bits: seq<bool>, p: nat): (c: seq<bool>)
    ensures |c| == 8
  {
    seq(8, j requires 0 <= j < 8 => p + j < |bits| && bits[p + j])
  }

  function PackBits(bits: seq<bool>): (vec: seq<Byte>)
    ensures |vec| == (|bits| + 7) / 8
  {
    seq((|bits| + 7) / 8, k requires 0 <= k => ByteOf(Eight(bits, 8 * k)))
  }

  /** Shifting right j places and testing the lowest bit. */
  predicate HasBit(b: nat, j: nat) { if j == 0 then b % 2 == 1 else HasBit(b / 2, j - 1) }

  predicate BitAt(vec: seq<Byte>, i: nat)
    requires i / 8 < |vec|
  {
    HasBit(vec[i / 8], i % 8)
  }

  lemma {:induction false} BitOfBinary(c: seq<bool>, j: nat)
    requires j < |c|
    ensures HasBit(Binary(c), j) == c[j]
  {
    hide HasBit;
    BitStep(c[0], Binary(c[1..]), j);
    if j > 0 { BitOfBinary(c[1..], j - 1); }
  }

  lemma BitStep(c: bool, high: nat, j: nat)
    ensures HasBit(Bit(c, 1) + 2 * high, j) == if j == 0 then c else HasBit(high, j - 1)
  {
    assert (Bit(c, 1) + 2 * high) / 2 == high && (Bit(c, 1) + 2 * high) % 2 == Bit(c, 1);
  }

  lemma BitOfPacked(bits: seq<bool>, i: nat)
    requires i < |bits|
    ensures BitAt(PackBits(bits), i) == bits[i]
  {
    hide Binary, HasBit;
    BitOfBinary(Eight(bits, 8 * (i / 8)), i % 8);
  }

  function Flags(fs: seq<Field>, code: nat): (bits: seq<bool>)
    ensures |bits| == |fs| + 2
  {
    seq(|fs|, i requires 0 <= i < |fs| => fs[i].v != 0) + [code % 2 == 1, code / 2 % 2 == 1]
  }

  function Payload(fs: seq<Field>, width: nat): seq<Byte>
  {
    if fs == [] then []
    else (if fs[0].v != 0 then LowBytes(fs[0].v, Min(width, SizeOf(fs[0]))) else []) + Payload(fs[1..], width)
  }

  /** What the writer emits before the other members of the struct. */
  function Block(fs: seq<Field>): seq<Byte>
    requires AllInRange(fs)
  {
    if fs == [] then [] else PackBits(Flags(fs, WidthCode(fs))) + Payload(fs, Bytes(WidthCode(fs)))
  }

  lemma {:induction false} PayloadSize(fs: seq<Field>, code: nat)
    requires code <= 3
    ensures
      var width := Bytes(code);
      |Payload(fs, width)| == width * NonZero(fs, true) + Min(width, 4) * NonZero(fs, false)
  {
    hide LowBytes;
    if fs != [] {
      PayloadSize(fs[1..], code);
      var width := Bytes(code);
      Distribute(width, NonZero(fs[1..], true));
      Distribute(Min(width, 4), NonZero(fs[1..], false));
    }
  }

  lemma Distribute(width: nat, n: nat)
    ensures width * (1 + n) == width + width * n
  {
  }

  /** The size pass and the writer agree to the byte. */
  lemma BlockSize(fs: seq<Field>)
    requires AllInRange(fs)
    ensures |Block(fs)| == FastSize(fs)
  {
    if fs != [] { PayloadSize(fs, WidthCode(fs)); }
  }

  // ----- reading -----

  datatype Read = Read(values: seq<int>, rest: seq<Byte>) | NoBufferSpace | InvalidBuffer

  /** Reads the fields from i on into targets; a field whose bit is clear is left as it was. */
  function ReadFields(targets: seq<Field>, vec: seq<Byte>, i: nat, width: nat, input: seq<Byte>): Read
    requires i <= |targets| && |targets| <= 8 * |vec|
    decreases |targets| - i
  {
    if i == |targets| then Read([], input)
    else
      var t := targets[i];
      var n := Min(width, SizeOf(t));
      if !BitAt(vec, i) then Push(t.v, ReadFields(targets, vec, i + 1, width, input))
      else if |input| < n then NoBufferSpace
      else Push(Extend(t.signed, input[..n]), ReadFields(targets, vec, i + 1, width, input[n..]))
  }

  function Push(v: int, r: Read): Read { if r.Read? then r.(values := [v] + r.values) else r }

  predicate HasWide(fs: seq<Field>) { exists i :: 0 <= i < |fs| && fs[i].wide }

  function ReadBlock(targets: seq<Field>, input: seq<Byte>): Read
    requires |targets| > 0
  {
    var n := |targets|;
    var size := BitsetSize(n);
    if |input| < size then NoBufferSpace
    else
      var vec := input[..size];
      var code := Bit(BitAt(vec, n), 1) + Bit(BitAt(vec, n + 1), 2);
      if code == 3 && !HasWide(targets) then InvalidBuffer
      else ReadFields(targets, vec, 0, Bytes(code), input[size..])
  }

  predicate SameShape(fs: seq<Field>, targets: seq<Field>)
  {
    && |fs| == |targets|
    && forall i :: 0 <= i < |fs| ==> fs[i].wide == targets[i].wide && fs[i].signed == targets[i].signed
  }

  /** The values a reader ends with: a zero keeps what the target held. */
  function Merged(fs: seq<Field>, targets: seq<Field>): seq<int>
    requires |fs| == |targets|
  {
    seq(|fs|, i requires 0 <= i < |fs| => if fs[i].v == 0 then targets[i].v else fs[i].v)
  }

  lemma {:induction false} FieldsReadBack(fs: seq<Field>, targets: seq<Field>, vec: seq<Byte>, i: nat, width: nat,
                                          rest: seq<Byte>)
    requires SameShape(fs, targets) && i <= |fs| <= 8 * |vec| && width > 0
    requires forall j :: 0 <= j < |fs| ==>
      BitAt(vec, j) == (fs[j].v != 0) && Fits(fs[j].v, fs[j].signed, Min(width, SizeOf(fs[j])))
    ensures ReadFields(targets, vec, i, width, Payload(fs[i..], width) + rest) == Read(Merged(fs, targets)[i..], rest)
    decreases |fs| - i
  {
    hide BitAt, Fits, Extend, LowBytes;
    var input := Payload(fs[i..], width) + rest;
    if i < |fs| {
      var f := fs[i];
      var n := Min(width, SizeOf(f));
      assert fs[i..][0] == f && fs[i..][1..] == fs[i + 1..];
      FieldsReadBack(fs, targets, vec, i + 1, width, rest);
      assert Merged(fs, targets)[i..] == [Merged(fs, targets)[i]] + Merged(fs, targets)[i + 1..];
      if f.v != 0 {
        LosslessIff(f.v, f.signed, n);
        var tail := Payload(fs[i + 1..], width) + rest;
        assert input == LowBytes(f.v, n) + tail;
        assert input[..n] == LowBytes(f.v, n) && input[n..] == tail;
      } else {
        assert input == Payload(fs[i + 1..], width) + rest;
      }
    } else {
      assert input == rest;
    }
  }

  /** Every block is read whole, and gives back every field that was not zero. */
  lemma BlockReadBack(fs: seq<Field>, targets: seq<Field>, rest: seq<Byte>)
    requires AllInRange(fs) && SameShape(fs, targets) && |fs| > 0
    ensures ReadBlock(targets, Block(fs) + rest) == Read(Merged(fs, targets), rest)
  {
    hide BitAt, PackBits, ReadFields, Payload, WidthCode, Fits, Bytes;
    var code := WidthCode(fs);
    var bits := Flags(fs, code);
    var vec := PackBits(bits);
    var n, size := |fs|, BitsetSize(|fs|);
    var input := Block(fs) + rest;
    assert input == vec + (Payload(fs, Bytes(code)) + rest);
    assert input[..size] == vec && input[size..] == Payload(fs, Bytes(code)) + rest;
    forall j: nat | j < n + 2 ensures BitAt(vec, j) == bits[j] { BitOfPacked(bits, j); }
    assert Bit(BitAt(vec, n), 1) + Bit(BitAt(vec, n + 1), 2) == code;
    WideEnough(fs, targets);
    WidthsFit(fs);
    assert fs[0..] == fs && Merged(fs, targets)[0..] == Merged(fs, targets);
    FieldsReadBack(fs, targets, vec, 0, Bytes(code), rest);
  }

  lemma WideEnough(fs: seq<Field>, targets: seq<Field>)
    requires AllInRange(fs) && SameShape(fs, targets)
    ensures WidthCode(fs) == 3 ==> HasWide(targets)
  {
    hide WidthCode;
    if !HasWide(targets) { NarrowFields(fs); }
  }

  lemma WidthsFit(fs: seq<Field>)
    requires AllInRange(fs)
    ensures Bytes(WidthCode(fs)) > 0
    ensures
      forall j :: 0 <= j < |fs| ==> Fits(fs[j].v, fs[j].signed, Min(Bytes(WidthCode(fs)), SizeOf(fs[j])))
  {
    hide WidthCode, Fits;
    WidthIsLeast(fs);
  }

  /** So the reader ends with the written values exactly when no target holds a stale value under a zero. */
  lemma ReadBackIff(fs: seq<Field>, targets: seq<Field>, rest: seq<Byte>)
    requires AllInRange(fs) && SameShape(fs, targets) && |fs| > 0
    ensures
      ReadBlock(targets, Block(fs) + rest) == Read(seq(|fs|, i requires 0 <= i < |fs| => fs[i].v), rest)
      <==> forall i :: 0 <= i < |fs| && fs[i].v == 0 ==> targets[i].v == 0
  {
    hide ReadBlock, Block;
    BlockReadBack(fs, targets, rest);
    var written, merged := seq(|fs|, i requires 0 <= i < |fs| => fs[i].v), Merged(fs, targets);
    assert written == merged <==> forall i :: 0 <= i < |fs| ==> written[i] == merged[i];
    assert forall i :: 0 <= i < |fs| ==> (written[i] == merged[i] <==> (fs[i].v == 0 ==> targets[i].v == 0));
  }

  /** A zero written over a target that holds 7 is read as 7. */
  lemma StaleTarget()
    ensures
      var zero, seven := [Field(false, false, 0)], [Field(false, false, 7)];
      AllInRange(zero) && ReadBlock(seven, Block(zero)) == Read([7], [])
  {
    var zero, seven := [Field(false, false, 0)], [Field(false, false, 7)];
    assert AllInRange(zero);
    BlockReadBack(zero, seven, []);
    assert Block(zero) + [] == Block(zero);
    assert Merged(zero, seven) == [7];
  }
}
