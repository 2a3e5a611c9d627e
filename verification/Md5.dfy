/**
  The compile-time MD5 that names struct_pack types, against RFC 1321. Words are
  32-bit vectors, bytes and lengths are integers; a length is a 32-bit unsigned
  number and its arithmetic wraps.
*/
module Md5 {
  import opened Octets

  type Word = bv32

  datatype State = State(a: Word, b: Word, c: Word, d: Word)

  const INITIAL := State(0x67452301, 0xefcdab89, 0x98badcfe, 0x10325476)

  function Wrap32(x: nat): nat { x % 0x1_0000_0000 }

  // ----- the padded message, as the program views it -----

  function PaddedLength(n: nat): (m: nat)
    ensures m % 64 == 0
  {
    Wrap32(n + 72) / 64 * 64
  }

  function ExtractByte(value: nat, i: nat): Byte { value / Pow256(i) % 256 }

  function PaddedByte(message: seq<Byte>, m: nat, i: nat): Byte
    requires i < m && m % 64 == 0
  {
    var n := |message|;
    if i < n then message[i]
    else if i == n then 0x80
    else if i >= m - 8 then ExtractByte(Wrap32(n * 8), i - (m - 8))
    else 0
  }

  /** All the bytes the hash reads. */
  function PaddedView(message: seq<Byte>): (p: seq<Byte>)
    ensures |p| == PaddedLength(|message|) && |p| % 64 == 0
  {
    var m := PaddedLength(|message|);
    seq(m, i requires 0 <= i < m => PaddedByte(message, m, i))
  }

  function JoinBytes(b0: Byte, b1: Byte, b2: Byte, b3: Byte): Word
  {
    (b0 as Word) | ((b1 as Word) << 8) | ((b2 as Word) << 16) | ((b3 as Word) << 24)
  }

  function PaddedWord(message: seq<Byte>, m: nat, i: nat): Word
    requires i + 3 < m && m % 64 == 0
  {
    JoinBytes(PaddedByte(message, m, i), PaddedByte(message, m, i + 1),
              PaddedByte(message, m, i + 2), PaddedByte(message, m, i + 3))
  }

  type Block = x: seq<Word> | |x| == 16 witness seq(16, _ => 0)

  function RoundData(message: seq<Byte>, m: nat, i: nat): Block
    requires i + 64 <= m && m % 64 == 0
  {
    seq(16, k requires 0 <= k < 16 => PaddedWord(message, m, i + 4 * k))
  }

  // ----- the mixing steps -----

  const CONSTANTS_0: seq<Word> := [
    0xd76aa478, 0xe8c7b756, 0x242070db, 0xc1bdceee, 0xf57c0faf, 0x4787c62a, 0xa8304613, 0xfd469501,
    0x698098d8, 0x8b44f7af, 0xffff5bb1, 0x895cd7be, 0x6b901122, 0xfd987193, 0xa679438e, 0x49b40821
  ]
  const CONSTANTS_1: seq<Word> := [
    0xf61e2562, 0xc040b340, 0x265e5a51, 0xe9b6c7aa, 0xd62f105d, 0x02441453, 0xd8a1e681, 0xe7d3fbc8,
    0x21e1cde6, 0xc33707d6, 0xf4d50d87, 0x455a14ed, 0xa9e3e905, 0xfcefa3f8, 0x676f02d9, 0x8d2a4c8a
  ]
  const CONSTANTS_2: seq<Word> := [
    0xfffa3942, 0x8771f681, 0x6d9d6122, 0xfde5380c, 0xa4beea44, 0x4bdecfa9, 0xf6bb4b60, 0xbebfbc70,
    0x289b7ec6, 0xeaa127fa, 0xd4ef3085, 0x04881d05, 0xd9d4d039, 0xe6db99e5, 0x1fa27cf8, 0xc4ac5665
  ]
  const CONSTANTS_3: seq<Word> := [
    0xf4292244, 0x432aff97, 0xab9423a7, 0xfc93a039, 0x655b59c3, 0x8f0ccc92, 0xffeff47d, 0x85845dd1,
    0x6fa87e4f, 0xfe2ce6e0, 0xa3014314, 0x4e0811a1, 0xf7537e82, 0xbd3af235, 0x2ad7d2bb, 0xeb86d391
  ]
  const CONSTANTS: seq<Word> := CONSTANTS_0 + CONSTANTS_1 + CONSTANTS_2 + CONSTANTS_3

  const SHIFTS_0: seq<Word> := [7, 12, 17, 22]
  const SHIFTS_1: seq<Word> := [5, 9, 14, 20]
  const SHIFTS_2: seq<Word> := [4, 11, 16, 23]
  const SHIFTS_3: seq<Word> := [6, 10, 15, 21]
  const SHIFTS: seq<Word> := SHIFTS_0 + SHIFTS_1 + SHIFTS_2 + SHIFTS_3

  function CalcF(i: nat, b: Word, c: Word, d: Word): Word
    requires i < 64
  {
    if i < 16 then d ^ (b & (c ^ d))
    else if i < 32 then c ^ (d & (b ^ c))
    else if i < 48 then b ^ c ^ d
    else c ^ (b | !d)
  }

  function CalcG(i: nat): (g: nat)
    requires i < 64
    ensures g < 16
  {
    if i < 16 then i
    else if i < 32 then (5 * i + 1) % 16
    else if i < 48 then (3 * i + 5) % 16
    else 7 * i % 16
  }

  function GetShift(i: nat): (s: Word)
    requires i < 64
    ensures 0 < s < 32
  {
    SHIFTS[i / 16 * 4 + i % 4]
  }

  function LeftRotate(value: Word, bits: Word): Word
    requires 0 < bits < 32
  {
    (value << bits) | (value >> (32 - bits))
  }

  /** Sums modulo 2 to the 32, named so that proofs can treat them as one quantity. */
  function Plus(x: Word, y: Word): Word { x + y }

  function Plus4(x: Word, y: Word, z: Word, w: Word): Word { x + y + z + w }

  function ApplyStep(i: nat, data: Block, s: State): State
    requires i < 64
  {
    var f := Plus4(CalcF(i, s.b, s.c, s.d), s.a, CONSTANTS[i], data[CalcG(i)]);
    State(s.d, Plus(s.b, LeftRotate(f, GetShift(i))), s.b, s.c)
  }

  function Add(s: State, t: State): State { State(Plus(s.a, t.a), Plus(s.b, t.b), Plus(s.c, t.c), Plus(s.d, t.d)) }

  /** Steps i, i + 1, ..., 63. */
  function StepsFrom(i: nat, data: Block, s: State): State
    requires i <= 64
    decreases 64 - i
  {
    if i == 64 then s else StepsFrom(i + 1, data, ApplyStep(i, data, s))
  }

  // ----- RFC 1321 -----

  datatype Register = A | B | C | D

  datatype Auxiliary = AuxF | AuxG | AuxH | AuxI

  /** The operation written [abcd k s i] in section 3.4, with T[i] spelled out. */
  datatype Op = Op(f: Auxiliary, names: seq<Register>, k: nat, s: Word, t: Word)

  function Mix(f: Auxiliary, x: Word, y: Word, z: Word): Word
  {
    match f
    case AuxF => (x & y) | (!x & z)
    case AuxG => (x & z) | (y & !z)
    case AuxH => x ^ y ^ z
    case AuxI => y ^ (x | !z)
  }

  function Get(s: State, r: Register): Word
  {
    match r
    case A => s.a
    case B => s.b
    case C => s.c
    case D => s.d
  }

  function Set(s: State, r: Register, w: Word): State
  {
    match r
    case A => s.(a := w)
    case B => s.(b := w)
    case C => s.(c := w)
    case D => s.(d := w)
  }

  /** A circular shift to the left, one bit position at a time. */
  function RotateOne(v: Word): Word { (v << 1) | (v >> 31) }

  function Rotate(v: Word, s: Word): Word
    decreases s
  {
    if s == 0 then v else RotateOne(Rotate(v, s - 1))
  }

  predicate WellFormed(op: Op) { |op.names| == 4 && op.k < 16 }

  predicate AllWellFormed(ops: seq<Op>) { forall i :: 0 <= i < |ops| ==> WellFormed(ops[i]) }

  /** a = b + ((a + f(b, c, d) + X[k] + T[i]) <<< s) */
  function Perform(op: Op, x: Block, s: State): State
    requires WellFormed(op)
  {
    var a, b, c, d := Get(s, op.names[0]), Get(s, op.names[1]), Get(s, op.names[2]), Get(s, op.names[3]);
    Set(s, op.names[0], Plus(b, Rotate(Plus4(a, Mix(op.f, b, c, d), x[op.k], op.t), op.s)))
  }

  function PerformAll(ops: seq<Op>, x: Block, s: State): State
    requires AllWellFormed(ops)
  {
    if ops == [] then s else PerformAll(ops[1..], x, Perform(ops[0], x, s))
  }

  /** The four register orders of a row of operations. */
  function Names(i: nat): (names: seq<Register>)
    ensures |names| == 4
  {
    if i % 4 == 0 then [A, B, C, D]
    else if i % 4 == 1 then [D, A, B, C]
    else if i % 4 == 2 then [C, D, A, B]
    else [B, C, D, A]
  }

  /** The words of the block a round reads, in order. */
  function Reads(f: Auxiliary): (ks: seq<nat>)
    ensures |ks| == 16 && forall i :: 0 <= i < 16 ==> ks[i] < 16
  {
    match f
    case AuxF => [0, 1, 2, 3, 4, 5, 6, 7, 8, 9, 10, 11, 12, 13, 14, 15]
    case AuxG => [1, 6, 11, 0, 5, 10, 15, 4, 9, 14, 3, 8, 13, 2, 7, 12]
    case AuxH => [5, 8, 11, 14, 1, 4, 7, 10, 13, 0, 3, 6, 9, 12, 15, 2]
    case AuxI => [0, 7, 14, 5, 12, 3, 10, 1, 8, 15, 6, 13, 4, 11, 2, 9]
  }

  /** The shifts of each row of a round. */
  function Shifts(f: Auxiliary): (ss: seq<Word>)
    ensures |ss| == 4
  {
    match f
    case AuxF => [7, 12, 17, 22]
    case AuxG => [5, 9, 14, 20]
    case AuxH => [4, 11, 16, 23]
    case AuxI => [6, 10, 15, 21]
  }

  /** The sixteen elements of table T a round adds. */
  function Sines(f: Auxiliary): (ts: seq<Word>)
    ensures |ts| == 16
  {
    match f
    case AuxF => [
      0xd76aa478, 0xe8c7b756, 0x242070db, 0xc1bdceee, 0xf57c0faf, 0x4787c62a, 0xa8304613, 0xfd469501,
      0x698098d8, 0x8b44f7af, 0xffff5bb1, 0x895cd7be, 0x6b901122, 0xfd987193, 0xa679438e, 0x49b40821
    ]
    case AuxG => [
      0xf61e2562, 0xc040b340, 0x265e5a51, 0xe9b6c7aa, 0xd62f105d, 0x02441453, 0xd8a1e681, 0xe7d3fbc8,
      0x21e1cde6, 0xc33707d6, 0xf4d50d87, 0x455a14ed, 0xa9e3e905, 0xfcefa3f8, 0x676f02d9, 0x8d2a4c8a
    ]
    case AuxH => [
      0xfffa3942, 0x8771f681, 0x6d9d6122, 0xfde5380c, 0xa4beea44, 0x4bdecfa9, 0xf6bb4b60, 0xbebfbc70,
      0x289b7ec6, 0xeaa127fa, 0xd4ef3085, 0x04881d05, 0xd9d4d039, 0xe6db99e5, 0x1fa27cf8, 0xc4ac5665
    ]
    case AuxI => [
      0xf4292244, 0x432aff97, 0xab9423a7, 0xfc93a039, 0x655b59c3, 0x8f0ccc92, 0xffeff47d, 0x85845dd1,
      0x6fa87e4f, 0xfe2ce6e0, 0xa3014314, 0x4e0811a1, 0xf7537e82, 0xbd3af235, 0x2ad7d2bb, 0xeb86d391
    ]
  }

  /** Sixteen operations, in four rows of four. */
  function Round(f: Auxiliary): (ops: seq<Op>)
    ensures |ops| == 16 && forall i :: 0 <= i < 16 ==> WellFormed(ops[i])
  {
    seq(16, i requires 0 <= i < 16 => Op(f, Names(i), Reads(f)[i], Shifts(f)[i % 4], Sines(f)[i]))
  }

  function Rounds(): (ops: seq<Op>)
    ensures |ops| == 64 && forall i :: 0 <= i < 64 ==> WellFormed(ops[i])
  {
    Round(AuxF) + Round(AuxG) + Round(AuxH) + Round(AuxI)
  }

  /** A word is four bytes, the low-order byte first. */
  function LittleEndian(bytes: seq<Byte>): Word
    requires |bytes| == 4
  {
    (bytes[0] as Word) + (bytes[1] as Word) * 0x100 + (bytes[2] as Word) * 0x1_0000 + (bytes[3] as Word) * 0x100_0000
  }

  /** Section 3.3: the registers start as these bytes, low-order byte first. */
  function StartRegisters(): State
  {
    State(LowFirst(0x01, 0x23, 0x45, 0x67), LowFirst(0x89, 0xab, 0xcd, 0xef),
          LowFirst(0xfe, 0xdc, 0xba, 0x98), LowFirst(0x76, 0x54, 0x32, 0x10))
  }

  function LowFirst(b0: Word, b1: Word, b2: Word, b3: Word): Word
  {
    b0 + b1 * 0x100 + b2 * 0x1_0000 + b3 * 0x100_0000
  }

  function Words(chunk: seq<Byte>): Block
    requires |chunk| == 64
  {
    seq(16, k requires 0 <= k < 16 => LittleEndian(chunk[4 * k..4 * k + 4]))
  }

  /** Every register is incremented by the value it had before the block was started. */
  function FinalAddition(r: State, before: State): State
  {
    State(Plus(r.a, before.a), Plus(r.b, before.b), Plus(r.c, before.c), Plus(r.d, before.d))
  }

  ghost function Compress(chunk: seq<Byte>, s: State): State
    requires |chunk| == 64
  {
    FinalAddition(PerformAll(Rounds(), Words(chunk), s), s)
  }

  lemma WholeBlocks(n: nat)
    ensures n > 0 && n % 64 == 0 ==> n >= 64 && (n - 64) % 64 == 0
  {
  }

  /** Section 3.4: one compression for every 16-word block. */
  ghost function Digest(p: seq<Byte>, s: State): State
    requires |p| % 64 == 0
  {
    if p == [] then s
    else
      WholeBlocks(|p|);
      Digest(p[64..], Compress(p[..64], s))
  }

  /** Section 3.2: the number of bits as eight bytes, low-order byte first. */
  function Length64(n: nat): (bytes: seq<Byte>)
    ensures |bytes| == 8
  {
    LowBytes(n * 8, 8)
  }

  predicate Aligns(n: nat, z: nat) { (n + 1 + z) % 64 == 56 }

  /** Section 3.1: the least zero fill that makes the length 56 modulo 64. */
  ghost predicate LeastFill(n: nat, z: nat) { Aligns(n, z) && forall y: nat :: y < z ==> !Aligns(n, y) }

  function Padded(message: seq<Byte>, z: nat): (p: seq<Byte>)
    ensures |p| == |message| + 9 + z
  {
    message + [0x80] + Zeros(z) + Length64(|message|)
  }

  /** Sections 3.1 and 3.2. */
  ghost predicate IsPadding(message: seq<Byte>, p: seq<Byte>)
  {
    exists z: nat :: LeastFill(|message|, z) && p == Padded(message, z)
  }

  lemma Mod64(q: int, r: int)
    requires 0 <= r < 64
    ensures (64 * q + r) % 64 == r
  {
  }

  /** A fill below 64 that ends a whole block is the only least one. */
  lemma FillToBlock(n: nat, z: nat, q: int)
    requires n + 9 + z == 64 * q && z < 64
    ensures LeastFill(n, z)
    ensures forall y: nat :: LeastFill(n, y) ==> y == z
  {
    Mod64(q - 1, 56);
    assert Aligns(n, z);
    forall y: nat | y < z ensures !Aligns(n, y) {
      var d := z - y;
      if d <= 56 { Mod64(q - 1, 56 - d); } else { Mod64(q - 2, 120 - d); }
    }
  }

  lemma OnlyFill(n: nat, z: nat)
    requires z == (55 - n) % 64
    ensures LeastFill(n, z) && (n + 9 + z) % 64 == 0
    ensures forall y: nat :: LeastFill(n, y) ==> y == z
  {
    hide LeastFill;
    var q := 1 - (55 - n) / 64;
    assert n + 9 + z == 64 * q;
    Mod64(q, 0);
    FillToBlock(n, z, q);
  }

  /** Every message has exactly one padding, a whole number of blocks long. */
  ghost function Padding(message: seq<Byte>): (p: seq<Byte>)
    ensures IsPadding(message, p) && |p| % 64 == 0
    ensures forall q :: IsPadding(message, q) ==> q == p
  {
    var z := (55 - |message|) % 64;
    OnlyFill(|message|, z);
    Padded(message, z)
  }

  // ----- the padding view is RFC 1321's below half a gigabyte, and only there -----

  lemma LengthByteAt(n: nat, i: nat)
    requires i < 8
    ensures Length64(n)[i] == ExtractByte(n * 8, i)
  {
    hide LowBytes;
    LowByteAt(n * 8, 8, i);
  }

  lemma FifthByte(n: nat)
    requires 0x2000_0000 <= n < 0x1_0000_0000
    ensures ExtractByte(Wrap32(n * 8), 4) == 0 && ExtractByte(n * 8, 4) > 0
  {
    assert Pow256(4) == 0x1_0000_0000 by {
      assert Pow256(1) == 0x100 && Pow256(2) == 0x1_0000 && Pow256(3) == 0x100_0000;
    }
    hide Pow256;
    assert Wrap32(n * 8) / 0x1_0000_0000 == 0 && 1 <= n * 8 / 0x1_0000_0000 < 8;
  }

  lemma LengthBytes(n: nat)
    ensures n < 0x2000_0000 ==> forall i: nat :: i < 8 ==> ExtractByte(Wrap32(n * 8), i) == Length64(n)[i]
    ensures 0x2000_0000 <= n < 0x1_0000_0000 ==> ExtractByte(Wrap32(n * 8), 4) != Length64(n)[4]
  {
    hide ExtractByte, Length64;
    forall i: nat | i < 8 ensures Length64(n)[i] == ExtractByte(n * 8, i) { LengthByteAt(n, i); }
    if 0x2000_0000 <= n < 0x1_0000_0000 { FifthByte(n); }
  }

  lemma FillOf(n: nat)
    requires n + 72 < 0x1_0000_0000
    ensures var m := PaddedLength(n); m >= n + 9 && LeastFill(n, m - 9 - n) && m % 64 == 0
  {
    hide LeastFill;
    var q := (n + 72) / 64;
    assert PaddedLength(n) == 64 * q && 64 * q <= n + 72 < 64 * q + 64;
    Mod64(q, 0);
    FillToBlock(n, 64 * q - 9 - n, q);
  }

  lemma ViewIsPadded(message: seq<Byte>)
    requires |message| < 0x2000_0000
    ensures PaddedView(message) == Padded(message, PaddedLength(|message|) - 9 - |message|)
  {
    hide ExtractByte, PaddedLength, LeastFill;
    var n := |message|;
    FillOf(n);
    LengthBytes(n);
    var m := PaddedLength(n);
    var p, v := Padded(message, m - 9 - n), PaddedView(message);
    forall i | 0 <= i < m
      ensures v[i] == p[i]
    {
      assert v[i] == PaddedByte(message, m, i);
    }
  }

  lemma ViewIsNotPadded(message: seq<Byte>, z: nat)
    requires 0x2000_0000 <= |message| < 0x1_0000_0000
    ensures PaddedView(message) != Padded(message, z)
  {
    hide ExtractByte, Pow256;
    var v, p := PaddedView(message), Padded(message, z);
    LengthBytes(|message|);
    if |v| == |p| {
      assert v[|v| - 4] != p[|v| - 4];
    }
  }

  /** The 32-bit bit count wraps at half a gigabyte, and the padded length near four. */
  lemma PaddingIff(message: seq<Byte>)
    requires |message| < 0x1_0000_0000
    ensures IsPadding(message, PaddedView(message)) <==> |message| < 0x2000_0000
  {
    hide LeastFill, PaddedView, Padded;
    var n := |message|;
    if n < 0x2000_0000 {
      FillOf(n);
      ViewIsPadded(message);
    } else {
      forall z: nat ensures PaddedView(message) != Padded(message, z) { ViewIsNotPadded(message, z); }
    }
  }

  // ----- the steps are RFC 1321's rounds -----

  /** The number of the first step of a round. */
  function Start(f: Auxiliary): nat
  {
    match f
    case AuxF => 0
    case AuxG => 16
    case AuxH => 32
    case AuxI => 48
  }

  lemma ReadsF(j: nat)
    requires j < 16
    ensures Reads(AuxF)[j] == j
  {
  }

  lemma ReadsG(j: nat)
    requires j < 16
    ensures Reads(AuxG)[j] == (5 * (16 + j) + 1) % 16
  {
  }

  lemma ReadsH(j: nat)
    requires j < 16
    ensures Reads(AuxH)[j] == (3 * (32 + j) + 5) % 16
  {
  }

  lemma ReadsI(j: nat)
    requires j < 16
    ensures Reads(AuxI)[j] == 7 * (48 + j) % 16
  {
  }

  lemma ReadsAgree(f: Auxiliary, j: nat)
    requires j < 16
    ensures Reads(f)[j] == CalcG(Start(f) + j)
  {
    hide Reads;
    ReadsF(j);
    ReadsG(j);
    ReadsH(j);
    ReadsI(j);
  }

  lemma ShiftsAgree(f: Auxiliary, j: nat)
    requires j < 16
    ensures Shifts(f)[j % 4] == GetShift(Start(f) + j)
  {
    hide Shifts;
    ShiftIndex(f, j);
    SameShifts(f, j % 4);
  }

  lemma ShiftIndex(f: Auxiliary, j: nat)
    requires j < 16
    ensures (Start(f) + j) / 16 * 4 + (Start(f) + j) % 4 == Start(f) / 4 + j % 4
  {
  }

  lemma SameShifts(f: Auxiliary, j: nat)
    requires j < 4
    ensures Shifts(f)[j] == SHIFTS[Start(f) / 4 + j]
  {
    match f
    case AuxF => assert Shifts(f) == SHIFTS_0;
    case AuxG => assert Shifts(f) == SHIFTS_1;
    case AuxH => assert Shifts(f) == SHIFTS_2;
    case AuxI => assert Shifts(f) == SHIFTS_3;
  }

  lemma SinesAgree(f: Auxiliary, j: nat)
    requires j < 16
    ensures Sines(f)[j] == CONSTANTS[Start(f) + j]
  {
    match f
    case AuxF => assert Sines(f) == CONSTANTS_0;
    case AuxG => assert Sines(f) == CONSTANTS_1;
    case AuxH => assert Sines(f) == CONSTANTS_2;
    case AuxI => assert Sines(f) == CONSTANTS_3;
  }

  /** The operation that step i of the program amounts to. */
  function StepOp(f: Auxiliary, i: nat): (op: Op)
    requires i < 64
    ensures WellFormed(op)
  {
    Op(f, Names(i), CalcG(i), GetShift(i), CONSTANTS[i])
  }

  lemma RoundIsSteps(f: Auxiliary, j: nat)
    requires j < 16
    ensures Round(f)[j] == StepOp(f, Start(f) + j)
  {
    hide CalcG, GetShift, Reads, Shifts, Sines, Names;
    ReadsAgree(f, j);
    ShiftsAgree(f, j);
    SinesAgree(f, j);
    NamesAgree(f, j);
  }

  lemma NamesAgree(f: Auxiliary, j: nat)
    ensures Names(Start(f) + j) == Names(j)
  {
    assert (Start(f) + j) % 4 == j % 4;
  }

  function RoundOf(i: nat): Auxiliary
  {
    if i < 16 then AuxF else if i < 32 then AuxG else if i < 48 then AuxH else AuxI
  }

  lemma RoundsAreSteps(i: nat)
    requires i < 64
    ensures Rounds()[i] == StepOp(RoundOf(i), i)
  {
    hide Round, StepOp;
    RoundIsSteps(RoundOf(i), i - Start(RoundOf(i)));
  }

  lemma FormF(x: Word, y: Word, z: Word)
    ensures z ^ (x & (y ^ z)) == (x & y) | (!x & z)
  {
  }

  lemma FormG(x: Word, y: Word, z: Word)
    ensures y ^ (z & (x ^ y)) == (x & z) | (y & !z)
  {
  }

  /** The xor forms compute the same functions. */
  lemma FormsAgree(i: nat, x: Word, y: Word, z: Word)
    requires i < 64
    ensures CalcF(i, x, y, z) == Mix(RoundOf(i), x, y, z)
  {
    FormF(x, y, z);
    FormG(x, y, z);
  }

  lemma ShiftOnce(v: Word, s: Word)
    requires 0 < s < 31
    ensures
      var w := (v << s) | (v >> (32 - s));
      ((w << 1) | (w >> 31)) == (v << (s + 1)) | (v >> (32 - (s + 1)))
  {
  }

  lemma OneMoreShift(v: Word, s: Word)
    requires 0 < s < 31
    ensures RotateOne((v << s) | (v >> (32 - s))) == (v << (s + 1)) | (v >> (32 - (s + 1)))
  {
    ShiftOnce(v, s);
  }

  lemma OneMore(v: Word, s: Word)
    requires 0 < s < 31
    ensures RotateOne(LeftRotate(v, s)) == LeftRotate(v, s + 1)
  {
    hide RotateOne;
    OneMoreShift(v, s);
  }

  /** Two shifts and an or rotate, for every amount the shifts are defined for. */
  lemma {:induction false} LeftRotateIsRotate(v: Word, s: Word)
    requires 0 < s < 32
    ensures LeftRotate(v, s) == Rotate(v, s)
    decreases s
  {
    hide LeftRotate, RotateOne;
    if s == 1 {
      assert LeftRotate(v, 1) == RotateOne(v) by { SingleRotate(v); }
      assert Rotate(v, 0) == v;
    } else {
      LeftRotateIsRotate(v, s - 1);
      OneMore(v, s - 1);
    }
  }

  lemma SingleRotate(v: Word)
    ensures LeftRotate(v, 1) == RotateOne(v)
  {
  }

  lemma SumOrder(f: Word, a: Word, t: Word, x: Word)
    ensures Plus4(f, a, t, x) == Plus4(a, f, x, t)
  {
  }

  /** The registers as the program's tuple holds them before step i. */
  function Tuple(regs: State, i: nat): State
  {
    var names := Names(i);
    State(Get(regs, names[0]), Get(regs, names[1]), Get(regs, names[2]), Get(regs, names[3]))
  }

  /** Writing the register named first and naming anew rotates the tuple. */
  lemma NamesRotate(regs: State, i: nat, w: Word)
    ensures
      var t := Tuple(regs, i);
      Tuple(Set(regs, Names(i)[0], w), i + 1) == State(t.d, w, t.b, t.c)
  {
    assert (i + 1) % 4 == (i % 4 + 1) % 4;
    NamesInTurn(i);
    NamesInTurn(i + 1);
    hide Names;
    if i % 4 == 0 {
    } else if i % 4 == 1 {
    } else if i % 4 == 2 {
    }
  }

  lemma NamesInTurn(i: nat)
    ensures i % 4 == 0 ==> Names(i) == [A, B, C, D]
    ensures i % 4 == 1 ==> Names(i) == [D, A, B, C]
    ensures i % 4 == 2 ==> Names(i) == [C, D, A, B]
    ensures i % 4 == 3 ==> Names(i) == [B, C, D, A]
  {
  }

  lemma StepIsOperation(i: nat, x: Block, regs: State)
    requires i < 64
    ensures ApplyStep(i, x, Tuple(regs, i)) == Tuple(Perform(StepOp(RoundOf(i), i), x, regs), i + 1)
  {
    hide CalcF, CalcG, GetShift, LeftRotate, Mix, Rotate, RoundOf, Plus, Plus4, Get, Set, Names;
    var s := Tuple(regs, i);
    var k, w, n := CONSTANTS[i], x[CalcG(i)], GetShift(i);
    FormsAgree(i, s.b, s.c, s.d);
    SumOrder(CalcF(i, s.b, s.c, s.d), s.a, k, w);
    LeftRotateIsRotate(Plus4(CalcF(i, s.b, s.c, s.d), s.a, k, w), n);
    NamesRotate(regs, i, Plus(s.b, LeftRotate(Plus4(CalcF(i, s.b, s.c, s.d), s.a, k, w), n)));
  }

  /** Sixty-four tuple-rotating steps are the four register-named rounds. */
  lemma {:induction false} StepsAreRounds(i: nat, x: Block, regs: State)
    requires i <= 64
    ensures AllWellFormed(Rounds()[i..])
    ensures StepsFrom(i, x, Tuple(regs, i)) == PerformAll(Rounds()[i..], x, regs)
    decreases 64 - i
  {
    hide ApplyStep, Perform, StepOp, Rounds, Tuple;
    if i == 64 {
      assert Tuple(regs, 64) == regs by { TupleOfWhole(regs); }
    } else {
      var op := StepOp(RoundOf(i), i);
      RoundsAreSteps(i);
      StepIsOperation(i, x, regs);
      StepsAreRounds(i + 1, x, Perform(op, x, regs));
      assert Rounds()[i..][1..] == Rounds()[i + 1..];
    }
  }

  lemma TupleOfWhole(regs: State)
    ensures Tuple(regs, 0) == regs && Tuple(regs, 64) == regs
  {
  }

  // ----- every step can be undone -----

  function UnrotateOne(v: Word): Word { (v >> 1) | (v << 31) }

  function Unrotate(v: Word, s: Word): Word
    decreases s
  {
    if s == 0 then v else Unrotate(UnrotateOne(v), s - 1)
  }

  lemma RotateOneInverse(v: Word)
    ensures UnrotateOne(RotateOne(v)) == v && RotateOne(UnrotateOne(v)) == v
  {
  }

  lemma {:induction false} RotateInverse(v: Word, s: Word)
    ensures Unrotate(Rotate(v, s), s) == v && Rotate(Unrotate(v, s), s) == v
    decreases s
  {
    hide RotateOne, UnrotateOne;
    if s != 0 {
      RotateOneInverse(Rotate(v, s - 1));
      RotateOneInverse(v);
      RotateInverse(v, s - 1);
      RotateInverse(UnrotateOne(v), s - 1);
    }
  }

  function Minus(x: Word, y: Word): Word { x - y }

  function Minus4(x: Word, y: Word, z: Word, w: Word): Word { x - y - z - w }

  /** The state before step i, from the state after it. */
  function UndoStep(i: nat, data: Block, s: State): State
    requires i < 64
  {
    var f := Unrotate(Minus(s.b, s.c), GetShift(i));
    State(Minus4(f, CalcF(i, s.c, s.d, s.a), CONSTANTS[i], data[CalcG(i)]), s.c, s.d, s.a)
  }

  lemma MinusSum(x: Word, y: Word)
    ensures Minus(x + y, x) == y && Plus(x, y - x) == y
  {
  }

  lemma PlusMinus(x: Word, y: Word)
    ensures Minus(Plus(x, y), x) == y && Plus(x, Minus(y, x)) == y
  {
    MinusSum(x, y);
    assert Minus(Plus(x, y), x) == y by { hide Minus; }
    assert Plus(x, Minus(y, x)) == y by { hide Plus; }
  }

  lemma MinusSum4(x: Word, y: Word, z: Word, w: Word)
    ensures Minus4(x + y + z + w, x, z, w) == y && Plus4(x, y - x - z - w, z, w) == y
  {
  }

  lemma PlusMinus4(x: Word, y: Word, z: Word, w: Word)
    ensures Minus4(Plus4(x, y, z, w), x, z, w) == y && Plus4(x, Minus4(y, x, z, w), z, w) == y
  {
    MinusSum4(x, y, z, w);
    assert Minus4(Plus4(x, y, z, w), x, z, w) == y by { hide Minus4; }
    assert Plus4(x, Minus4(y, x, z, w), z, w) == y by { hide Plus4; }
  }

  /** For a fixed block every step is a bijection of the state. */
  lemma StepIsBijection(i: nat, data: Block, s: State)
    requires i < 64
    ensures UndoStep(i, data, ApplyStep(i, data, s)) == s
    ensures ApplyStep(i, data, UndoStep(i, data, s)) == s
  {
    hide CalcF, CalcG, GetShift, LeftRotate, Rotate, Unrotate, Plus, Plus4, Minus, Minus4;
    var k, w, n := CONSTANTS[i], data[CalcG(i)], GetShift(i);
    var f := Plus4(CalcF(i, s.b, s.c, s.d), s.a, k, w);
    LeftRotateIsRotate(f, n);
    RotateInverse(f, n);
    PlusMinus4(CalcF(i, s.b, s.c, s.d), s.a, k, w);
    PlusMinus(s.b, LeftRotate(f, n));
    var g := Unrotate(Minus(s.b, s.c), n);
    LeftRotateIsRotate(g, n);
    RotateInverse(Minus(s.b, s.c), n);
    PlusMinus4(CalcF(i, s.c, s.d, s.a), g, k, w);
    PlusMinus(s.c, s.b);
  }

  /** Undoes steps 63, 62, ..., i. */
  function UndoFrom(i: nat, data: Block, s: State): State
    requires i <= 64
    decreases 64 - i
  {
    if i == 64 then s else UndoStep(i, data, UndoFrom(i + 1, data, s))
  }

  /** So is the whole compression before its feed-forward. */
  lemma {:induction false} StepsAreBijection(i: nat, data: Block, s: State)
    requires i <= 64
    ensures UndoFrom(i, data, StepsFrom(i, data, s)) == s
    ensures StepsFrom(i, data, UndoFrom(i, data, s)) == s
    decreases 64 - i
  {
    hide ApplyStep, UndoStep;
    if i < 64 {
      StepIsBijection(i, data, s);
      StepsAreBijection(i + 1, data, ApplyStep(i, data, s));
      StepIsBijection(i, data, UndoFrom(i + 1, data, s));
      StepsAreBijection(i + 1, data, s);
    }
  }

  // ----- the whole hash -----

  lemma SmallByte(b: Byte)
    ensures b as Word <= 0xff
  {
  }

  lemma JoinIsSum(b0: Word, b1: Word, b2: Word, b3: Word)
    requires b0 <= 0xff && b1 <= 0xff && b2 <= 0xff && b3 <= 0xff
    ensures (b0 | (b1 << 8) | (b2 << 16) | (b3 << 24)) == b0 + b1 * 0x100 + b2 * 0x1_0000 + b3 * 0x100_0000
  {
  }

  lemma JoinIsLittleEndian(bytes: seq<Byte>)
    requires |bytes| == 4
    ensures JoinBytes(bytes[0], bytes[1], bytes[2], bytes[3]) == LittleEndian(bytes)
  {
    SmallByte(bytes[0]);
    SmallByte(bytes[1]);
    SmallByte(bytes[2]);
    SmallByte(bytes[3]);
    JoinIsSum(bytes[0] as Word, bytes[1] as Word, bytes[2] as Word, bytes[3] as Word);
  }

  lemma RoundDataIsWords(message: seq<Byte>, i: nat)
    requires i + 64 <= PaddedLength(|message|) && PaddedLength(|message|) % 64 == 0
    ensures RoundData(message, PaddedLength(|message|), i) == Words(PaddedView(message)[i..i + 64])
  {
    hide JoinBytes, LittleEndian, PaddedByte, PaddedLength;
    var m, v := PaddedLength(|message|), PaddedView(message);
    var chunk := v[i..i + 64];
    forall k: nat | k < 16
      ensures RoundData(message, m, i)[k] == Words(chunk)[k]
    {
      var at := i + 4 * k;
      var bytes := chunk[4 * k..4 * k + 4];
      assert forall j :: 0 <= j < 4 ==> bytes[j] == v[at + j];
      JoinIsLittleEndian(bytes);
      assert PaddedWord(message, m, at) == JoinBytes(v[at], v[at + 1], v[at + 2], v[at + 3]);
    }
  }

  /** The program's initial data are the registers of section 3.3. */
  lemma StartIsInitial()
    ensures INITIAL == StartRegisters()
  {
  }

  lemma PlusCommutes(x: Word, y: Word)
    ensures Plus(x, y) == Plus(y, x)
  {
  }

  lemma AddIsFinalAddition(s: State, r: State)
    ensures Add(s, r) == FinalAddition(r, s)
  {
    hide Plus;
    PlusCommutes(s.a, r.a);
    PlusCommutes(s.b, r.b);
    PlusCommutes(s.c, r.c);
    PlusCommutes(s.d, r.d);
  }

  /** The loop over blocks and the loop over steps compute the digest of the view. */
  method ProcessMessage(message: seq<Byte>) returns (r: State)
    requires |message| < 0x1_0000_0000
    ensures r == Digest(PaddedView(message), StartRegisters())
    ensures |message| < 0x2000_0000 ==> r == Digest(Padding(message), StartRegisters())
  {
    hide PaddedLength, PaddedView, Words, RoundData, Rounds, Compress, ApplyStep, Add, StartRegisters;
    var m := PaddedLength(|message|);
    ghost var view := PaddedView(message);
    PaddingIff(message);
    StartIsInitial();
    r := INITIAL;
    var offset := 0;
    while offset < m
      invariant 0 <= offset <= m && offset % 64 == 0
      invariant Digest(view[offset..], r) == Digest(view, StartRegisters())
    {
      var data := RoundData(message, m, offset);
      var t := r;
      for i := 0 to 64
        invariant StepsFrom(i, data, t) == StepsFrom(0, data, r)
      {
        t := ApplyStep(i, data, t);
      }
      BlockIsCompressed(message, offset, r);
      ghost var rest := view[offset..];
      assert rest[64..] == view[offset + 64..] && rest[..64] == view[offset..offset + 64];
      r := Add(r, t);
      offset := offset + 64;
    }
  }

  lemma BlockIsCompressed(message: seq<Byte>, offset: nat, s: State)
    requires offset + 64 <= PaddedLength(|message|) && PaddedLength(|message|) % 64 == 0
    ensures
      var data := RoundData(message, PaddedLength(|message|), offset);
      Add(s, StepsFrom(0, data, s)) == Compress(PaddedView(message)[offset..offset + 64], s)
  {
    hide Words, RoundData, Rounds, StepsFrom, PerformAll, Tuple, Add, FinalAddition;
    var x := RoundData(message, PaddedLength(|message|), offset);
    RoundDataIsWords(message, offset);
    TupleOfWhole(s);
    StepsAreRounds(0, x, s);
    assert Rounds()[0..] == Rounds();
    AddIsFinalAddition(s, StepsFrom(0, x, s));
  }

  // ----- the truncated hashes -----

  function SwapEndian(a: Word): Word
  {
    ((a & 0xff) << 24) | (((a >> 8) & 0xff) << 16) | (((a >> 16) & 0xff) << 8) | ((a >> 24) & 0xff)
  }

  /** Section 3.5: a word is output low-order byte first. */
  function OutputBytes(w: Word): (bytes: seq<Word>)
    ensures |bytes| == 4
  {
    [w % 0x100, w / 0x100 % 0x100, w / 0x1_0000 % 0x100, w / 0x100_0000]
  }

  /** The sixteen bytes of a digest, registers A to D in turn. */
  function Output(s: State): (bytes: seq<Word>)
    ensures |bytes| == 16
  {
    OutputBytes(s.a) + OutputBytes(s.b) + OutputBytes(s.c) + OutputBytes(s.d)
  }

  /** Four bytes as one number, the first the most significant. */
  function BigEndian(bytes: seq<Word>): Word
    requires |bytes| == 4
  {
    bytes[0] * 0x100_0000 + bytes[1] * 0x1_0000 + bytes[2] * 0x100 + bytes[3]
  }

  ghost function Md5Of(message: seq<Byte>): (bytes: seq<Word>)
    ensures |bytes| == 16
  {
    Output(Digest(Padding(message), StartRegisters()))
  }

  lemma SwapSum(a: Word)
    ensures
      (((a & 0xff) << 24) | (((a >> 8) & 0xff) << 16) | (((a >> 16) & 0xff) << 8) | ((a >> 24) & 0xff))
      == a % 0x100 * 0x100_0000 + a / 0x100 % 0x100 * 0x1_0000 + a / 0x1_0000 % 0x100 * 0x100 + a / 0x100_0000
  {
  }

  /** Swapping the bytes of a word gives its output bytes in reading order. */
  lemma SwapIsBigEndian(a: Word)
    ensures SwapEndian(a) == BigEndian(OutputBytes(a))
  {
    SwapSum(a);
  }

  lemma OutputStarts(s: State)
    ensures Output(s)[..4] == OutputBytes(s.a) && Output(s)[4..8] == OutputBytes(s.b)
  {
  }

  /** The first four digest bytes, as a big-endian number. */
  method Hash32(data: seq<Byte>) returns (r: Word)
    requires |data| < 0x1_0000_0000
    ensures r == BigEndian(Output(Digest(PaddedView(data), StartRegisters()))[..4])
    ensures |data| < 0x2000_0000 ==> r == BigEndian(Md5Of(data)[..4])
  {
    hide SwapEndian, BigEndian, OutputBytes, Output, Digest, PaddedView, StartRegisters;
    var s := ProcessMessage(data);
    SwapIsBigEndian(s.a);
    OutputStarts(s);
    r := SwapEndian(s.a);
  }

  function Concat(hi: Word, lo: Word): bv64 { (hi as bv64 << 32) | lo as bv64 }

  function TwoDigits(hi: Word, lo: Word): bv64 { (hi as bv64) * 0x1_0000_0000 + (lo as bv64) }

  lemma ConcatIsTwoDigits(hi: Word, lo: Word)
    ensures Concat(hi, lo) == TwoDigits(hi, lo)
  {
  }

  /** The first eight digest bytes: two big-endian halves. */
  method Hash64(data: seq<Byte>) returns (r: bv64)
    requires |data| < 0x1_0000_0000
    ensures |data| < 0x2000_0000 ==> r == TwoDigits(BigEndian(Md5Of(data)[..4]), BigEndian(Md5Of(data)[4..8]))
  {
    hide SwapEndian, BigEndian, OutputBytes, Output, Digest, PaddedView, Concat, TwoDigits, StartRegisters;
    var s := ProcessMessage(data);
    SwapIsBigEndian(s.a);
    SwapIsBigEndian(s.b);
    OutputStarts(s);
    ConcatIsTwoDigits(SwapEndian(s.a), SwapEndian(s.b));
    r := Concat(SwapEndian(s.a), SwapEndian(s.b));
  }
}
