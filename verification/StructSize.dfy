/**
  The size pass over nested values, the header it chooses, and the bytes the
  writer then emits for the same values.

  A value is a tree. Types are gone: what the compiler decides from a type is a
  constructor here, or a flag of `Traits`.
*/
module StructSize {
  import opened Integers
  import opened Octets
  import V = Varint
  import F = FastVarint

  /**
    - Raw: fundamental types, enums, bitsets, trivially copied structs and arrays, user-defined serialization.
    - Number: an integer coded as a varint, or in its struct's fast varint block.
    - Bulk: a contiguous container whose elements are copied in one go.
    - Node: everything that holds other values.
  */
  datatype Value =
    | Raw(bytes: seq<Byte>)
    | Number(field: F.Field, zigzag: bool)
    | Bulk(count: nat, width: nat, data: seq<Byte>)
    | Node(kind: Kind, items: List)

  datatype List = Nil | Cons(head: Value, tail: List)

  /**
    - Group: tuples, and arrays that are not trivially copied.
    - Optional, Compatible, Polymorphic (a pointer to a base class): empty, or holding one value.
    - Padded: a struct that would be trivially copied but for its compatible members.
  */
  datatype Kind =
    | Group
    | Container
    | Optional
    | Polymorphic(id: nat)
    | Variant(index: Byte)
    | Expected(ok: bool)
    | Compatible(version: nat)
    | Padded(pads: seq<nat>)
    | Struct(fast: bool)

  function Length(vs: List): nat { if vs.Nil? then 0 else 1 + Length(vs.tail) }

  function Sum(ns: seq<nat>): nat { if ns == [] then 0 else ns[0] + Sum(ns[1..]) }

  /** The integer members a fast struct codes together. */
  function Fields(vs: List): seq<F.Field>
  {
    match vs
    case Nil => []
    case Cons(h, t) => (if h.Number? then [h.field] else []) + Fields(t)
  }

  /** What the types guarantee. */
  predicate Shaped(v: Value)
  {
    match v
    case Raw(_) => true
    case Number(f, zigzag) => F.InRange(f) && (zigzag ==> f.signed)
    case Bulk(count, width, data) => |data| == count * width
    case Node(kind, items) => AllShaped(items) && (kind.Padded? ==> |kind.pads| == Length(items))
  }

  predicate AllShaped(vs: List)
  {
    vs.Cons? ==> Shaped(vs.head) && AllShaped(vs.tail)
  }

  lemma {:induction false} FieldsInRange(vs: List)
    requires AllShaped(vs)
    ensures F.AllInRange(Fields(vs))
  {
    if vs.Cons? { FieldsInRange(vs.tail); }
  }

  /** The 64-bit number a varint is written as. */
  function Wire(f: F.Field, zigzag: bool): nat
  {
    if zigzag then V.Zigzag(f.v) else f.v % 0x1_0000_0000_0000_0000
  }

  // ----- the size pass -----

  datatype SizeInfo = SizeInfo(total: nat, sizeCnt: nat, maxSize: nat)

  const ZERO := SizeInfo(0, 0, 0)

  function Add(s: SizeInfo, t: SizeInfo): SizeInfo
  {
    SizeInfo(s.total + t.total, s.sizeCnt + t.sizeCnt, Max(s.maxSize, t.maxSize))
  }

  /** Sizes can be added in any order. */
  lemma AddIsCommutativeMonoid(s: SizeInfo, t: SizeInfo, u: SizeInfo)
    ensures Add(s, Add(t, u)) == Add(Add(s, t), u) && Add(s, t) == Add(t, s) && Add(ZERO, s) == s
  {
  }

  /** What a node adds to the sizes of the values it holds. */
  function OwnSize(kind: Kind, items: List): SizeInfo
    requires AllShaped(items)
  {
    match kind
    case Group => ZERO
    case Container => SizeInfo(0, 1, Length(items))
    case Optional => SizeInfo(1, 0, 0)
    case Polymorphic(_) => SizeInfo(if items.Nil? then 1 else 1 + 4, 0, 0)
    case Variant(_) => SizeInfo(1, 0, 0)
    case Expected(_) => SizeInfo(1, 0, 0)
    case Compatible(_) => SizeInfo(1, 0, 0)
    case Padded(pads) => SizeInfo(Sum(pads), 0, 0)
    case Struct(fast) => SizeInfo(if fast then FieldsInRange(items); F.FastSize(Fields(items)) else 0, 0, 0)
  }

  predicate Fast(kind: Kind) { kind == Struct(true) }

  /** `fast` says that the enclosing struct codes its integers together. */
  function OneSize(v: Value, fast: bool): SizeInfo
    requires Shaped(v)
  {
    match v
    case Raw(bytes) => SizeInfo(|bytes|, 0, 0)
    case Number(f, zigzag) => if fast then ZERO else SizeInfo(|V.Encode(Wire(f, zigzag))|, 0, 0)
    case Bulk(count, width, _) => SizeInfo(count * width, 1, count)
    case Node(kind, items) => Add(OwnSize(kind, items), PayloadSize(items, Fast(kind)))
  }

  function PayloadSize(vs: List, fast: bool): SizeInfo
    requires AllShaped(vs)
  {
    match vs
    case Nil => ZERO
    case Cons(h, t) => Add(OneSize(h, fast), PayloadSize(t, fast))
  }

  // ----- every container size in the tree -----

  function Sizes(v: Value): seq<nat>
  {
    match v
    case Raw(_) => []
    case Number(_, _) => []
    case Bulk(count, _, _) => [count]
    case Node(kind, items) => (if kind.Container? then [Length(items)] else []) + AllSizes(items)
  }

  function AllSizes(vs: List): seq<nat>
  {
    if vs.Nil? then [] else Sizes(vs.head) + AllSizes(vs.tail)
  }

  predicate Counts(s: SizeInfo, sizes: seq<nat>)
  {
    && s.sizeCnt == |sizes|
    && (forall i :: 0 <= i < |sizes| ==> sizes[i] <= s.maxSize)
    && (if sizes == [] then s.maxSize == 0 else s.maxSize in sizes)
  }

  lemma CountsAdd(s: SizeInfo, ss: seq<nat>, t: SizeInfo, ts: seq<nat>)
    requires Counts(s, ss) && Counts(t, ts)
    ensures Counts(Add(s, t), ss + ts)
  {
    forall i | 0 <= i < |ss + ts| ensures (ss + ts)[i] <= Max(s.maxSize, t.maxSize) {
      if i < |ss| { assert (ss + ts)[i] == ss[i]; } else { assert (ss + ts)[i] == ts[i - |ss|]; }
    }
  }

  /** The size pass counts every container at every depth, and keeps the largest size. */
  lemma {:induction false} CountsOne(v: Value, fast: bool)
    requires Shaped(v)
    ensures Counts(OneSize(v, fast), Sizes(v))
    decreases v
  {
    if v.Node? {
      CountsMany(v.items, Fast(v.kind));
      hide F.FastSize, Sum;
      CountsAdd(OwnSize(v.kind, v.items), if v.kind.Container? then [Length(v.items)] else [],
                PayloadSize(v.items, Fast(v.kind)), AllSizes(v.items));
    }
  }

  lemma {:induction false} CountsMany(vs: List, fast: bool)
    requires AllShaped(vs)
    ensures Counts(PayloadSize(vs, fast), AllSizes(vs))
    decreases vs
  {
    if vs.Cons? {
      CountsOne(vs.head, fast);
      CountsMany(vs.tail, fast);
      CountsAdd(OneSize(vs.head, fast), Sizes(vs.head), PayloadSize(vs.tail, fast), AllSizes(vs.tail));
    }
  }

  // ----- the header -----

  /** What is decided from the types of the arguments and the configuration. */
  datatype Traits = Traits(compatible: bool, literal: bool, disableHash: bool, container: bool)

  predicate Allowed(t: Traits) { t.disableHash ==> !t.compatible && !t.literal }

  predicate HasMetainfo(t: Traits)
  {
    t.compatible || (!t.disableHash && t.literal) || (t.disableHash && t.container)
  }

  function WidthCode(maxSize: nat): (code: nat)
    ensures code <= 3
  {
    if maxSize < 0x100 then 0 else if maxSize < 0x1_0000 then 1 else if maxSize < 0x1_0000_0000 then 2 else 3
  }

  function LengthCode(base: nat): (code: nat)
    ensures 1 <= code <= 3
  {
    if base + 2 < 0x1_0000 then 1 else if base + 4 < 0x1_0000_0000 then 2 else 3
  }

  datatype Info = Info(len: nat, metainfo: nat)

  /** The container width code, in bits 3 and 4. */
  function SizeType(info: Info): (code: nat)
    ensures code <= 3
  {
    info.metainfo / 8 % 4
  }

  function LengthType(info: Info): (code: nat)
    ensures code <= 3
  {
    info.metainfo % 4
  }

  /** The size of everything but the total-length field. */
  function BaseLength(t: Traits, literalSize: nat, sz: SizeInfo): nat
  {
    var code := if t.container then WidthCode(sz.maxSize) else 0;
    (if HasMetainfo(t) || code > 0 then 1 else 0)
    + sz.total + (if t.container then sz.sizeCnt * F.Bytes(code) else 0)
    + (if t.disableHash then 0 else 4 + (if t.literal then literalSize + 1 else 0))
  }

  function InfoOf(t: Traits, literalSize: nat, sz: SizeInfo): Info
  {
    var code := if t.container then WidthCode(sz.maxSize) else 0;
    var base := BaseLength(t, literalSize, sz);
    var lengthCode := if !t.disableHash && t.compatible then LengthCode(base) else 0;
    Info(base + (if lengthCode > 0 then F.Bytes(lengthCode) else 0),
         8 * code + (if !t.disableHash && t.literal then 4 else 0) + lengthCode)
  }

  method GetSerializeRuntimeInfo(t: Traits, literalSize: nat, args: List) returns (info: Info)
    requires AllShaped(args)
    ensures info == InfoOf(t, literalSize, PayloadSize(args, false))
  {
    hide PayloadSize, WidthCode, LengthCode, F.Bytes;
    var sz := PayloadSize(args, false);
    var len, metainfo := MeasurePayload(t, sz);
    if !t.disableHash {
      len := len + 4;
      if t.literal {
        len := len + literalSize + 1;
        metainfo := metainfo + 4;
      }
      if t.compatible {
        var code;
        len, code := AddLengthField(len);
        metainfo := metainfo + code;
      }
    }
    info := Info(len, metainfo);
  }

  /** The bytes of the payload, of its container sizes and of the metainfo byte. */
  method MeasurePayload(t: Traits, sz: SizeInfo) returns (len: nat, metainfo: nat)
    ensures
      var code := if t.container then WidthCode(sz.maxSize) else 0;
      && metainfo == 8 * code
      && len == (if HasMetainfo(t) || code > 0 then 1 else 0)
                + sz.total + (if t.container then sz.sizeCnt * F.Bytes(code) else 0)
  {
    hide HasMetainfo;
    len, metainfo := 0, 0;
    if HasMetainfo(t) { len := 1; }
    if !t.container {
      len := len + sz.total;
    } else if sz.maxSize < 0x100 {
      len := len + sz.total + sz.sizeCnt;
    } else {
      if sz.maxSize < 0x1_0000 {
        len := len + sz.total + sz.sizeCnt * 2;
        metainfo := 8;
      } else if sz.maxSize < 0x1_0000_0000 {
        len := len + sz.total + sz.sizeCnt * 4;
        metainfo := 16;
      } else {
        len := len + sz.total + sz.sizeCnt * 8;
        metainfo := 24;
      }
      if !HasMetainfo(t) { len := len + 1; }
    }
  }

  /** Room for the total length, which counts itself. */
  method AddLengthField(base: nat) returns (len: nat, code: nat)
    ensures code == LengthCode(base) && len == base + F.Bytes(code)
  {
    if base + 2 < 0x1_0000 {
      len, code := base + 2, 1;
    } else if base + 4 < 0x1_0000_0000 {
      len, code := base + 4, 2;
    } else {
      len, code := base + 8, 3;
    }
  }

  /** What the types guarantee of the flags: no container, no container size. */
  predicate Typed(t: Traits, args: List) { Allowed(t) && (AllSizes(args) != [] ==> t.container) }

  /** The one width in bits 3 and 4 holds every container size at any depth, and is the least that does. */
  lemma SizeTypeIsLeast(t: Traits, literalSize: nat, args: List)
    requires AllShaped(args) && Typed(t, args)
    ensures
      var code := SizeType(InfoOf(t, literalSize, PayloadSize(args, false)));
      && (forall i :: 0 <= i < |AllSizes(args)| && AllSizes(args)[i] < 0x1_0000_0000_0000_0000 ==>
            F.Fits(AllSizes(args)[i], false, F.Bytes(code)))
      && (code > 0 ==> exists i :: 0 <= i < |AllSizes(args)| && !F.Fits(AllSizes(args)[i], false, F.Bytes(code - 1)))
  {
    CountsMany(args, false);
    F.Powers();
    SizeTypeIs(t, literalSize, PayloadSize(args, false));
    hide InfoOf, Pow256, PayloadSize, AllSizes;
    var sizes, max := AllSizes(args), PayloadSize(args, false).maxSize;
    if max > 0 {
      var i :| 0 <= i < |sizes| && sizes[i] == max;
      assert sizes[i] == max;
    }
  }

  lemma SizeTypeIs(t: Traits, literalSize: nat, sz: SizeInfo)
    ensures
      var info := InfoOf(t, literalSize, sz);
      && SizeType(info) == (if t.container then WidthCode(sz.maxSize) else 0)
      && LengthType(info) == (if !t.disableHash && t.compatible then LengthCode(BaseLength(t, literalSize, sz)) else 0)
      && info.metainfo < 0x100
  {
    hide BaseLength, WidthCode, LengthCode;
  }

  /** The total-length field of bits 0 and 1 holds the final length, itself included, and no shorter one would. */
  lemma LengthFieldIsLeast(t: Traits, literalSize: nat, sz: SizeInfo)
    requires Allowed(t)
    ensures
      var info := InfoOf(t, literalSize, sz);
      var base := BaseLength(t, literalSize, sz);
      && (LengthType(info) > 0 <==> t.compatible)
      && (t.compatible ==>
            var n := F.Bytes(LengthType(info));
            && info.len == base + n
            && (info.len < 0x1_0000_0000_0000_0000 ==> F.Extend(false, LowBytes(info.len, n)) == info.len)
            && (n == 4 ==> !F.Fits(base + 2, false, 2))
            && (n == 8 ==> !F.Fits(base + 4, false, 4)))
  {
    F.Powers();
    SizeTypeIs(t, literalSize, sz);
    hide BaseLength, LengthType;
    var info := InfoOf(t, literalSize, sz);
    if t.compatible { F.LosslessIff(info.len, false, F.Bytes(LengthType(info))); }
  }

  // ----- the bytes -----

  /** What a node writes before the values it holds. */
  function Head(kind: Kind, items: List, w: nat): seq<Byte>
    requires AllShaped(items)
  {
    match kind
    case Group => []
    case Container => LowBytes(Length(items), w)
    case Optional => [if items.Nil? then 0 else 1]
    case Polymorphic(id) => if items.Nil? then [0] else [1] + LowBytes(id, 4)
    case Variant(index) => [index]
    case Expected(ok) => [if ok then 1 else 0]
    case Compatible(_) => [if items.Nil? then 0 else 1]
    case Padded(_) => []
    case Struct(fast) => if fast then FieldsInRange(items); F.Block(Fields(items)) else []
  }

  /** The main pass, with container sizes in w bytes. Compatible members are left for later. */
  function WriteOne(v: Value, w: nat, fast: bool): seq<Byte>
    requires Shaped(v)
  {
    match v
    case Raw(bytes) => bytes
    case Number(f, zigzag) => if fast then [] else V.Encode(Wire(f, zigzag))
    case Bulk(count, _, data) => LowBytes(count, w) + data
    case Node(kind, items) =>
      if kind.Compatible? then []
      else if kind.Padded? then WritePadded(items, kind.pads, w)
      else Head(kind, items, w) + WriteMany(items, w, Fast(kind))
  }

  function WriteMany(vs: List, w: nat, fast: bool): seq<Byte>
    requires AllShaped(vs)
  {
    if vs.Nil? then [] else WriteOne(vs.head, w, fast) + WriteMany(vs.tail, w, fast)
  }

  function WritePadded(vs: List, pads: seq<nat>, w: nat): seq<Byte>
    requires AllShaped(vs) && |pads| == Length(vs)
  {
    if vs.Nil? then [] else WriteOne(vs.head, w, false) + Zeros(pads[0]) + WritePadded(vs.tail, pads[1..], w)
  }

  /**
    A later pass, for one version: the compatible members of that version that
    are not inside another compatible member or behind a base-class pointer.
  */
  function WriteVersion(v: Value, w: nat, version: nat): seq<Byte>
    requires Shaped(v)
  {
    if !v.Node? then []
    else match v.kind
      case Compatible(n) => if n == version then Head(v.kind, v.items, w) + WriteMany(v.items, w, false) else []
      case Polymorphic(_) => []
      case _ => WriteVersions(v.items, w, version)
  }

  function WriteVersions(vs: List, w: nat, version: nat): seq<Byte>
    requires AllShaped(vs)
  {
    if vs.Nil? then [] else WriteVersion(vs.head, w, version) + WriteVersions(vs.tail, w, version)
  }

  function WritePasses(args: List, w: nat, versions: seq<nat>): seq<Byte>
    requires AllShaped(args)
  {
    if versions == [] then [] else WriteVersions(args, w, versions[0]) + WritePasses(args, w, versions[1..])
  }

  /** The parity of the hash says whether a metainfo byte follows; it is taken from the first argument alone. */
  predicate OddHash(first: Traits, info: Info) { HasMetainfo(first) || SizeType(info) > 0 }

  function LengthField(t: Traits, info: Info): seq<Byte>
  {
    if t.compatible then LowBytes(info.len, if LengthType(info) > 0 then F.Bytes(LengthType(info)) else 0) else []
  }

  function LiteralField(t: Traits, literal: seq<Byte>): seq<Byte> { if t.literal then literal + [0] else [] }

  function Header(t: Traits, first: Traits, hash: nat, literal: seq<Byte>, info: Info): seq<Byte>
  {
    (if t.disableHash then [] else LowBytes(hash, 4))
    + if !OddHash(first, info) then []
      else [info.metainfo % 0x100] + LengthField(t, info) + LiteralField(t, literal)
  }

  function Packed(t: Traits, first: Traits, hash: nat, literal: seq<Byte>, versions: seq<nat>, args: List): seq<Byte>
    requires AllShaped(args)
  {
    var info := InfoOf(t, |literal|, PayloadSize(args, false));
    var w := F.Bytes(SizeType(info));
    Header(t, first, hash, literal, info)
    + WriteMany(args, w, false)
    + if t.compatible then WritePasses(args, w, versions) else []
  }

  // ----- the size pass predicts the bytes -----

  function Cost(s: SizeInfo, w: nat): nat { s.total + w * s.sizeCnt }

  lemma CostAdd(s: SizeInfo, t: SizeInfo, w: nat)
    ensures Cost(Add(s, t), w) == Cost(s, w) + Cost(t, w)
  {
    assert w * (s.sizeCnt + t.sizeCnt) == w * s.sizeCnt + w * t.sizeCnt;
  }

  /** What the size pass counts for compatible members at any depth, outermost first. */
  function CompatibleCost(v: Value, w: nat): nat
    requires Shaped(v)
  {
    if !v.Node? then 0
    else if v.kind.Compatible? then Cost(OneSize(v, false), w)
    else CompatibleCosts(v.items, w)
  }

  function CompatibleCosts(vs: List, w: nat): nat
    requires AllShaped(vs)
  {
    if vs.Nil? then 0 else CompatibleCost(vs.head, w) + CompatibleCosts(vs.tail, w)
  }

  lemma HeadSize(kind: Kind, items: List, w: nat)
    requires AllShaped(items) && !kind.Padded?
    ensures |Head(kind, items, w)| == Cost(OwnSize(kind, items), w)
  {
    hide F.FastSize, F.Block;
    if kind == Struct(true) {
      FieldsInRange(items);
      F.BlockSize(Fields(items));
    }
  }

  lemma {:induction false} PaddedSize(vs: List, pads: seq<nat>, w: nat)
    requires AllShaped(vs) && |pads| == Length(vs)
    ensures |WritePadded(vs, pads, w)| == |WriteMany(vs, w, false)| + Sum(pads)
    decreases vs
  {
    if vs.Cons? { PaddedSize(vs.tail, pads[1..], w); }
  }

  /** The main pass writes what was counted, compatible members aside. */
  lemma {:induction false} WriteOneSize(v: Value, w: nat, fast: bool)
    requires Shaped(v)
    ensures Cost(OneSize(v, fast), w) == |WriteOne(v, w, fast)| + CompatibleCost(v, w)
    decreases v
  {
    hide V.Encode, Sum;
    if v.Node? {
      var own, payload := OwnSize(v.kind, v.items), PayloadSize(v.items, Fast(v.kind));
      CostAdd(own, payload, w);
      WriteManySize(v.items, w, Fast(v.kind));
      hide OwnSize;
      if v.kind.Padded? {
        PaddedSize(v.items, v.kind.pads, w);
        PaddedCost(v.kind, v.items, w);
      } else {
        HeadSize(v.kind, v.items, w);
      }
    }
  }

  lemma PaddedCost(kind: Kind, items: List, w: nat)
    requires AllShaped(items) && kind.Padded?
    ensures Cost(OwnSize(kind, items), w) == Sum(kind.pads)
  {
  }

  lemma {:induction false} WriteManySize(vs: List, w: nat, fast: bool)
    requires AllShaped(vs)
    ensures Cost(PayloadSize(vs, fast), w) == |WriteMany(vs, w, fast)| + CompatibleCosts(vs, w)
    decreases vs
  {
    hide Cost;
    if vs.Cons? {
      WriteOneSize(vs.head, w, fast);
      WriteManySize(vs.tail, w, fast);
      CostAdd(OneSize(vs.head, fast), PayloadSize(vs.tail, fast), w);
    } else {
      assert Cost(ZERO, w) == 0 by { ZeroCost(w); }
    }
  }

  lemma ZeroCost(w: nat)
    ensures Cost(ZERO, w) == 0
  {
  }

  // ----- the later passes -----

  /** What a version pass that reaches it writes for a compatible member. */
  function VisibleSize(v: Value, w: nat): nat
    requires Shaped(v)
  {
    if !v.Node? || v.kind.Polymorphic? then 0
    else if v.kind.Compatible? then |Head(v.kind, v.items, w)| + |WriteMany(v.items, w, false)|
    else VisibleSizes(v.items, w)
  }

  function VisibleSizes(vs: List, w: nat): nat
    requires AllShaped(vs)
  {
    if vs.Nil? then 0 else VisibleSize(vs.head, w) + VisibleSizes(vs.tail, w)
  }

  /** Counted, but written by no pass. */
  function LostSize(v: Value, w: nat): nat
    requires Shaped(v)
  {
    if !v.Node? then 0
    else if v.kind.Compatible? || v.kind.Polymorphic? then CompatibleCosts(v.items, w)
    else LostSizes(v.items, w)
  }

  function LostSizes(vs: List, w: nat): nat
    requires AllShaped(vs)
  {
    if vs.Nil? then 0 else LostSize(vs.head, w) + LostSizes(vs.tail, w)
  }

  lemma {:induction false} VisibleOrLost(v: Value, w: nat)
    requires Shaped(v)
    ensures CompatibleCost(v, w) == VisibleSize(v, w) + LostSize(v, w)
    decreases v
  {
    hide Cost, OwnSize, Head;
    if v.Node? {
      if v.kind.Compatible? {
        CostAdd(OwnSize(v.kind, v.items), PayloadSize(v.items, false), w);
        HeadSize(v.kind, v.items, w);
        WriteManySize(v.items, w, false);
      } else if !v.kind.Polymorphic? {
        VisibleOrLostAll(v.items, w);
      }
    }
  }

  lemma {:induction false} VisibleOrLostAll(vs: List, w: nat)
    requires AllShaped(vs)
    ensures CompatibleCosts(vs, w) == VisibleSizes(vs, w) + LostSizes(vs, w)
    decreases vs
  {
    if vs.Cons? {
      VisibleOrLost(vs.head, w);
      VisibleOrLostAll(vs.tail, w);
    }
  }

  /** The versions collected from the types: sorted, without repeats. */
  predicate Ascending(versions: seq<nat>) { forall i, j :: 0 <= i < j < |versions| ==> versions[i] < versions[j] }

  predicate Covered(v: Value, versions: seq<nat>)
  {
    if !v.Node? || v.kind.Polymorphic? then true
    else if v.kind.Compatible? then v.kind.version in versions
    else AllCovered(v.items, versions)
  }

  predicate AllCovered(vs: List, versions: seq<nat>)
  {
    vs.Cons? ==> Covered(vs.head, versions) && AllCovered(vs.tail, versions)
  }

  function PassesSize(v: Value, w: nat, versions: seq<nat>): nat
    requires Shaped(v)
  {
    if versions == [] then 0 else |WriteVersion(v, w, versions[0])| + PassesSize(v, w, versions[1..])
  }

  lemma {:induction false} PassesCons(vs: List, w: nat, versions: seq<nat>)
    requires AllShaped(vs) && vs.Cons?
    ensures |WritePasses(vs, w, versions)| == PassesSize(vs.head, w, versions) + |WritePasses(vs.tail, w, versions)|
    decreases |versions|
  {
    if versions != [] { PassesCons(vs, w, versions[1..]); }
  }

  lemma {:induction false} PassesNil(w: nat, versions: seq<nat>)
    ensures WritePasses(Nil, w, versions) == []
    decreases |versions|
  {
    if versions != [] { PassesNil(w, versions[1..]); }
  }

  lemma {:induction false} PassesInner(v: Value, w: nat, versions: seq<nat>)
    requires Shaped(v) && v.Node? && !v.kind.Compatible? && !v.kind.Polymorphic?
    ensures PassesSize(v, w, versions) == |WritePasses(v.items, w, versions)|
    decreases |versions|
  {
    if versions != [] { PassesInner(v, w, versions[1..]); }
  }

  /** One pass in the list writes a compatible member, the others skip it. */
  lemma {:induction false} PassesCompatible(v: Value, w: nat, versions: seq<nat>)
    requires Shaped(v) && v.Node? && v.kind.Compatible? && Ascending(versions)
    ensures PassesSize(v, w, versions) == if v.kind.version in versions then VisibleSize(v, w) else 0
    decreases |versions|
  {
    hide Head;
    if versions != [] {
      PassesCompatible(v, w, versions[1..]);
      assert versions == [versions[0]] + versions[1..];
      assert forall i :: 0 < i < |versions| ==> versions[i] == versions[1..][i - 1];
    }
  }

  lemma {:induction false} PassesSkip(v: Value, w: nat, versions: seq<nat>)
    requires Shaped(v) && (!v.Node? || v.kind.Polymorphic?)
    ensures PassesSize(v, w, versions) == 0
    decreases |versions|
  {
    if versions != [] { PassesSkip(v, w, versions[1..]); }
  }

  lemma {:induction false} PassesOne(v: Value, w: nat, versions: seq<nat>)
    requires Shaped(v) && Ascending(versions) && Covered(v, versions)
    ensures PassesSize(v, w, versions) == VisibleSize(v, w)
    decreases v
  {
    hide PassesSize, WritePasses, Ascending, Head;
    if !v.Node? || v.kind.Polymorphic? {
      PassesSkip(v, w, versions);
    } else if v.kind.Compatible? {
      PassesCompatible(v, w, versions);
    } else {
      PassesInner(v, w, versions);
      PassesMany(v.items, w, versions);
    }
  }

  /** Whatever the order of versions, the passes write each reachable compatible member once. */
  lemma {:induction false} PassesMany(vs: List, w: nat, versions: seq<nat>)
    requires AllShaped(vs) && Ascending(versions) && AllCovered(vs, versions)
    ensures |WritePasses(vs, w, versions)| == VisibleSizes(vs, w)
    decreases vs
  {
    hide PassesSize, WritePasses, Ascending, Head;
    if vs.Cons? {
      PassesOne(vs.head, w, versions);
      PassesMany(vs.tail, w, versions);
      PassesCons(vs, w, versions);
    } else {
      PassesNil(w, versions);
    }
  }

  // ----- members that are counted and never written -----

  predicate HasCompatible(v: Value) { v.Node? && (v.kind.Compatible? || AnyCompatible(v.items)) }

  predicate AnyCompatible(vs: List) { vs.Cons? && (HasCompatible(vs.head) || AnyCompatible(vs.tail)) }

  /** A compatible member inside another one, or behind a base-class pointer. */
  predicate Hidden(v: Value)
  {
    v.Node? && if v.kind.Compatible? || v.kind.Polymorphic? then AnyCompatible(v.items) else AnyHidden(v.items)
  }

  predicate AnyHidden(vs: List) { vs.Cons? && (Hidden(vs.head) || AnyHidden(vs.tail)) }

  lemma {:induction false} CompatibleCostIff(v: Value, w: nat)
    requires Shaped(v)
    ensures CompatibleCost(v, w) > 0 <==> HasCompatible(v)
    decreases v
  {
    hide Cost, OwnSize, PayloadSize;
    if v.Node? {
      if v.kind.Compatible? {
        CostAdd(OwnSize(v.kind, v.items), PayloadSize(v.items, false), w);
        CompatibleFlag(v.kind, v.items, w);
      } else {
        CompatibleCostsIff(v.items, w);
      }
    }
  }

  lemma CompatibleFlag(kind: Kind, items: List, w: nat)
    requires AllShaped(items) && kind.Compatible?
    ensures Cost(OwnSize(kind, items), w) == 1
  {
  }

  lemma {:induction false} CompatibleCostsIff(vs: List, w: nat)
    requires AllShaped(vs)
    ensures CompatibleCosts(vs, w) > 0 <==> AnyCompatible(vs)
    decreases vs
  {
    if vs.Cons? {
      CompatibleCostIff(vs.head, w);
      CompatibleCostsIff(vs.tail, w);
    }
  }

  lemma {:induction false} LostIff(v: Value, w: nat)
    requires Shaped(v)
    ensures LostSize(v, w) > 0 <==> Hidden(v)
    decreases v
  {
    if v.Node? {
      CompatibleCostsIff(v.items, w);
      LostManyIff(v.items, w);
    }
  }

  lemma {:induction false} LostManyIff(vs: List, w: nat)
    requires AllShaped(vs)
    ensures LostSizes(vs, w) > 0 <==> AnyHidden(vs)
    decreases vs
  {
    if vs.Cons? {
      LostIff(vs.head, w);
      LostManyIff(vs.tail, w);
    }
  }

  // ----- the predicted length -----

  /** What the types guarantee of versions: each reachable one is listed, and then the flag is set. */
  predicate Versioned(t: Traits, versions: seq<nat>, args: List)
  {
    Ascending(versions) && if t.compatible then AllCovered(args, versions) else AllCovered(args, [])
  }

  lemma NothingVisible(vs: List, w: nat)
    requires AllShaped(vs) && AllCovered(vs, [])
    ensures VisibleSizes(vs, w) == 0
  {
    PassesMany(vs, w, []);
  }

  /** The header bytes the size pass counts. */
  function HeaderSize(t: Traits, literalSize: nat, info: Info): nat
  {
    (if t.disableHash then 0 else 4)
    + if !OddHash(t, info) then 0
      else
        1 + (if LengthType(info) > 0 then F.Bytes(LengthType(info)) else 0)
        + (if !t.disableHash && t.literal then literalSize + 1 else 0)
  }

  lemma LengthSplits(t: Traits, literalSize: nat, args: List)
    requires AllShaped(args) && Typed(t, args)
    ensures
      var sz := PayloadSize(args, false);
      var info := InfoOf(t, literalSize, sz);
      info.len == HeaderSize(t, literalSize, info) + Cost(sz, F.Bytes(SizeType(info)))
  {
    hide PayloadSize, Cost, InfoOf, HeaderSize;
    CountsMany(args, false);
    InfoSplits(t, literalSize, PayloadSize(args, false));
  }

  lemma InfoSplits(t: Traits, literalSize: nat, sz: SizeInfo)
    requires Allowed(t) && (sz.sizeCnt > 0 ==> t.container)
    ensures
      var info := InfoOf(t, literalSize, sz);
      info.len == HeaderSize(t, literalSize, info) + Cost(sz, F.Bytes(SizeType(info)))
  {
    SizeTypeIs(t, literalSize, sz);
    hide WidthCode, LengthCode, SizeType, LengthType, F.Bytes;
    var w := F.Bytes(SizeType(InfoOf(t, literalSize, sz)));
    assert sz.sizeCnt * w == w * sz.sizeCnt;
  }

  /** The header is written as counted exactly when the first argument decides like all of
      them, or the sizes are wide. */
  lemma HeaderIff(t: Traits, first: Traits, hash: nat, literal: seq<Byte>, sz: SizeInfo)
    requires Allowed(t)
    ensures
      var info := InfoOf(t, |literal|, sz);
      |Header(t, first, hash, literal, info)| == HeaderSize(t, |literal|, info)
      <==> SizeType(info) > 0 || HasMetainfo(first) == HasMetainfo(t)
  {
    SizeTypeIs(t, |literal|, sz);
    hide InfoOf, SizeType, LengthType, WidthCode, LengthCode;
  }

  /** For every tree: the bytes written, and the hidden members not written, make up the predicted length. */
  lemma PackedLength(t: Traits, first: Traits, hash: nat, literal: seq<Byte>, versions: seq<nat>, args: List)
    requires AllShaped(args) && Typed(t, args) && Versioned(t, versions, args)
    ensures
      var info := InfoOf(t, |literal|, PayloadSize(args, false));
      |Packed(t, first, hash, literal, versions, args)| + LostSizes(args, F.Bytes(SizeType(info)))
        + HeaderSize(t, |literal|, info)
      == info.len + |Header(t, first, hash, literal, info)|
  {
    var info := InfoOf(t, |literal|, PayloadSize(args, false));
    var w := F.Bytes(SizeType(info));
    LengthSplits(t, |literal|, args);
    WriteManySize(args, w, false);
    VisibleOrLostAll(args, w);
    if t.compatible { PassesMany(args, w, versions); } else { NothingVisible(args, w); }
    hide PayloadSize, WriteMany, WritePasses, Header, HeaderSize, InfoOf, Cost;
  }

  /** The first argument decides the header like all of them, or the sizes decide it. */
  predicate HeaderAgrees(t: Traits, first: Traits, info: Info)
  {
    SizeType(info) > 0 || HasMetainfo(first) == HasMetainfo(t)
  }

  /** A header that disagrees has one byte too many if the first argument wants a metainfo
      byte that was not counted, and too few if it does without one that was. */
  lemma HeaderExcess(t: Traits, first: Traits, hash: nat, literal: seq<Byte>, sz: SizeInfo)
    requires Allowed(t) && !HeaderAgrees(t, first, InfoOf(t, |literal|, sz))
    ensures
      var info := InfoOf(t, |literal|, sz);
      var written, counted := |Header(t, first, hash, literal, info)|, HeaderSize(t, |literal|, info);
      if HasMetainfo(first) then written == counted + 1 else written < counted
  {
    SizeTypeIs(t, |literal|, sz);
    hide InfoOf, SizeType, LengthType, WidthCode, LengthCode;
  }

  /**
    When the buffer is filled exactly, for any arguments. With a header that agrees, as it
    does for a single argument: when no compatible member is inside another one or behind a
    base-class pointer. With one that disagrees: when the metainfo byte it has too many makes
    up for a single byte that was counted and is not written.
  */
  lemma ExactIff(t: Traits, first: Traits, hash: nat, literal: seq<Byte>, versions: seq<nat>, args: List)
    requires AllShaped(args) && Typed(t, args) && Versioned(t, versions, args)
    ensures
      var info := InfoOf(t, |literal|, PayloadSize(args, false));
      |Packed(t, first, hash, literal, versions, args)| == info.len
      <==> if HeaderAgrees(t, first, info) then !AnyHidden(args)
           else HasMetainfo(first) && LostSizes(args, F.Bytes(SizeType(info))) == 1
    ensures |Packed(t, t, hash, literal, versions, args)| <= InfoOf(t, |literal|, PayloadSize(args, false)).len
  {
    hide Packed, Header, HeaderSize, LostSizes, AnyHidden, InfoOf, PayloadSize, HasMetainfo, SizeType;
    var sz := PayloadSize(args, false);
    var info := InfoOf(t, |literal|, sz);
    PackedLength(t, first, hash, literal, versions, args);
    PackedLength(t, t, hash, literal, versions, args);
    HeaderIff(t, first, hash, literal, sz);
    HeaderIff(t, t, hash, literal, sz);
    if !HeaderAgrees(t, first, info) { HeaderExcess(t, first, hash, literal, sz); }
    LostManyIff(args, F.Bytes(SizeType(info)));
  }

  /** A byte hidden behind a base-class pointer and a metainfo byte nobody counted cancel out. */
  lemma TwoErrorsCancel(hash: nat, id: nat, literal: seq<Byte>) returns (t: Traits, first: Traits, args: List)
    ensures AllShaped(args) && Typed(t, args) && Versioned(t, [], args)
    ensures
      var info := InfoOf(t, |literal|, PayloadSize(args, false));
      && !HeaderAgrees(t, first, info) && AnyHidden(args)
      && |Packed(t, first, hash, literal, [], args)| == info.len
  {
    hide Packed, InfoOf, Cost, OwnSize, PayloadSize, Header, HeaderSize;
    var v := Node(Compatible(1), Nil);
    var inner := Cons(v, Nil);
    args := Cons(Node(Polymorphic(id), inner), Nil);
    t, first := Traits(false, false, false, true), Traits(false, true, false, true);
    assert AllShaped(inner) && Shaped(args.head) && AllShaped(args);
    assert Covered(args.head, []) && AllCovered(args.tail, []) && AllCovered(args, []);
    var sz := PayloadSize(args, false);
    var info := InfoOf(t, |literal|, sz);
    var w := F.Bytes(SizeType(info));
    assert AllSizes(inner) == [] && AllSizes(args) == [];
    CountsMany(args, false);
    SizeTypeIs(t, |literal|, sz);
    EmptyCompatible(v, inner, w);
    assert LostSizes(args.tail, w) == 0 && LostSize(args.head, w) == CompatibleCosts(inner, w);
    LostManyIff(args, w);
    ExactIff(t, first, hash, literal, [], args);
  }

  /** An empty compatible member inside another one: one byte is counted that no pass writes. */
  lemma HiddenMember(hash: nat)
    ensures
      var args := Cons(Node(Compatible(1), Cons(Node(Compatible(2), Nil), Nil)), Nil);
      var t := Traits(true, false, false, false);
      |Packed(t, t, hash, [], [1], args)| + 1 == InfoOf(t, 0, PayloadSize(args, false)).len
  {
    hide Packed, Header, HeaderSize, InfoOf, Cost, OwnSize, PayloadSize;
    var inner := Node(Compatible(2), Nil);
    var args := Cons(Node(Compatible(1), Cons(inner, Nil)), Nil);
    var t := Traits(true, false, false, false);
    var info := InfoOf(t, 0, PayloadSize(args, false));
    assert AllSizes(args) == [] by { assert AllSizes(Cons(inner, Nil)) == []; }
    PackedLength(t, t, hash, [], [1], args);
    HeaderIff(t, t, hash, [], PayloadSize(args, false));
    EmptyCompatible(inner, Cons(inner, Nil), F.Bytes(SizeType(info)));
    assert LostSizes(args, F.Bytes(SizeType(info))) == CompatibleCosts(Cons(inner, Nil), F.Bytes(SizeType(info)));
  }

  /**
    Two arguments, a byte and an empty compatible member, and nothing hidden: the first
    alone needs no metainfo, so the header lacks the three bytes that were counted for
    the metainfo and the length.
  */
  lemma FirstArgumentDecides(hash: nat, b: Byte)
    ensures
      var args := Cons(Raw([b]), Cons(Node(Compatible(1), Nil), Nil));
      var t, first := Traits(true, false, false, false), Traits(false, false, false, false);
      && !AnyHidden(args)
      && |Packed(t, first, hash, [], [1], args)| + 3 == InfoOf(t, 0, PayloadSize(args, false)).len
  {
    hide Packed, InfoOf, Cost, OwnSize, PayloadSize;
    var args := Cons(Raw([b]), Cons(Node(Compatible(1), Nil), Nil));
    var t, first := Traits(true, false, false, false), Traits(false, false, false, false);
    var sz := PayloadSize(args, false);
    var info := InfoOf(t, 0, sz);
    assert AllSizes(args) == [] by { assert AllSizes(args.tail) == []; }
    CountsMany(args, false);
    SizeTypeIs(t, 0, sz);
    assert AllCovered(Nil, [1]) && Covered(args.tail.head, [1]) && AllCovered(args.tail, [1]);
    assert AllCovered(args, [1]);
    PackedLength(t, first, hash, [], [1], args);
    SmallArguments(args, b);
  }

  lemma SmallArguments(args: List, b: Byte)
    requires args.Cons? && args.head == Raw([b]) && args.tail.Cons? && args.tail.tail == Nil && AllShaped(args)
    requires var v := args.tail.head; v.Node? && v.kind.Compatible? && v.items == Nil
    ensures PayloadSize(args, false).total == 2 && LostSizes(args, 1) == 0 && !AnyHidden(args)
  {
    var v, rest := args.tail.head, args.tail;
    OneByte(v);
    NothingLost(v);
    LostManyIff(args, 1);
    hide OneSize, LostSize, AnyHidden;
    assert OneSize(args.head, false).total == 1 && LostSize(args.head, 1) == 0 by { OneRaw(args.head); }
    assert PayloadSize(rest.tail, false) == ZERO && LostSizes(rest.tail, 1) == 0;
    assert PayloadSize(rest, false) == Add(OneSize(v, false), PayloadSize(rest.tail, false));
    assert LostSizes(rest, 1) == LostSize(v, 1) + LostSizes(rest.tail, 1);
  }

  lemma OneRaw(v: Value)
    requires v.Raw? && |v.bytes| == 1
    ensures OneSize(v, false).total == 1 && LostSize(v, 1) == 0
  {
  }

  lemma OneByte(v: Value)
    requires Shaped(v) && v.Node? && v.kind.Compatible? && v.items == Nil
    ensures OneSize(v, false).total == 1
  {
    hide OwnSize, Cost;
    CompatibleFlag(v.kind, v.items, 0);
    ZeroWidth(OwnSize(v.kind, v.items));
    assert PayloadSize(v.items, false) == ZERO;
    assert OneSize(v, false) == Add(OwnSize(v.kind, v.items), ZERO);
  }

  lemma ZeroWidth(s: SizeInfo)
    ensures Cost(s, 0) == s.total
  {
  }

  lemma NothingLost(v: Value)
    requires Shaped(v) && v.Node? && v.kind.Compatible? && v.items == Nil
    ensures LostSize(v, 1) == 0
  {
  }

  lemma EmptyCompatible(v: Value, vs: List, w: nat)
    requires Shaped(v) && v.Node? && v.kind.Compatible? && v.items == Nil && vs == Cons(v, Nil) && AllShaped(vs)
    ensures CompatibleCosts(vs, w) == 1
  {
    hide OwnSize, Cost;
    CostAdd(OwnSize(v.kind, v.items), ZERO, w);
    CompatibleFlag(v.kind, v.items, w);
    ZeroCost(w);
    assert PayloadSize(v.items, false) == ZERO;
    assert OneSize(v, false) == Add(OwnSize(v.kind, v.items), ZERO);
    assert CompatibleCosts(vs.tail, w) == 0;
  }
}
