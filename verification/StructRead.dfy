/**
  Reading a serialized value back: the header, the main pass that fills everything but
  compatible members, and one later pass for each version. The reader is led by the
  type of the value it expects.
*/
module StructRead {
  import opened Octets
  import opened StructSize
  import I = Integers
  import V = Varint
  import F = FastVarint

  datatype Type =
    | RawType(size: nat)
    | NumberType(wide: bool, signed: bool, zigzag: bool)
    | BulkType(width: nat)
    | GroupType(members: Types)
    | ContainerType(element: Type)
    | OptionalType(element: Type)
    | PolymorphicType(ids: seq<nat>, derived: Types)
    | VariantType(cases: Types)
    | ExpectedType(value: Types, error: Type)          // no value type for void
    | CompatibleType(version: nat, element: Type)
    | PaddedType(members: Types, pads: seq<nat>)
    | StructType(fast: bool, members: Types)

  datatype Types = NoTypes | MoreTypes(head: Type, tail: Types)

  datatype Got = Got(value: Value, rest: seq<Byte>) | Failed
  datatype GotAll = GotAll(values: List, rest: seq<Byte>) | FailedAll

  // ----- typed values -----

  predicate HasType(v: Value, t: Type)
    decreases t, 0, v
  {
    match t
    case RawType(n) => v.Raw? && |v.bytes| == n
    case NumberType(wide, signed, zigzag) =>
      && v.Number? && v.zigzag == zigzag && v.field.wide == wide && v.field.signed == signed
      && F.InRange(v.field) && (zigzag ==> signed)
    case BulkType(width) => v.Bulk? && v.width == width && |v.data| == v.count * width
    case GroupType(ms) => v.Node? && v.kind.Group? && HaveTypes(v.items, ms)
    case ContainerType(e) => v.Node? && v.kind.Container? && AllHaveType(v.items, e)
    case OptionalType(e) => v.Node? && v.kind.Optional? && (v.items.Nil? || IsOne(v.items, e))
    case PolymorphicType(ids, derived) =>
      && v.Node? && v.kind.Polymorphic?
      && if v.items.Nil? then v.kind.id == 0
         else v.kind.id < 0x1_0000_0000 && v.kind.id in ids && IsCase(v.items, derived, IndexOf(ids, v.kind.id))
    case VariantType(cases) => v.Node? && v.kind.Variant? && IsCase(v.items, cases, v.kind.index)
    case ExpectedType(value, error) =>
      v.Node? && v.kind.Expected? && if v.kind.ok then HaveTypes(v.items, value) else IsOne(v.items, error)
    case CompatibleType(n, e) => v.Node? && v.kind == Compatible(n) && (v.items.Nil? || IsOne(v.items, e))
    case PaddedType(ms, pads) =>
      v.Node? && v.kind == Padded(pads) && HaveTypes(v.items, ms) && |pads| == Length(v.items)
    case StructType(fast, ms) => v.Node? && v.kind == Struct(fast) && HaveTypes(v.items, ms)
  }

  predicate HaveTypes(vs: List, ts: Types)
    decreases ts, 0, vs
  {
    match ts
    case NoTypes => vs.Nil?
    case MoreTypes(t, rest) => vs.Cons? && HasType(vs.head, t) && HaveTypes(vs.tail, rest)
  }

  predicate AllHaveType(vs: List, t: Type)
    decreases t, 1, vs
  {
    vs.Cons? ==> HasType(vs.head, t) && AllHaveType(vs.tail, t)
  }

  predicate IsOne(vs: List, t: Type)
    decreases t, 1, vs
  {
    vs.Cons? && vs.tail.Nil? && HasType(vs.head, t)
  }

  predicate IsCase(vs: List, cases: Types, i: nat)
    decreases cases, 1, vs
  {
    match cases
    case NoTypes => false
    case MoreTypes(t, rest) => if i == 0 then IsOne(vs, t) else IsCase(vs, rest, i - 1)
  }

  function IndexOf(ids: seq<nat>, id: nat): nat
  {
    if ids == [] || ids[0] == id then 0 else 1 + IndexOf(ids[1..], id)
  }

  // ----- the reader -----

  /** A number of the wire as an integer of the width, as a conversion makes it. */
  function Narrow(x: int, wide: bool, signed: bool): int
  {
    if wide then
      var u := x % 0x1_0000_0000_0000_0000;
      if signed && u >= 0x8000_0000_0000_0000 then u - 0x1_0000_0000_0000_0000 else u
    else
      var u := x % 0x1_0000_0000;
      if signed && u >= 0x8000_0000 then u - 0x1_0000_0000 else u
  }

  function FromWire(u: nat, wide: bool, signed: bool, zigzag: bool): int
  {
    Narrow(if zigzag then V.Unzigzag(u) else u, wide, signed)
  }

  function ReadNumber(wide: bool, signed: bool, zigzag: bool, bytes: seq<Byte>): Got
  {
    match V.DecodeFrom(bytes, 0, 0)
    case Value(u, n) =>
      if n <= |bytes| then Got(Number(F.Field(wide, signed, FromWire(u, wide, signed, zigzag)), zigzag), bytes[n..])
      else Failed
    case _ => Failed
  }

  function Wrap(kind: Kind, r: GotAll): Got { if r.GotAll? then Got(Node(kind, r.values), r.rest) else Failed }

  function Single(r: Got): GotAll { if r.Got? then GotAll(Cons(r.value, Nil), r.rest) else FailedAll }

  function Push(v: Value, r: GotAll): GotAll { if r.GotAll? then r.(values := Cons(v, r.values)) else FailedAll }

  /** The targets of a fast struct's integers, still zero. */
  function Targets(ts: Types): seq<F.Field>
  {
    match ts
    case NoTypes => []
    case MoreTypes(t, rest) => (if t.NumberType? then [F.Field(t.wide, t.signed, 0)] else []) + Targets(rest)
  }

  function ReadOne(t: Type, w: nat, bytes: seq<Byte>): Got
    decreases t, 0, 0
  {
    match t
    case RawType(n) => if |bytes| < n then Failed else Got(Raw(bytes[..n]), bytes[n..])
    case NumberType(wide, signed, zigzag) => ReadNumber(wide, signed, zigzag, bytes)
    case BulkType(width) =>
      if |bytes| < w then Failed
      else
        var n := F.FromBytes(bytes[..w]);
        if |bytes| - w < n * width then Failed
        else Got(Bulk(n, width, bytes[w..w + n * width]), bytes[w + n * width..])
    case GroupType(ms) => Wrap(Group, ReadMembers(ms, w, false, [], bytes))
    case ContainerType(e) =>
      if |bytes| < w then Failed else Wrap(Container, ReadTimes(e, F.FromBytes(bytes[..w]), w, bytes[w..]))
    case OptionalType(e) =>
      if |bytes| < 1 then Failed
      else if bytes[0] == 0 then Got(Node(Optional, Nil), bytes[1..])
      else Wrap(Optional, Single(ReadOne(e, w, bytes[1..])))
    case PolymorphicType(ids, derived) =>
      if |bytes| < 1 then Failed
      else if bytes[0] == 0 then Got(Node(Polymorphic(0), Nil), bytes[1..])
      else if |bytes| < 5 then Failed
      else
        var id := F.FromBytes(bytes[1..5]);
        Wrap(Polymorphic(id), ReadCase(derived, IndexOf(ids, id), w, bytes[5..]))
    case VariantType(cases) =>
      if |bytes| < 1 then Failed else Wrap(Variant(bytes[0]), ReadCase(cases, bytes[0], w, bytes[1..]))
    case ExpectedType(value, error) =>
      if |bytes| < 1 then Failed
      else if bytes[0] == 0 then Wrap(Expected(false), Single(ReadOne(error, w, bytes[1..])))
      else Wrap(Expected(true), ReadMembers(value, w, false, [], bytes[1..]))
    case CompatibleType(n, _) => Got(Node(Compatible(n), Nil), bytes)
    case PaddedType(ms, pads) => Wrap(Padded(pads), ReadPadded(ms, pads, w, bytes))
    case StructType(fast, ms) =>
      if fast && Targets(ms) != [] then
        match F.ReadBlock(Targets(ms), bytes)
        case Read(ints, rest) => Wrap(Struct(fast), ReadMembers(ms, w, fast, ints, rest))
        case _ => Failed
      else Wrap(Struct(fast), ReadMembers(ms, w, fast, [], bytes))
  }

  /** `ints` are the values of a fast struct's integers that are still to be placed. */
  function ReadMembers(ts: Types, w: nat, fast: bool, ints: seq<int>, bytes: seq<Byte>): GotAll
    decreases ts, 0, 0
  {
    match ts
    case NoTypes => GotAll(Nil, bytes)
    case MoreTypes(t, rest) =>
      if fast && t.NumberType? then
        if ints == [] then FailedAll
        else Push(Number(F.Field(t.wide, t.signed, ints[0]), t.zigzag), ReadMembers(rest, w, fast, ints[1..], bytes))
      else
        match ReadOne(t, w, bytes)
        case Failed => FailedAll
        case Got(v, after) => Push(v, ReadMembers(rest, w, fast, ints, after))
  }

  function ReadTimes(t: Type, n: nat, w: nat, bytes: seq<Byte>): GotAll
    decreases t, 1, n
  {
    if n == 0 then GotAll(Nil, bytes)
    else
      match ReadOne(t, w, bytes)
      case Failed => FailedAll
      case Got(v, after) => Push(v, ReadTimes(t, n - 1, w, after))
  }

  function ReadCase(cases: Types, i: nat, w: nat, bytes: seq<Byte>): GotAll
    decreases cases, 1, 0
  {
    match cases
    case NoTypes => FailedAll
    case MoreTypes(t, rest) => if i == 0 then Single(ReadOne(t, w, bytes)) else ReadCase(rest, i - 1, w, bytes)
  }

  function ReadPadded(ts: Types, pads: seq<nat>, w: nat, bytes: seq<Byte>): GotAll
    decreases ts, 0, 0
  {
    match ts
    case NoTypes => GotAll(Nil, bytes)
    case MoreTypes(t, rest) =>
      if pads == [] then FailedAll
      else
        match ReadOne(t, w, bytes)
        case Failed => FailedAll
        case Got(v, after) =>
          if |after| < pads[0] then FailedAll else Push(v, ReadPadded(rest, pads[1..], w, after[pads[0]..]))
  }

  // ----- what the main pass gives back -----

  /** A value without its compatible members. */
  function Bare(v: Value): Value
  {
    if !v.Node? then v
    else if v.kind.Compatible? then Node(v.kind, Nil)
    else Node(v.kind, BareAll(v.items))
  }

  function BareAll(vs: List): List
  {
    if vs.Nil? then Nil else Cons(Bare(vs.head), BareAll(vs.tail))
  }

  /** Every container size, at any depth, fits w bytes. */
  predicate SizesFit(v: Value, w: nat)
  {
    match v
    case Bulk(count, _, _) => F.Fits(count, false, w)
    case Node(kind, items) => (kind.Container? ==> F.Fits(Length(items), false, w)) && AllSizesFit(items, w)
    case _ => true
  }

  predicate AllSizesFit(vs: List, w: nat)
  {
    vs.Cons? ==> SizesFit(vs.head, w) && AllSizesFit(vs.tail, w)
  }

  lemma {:induction false} TypedIsShaped(v: Value, t: Type)
    requires HasType(v, t)
    ensures Shaped(v)
    decreases t, 0, v
  {
    if v.Node? {
      match t
      case GroupType(ms) => TypedAreShaped(v.items, ms);
      case ContainerType(e) => AllTypedAreShaped(v.items, e);
      case OptionalType(e) => if v.items.Cons? { OneIsShaped(v.items, e); }
      case PolymorphicType(ids, derived) =>
        if v.items.Cons? { CaseIsShaped(v.items, derived, IndexOf(ids, v.kind.id)); }
      case VariantType(cases) => CaseIsShaped(v.items, cases, v.kind.index);
      case ExpectedType(value, error) =>
        if v.kind.ok { TypedAreShaped(v.items, value); } else { OneIsShaped(v.items, error); }
      case CompatibleType(_, e) => if v.items.Cons? { OneIsShaped(v.items, e); }
      case PaddedType(ms, _) => TypedAreShaped(v.items, ms);
      case StructType(_, ms) => TypedAreShaped(v.items, ms);
    }
  }

  lemma {:induction false} OneIsShaped(vs: List, t: Type)
    requires IsOne(vs, t)
    ensures AllShaped(vs)
    decreases t, 1, vs
  {
    TypedIsShaped(vs.head, t);
  }

  lemma {:induction false} TypedAreShaped(vs: List, ts: Types)
    requires HaveTypes(vs, ts)
    ensures AllShaped(vs)
    decreases ts, 0, vs
  {
    if ts.MoreTypes? {
      TypedIsShaped(vs.head, ts.head);
      TypedAreShaped(vs.tail, ts.tail);
    }
  }

  lemma {:induction false} AllTypedAreShaped(vs: List, t: Type)
    requires AllHaveType(vs, t)
    ensures AllShaped(vs)
    decreases t, 1, vs
  {
    if vs.Cons? {
      TypedIsShaped(vs.head, t);
      AllTypedAreShaped(vs.tail, t);
    }
  }

  lemma {:induction false} CaseIsShaped(vs: List, cases: Types, i: nat)
    requires IsCase(vs, cases, i)
    ensures AllShaped(vs) && vs.Cons? && vs.tail.Nil?
    decreases cases, 1, vs
  {
    if i == 0 { OneIsShaped(vs, cases.head); } else { CaseIsShaped(vs, cases.tail, i - 1); }
  }

  // ----- the main pass is read back -----

  lemma LengthReadBack(n: nat, w: nat, tail: seq<Byte>)
    requires w > 0 && F.Fits(n, false, w)
    ensures
      var bytes := LowBytes(n, w) + tail;
      |bytes| >= w && F.FromBytes(bytes[..w]) == n && bytes[w..] == tail
  {
    hide LowBytes, F.FromBytes, F.Fits;
    F.LosslessIff(n, false, w);
    var bytes := LowBytes(n, w) + tail;
    assert bytes[..w] == LowBytes(n, w);
  }

  lemma NumberReadBack(v: Value, t: Type, rest: seq<Byte>)
    requires t.NumberType? && HasType(v, t)
    ensures ReadNumber(t.wide, t.signed, t.zigzag, V.Encode(Wire(v.field, v.zigzag)) + rest) == Got(v, rest)
  {
    hide V.Encode, V.DecodeFrom;
    var u := Wire(v.field, v.zigzag);
    WireReadBack(v.field, v.zigzag);
    V.RoundTrip(u, rest);
    var bytes := V.Encode(u) + rest;
    assert bytes[|V.Encode(u)|..] == rest;
  }

  lemma WireReadBack(f: F.Field, zigzag: bool)
    requires F.InRange(f) && (zigzag ==> f.signed)
    ensures Wire(f, zigzag) < 0x1_0000_0000_0000_0000
    ensures FromWire(Wire(f, zigzag), f.wide, f.signed, zigzag) == f.v
  {
    hide Narrow, Wire, FromWire, F.InRange;
    if zigzag { ZigzagWire(f); } else { PlainWire(f); }
  }

  lemma InRangeMeans(f: F.Field)
    requires F.InRange(f)
    ensures Narrow(f.v, f.wide, f.signed) == f.v
    ensures f.signed ==> -0x8000_0000_0000_0000 <= f.v < 0x8000_0000_0000_0000
  {
    F.Powers();
    hide Pow256;
  }

  lemma ZigzagWire(f: F.Field)
    requires F.InRange(f) && f.signed
    ensures Wire(f, true) < 0x1_0000_0000_0000_0000 && FromWire(Wire(f, true), f.wide, f.signed, true) == f.v
  {
    hide Narrow, V.Zigzag, V.Unzigzag, F.InRange;
    InRangeMeans(f);
    V.ZigzagInverse(f.v, 0);
  }

  lemma PlainWire(f: F.Field)
    requires F.InRange(f)
    ensures Wire(f, false) < 0x1_0000_0000_0000_0000 && FromWire(Wire(f, false), f.wide, f.signed, false) == f.v
  {
    hide Narrow, F.InRange;
    InRangeMeans(f);
    NarrowTwice(f.v, f.wide, f.signed);
  }

  /** A number cut to 64 bits is cut further as if it had not been. */
  lemma NarrowTwice(x: int, wide: bool, signed: bool)
    ensures Narrow(x % 0x1_0000_0000_0000_0000, wide, signed) == Narrow(x, wide, signed)
  {
    CutTwice(x);
  }

  lemma CutTwice(x: int)
    ensures
      var u := x % 0x1_0000_0000_0000_0000;
      u % 0x1_0000_0000 == x % 0x1_0000_0000 && u % 0x1_0000_0000_0000_0000 == u
  {
    var q, u := x / 0x1_0000_0000_0000_0000, x % 0x1_0000_0000_0000_0000;
    var a, b := u / 0x1_0000_0000, u % 0x1_0000_0000;
    assert x == (0x1_0000_0000 * q + a) * 0x1_0000_0000 + b;
    I.Remainder(x, 0x1_0000_0000, 0x1_0000_0000 * q + a, b);
  }

  function Ints(vs: List): seq<int>
  {
    if vs.Nil? then [] else (if vs.head.Number? then [vs.head.field.v] else []) + Ints(vs.tail)
  }

  lemma {:induction false} FieldsAndTargets(vs: List, ts: Types)
    requires HaveTypes(vs, ts) && AllShaped(vs)
    ensures F.SameShape(Fields(vs), Targets(ts)) && F.AllInRange(Fields(vs))
    ensures F.Merged(Fields(vs), Targets(ts)) == Ints(vs)
    decreases ts
  {
    hide HasType, F.InRange, F.SameShape, F.Merged, F.AllInRange;
    FieldsInRange(vs);
    if ts.MoreTypes? {
      FieldsAndTargets(vs.tail, ts.tail);
      NumberTyped(vs.head, ts.head);
      if vs.head.Number? {
        OneMore(vs.head.field, Fields(vs.tail), Targets(ts.tail));
      } else {
        assert Fields(vs) == Fields(vs.tail) && Targets(ts) == Targets(ts.tail) && Ints(vs) == Ints(vs.tail);
      }
    } else {
      NoFieldsAtAll();
    }
  }

  lemma NoFieldsAtAll()
    ensures F.SameShape([], []) && F.Merged([], []) == []
  {
  }

  lemma OneMore(f: F.Field, fs: seq<F.Field>, gs: seq<F.Field>)
    requires F.SameShape(fs, gs)
    ensures
      var g := F.Field(f.wide, f.signed, 0);
      F.SameShape([f] + fs, [g] + gs) && F.Merged([f] + fs, [g] + gs) == [f.v] + F.Merged(fs, gs)
  {
  }

  lemma {:induction false} OneReadBack(v: Value, t: Type, w: nat, rest: seq<Byte>)
    requires HasType(v, t) && w > 0 && SizesFit(v, w)
    ensures Shaped(v) && ReadOne(t, w, WriteOne(v, w, false) + rest) == Got(Bare(v), rest)
    decreases t, 0, v
  {
    TypedIsShaped(v, t);
    match t
    case RawType(n) => assert (v.bytes + rest)[..n] == v.bytes && (v.bytes + rest)[n..] == rest;
    case NumberType(_, _, _) => NumberReadBack(v, t, rest);
    case BulkType(width) => BulkReadBack(v, width, w, rest);
    case CompatibleType(_, _) => assert [] + rest == rest;
    case PaddedType(ms, pads) => PaddedReadBack(v.items, ms, pads, w, rest);
    case StructType(fast, ms) => StructReadBack(v, fast, ms, w, rest);
    case _ => NodeReadBack(v, t, w, rest);
  }

  lemma BulkReadBack(v: Value, width: nat, w: nat, rest: seq<Byte>)
    requires HasType(v, BulkType(width)) && w > 0 && SizesFit(v, w)
    ensures Shaped(v) && ReadOne(BulkType(width), w, WriteOne(v, w, false) + rest) == Got(v, rest)
  {
    hide LowBytes, F.FromBytes, F.Fits;
    var tail := v.data + rest;
    var bytes := WriteOne(v, w, false) + rest;
    assert bytes == LowBytes(v.count, w) + tail;
    LengthReadBack(v.count, w, tail);
    assert tail[..|v.data|] == v.data && tail[|v.data|..] == rest;
    assert bytes[w..w + |v.data|] == bytes[w..][..|v.data|] && bytes[w + |v.data|..] == bytes[w..][|v.data|..];
  }

  lemma {:induction false} StructReadBack(v: Value, fast: bool, ms: Types, w: nat, rest: seq<Byte>)
    requires HasType(v, StructType(fast, ms)) && w > 0 && SizesFit(v, w)
    ensures Shaped(v) && ReadOne(StructType(fast, ms), w, WriteOne(v, w, false) + rest) == Got(Bare(v), rest)
    decreases ms, 2
  {
    hide F.Block, F.ReadBlock, Fields, Targets, Ints, ReadMembers, WriteMany, HaveTypes, BareAll, AllSizesFit, ReadOne,
         WriteOne;
    StructTyped(v, fast, ms, w);
    MembersReadBack(v.items, ms, w, fast, rest);
    FieldsAndTargets(v.items, ms);
    var fs, body := Fields(v.items), WriteMany(v.items, w, fast) + rest;
    var bytes := WriteOne(v, w, false) + rest;
    StructUnfolds(fast, ms, w, bytes);
    if fast && Targets(ms) != [] {
      assert bytes == F.Block(fs) + body;
      F.BlockReadBack(fs, Targets(ms), body);
    } else {
      if fast {
        assert F.Block(fs) == [] by { EmptyBlock(fs); }
        assert |F.Merged(fs, Targets(ms))| == 0;
      } else {
        IntsUnused(ms, w, Ints(v.items), body);
      }
      assert bytes == body;
    }
  }

  lemma StructTyped(v: Value, fast: bool, ms: Types, w: nat)
    requires HasType(v, StructType(fast, ms)) && SizesFit(v, w)
    ensures Shaped(v) && v.kind == Struct(fast) && HaveTypes(v.items, ms) && AllShaped(v.items)
      && AllSizesFit(v.items, w)
    ensures F.AllInRange(Fields(v.items))
    ensures WriteOne(v, w, false) == (if fast then F.Block(Fields(v.items)) else []) + WriteMany(v.items, w, fast)
    ensures Bare(v) == Node(v.kind, BareAll(v.items))
  {
    hide F.Block;
    TypedIsShaped(v, StructType(fast, ms));
    FieldsInRange(v.items);
  }

  lemma StructUnfolds(fast: bool, ms: Types, w: nat, bytes: seq<Byte>)
    ensures fast && Targets(ms) != [] && F.ReadBlock(Targets(ms), bytes).Read? ==>
      var block := F.ReadBlock(Targets(ms), bytes);
      ReadOne(StructType(fast, ms), w, bytes) == Wrap(Struct(fast), ReadMembers(ms, w, fast, block.values, block.rest))
    ensures !fast || Targets(ms) == [] ==>
      ReadOne(StructType(fast, ms), w, bytes) == Wrap(Struct(fast), ReadMembers(ms, w, fast, [], bytes))
  {
    hide F.ReadBlock, ReadMembers;
  }

  lemma EmptyBlock(fs: seq<F.Field>)
    requires F.AllInRange(fs) && fs == []
    ensures F.Block(fs) == []
  {
  }

  lemma {:induction false} IntsUnused(ts: Types, w: nat, ints: seq<int>, bytes: seq<Byte>)
    ensures ReadMembers(ts, w, false, ints, bytes) == ReadMembers(ts, w, false, [], bytes)
    decreases ts
  {
    hide ReadOne;
    if ts.MoreTypes? {
      match ReadOne(ts.head, w, bytes)
      case Failed =>
      case Got(_, after) => IntsUnused(ts.tail, w, ints, after);
    }
  }

  lemma {:induction false} MembersReadBack(vs: List, ts: Types, w: nat, fast: bool, rest: seq<Byte>)
    requires HaveTypes(vs, ts) && w > 0 && AllSizesFit(vs, w)
    ensures AllShaped(vs)
    ensures ReadMembers(ts, w, fast, Ints(vs), WriteMany(vs, w, fast) + rest) == GotAll(BareAll(vs), rest)
    decreases ts, 0
  {
    hide ReadOne, WriteOne, HasType;
    TypedAreShaped(vs, ts);
    if ts.MoreTypes? {
      var t, v := ts.head, vs.head;
      var tail := WriteMany(vs.tail, w, fast) + rest;
      MembersReadBack(vs.tail, ts.tail, w, fast, rest);
      assert WriteMany(vs, w, fast) + rest == WriteOne(v, w, fast) + tail;
      NumberTyped(v, t);
      if fast && t.NumberType? {
        assert WriteOne(v, w, fast) == [] by { FastNumber(v, w); }
        assert [] + tail == tail;
      } else {
        OneReadBack(v, t, w, tail);
        assert WriteOne(v, w, fast) == WriteOne(v, w, false) by { SlowMember(v, t, w); }
        assert ReadOne(t, w, WriteMany(vs, w, fast) + rest) == Got(Bare(v), tail);
        if v.Number? {
          IntsUnused(ts.tail, w, Ints(vs), tail);
          IntsUnused(ts.tail, w, Ints(vs.tail), tail);
        } else {
          assert Ints(vs) == Ints(vs.tail);
        }
      }
    } else {
      assert [] + rest == rest;
    }
  }

  lemma NumberTyped(v: Value, t: Type)
    requires HasType(v, t)
    ensures v.Number? <==> t.NumberType?
    ensures v.Number? ==> v == Number(F.Field(t.wide, t.signed, v.field.v), t.zigzag) && Bare(v) == v
  {
  }

  lemma FastNumber(v: Value, w: nat)
    requires Shaped(v) && v.Number?
    ensures WriteOne(v, w, true) == []
  {
  }

  lemma SlowMember(v: Value, t: Type, w: nat)
    requires Shaped(v)
    ensures !v.Number? ==> WriteOne(v, w, true) == WriteOne(v, w, false)
  {
  }

  lemma Regroup(a: seq<Byte>, b: seq<Byte>, c: seq<Byte>)
    ensures a + b + c == a + (b + c) && [] + c == c
  {
  }

  lemma {:induction false} TimesReadBack(vs: List, t: Type, w: nat, rest: seq<Byte>)
    requires AllHaveType(vs, t) && w > 0 && AllSizesFit(vs, w)
    ensures AllShaped(vs)
    ensures ReadTimes(t, Length(vs), w, WriteMany(vs, w, false) + rest) == GotAll(BareAll(vs), rest)
    decreases t, 1, vs
  {
    hide ReadOne, WriteOne, HasType, SizesFit, Shaped, Bare;
    AllTypedAreShaped(vs, t);
    Regroup([], [], rest);
    if vs.Cons? {
      var tail := WriteMany(vs.tail, w, false) + rest;
      TimesReadBack(vs.tail, t, w, rest);
      OneReadBack(vs.head, t, w, tail);
      Regroup(WriteOne(vs.head, w, false), WriteMany(vs.tail, w, false), rest);
    }
  }

  lemma {:induction false} SingleReadBack(vs: List, t: Type, w: nat, rest: seq<Byte>)
    requires IsOne(vs, t) && w > 0 && AllSizesFit(vs, w)
    ensures AllShaped(vs)
    ensures Single(ReadOne(t, w, WriteMany(vs, w, false) + rest)) == GotAll(BareAll(vs), rest)
    decreases t, 1, vs
  {
    hide ReadOne, WriteOne, HasType;
    OneIsShaped(vs, t);
    OneReadBack(vs.head, t, w, rest);
    assert WriteMany(vs.tail, w, false) == [];
    assert WriteMany(vs, w, false) + rest == WriteOne(vs.head, w, false) + rest;
    assert BareAll(vs) == Cons(Bare(vs.head), BareAll(vs.tail)) && BareAll(vs.tail) == Nil;
  }

  lemma {:induction false} CaseReadBack(vs: List, cases: Types, i: nat, w: nat, rest: seq<Byte>)
    requires IsCase(vs, cases, i) && w > 0 && AllSizesFit(vs, w)
    ensures AllShaped(vs)
    ensures ReadCase(cases, i, w, WriteMany(vs, w, false) + rest) == GotAll(BareAll(vs), rest)
    decreases cases, 1, vs
  {
    hide ReadOne, WriteMany, HasType;
    CaseIsShaped(vs, cases, i);
    if i == 0 { SingleReadBack(vs, cases.head, w, rest); } else { CaseReadBack(vs, cases.tail, i - 1, w, rest); }
  }

  lemma {:induction false} PaddedReadBack(vs: List, ts: Types, pads: seq<nat>, w: nat, rest: seq<Byte>)
    requires HaveTypes(vs, ts) && |pads| == Length(vs) && w > 0 && AllSizesFit(vs, w)
    ensures AllShaped(vs)
    ensures ReadPadded(ts, pads, w, WritePadded(vs, pads, w) + rest) == GotAll(BareAll(vs), rest)
    decreases ts, 0
  {
    hide ReadOne, WriteOne, HasType, SizesFit, Shaped, Bare, Zeros;
    TypedAreShaped(vs, ts);
    Regroup([], [], rest);
    if ts.MoreTypes? {
      var one, more := WriteOne(vs.head, w, false), WritePadded(vs.tail, pads[1..], w);
      var tail := Zeros(pads[0]) + (more + rest);
      PaddedReadBack(vs.tail, ts.tail, pads[1..], w, rest);
      OneReadBack(vs.head, ts.head, w, tail);
      Regroup(one + Zeros(pads[0]), more, rest);
      Regroup(one, Zeros(pads[0]), more + rest);
      assert tail[pads[0]..] == more + rest;
    }
  }

  lemma {:induction false} NodeReadBack(v: Value, t: Type, w: nat, rest: seq<Byte>)
    requires HasType(v, t) && w > 0 && SizesFit(v, w)
    requires t.GroupType? || t.ContainerType? || t.OptionalType? || t.PolymorphicType?
      || t.VariantType? || t.ExpectedType?
    ensures Shaped(v) && ReadOne(t, w, WriteOne(v, w, false) + rest) == Got(Bare(v), rest)
    decreases t, 0, v, 0
  {
    TypedIsShaped(v, t);
    var tail := WriteMany(v.items, w, false) + rest;
    var bytes := WriteOne(v, w, false) + rest;
    assert bytes == Head(v.kind, v.items, w) + tail;
    hide LowBytes, F.FromBytes, F.Fits, ReadMembers, ReadTimes, ReadCase, WriteMany, BareAll, HaveTypes, AllHaveType,
         IsCase, Ints;
    match t
    case GroupType(ms) =>
      assert bytes == tail;
      MembersReadBack(v.items, ms, w, false, rest);
      IntsUnused(ms, w, Ints(v.items), tail);
    case ContainerType(e) =>
      LengthReadBack(Length(v.items), w, tail);
      TimesReadBack(v.items, e, w, rest);
    case OptionalType(e) =>
      assert bytes[1..] == tail;
      if v.items.Cons? { SingleReadBack(v.items, e, w, rest); } else { NothingWritten(w); assert tail == rest; }
    case PolymorphicType(ids, derived) => PointerReadBack(v, ids, derived, w, rest);
    case VariantType(cases) =>
      assert bytes[1..] == tail;
      CaseReadBack(v.items, cases, v.kind.index, w, rest);
    case ExpectedType(value, error) =>
      assert bytes[1..] == tail;
      if v.kind.ok {
        MembersReadBack(v.items, value, w, false, rest);
        IntsUnused(value, w, Ints(v.items), tail);
      } else {
        SingleReadBack(v.items, error, w, rest);
      }
  }

  lemma {:induction false} PointerReadBack(v: Value, ids: seq<nat>, derived: Types, w: nat, rest: seq<Byte>)
    requires HasType(v, PolymorphicType(ids, derived)) && w > 0 && SizesFit(v, w)
    ensures Shaped(v)
    ensures ReadOne(PolymorphicType(ids, derived), w, WriteOne(v, w, false) + rest) == Got(Bare(v), rest)
    decreases derived, 2
  {
    TypedIsShaped(v, PolymorphicType(ids, derived));
    hide LowBytes, F.FromBytes, F.Fits;
    var tail := WriteMany(v.items, w, false) + rest;
    var bytes := WriteOne(v, w, false) + rest;
    if v.items.Cons? {
      var id := v.kind.id;
      assert bytes == [1] + (LowBytes(id, 4) + tail);
      assert F.Fits(id, false, 4) by { FourBytes(id); }
      LengthReadBack(id, 4, tail);
      assert bytes[1..5] == bytes[1..][..4] && bytes[5..] == bytes[1..][4..];
      CaseReadBack(v.items, derived, IndexOf(ids, id), w, rest);
    } else {
      assert tail == rest && bytes == [0] + rest;
    }
  }

  lemma FourBytes(id: nat)
    requires id < 0x1_0000_0000
    ensures F.Fits(id, false, 4)
  {
    F.Powers();
  }

  // ----- the later passes -----

  /** What has been read after the passes `done`: compatible members of other versions are
      still empty, and so are those behind a base-class pointer or inside another one. */
  function Keep(v: Value, done: seq<nat>): Value
  {
    if !v.Node? then v
    else match v.kind
      case Compatible(n) => if n in done then Node(v.kind, BareAll(v.items)) else Node(v.kind, Nil)
      case Polymorphic(_) => Node(v.kind, BareAll(v.items))
      case _ => Node(v.kind, KeepAll(v.items, done))
  }

  function KeepAll(vs: List, done: seq<nat>): List
  {
    if vs.Nil? then Nil else Cons(Keep(vs.head, done), KeepAll(vs.tail, done))
  }

  /**
    One pass over a value: fills its compatible members of one version. The data ends where
    `limit` bytes are left; from there on members stay empty. Leaving at the first one of
    them, as the program does, gives the same, since all later ones would be skipped too.
  */
  function ReadVersion(t: Type, v: Value, w: nat, version: nat, limit: int, bytes: seq<Byte>): Got
    decreases t, 0, v
  {
    if !v.Node? then Got(v, bytes)
    else
      match t
      case CompatibleType(n, e) =>
        if n != version then Got(v, bytes)
        else if |bytes| <= limit then Got(v, bytes)
        else if |bytes| < 1 then Failed
        else if bytes[0] == 0 then Got(v, bytes[1..])
        else Wrap(v.kind, Single(ReadOne(e, w, bytes[1..])))
      case GroupType(ms) => Wrap(v.kind, ReadVersions(ms, v.items, w, version, limit, bytes))
      case ContainerType(e) => Wrap(v.kind, ReadVersionEach(e, v.items, w, version, limit, bytes))
      case OptionalType(e) => Wrap(v.kind, ReadVersionEach(e, v.items, w, version, limit, bytes))
      case VariantType(cases) =>
        if v.kind.Variant? then Wrap(v.kind, ReadVersionCase(cases, v.kind.index, v.items, w, version, limit, bytes))
        else Failed
      case ExpectedType(value, error) =>
        if !v.kind.Expected? then Failed
        else if v.kind.ok then Wrap(v.kind, ReadVersions(value, v.items, w, version, limit, bytes))
        else Wrap(v.kind, ReadVersionEach(error, v.items, w, version, limit, bytes))
      case PaddedType(ms, _) => Wrap(v.kind, ReadVersions(ms, v.items, w, version, limit, bytes))
      case StructType(_, ms) => Wrap(v.kind, ReadVersions(ms, v.items, w, version, limit, bytes))
      case _ => Got(v, bytes)
  }

  function ReadVersions(ts: Types, vs: List, w: nat, version: nat, limit: int, bytes: seq<Byte>): GotAll
    decreases ts, 0, vs
  {
    if ts.NoTypes? || vs.Nil? then GotAll(vs, bytes)
    else
      match ReadVersion(ts.head, vs.head, w, version, limit, bytes)
      case Failed => FailedAll
      case Got(v, after) => Push(v, ReadVersions(ts.tail, vs.tail, w, version, limit, after))
  }

  function ReadVersionEach(t: Type, vs: List, w: nat, version: nat, limit: int, bytes: seq<Byte>): GotAll
    decreases t, 1, vs
  {
    if vs.Nil? then GotAll(vs, bytes)
    else
      match ReadVersion(t, vs.head, w, version, limit, bytes)
      case Failed => FailedAll
      case Got(v, after) => Push(v, ReadVersionEach(t, vs.tail, w, version, limit, after))
  }

  function ReadVersionCase(cases: Types, i: nat, vs: List, w: nat, version: nat, limit: int, bytes: seq<Byte>): GotAll
    decreases cases, 1, vs
  {
    match cases
    case NoTypes => FailedAll
    case MoreTypes(t, rest) =>
      if i == 0 then ReadVersionEach(t, vs, w, version, limit, bytes)
      else ReadVersionCase(rest, i - 1, vs, w, version, limit, bytes)
  }

  function ReadPasses(ts: Types, vs: List, w: nat, versions: seq<nat>, limit: int, bytes: seq<Byte>): GotAll
    decreases |versions|
  {
    if versions == [] then GotAll(vs, bytes)
    else
      match ReadVersions(ts, vs, w, versions[0], limit, bytes)
      case FailedAll => FailedAll
      case GotAll(us, after) => ReadPasses(ts, us, w, versions[1..], limit, after)
  }

  lemma {:induction false} VersionReadBack(v: Value, t: Type, done: seq<nat>, w: nat, version: nat, limit: int,
                                           rest: seq<Byte>)
    requires HasType(v, t) && w > 0 && SizesFit(v, w) && version !in done && limit <= |rest|
    ensures Shaped(v)
    ensures ReadVersion(t, Keep(v, done), w, version, limit, WriteVersion(v, w, version) + rest)
            == Got(Keep(v, done + [version]), rest)
    decreases t, 0, v
  {
    TypedIsShaped(v, t);
    if !v.Node? || t.PolymorphicType? {
      assert [] + rest == rest;
    } else if t.CompatibleType? {
      MemberReadBack(v, t.version, t.element, done, w, version, limit, rest);
    } else {
      hide SizesFit;
      assert AllSizesFit(v.items, w) by { ItemsFit(v, w); }
      match t
      case GroupType(ms) => VersionsReadBack(v.items, ms, done, w, version, limit, rest);
      case ContainerType(e) => VersionEachReadBack(v.items, e, done, w, version, limit, rest);
      case OptionalType(e) =>
        OneIsAll(v.items, e);
        VersionEachReadBack(v.items, e, done, w, version, limit, rest);
      case VariantType(cases) => VersionCaseReadBack(v.items, cases, v.kind.index, done, w, version, limit, rest);
      case ExpectedType(value, error) =>
        if v.kind.ok {
          VersionsReadBack(v.items, value, done, w, version, limit, rest);
        } else {
          OneIsAll(v.items, error);
          VersionEachReadBack(v.items, error, done, w, version, limit, rest);
        }
      case PaddedType(ms, _) => VersionsReadBack(v.items, ms, done, w, version, limit, rest);
      case StructType(_, ms) => VersionsReadBack(v.items, ms, done, w, version, limit, rest);
    }
  }

  lemma ItemsFit(v: Value, w: nat)
    requires v.Node? && SizesFit(v, w)
    ensures AllSizesFit(v.items, w)
  {
  }

  lemma OneIsAll(vs: List, t: Type)
    ensures IsOne(vs, t) || vs.Nil? ==> AllHaveType(vs, t)
  {
    if IsOne(vs, t) { assert AllHaveType(vs.tail, t); }
  }

  lemma MemberReadBack(v: Value, n: nat, e: Type, done: seq<nat>, w: nat, version: nat, limit: int,
                       rest: seq<Byte>)
    requires HasType(v, CompatibleType(n, e)) && Shaped(v) && w > 0 && SizesFit(v, w)
    requires version !in done && limit <= |rest|
    ensures ReadVersion(CompatibleType(n, e), Keep(v, done), w, version, limit, WriteVersion(v, w, version) + rest)
            == Got(Keep(v, done + [version]), rest)
  {
    hide ReadOne, WriteMany, HasType, IsOne;
    var bytes := WriteVersion(v, w, version) + rest;
    assert HasType(v, CompatibleType(n, e)) ==> v.kind == Compatible(n) && (v.items.Nil? || IsOne(v.items, e)) by {
      MemberTyped(v, n, e);
    }
    if n == version {
      var tail := WriteMany(v.items, w, false) + rest;
      assert bytes == Head(v.kind, v.items, w) + tail;
      assert bytes[1..] == tail;
      if v.items.Cons? {
        SingleReadBack(v.items, e, w, rest);
      } else {
        assert WriteMany(v.items, w, false) == [] by { NothingWritten(w); }
        assert tail == rest;
      }
    } else {
      assert bytes == rest;
    }
  }

  lemma MemberTyped(v: Value, n: nat, e: Type)
    requires HasType(v, CompatibleType(n, e))
    ensures v.Node? && v.kind == Compatible(n) && (v.items.Nil? || IsOne(v.items, e))
  {
  }

  lemma NothingWritten(w: nat)
    ensures WriteMany(Nil, w, false) == [] && BareAll(Nil) == Nil
  {
  }

  lemma {:induction false} VersionsReadBack(vs: List, ts: Types, done: seq<nat>, w: nat, version: nat, limit: int,
                                            rest: seq<Byte>)
    requires HaveTypes(vs, ts) && w > 0 && AllSizesFit(vs, w) && version !in done && limit <= |rest|
    ensures AllShaped(vs)
    ensures ReadVersions(ts, KeepAll(vs, done), w, version, limit, WriteVersions(vs, w, version) + rest)
            == GotAll(KeepAll(vs, done + [version]), rest)
    decreases ts, 0, vs
  {
    hide ReadVersion, WriteVersion, HasType, Keep;
    TypedAreShaped(vs, ts);
    if ts.MoreTypes? {
      var tail := WriteVersions(vs.tail, w, version) + rest;
      VersionsReadBack(vs.tail, ts.tail, done, w, version, limit, rest);
      VersionReadBack(vs.head, ts.head, done, w, version, limit, tail);
      assert WriteVersions(vs, w, version) + rest == WriteVersion(vs.head, w, version) + tail;
    } else {
      assert [] + rest == rest;
    }
  }

  lemma {:induction false} VersionEachReadBack(vs: List, t: Type, done: seq<nat>, w: nat, version: nat, limit: int,
                                               rest: seq<Byte>)
    requires AllHaveType(vs, t) && w > 0 && AllSizesFit(vs, w) && version !in done && limit <= |rest|
    ensures AllShaped(vs)
    ensures ReadVersionEach(t, KeepAll(vs, done), w, version, limit, WriteVersions(vs, w, version) + rest)
            == GotAll(KeepAll(vs, done + [version]), rest)
    decreases t, 1, vs
  {
    hide ReadVersion, WriteVersion, HasType, Keep;
    AllTypedAreShaped(vs, t);
    if vs.Cons? {
      var tail := WriteVersions(vs.tail, w, version) + rest;
      VersionEachReadBack(vs.tail, t, done, w, version, limit, rest);
      VersionReadBack(vs.head, t, done, w, version, limit, tail);
      assert WriteVersions(vs, w, version) + rest == WriteVersion(vs.head, w, version) + tail;
    } else {
      assert [] + rest == rest;
    }
  }

  lemma {:induction false} VersionCaseReadBack(vs: List, cases: Types, i: nat, done: seq<nat>, w: nat,
                                               version: nat, limit: int, rest: seq<Byte>)
    requires IsCase(vs, cases, i) && w > 0 && AllSizesFit(vs, w) && version !in done && limit <= |rest|
    ensures AllShaped(vs)
    ensures ReadVersionCase(cases, i, KeepAll(vs, done), w, version, limit, WriteVersions(vs, w, version) + rest)
            == GotAll(KeepAll(vs, done + [version]), rest)
    decreases cases, 1, vs
  {
    hide ReadVersionEach, WriteVersions, HasType, KeepAll;
    CaseIsShaped(vs, cases, i);
    if i == 0 {
      OneIsAll(vs, cases.head);
      VersionEachReadBack(vs, cases.head, done, w, version, limit, rest);
    } else {
      VersionCaseReadBack(vs, cases.tail, i - 1, done, w, version, limit, rest);
    }
  }

  lemma {:induction false} PassesReadBack(vs: List, ts: Types, done: seq<nat>, w: nat, versions: seq<nat>, limit: int,
                                          rest: seq<Byte>)
    requires HaveTypes(vs, ts) && w > 0 && AllSizesFit(vs, w) && Ascending(done + versions) && limit <= |rest|
    ensures AllShaped(vs)
    ensures ReadPasses(ts, KeepAll(vs, done), w, versions, limit, WritePasses(vs, w, versions) + rest)
            == GotAll(KeepAll(vs, done + versions), rest)
    decreases |versions|
  {
    hide ReadVersions, WriteVersions, HaveTypes, KeepAll;
    TypedAreShaped(vs, ts);
    if versions == [] {
      assert [] + rest == rest && done + versions == done;
    } else {
      var version, later := versions[0], versions[1..];
      var tail := WritePasses(vs, w, later) + rest;
      assert done + versions == (done + [version]) + later;
      assert version !in done by { NewVersion(done, versions); }
      VersionsReadBack(vs, ts, done, w, version, limit, tail);
      PassesReadBack(vs, ts, done + [version], w, later, limit, rest);
      assert WritePasses(vs, w, versions) + rest == WriteVersions(vs, w, version) + tail;
    }
  }

  lemma NewVersion(done: seq<nat>, versions: seq<nat>)
    requires versions != [] && Ascending(done + versions)
    ensures versions[0] !in done
  {
    var all := done + versions;
    assert all[|done|] == versions[0];
    assert forall i :: 0 <= i < |done| ==> all[i] == done[i];
  }

  // ----- past the end of the data -----

  /** Where the data has ended a pass changes nothing and reads nothing. */
  lemma {:induction false} NothingLeft(v: Value, t: Type, done: seq<nat>, w: nat, version: nat, limit: int,
                                       bytes: seq<Byte>)
    requires HasType(v, t) && |bytes| <= limit
    ensures ReadVersion(t, Keep(v, done), w, version, limit, bytes) == Got(Keep(v, done), bytes)
    decreases t, 0, v
  {
    if v.Node? {
      match t
      case GroupType(ms) => NothingLeftIn(v.items, ms, done, w, version, limit, bytes);
      case ContainerType(e) => NothingLeftInEach(v.items, e, done, w, version, limit, bytes);
      case OptionalType(e) =>
        OneIsAll(v.items, e);
        NothingLeftInEach(v.items, e, done, w, version, limit, bytes);
      case VariantType(cases) => NothingLeftInCase(v.items, cases, v.kind.index, done, w, version, limit, bytes);
      case ExpectedType(value, error) =>
        if v.kind.ok {
          NothingLeftIn(v.items, value, done, w, version, limit, bytes);
        } else {
          OneIsAll(v.items, error);
          NothingLeftInEach(v.items, error, done, w, version, limit, bytes);
        }
      case PaddedType(ms, _) => NothingLeftIn(v.items, ms, done, w, version, limit, bytes);
      case StructType(_, ms) => NothingLeftIn(v.items, ms, done, w, version, limit, bytes);
      case _ =>
    }
  }

  lemma {:induction false} NothingLeftIn(vs: List, ts: Types, done: seq<nat>, w: nat, version: nat, limit: int,
                                         bytes: seq<Byte>)
    requires HaveTypes(vs, ts) && |bytes| <= limit
    ensures ReadVersions(ts, KeepAll(vs, done), w, version, limit, bytes) == GotAll(KeepAll(vs, done), bytes)
    decreases ts, 0, vs
  {
    hide ReadVersion, HasType, Keep;
    if ts.MoreTypes? {
      NothingLeft(vs.head, ts.head, done, w, version, limit, bytes);
      NothingLeftIn(vs.tail, ts.tail, done, w, version, limit, bytes);
    }
  }

  lemma {:induction false} NothingLeftInEach(vs: List, t: Type, done: seq<nat>, w: nat, version: nat, limit: int,
                                             bytes: seq<Byte>)
    requires AllHaveType(vs, t) && |bytes| <= limit
    ensures ReadVersionEach(t, KeepAll(vs, done), w, version, limit, bytes) == GotAll(KeepAll(vs, done), bytes)
    decreases t, 1, vs
  {
    hide ReadVersion, HasType, Keep;
    if vs.Cons? {
      NothingLeft(vs.head, t, done, w, version, limit, bytes);
      NothingLeftInEach(vs.tail, t, done, w, version, limit, bytes);
    }
  }

  lemma {:induction false} NothingLeftInCase(vs: List, cases: Types, i: nat, done: seq<nat>, w: nat, version: nat,
                                             limit: int, bytes: seq<Byte>)
    requires IsCase(vs, cases, i) && |bytes| <= limit
    ensures ReadVersionCase(cases, i, KeepAll(vs, done), w, version, limit, bytes) == GotAll(KeepAll(vs, done), bytes)
    decreases cases, 1, vs
  {
    hide ReadVersionEach, HasType, KeepAll;
    if i == 0 {
      OneIsAll(vs, cases.head);
      NothingLeftInEach(vs, cases.head, done, w, version, limit, bytes);
    } else {
      NothingLeftInCase(vs, cases.tail, i - 1, done, w, version, limit, bytes);
    }
  }

  lemma {:induction false} NothingLeftToPass(vs: List, ts: Types, done: seq<nat>, w: nat, versions: seq<nat>,
                                             limit: int, bytes: seq<Byte>)
    requires HaveTypes(vs, ts) && |bytes| <= limit
    ensures ReadPasses(ts, KeepAll(vs, done), w, versions, limit, bytes) == GotAll(KeepAll(vs, done), bytes)
    decreases |versions|
  {
    hide ReadVersions, HaveTypes, KeepAll;
    if versions != [] {
      NothingLeftIn(vs, ts, done, w, versions[0], limit, bytes);
      NothingLeftToPass(vs, ts, done, w, versions[1..], limit, bytes);
    }
  }

  lemma {:induction false} KeepNothing(v: Value)
    ensures Keep(v, []) == Bare(v)
  {
    if v.Node? { KeepNothingAll(v.items); }
  }

  lemma {:induction false} KeepNothingAll(vs: List)
    ensures KeepAll(vs, []) == BareAll(vs)
  {
    if vs.Cons? {
      KeepNothing(vs.head);
      KeepNothingAll(vs.tail);
    }
  }

  // ----- the header -----

  datatype Opened = Opened(sizeType: nat, length: nat, rest: seq<Byte>) | Rejected

  /** Checks the type's hash and literal; finds the width of container sizes and the total length. */
  function ReadHeader(t: Traits, code: nat, literal: seq<Byte>, bytes: seq<Byte>): Opened
  {
    if t.disableHash then
      if !t.container then Opened(0, 0, bytes)
      else if |bytes| < 1 then Rejected
      else Opened(bytes[0] / 8 % 4, 0, bytes[1..])
    else if |bytes| < 4 || F.FromBytes(bytes[..4]) / 2 != code / 2 then Rejected
    else if F.FromBytes(bytes[..4]) % 2 == 0 then Opened(0, 0, bytes[4..])
    else if |bytes| < 5 then Rejected
    else ReadMetainfo(bytes[4], literal, bytes[5..])
  }

  function ReadMetainfo(metainfo: Byte, literal: seq<Byte>, bytes: seq<Byte>): Opened
  {
    var n := if metainfo % 4 == 0 then 0 else F.Bytes(metainfo % 4);
    if |bytes| < n then Rejected
    else
      var after := bytes[n..];
      if metainfo / 4 % 2 == 0 then Opened(metainfo / 8 % 4, F.FromBytes(bytes[..n]), after)
      else if |after| < |literal| + 1 || after[..|literal| + 1] != literal + [0] then Rejected
      else Opened(metainfo / 8 % 4, F.FromBytes(bytes[..n]), after[|literal| + 1..])
  }

  /** The metainfo byte says what follows it: the length's width, the literal, the width of sizes. */
  lemma MetainfoBits(t: Traits, literalSize: nat, sz: SizeInfo)
    requires Allowed(t)
    ensures
      var m := InfoOf(t, literalSize, sz).metainfo;
      && m < 0x100 && (m % 4 > 0 <==> t.compatible) && (m / 4 % 2 == 1 <==> t.literal)
      && m / 8 % 4 == SizeType(InfoOf(t, literalSize, sz)) && m % 4 == LengthType(InfoOf(t, literalSize, sz))
  {
    hide BaseLength, WidthCode, LengthCode;
  }

  lemma MetainfoReadBack(t: Traits, literal: seq<Byte>, sz: SizeInfo, tail: seq<Byte>)
    requires Allowed(t) && InfoOf(t, |literal|, sz).len < 0x1_0000_0000_0000_0000
    ensures
      var info := InfoOf(t, |literal|, sz);
      && info.metainfo < 0x100
      && ReadMetainfo(info.metainfo, literal, LengthField(t, info) + (LiteralField(t, literal) + tail))
         == Opened(SizeType(info), if t.compatible then info.len else 0, tail)
  {
    hide LowBytes, F.FromBytes, F.Fits, InfoOf, SizeType, LengthType;
    var info := InfoOf(t, |literal|, sz);
    MetainfoBits(t, |literal|, sz);
    var after := LiteralField(t, literal) + tail;
    var bytes := LengthField(t, info) + after;
    if t.compatible {
      LengthFits(t, |literal|, sz);
      LengthReadBack(info.len, F.Bytes(LengthType(info)), after);
    } else {
      assert bytes == after && bytes[..0] == [] && bytes[0..] == bytes;
      assert F.FromBytes([]) == 0 by { NoBytes(); }
    }
    if t.literal {
      assert after[..|literal| + 1] == literal + [0] && after[|literal| + 1..] == tail;
    } else {
      assert after == tail;
    }
  }

  lemma NoBytes()
    ensures F.FromBytes([]) == 0
  {
  }

  lemma LengthFits(t: Traits, literalSize: nat, sz: SizeInfo)
    requires Allowed(t) && t.compatible && InfoOf(t, literalSize, sz).len < 0x1_0000_0000_0000_0000
    ensures
      var info := InfoOf(t, literalSize, sz);
      1 <= LengthType(info) <= 3 && F.Fits(info.len, false, F.Bytes(LengthType(info)))
  {
    hide F.Fits, F.Extend, LowBytes, InfoOf;
    LengthFieldIsLeast(t, literalSize, sz);
    var info := InfoOf(t, literalSize, sz);
    F.LosslessIff(info.len, false, F.Bytes(LengthType(info)));
  }

  /** The final hash: the types' even code, plus one when a metainfo byte follows. */
  function HashHead(first: Traits, code: nat, info: Info): nat { if OddHash(first, info) then code + 1 else code }

  /** The total length is written only if the first argument alone asks for a metainfo byte. */
  function Announced(t: Traits, first: Traits, info: Info): nat
  {
    if t.compatible && OddHash(first, info) then info.len else 0
  }

  /** The header is read back: the reader accepts it, and finds the size width and the length. */
  lemma HeaderReadBack(t: Traits, first: Traits, code: nat, literal: seq<Byte>, sz: SizeInfo, tail: seq<Byte>)
    requires Allowed(t) && code % 2 == 0 && code < 0x1_0000_0000
    requires var info := InfoOf(t, |literal|, sz);
      info.len < 0x1_0000_0000_0000_0000 && (t.disableHash ==> HeaderAgrees(t, first, info))
    ensures
      var info := InfoOf(t, |literal|, sz);
      ReadHeader(t, code, literal, Header(t, first, HashHead(first, code, info), literal, info) + tail)
      == Opened(SizeType(info), Announced(t, first, info), tail)
  {
    hide InfoOf, ReadHeader, Header, HashHead, SizeType, OddHash, HeaderAgrees;
    if t.disableHash {
      PlainHeader(t, first, code, literal, sz, tail);
    } else {
      HashedHeader(t, first, code, literal, sz, tail);
    }
  }

  lemma PlainHeader(t: Traits, first: Traits, code: nat, literal: seq<Byte>, sz: SizeInfo, tail: seq<Byte>)
    requires Allowed(t) && t.disableHash && HeaderAgrees(t, first, InfoOf(t, |literal|, sz))
    ensures
      var info := InfoOf(t, |literal|, sz);
      ReadHeader(t, code, literal, Header(t, first, HashHead(first, code, info), literal, info) + tail)
      == Opened(SizeType(info), 0, tail)
  {
    hide InfoOf, SizeType, LengthField, LiteralField, WidthCode;
    var info := InfoOf(t, |literal|, sz);
    MetainfoBits(t, |literal|, sz);
    SizeTypeIs(t, |literal|, sz);
    NoFields(t, literal, info);
    var bytes := Header(t, first, HashHead(first, code, info), literal, info) + tail;
    assert bytes == if t.container then [info.metainfo] + tail else tail;
  }

  lemma HashedHeader(t: Traits, first: Traits, code: nat, literal: seq<Byte>, sz: SizeInfo, tail: seq<Byte>)
    requires Allowed(t) && !t.disableHash && code % 2 == 0 && code < 0x1_0000_0000
    requires InfoOf(t, |literal|, sz).len < 0x1_0000_0000_0000_0000
    ensures
      var info := InfoOf(t, |literal|, sz);
      ReadHeader(t, code, literal, Header(t, first, HashHead(first, code, info), literal, info) + tail)
      == Opened(SizeType(info), Announced(t, first, info), tail)
  {
    hide F.FromBytes, InfoOf, ReadMetainfo, SizeType, LengthField, LiteralField, Header, HashHead, OddHash;
    var info := InfoOf(t, |literal|, sz);
    MetainfoReadBack(t, literal, sz, tail);
    HashReadBack(t, first, code, literal, info, tail);
    var fields := LengthField(t, info) + (LiteralField(t, literal) + tail);
    var bytes := Header(t, first, HashHead(first, code, info), literal, info) + tail;
    if OddHash(first, info) {
      assert bytes[4..] == [info.metainfo] + fields;
      assert bytes[4] == bytes[4..][0] && bytes[5..] == bytes[4..][1..] == fields;
    } else {
      EvenHash(first, info);
    }
  }

  lemma NoFields(t: Traits, literal: seq<Byte>, info: Info)
    requires Allowed(t) && t.disableHash
    ensures LengthField(t, info) == [] && LiteralField(t, literal) == []
  {
  }

  lemma EvenHash(first: Traits, info: Info)
    requires !OddHash(first, info)
    ensures SizeType(info) == 0
  {
  }

  lemma HashReadBack(t: Traits, first: Traits, code: nat, literal: seq<Byte>, info: Info, tail: seq<Byte>)
    requires !t.disableHash && code % 2 == 0 && code < 0x1_0000_0000 && info.metainfo < 0x100
    ensures
      var hash := HashHead(first, code, info);
      var bytes := Header(t, first, hash, literal, info) + tail;
      && |bytes| >= 4 && F.FromBytes(bytes[..4]) == hash && hash / 2 == code / 2
      && (hash % 2 == 1 <==> OddHash(first, info))
      && bytes[4..] ==
         if OddHash(first, info) then [info.metainfo] + (LengthField(t, info) + (LiteralField(t, literal) + tail))
         else tail
  {
    hide LowBytes, F.FromBytes, F.Fits, LengthField, LiteralField, OddHash;
    var hash := HashHead(first, code, info);
    var meta :=
      if OddHash(first, info) then [info.metainfo] + (LengthField(t, info) + (LiteralField(t, literal) + tail))
      else tail;
    assert Header(t, first, hash, literal, info) + tail == LowBytes(hash, 4) + meta;
    FourBytes(hash);
    LengthReadBack(hash, 4, meta);
  }

  // ----- the whole -----

  function Deserialize(t: Traits, code: nat, literal: seq<Byte>, ts: Types, versions: seq<nat>,
                       bytes: seq<Byte>): GotAll
  {
    match ReadHeader(t, code, literal, bytes)
    case Rejected => FailedAll
    case Opened(sizeType, length, body) =>
      if sizeType > 3 then FailedAll
      else
        var w := F.Bytes(sizeType);
        match ReadMembers(ts, w, false, [], body)
        case FailedAll => FailedAll
        case GotAll(vs, after) =>
          if t.compatible then ReadPasses(ts, vs, w, versions, |bytes| - length, after) else GotAll(vs, after)
  }

  lemma {:induction false} FitFromSizes(v: Value, w: nat)
    requires forall i :: 0 <= i < |Sizes(v)| ==> F.Fits(Sizes(v)[i], false, w)
    ensures SizesFit(v, w)
    decreases v
  {
    hide F.Fits;
    if v.Node? {
      var own := if v.kind.Container? then [Length(v.items)] else [];
      assert Sizes(v) == own + AllSizes(v.items);
      assert forall i :: 0 <= i < |AllSizes(v.items)| ==> AllSizes(v.items)[i] == Sizes(v)[|own| + i];
      if v.kind.Container? { assert Sizes(v)[0] == Length(v.items); }
      AllFitFromSizes(v.items, w);
    } else if v.Bulk? {
      assert Sizes(v)[0] == v.count;
    }
  }

  lemma {:induction false} AllFitFromSizes(vs: List, w: nat)
    requires forall i :: 0 <= i < |AllSizes(vs)| ==> F.Fits(AllSizes(vs)[i], false, w)
    ensures AllSizesFit(vs, w)
    decreases vs
  {
    hide F.Fits, Sizes, SizesFit;
    if vs.Cons? {
      var head, tail := Sizes(vs.head), AllSizes(vs.tail);
      assert AllSizes(vs) == head + tail;
      assert forall i :: 0 <= i < |head| ==> head[i] == AllSizes(vs)[i];
      assert forall i :: 0 <= i < |tail| ==> tail[i] == AllSizes(vs)[|head| + i];
      FitFromSizes(vs.head, w);
      AllFitFromSizes(vs.tail, w);
    }
  }

  /** What the program can count: sizes and the total length are 64-bit numbers. */
  predicate Countable(args: List, len: nat)
  {
    && len < 0x1_0000_0000_0000_0000
    && forall i :: 0 <= i < |AllSizes(args)| ==> AllSizes(args)[i] < 0x1_0000_0000_0000_0000
  }

  /** The traits that a header depends on are shared by its writer and its reader. */
  predicate SameHeader(n: Traits, t: Traits)
  {
    n.disableHash == t.disableHash && (t.disableHash ==> n.container == t.container)
  }

  /** What is left to the later passes, for a reader whose value `vs` has the main pass of what was written. */
  lemma MainPassRead(n: Traits, t: Traits, first: Traits, code: nat, literal: seq<Byte>, ts: Types, known: seq<nat>,
                     versions: seq<nat>, us: List, vs: List, rest: seq<Byte>)
    requires HaveTypes(vs, ts) && AllShaped(us) && AllShaped(vs) && Allowed(t) && SameHeader(n, t)
    requires code % 2 == 0 && code < 0x1_0000_0000
    requires var info := InfoOf(t, |literal|, PayloadSize(us, false));
      var w := F.Bytes(SizeType(info));
      && info.len < 0x1_0000_0000_0000_0000 && (t.disableHash ==> HeaderAgrees(t, first, info))
      && AllSizesFit(vs, w) && WriteMany(us, w, false) == WriteMany(vs, w, false)
    ensures
      var info := InfoOf(t, |literal|, PayloadSize(us, false));
      var w := F.Bytes(SizeType(info));
      var bytes := Packed(t, first, HashHead(first, code, info), literal, versions, us) + rest;
      var after := (if t.compatible then WritePasses(us, w, versions) else []) + rest;
      Deserialize(n, code, literal, ts, known, bytes)
      == if n.compatible then ReadPasses(ts, KeepAll(vs, []), w, known, |bytes| - Announced(t, first, info), after)
         else GotAll(KeepAll(vs, []), after)
  {
    hide ReadHeader, ReadMembers, ReadPasses, Header, WriteMany, WritePasses, KeepAll, BareAll, PayloadSize, InfoOf,
         HaveTypes, AllSizesFit, HashHead, SizeType, F.Bytes, Ints, OddHash, HeaderAgrees, Announced;
    var sz := PayloadSize(us, false);
    var info := InfoOf(t, |literal|, sz);
    var hash, w := HashHead(first, code, info), F.Bytes(SizeType(info));
    assert w > 0 by { SomeWidth(SizeType(info)); }
    var after := (if t.compatible then WritePasses(us, w, versions) else []) + rest;
    var body := WriteMany(us, w, false) + after;
    var bytes := Packed(t, first, hash, literal, versions, us) + rest;
    assert bytes == Header(t, first, hash, literal, info) + body;
    HeaderReadBack(t, first, code, literal, sz, body);
    assert ReadHeader(n, code, literal, bytes) == ReadHeader(t, code, literal, bytes) by {
      HeaderShared(n, t, code, literal, bytes);
    }
    MembersReadBack(vs, ts, w, false, after);
    IntsUnused(ts, w, Ints(vs), body);
    KeepNothingAll(vs);
  }

  lemma HeaderShared(n: Traits, t: Traits, code: nat, literal: seq<Byte>, bytes: seq<Byte>)
    requires SameHeader(n, t)
    ensures ReadHeader(n, code, literal, bytes) == ReadHeader(t, code, literal, bytes)
  {
  }

  /** The versions whose members a reader of the header fills. */
  function PassesRead(t: Traits, first: Traits, info: Info, versions: seq<nat>): seq<nat>
  {
    if t.compatible && OddHash(first, info) then versions else []
  }

  /** What the later passes write that a reader of the header does not know of. */
  function LeftBehind(t: Traits, first: Traits, info: Info, versions: seq<nat>, args: List): seq<Byte>
    requires AllShaped(args)
  {
    if t.compatible && !OddHash(first, info) then WritePasses(args, F.Bytes(SizeType(info)), versions) else []
  }

  /**
    What deserializing the bytes of serialize gives, whatever follows them: the arguments
    with every compatible member that a pass reaches. If the first argument hides from the
    header that there are such members, they stay empty and their bytes are left behind.
  */
  lemma SerializedIsReadBack(t: Traits, first: Traits, code: nat, literal: seq<Byte>, ts: Types, versions: seq<nat>,
                             args: List, rest: seq<Byte>)
    requires HaveTypes(args, ts) && AllShaped(args) && Typed(t, args) && Versioned(t, versions, args)
    requires code % 2 == 0 && code < 0x1_0000_0000
    requires var info := InfoOf(t, |literal|, PayloadSize(args, false));
      Countable(args, info.len) && (t.disableHash ==> HeaderAgrees(t, first, info))
    ensures
      var info := InfoOf(t, |literal|, PayloadSize(args, false));
      var bytes := Packed(t, first, HashHead(first, code, info), literal, versions, args) + rest;
      Deserialize(t, code, literal, ts, versions, bytes)
      == GotAll(KeepAll(args, PassesRead(t, first, info, versions)), LeftBehind(t, first, info, versions, args) + rest)
  {
    hide Deserialize, Packed, ReadPasses, WritePasses, KeepAll, PayloadSize, InfoOf, HaveTypes, AllSizesFit, HashHead,
         SizeType, F.Bytes, Ascending, AllCovered, OddHash, HeaderAgrees;
    var info := InfoOf(t, |literal|, PayloadSize(args, false));
    var w := F.Bytes(SizeType(info));
    assert w > 0 by { SomeWidth(SizeType(info)); }
    assert AllSizesFit(args, w) by { SizeTypeIsLeast(t, |literal|, args); AllFitFromSizes(args, w); }
    MainPassRead(t, t, first, code, literal, ts, versions, versions, args, args, rest);
    var packed := Packed(t, first, HashHead(first, code, info), literal, versions, args);
    var passes, limit := WritePasses(args, w, versions), |packed + rest| - Announced(t, first, info);
    if t.compatible && OddHash(first, info) {
      assert [] + versions == versions && [] + rest == rest;
      assert limit <= |rest| by { NeverTooShort(t, first, HashHead(first, code, info), literal, versions, args); }
      PassesReadBack(args, ts, [], w, versions, limit, rest);
    } else if t.compatible {
      PassesInside(t, first, HashHead(first, code, info), literal, versions, args);
      NothingLeftToPass(args, ts, [], w, versions, limit, passes + rest);
    }
  }

  lemma PassesInside(t: Traits, first: Traits, hash: nat, literal: seq<Byte>, versions: seq<nat>, args: List)
    requires AllShaped(args) && t.compatible
    ensures
      var info := InfoOf(t, |literal|, PayloadSize(args, false));
      |WritePasses(args, F.Bytes(SizeType(info)), versions)| <= |Packed(t, first, hash, literal, versions, args)|
  {
    hide Header, WriteMany, WritePasses, PayloadSize, InfoOf;
  }

  lemma NeverTooShort(t: Traits, first: Traits, hash: nat, literal: seq<Byte>, versions: seq<nat>, args: List)
    requires AllShaped(args) && Typed(t, args) && Versioned(t, versions, args) && t.compatible
    requires OddHash(first, InfoOf(t, |literal|, PayloadSize(args, false)))
    ensures |Packed(t, first, hash, literal, versions, args)| <= InfoOf(t, |literal|, PayloadSize(args, false)).len
  {
    ExactIff(t, t, hash, literal, versions, args);
    hide InfoOf, PayloadSize, WriteMany, WritePasses, SizeType;
  }

  lemma SomeWidth(code: nat)
    requires code <= 3
    ensures F.Bytes(code) > 0
  {
  }

  // ----- what is lost -----

  /** A compatible member that holds something. */
  predicate Filled(v: Value) { v.Node? && if v.kind.Compatible? then v.items.Cons? else AnyFilled(v.items) }

  predicate AnyFilled(vs: List) { vs.Cons? && (Filled(vs.head) || AnyFilled(vs.tail)) }

  /** A filled compatible member inside another one or behind a base-class pointer. */
  predicate Lossy(v: Value)
  {
    v.Node? && if v.kind.Compatible? || v.kind.Polymorphic? then AnyFilled(v.items) else AnyLossy(v.items)
  }

  predicate AnyLossy(vs: List) { vs.Cons? && (Lossy(vs.head) || AnyLossy(vs.tail)) }

  lemma {:induction false} BareIff(v: Value)
    ensures Bare(v) == v <==> !Filled(v)
  {
    if v.Node? { BareAllIff(v.items); }
  }

  lemma {:induction false} BareAllIff(vs: List)
    ensures BareAll(vs) == vs <==> !AnyFilled(vs)
  {
    if vs.Cons? {
      BareIff(vs.head);
      BareAllIff(vs.tail);
    }
  }

  /** Every member that a pass can reach has been read or holds nothing. */
  predicate Settled(v: Value, done: seq<nat>)
  {
    if !v.Node? || v.kind.Polymorphic? then true
    else if v.kind.Compatible? then v.kind.version in done || v.items.Nil?
    else AllSettled(v.items, done)
  }

  predicate AllSettled(vs: List, done: seq<nat>)
  {
    vs.Cons? ==> Settled(vs.head, done) && AllSettled(vs.tail, done)
  }

  lemma {:induction false} CoveredIsSettled(vs: List, done: seq<nat>)
    requires AllCovered(vs, done)
    ensures AllSettled(vs, done)
  {
    if vs.Cons? {
      CoveredIsSettled(vs.tail, done);
      if vs.head.Node? && !vs.head.kind.Polymorphic? && !vs.head.kind.Compatible? {
        CoveredIsSettled(vs.head.items, done);
      }
    }
  }

  lemma {:induction false} KeepIff(v: Value, done: seq<nat>)
    requires Settled(v, done)
    ensures Keep(v, done) == v <==> !Lossy(v)
  {
    if v.Node? {
      BareAllIff(v.items);
      if !v.kind.Compatible? && !v.kind.Polymorphic? { KeepAllIff(v.items, done); }
    }
  }

  lemma {:induction false} KeepAllIff(vs: List, done: seq<nat>)
    requires AllSettled(vs, done)
    ensures KeepAll(vs, done) == vs <==> !AnyLossy(vs)
  {
    if vs.Cons? {
      KeepIff(vs.head, done);
      KeepAllIff(vs.tail, done);
    }
  }

  /**
    The round trip: the arguments are read back as they were if and only if no filled
    compatible member is inside another one or behind a base-class pointer, and the first
    argument does not hide from the header that some are reachable. A single argument
    decides for itself.
  */
  lemma RoundTripIff(t: Traits, first: Traits, code: nat, literal: seq<Byte>, ts: Types, versions: seq<nat>,
                     args: List, rest: seq<Byte>)
    requires HaveTypes(args, ts) && AllShaped(args) && Typed(t, args) && Versioned(t, versions, args)
    requires code % 2 == 0 && code < 0x1_0000_0000
    requires var info := InfoOf(t, |literal|, PayloadSize(args, false));
      Countable(args, info.len) && (t.disableHash ==> HeaderAgrees(t, first, info))
    ensures
      var info := InfoOf(t, |literal|, PayloadSize(args, false));
      var bytes := Packed(t, first, HashHead(first, code, info), literal, versions, args) + rest;
      Deserialize(t, code, literal, ts, versions, bytes) == GotAll(args, rest)
      <==> !AnyLossy(args) && (t.compatible && !OddHash(first, info) ==> AllCovered(args, []))
    ensures t.compatible ==> OddHash(t, InfoOf(t, |literal|, PayloadSize(args, false)))
  {
    hide Deserialize, Packed, PayloadSize, InfoOf, HaveTypes, KeepAll, AnyLossy, AllCovered, AllSettled, HeaderAgrees;
    SerializedIsReadBack(t, first, code, literal, ts, versions, args, rest);
    var info := InfoOf(t, |literal|, PayloadSize(args, false));
    if t.compatible && !OddHash(first, info) {
      PassesEmptyIff(args, F.Bytes(SizeType(info)), versions);
      if AllCovered(args, []) {
        CoveredIsSettled(args, []);
        KeepAllIff(args, []);
      }
    } else {
      CoveredIsSettled(args, PassesRead(t, first, info, versions));
      KeepAllIff(args, PassesRead(t, first, info, versions));
    }
  }

  /** The passes write something exactly when there is a compatible member to reach. */
  lemma PassesEmptyIff(args: List, w: nat, versions: seq<nat>)
    requires AllShaped(args) && Ascending(versions) && AllCovered(args, versions)
    ensures WritePasses(args, w, versions) == [] <==> AllCovered(args, [])
  {
    PassesMany(args, w, versions);
    VisibleIff(args, w);
  }

  lemma {:induction false} VisibleIff(vs: List, w: nat)
    requires AllShaped(vs)
    ensures VisibleSizes(vs, w) == 0 <==> AllCovered(vs, [])
  {
    if vs.Cons? {
      VisibleIff(vs.tail, w);
      if vs.head.Node? { VisibleIff(vs.head.items, w); }
    }
  }

  /** Where the next object is looked for: after what was read, or after the announced length. */
  function ConsumedLength(t: Traits, code: nat, literal: seq<Byte>, ts: Types, versions: seq<nat>,
                          bytes: seq<Byte>): int
  {
    match Deserialize(t, code, literal, ts, versions, bytes)
    case FailedAll => 0
    case GotAll(_, rest) =>
      var head := ReadHeader(t, code, literal, bytes);
      I.Max(|bytes| - |rest|, if head.Opened? then head.length else 0)
  }

  /** Objects can be read from a buffer one after the other if and only if each consumes exactly its bytes. */
  lemma ConsumedIff(t: Traits, first: Traits, code: nat, literal: seq<Byte>, ts: Types, versions: seq<nat>,
                    args: List, rest: seq<Byte>)
    requires HaveTypes(args, ts) && AllShaped(args) && Typed(t, args) && Versioned(t, versions, args)
    requires code % 2 == 0 && code < 0x1_0000_0000
    requires var info := InfoOf(t, |literal|, PayloadSize(args, false));
      Countable(args, info.len) && (t.disableHash ==> HeaderAgrees(t, first, info))
    ensures
      var info := InfoOf(t, |literal|, PayloadSize(args, false));
      var packed := Packed(t, first, HashHead(first, code, info), literal, versions, args);
      ConsumedLength(t, code, literal, ts, versions, packed + rest) == |packed|
      <==> (t.compatible ==> if OddHash(first, info) then !AnyHidden(args) else AllCovered(args, []))
  {
    hide Deserialize, Packed, PayloadSize, InfoOf, HaveTypes, KeepAll, AllCovered, AnyHidden, HeaderAgrees, OddHash,
         HashHead, ReadHeader, SizeType;
    var info := InfoOf(t, |literal|, PayloadSize(args, false));
    var hash := HashHead(first, code, info);
    var packed := Packed(t, first, hash, literal, versions, args);
    SerializedIsReadBack(t, first, code, literal, ts, versions, args, rest);
    HeaderOf(t, t, first, code, literal, versions, args, rest);
    if t.compatible {
      if OddHash(first, info) {
        NeverTooShort(t, first, hash, literal, versions, args);
        assert HeaderAgrees(t, first, info) by { OddAgrees(t, first, info); }
        ExactIff(t, first, hash, literal, versions, args);
      } else {
        PassesInside(t, first, hash, literal, versions, args);
        PassesEmptyIff(args, F.Bytes(SizeType(info)), versions);
      }
    }
  }

  lemma OddAgrees(t: Traits, first: Traits, info: Info)
    requires t.compatible && OddHash(first, info)
    ensures HeaderAgrees(t, first, info)
  {
  }

  lemma HeaderOf(n: Traits, t: Traits, first: Traits, code: nat, literal: seq<Byte>, versions: seq<nat>, us: List,
                 rest: seq<Byte>)
    requires AllShaped(us) && Allowed(t) && SameHeader(n, t) && code % 2 == 0 && code < 0x1_0000_0000
    requires var info := InfoOf(t, |literal|, PayloadSize(us, false));
      info.len < 0x1_0000_0000_0000_0000 && (t.disableHash ==> HeaderAgrees(t, first, info))
    ensures
      var info := InfoOf(t, |literal|, PayloadSize(us, false));
      var head := ReadHeader(n, code, literal,
                             Packed(t, first, HashHead(first, code, info), literal, versions, us) + rest);
      head.Opened? && head.length == Announced(t, first, info)
  {
    hide ReadHeader, Header, WriteMany, WritePasses, PayloadSize, InfoOf, HashHead, OddHash, HeaderAgrees, Announced;
    var sz := PayloadSize(us, false);
    var info := InfoOf(t, |literal|, sz);
    var hash, w := HashHead(first, code, info), F.Bytes(SizeType(info));
    var body := WriteMany(us, w, false) + ((if t.compatible then WritePasses(us, w, versions) else []) + rest);
    assert Packed(t, first, hash, literal, versions, us) + rest == Header(t, first, hash, literal, info) + body;
    HeaderReadBack(t, first, code, literal, sz, body);
    HeaderShared(n, t, code, literal, Header(t, first, hash, literal, info) + body);
  }

  /** A byte in a compatible member inside another one is written by no pass and not read back. */
  lemma NestedMemberIsLost(b: Byte) returns (ts: Types, args: List)
    ensures HaveTypes(args, ts) && AllCovered(args, [1]) && AnyLossy(args)
    ensures KeepAll(args, [1]) == Cons(Node(Compatible(1), Cons(Node(Compatible(2), Nil), Nil)), Nil) != args
  {
    var inner, outer := CompatibleType(2, RawType(1)), Node(Compatible(2), Cons(Raw([b]), Nil));
    ts := MoreTypes(CompatibleType(1, inner), NoTypes);
    args := Cons(Node(Compatible(1), Cons(outer, Nil)), Nil);
    assert HasType(Raw([b]), RawType(1)) && IsOne(outer.items, RawType(1)) && HasType(outer, inner);
    assert IsOne(args.head.items, inner) && HasType(args.head, ts.head) && HaveTypes(args, ts);
    assert Filled(outer) && AnyFilled(args.head.items) && Lossy(args.head);
    assert BareAll(args.head.items) == Cons(Node(Compatible(2), Nil), Nil);
    assert Keep(args.head, [1]) == Node(Compatible(1), BareAll(args.head.items));
  }

  /** A byte and a compatible byte as two arguments: the second one comes back empty, its bytes unread. */
  lemma SecondArgumentIsLost(b: Byte, c: Byte, rest: seq<Byte>)
    ensures
      var args := TwoArguments(b, c);
      var ts := MoreTypes(RawType(1), MoreTypes(CompatibleType(1, RawType(1)), NoTypes));
      var t, first := Traits(true, false, false, false), Traits(false, false, false, false);
      && AllShaped(args)
      && var r := Deserialize(t, 0, [], ts, [1], Packed(t, first, 0, [], [1], args) + rest);
      && r.GotAll? && r.values == Cons(Raw([b]), Cons(Node(Compatible(1), Nil), Nil)) && |r.rest| > |rest|
  {
    hide Deserialize, Packed, PayloadSize, WritePasses, KeepAll, HaveTypes, AllCovered, AllSizes, AllShaped;
    var args, t, first := TwoArguments(b, c), Traits(true, false, false, false), Traits(false, false, false, false);
    var ts := MoreTypes(RawType(1), MoreTypes(CompatibleType(1, RawType(1)), NoTypes));
    TwoTyped(b, c);
    TwoCounted(b, c);
    TwoKept(b, c);
    CountsMany(args, false);
    var sz := PayloadSize(args, false);
    SizeTypeIs(t, 0, sz);
    PassesEmptyIff(args, 1, [1]);
    SerializedIsReadBack(t, first, 0, [], ts, [1], args, rest);
  }

  function TwoArguments(b: Byte, c: Byte): List
  {
    Cons(Raw([b]), Cons(Node(Compatible(1), Cons(Raw([c]), Nil)), Nil))
  }

  lemma TwoTyped(b: Byte, c: Byte)
    ensures
      var args := TwoArguments(b, c);
      && HaveTypes(args, MoreTypes(RawType(1), MoreTypes(CompatibleType(1, RawType(1)), NoTypes)))
      && AllShaped(args) && AllSizes(args) == []
  {
    var inner, args := Cons(Raw([c]), Nil), TwoArguments(b, c);
    assert HasType(Raw([c]), RawType(1)) && IsOne(inner, RawType(1)) && HasType(Raw([b]), RawType(1));
    assert HasType(args.tail.head, CompatibleType(1, RawType(1)));
    assert HaveTypes(args.tail, MoreTypes(CompatibleType(1, RawType(1)), NoTypes));
    TypedAreShaped(args, MoreTypes(RawType(1), MoreTypes(CompatibleType(1, RawType(1)), NoTypes)));
    OnlySizes(Raw([c]), inner);
    OnlySizes(args.tail.head, args.tail);
  }

  lemma OnlySizes(v: Value, vs: List)
    requires vs == Cons(v, Nil)
    ensures AllSizes(vs) == Sizes(v)
  {
    assert AllSizes(vs.tail) == [];
  }

  lemma TwoCounted(b: Byte, c: Byte)
    ensures AllShaped(TwoArguments(b, c)) && PayloadSize(TwoArguments(b, c), false).total == 3
  {
    hide OwnSize, OneSize, Cost;
    TwoTyped(b, c);
    var inner, args := Cons(Raw([c]), Nil), TwoArguments(b, c);
    OneRaw(Raw([b]));
    OneRaw(Raw([c]));
    assert PayloadSize(Nil, false) == ZERO;
    assert PayloadSize(inner, false) == Add(OneSize(Raw([c]), false), ZERO);
    MemberCounted(args.tail.head);
    assert PayloadSize(args.tail, false) == Add(OneSize(args.tail.head, false), ZERO);
  }

  lemma MemberCounted(v: Value)
    requires Shaped(v) && v.Node? && v.kind.Compatible?
    ensures OneSize(v, false).total == 1 + PayloadSize(v.items, false).total
  {
    hide OwnSize, Cost, PayloadSize;
    CompatibleFlag(v.kind, v.items, 0);
    ZeroWidth(OwnSize(v.kind, v.items));
  }

  lemma TwoKept(b: Byte, c: Byte)
    ensures
      var args := TwoArguments(b, c);
      && AllCovered(args, [1]) && !AllCovered(args, [])
      && KeepAll(args, []) == Cons(Raw([b]), Cons(Node(Compatible(1), Nil), Nil))
  {
    var args := TwoArguments(b, c);
    assert Covered(args.tail.head, [1]) && !Covered(args.tail.head, []) && AllCovered(Nil, [1]);
    assert AllCovered(args.tail, [1]) && !AllCovered(args.tail, []);
    assert KeepAll(args.tail, []) == Cons(Node(Compatible(1), Nil), Nil);
  }
}
