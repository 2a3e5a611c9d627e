/**
  Programs of different ages exchanging data. An upgrade adds compatible members whose
  versions are above every earlier one; data of either program is then read by the other.
*/
module StructUpgrade {
  import opened Octets
  import opened StructSize
  import opened StructRead
  import I = Integers
  import F = FastVarint

  // ----- a value before and after the upgrade -----

  /** A member that the upgrade brought in: its version is above `m`. */
  predicate Added(v: Value, m: nat) { v.Node? && v.kind.Compatible? && v.kind.version > m }

  /** `u` is `v` without what the upgrade added, at any depth. Only member lists grow. */
  predicate Upgrade(u: Value, v: Value, m: nat)
  {
    if !v.Node? then u == v
    else
      && u.Node? && UpgradeAll(u.items, v.items, m)
      && match v.kind
         case Padded(pads) => u.kind.Padded? && PadsKept(u.kind.pads, 0, v.items, pads, m)
         case Group => u.kind == v.kind
         case Struct(_) => u.kind == v.kind
         case _ => u.kind == v.kind && Length(u.items) == Length(v.items)
  }

  predicate UpgradeAll(us: List, vs: List, m: nat)
  {
    if vs.Nil? then us.Nil?
    else if Added(vs.head, m) then UpgradeAll(us, vs.tail, m)
    else us.Cons? && Upgrade(us.head, vs.head, m) && UpgradeAll(us.tail, vs.tail, m)
  }

  /**
    An added member has no bytes of its own in the main pass, so the zeros around it are
    those that stood between its neighbours; `owed` of them are still to come.
  */
  predicate PadsKept(us: seq<nat>, owed: nat, vs: List, pads: seq<nat>, m: nat)
    decreases vs
  {
    if vs.Nil? then us == [] && owed == 0 && pads == []
    else
      && pads != []
      && if Added(vs.head, m) then pads[0] <= owed && PadsKept(us, owed - pads[0], vs.tail, pads[1..], m)
         else owed == 0 && us != [] && pads[0] <= us[0] && PadsKept(us[1..], us[0] - pads[0], vs.tail, pads[1..], m)
  }

  lemma {:induction false} PadsMatch(us: List, upads: seq<nat>, owed: nat, vs: List, pads: seq<nat>, m: nat)
    requires UpgradeAll(us, vs, m) && PadsKept(upads, owed, vs, pads, m)
    ensures |upads| == Length(us) && |pads| == Length(vs)
    decreases vs
  {
    if vs.Cons? {
      if Added(vs.head, m) {
        PadsMatch(us, upads, owed - pads[0], vs.tail, pads[1..], m);
      } else {
        PadsMatch(us.tail, upads[1..], upads[0] - pads[0], vs.tail, pads[1..], m);
      }
    }
  }

  lemma {:induction false} OlderIsShaped(u: Value, v: Value, m: nat)
    requires Upgrade(u, v, m) && Shaped(v)
    ensures Shaped(u)
    decreases v
  {
    if v.Node? {
      OlderAreShaped(u.items, v.items, m);
      if v.kind.Padded? { PadsMatch(u.items, u.kind.pads, 0, v.items, v.kind.pads, m); }
    }
  }

  lemma {:induction false} OlderAreShaped(us: List, vs: List, m: nat)
    requires UpgradeAll(us, vs, m) && AllShaped(vs)
    ensures AllShaped(us)
    decreases vs
  {
    if vs.Cons? {
      if Added(vs.head, m) {
        OlderAreShaped(us, vs.tail, m);
      } else {
        OlderIsShaped(us.head, vs.head, m);
        OlderAreShaped(us.tail, vs.tail, m);
      }
    }
  }

  // ----- the bytes of the older passes are the same -----

  lemma {:induction false} SameFields(us: List, vs: List, m: nat)
    requires UpgradeAll(us, vs, m)
    ensures Fields(us) == Fields(vs)
    decreases vs
  {
    if vs.Cons? { SameFields(if Added(vs.head, m) then us else us.tail, vs.tail, m); }
  }

  lemma {:induction false} SameLength(us: List, vs: List, m: nat)
    requires UpgradeAll(us, vs, m)
    ensures Length(us) <= Length(vs) && (us.Nil? && vs.Cons? ==> Length(us) < Length(vs))
    decreases vs
  {
    if vs.Cons? { SameLength(if Added(vs.head, m) then us else us.tail, vs.tail, m); }
  }

  lemma SameHead(u: Value, v: Value, m: nat, w: nat)
    requires Upgrade(u, v, m) && v.Node? && !v.kind.Padded? && AllShaped(u.items) && AllShaped(v.items)
    ensures u.kind == v.kind && Head(u.kind, u.items, w) == Head(v.kind, v.items, w)
  {
    hide F.Block, LowBytes;
    SameFields(u.items, v.items, m);
    SameLength(u.items, v.items, m);
  }

  /** The main pass writes the same bytes before and after the upgrade. */
  lemma {:induction false} SameMain(u: Value, v: Value, m: nat, w: nat, fast: bool)
    requires Upgrade(u, v, m) && Shaped(u) && Shaped(v)
    ensures WriteOne(u, w, fast) == WriteOne(v, w, fast)
    decreases v, 0
  {
    hide Head;
    if v.Node? && !v.kind.Compatible? {
      if v.kind.Padded? {
        SamePadded(u.items, u.kind.pads, 0, v.items, v.kind.pads, m, w);
        assert Zeros(0) + WritePadded(u.items, u.kind.pads, w) == WritePadded(u.items, u.kind.pads, w);
      } else {
        SameHead(u, v, m, w);
        SameMainAll(u.items, v.items, m, w, Fast(v.kind));
      }
    }
  }

  lemma {:induction false} SameMainAll(us: List, vs: List, m: nat, w: nat, fast: bool)
    requires UpgradeAll(us, vs, m) && AllShaped(us) && AllShaped(vs)
    ensures WriteMany(us, w, fast) == WriteMany(vs, w, fast)
    decreases vs, 0
  {
    if vs.Cons? {
      if Added(vs.head, m) {
        SameMainAll(us, vs.tail, m, w, fast);
        assert WriteOne(vs.head, w, fast) == [];
      } else {
        SameMain(us.head, vs.head, m, w, fast);
        SameMainAll(us.tail, vs.tail, m, w, fast);
      }
    }
  }

  lemma {:induction false} SamePadded(us: List, upads: seq<nat>, owed: nat, vs: List, pads: seq<nat>, m: nat, w: nat)
    requires UpgradeAll(us, vs, m) && AllShaped(us) && AllShaped(vs) && PadsKept(upads, owed, vs, pads, m)
    ensures |upads| == Length(us) && |pads| == Length(vs)
    ensures Zeros(owed) + WritePadded(us, upads, w) == WritePadded(vs, pads, w)
    decreases vs, 0
  {
    hide WriteOne, Zeros, Upgrade, Shaped, PadsKept;
    PadsMatch(us, upads, owed, vs, pads, m);
    PadsStep(upads, owed, vs, pads, m);
    if vs.Nil? {
      ZerosSplit([], 0, 0, [], []);
    } else if Added(vs.head, m) {
      SamePadded(us, upads, owed - pads[0], vs.tail, pads[1..], m, w);
      NoMain(vs.head, w);
      ZerosSplit([], pads[0], owed - pads[0], WritePadded(us, upads, w), WritePadded(vs.tail, pads[1..], w));
    } else {
      SameMain(us.head, vs.head, m, w, false);
      SamePadded(us.tail, upads[1..], upads[0] - pads[0], vs.tail, pads[1..], m, w);
      ZerosSplit(WriteOne(vs.head, w, false), pads[0], upads[0] - pads[0], WritePadded(us.tail, upads[1..], w),
                 WritePadded(vs.tail, pads[1..], w));
      ZerosSplit([], 0, 0, WritePadded(us, upads, w), WritePadded(us, upads, w));
    }
  }

  lemma PadsStep(us: seq<nat>, owed: nat, vs: List, pads: seq<nat>, m: nat)
    requires PadsKept(us, owed, vs, pads, m)
    ensures vs.Nil? ==> us == [] && owed == 0 && pads == []
    ensures vs.Cons? ==> pads != []
    ensures vs.Cons? && Added(vs.head, m) ==>
      pads[0] <= owed && PadsKept(us, owed - pads[0], vs.tail, pads[1..], m)
    ensures vs.Cons? && !Added(vs.head, m) ==>
      owed == 0 && us != [] && pads[0] <= us[0] && PadsKept(us[1..], us[0] - pads[0], vs.tail, pads[1..], m)
  {
  }

  lemma ZerosSplit(own: seq<Byte>, a: nat, b: nat, tail: seq<Byte>, rest: seq<Byte>)
    requires Zeros(b) + tail == rest
    ensures own + Zeros(a + b) + tail == own + Zeros(a) + rest
    ensures own == [] ==> Zeros(a + b) + tail == Zeros(a) + rest && (a + b == 0 ==> Zeros(a + b) + tail == tail)
  {
    assert Zeros(a + b) == Zeros(a) + Zeros(b);
  }

  lemma NoMain(v: Value, w: nat)
    requires Shaped(v) && v.Node? && v.kind.Compatible?
    ensures WriteOne(v, w, false) == []
  {
  }

  /** So does every pass of an earlier version. */
  lemma {:induction false} SamePass(u: Value, v: Value, m: nat, w: nat, version: nat)
    requires Upgrade(u, v, m) && Shaped(u) && Shaped(v) && version <= m
    ensures WriteVersion(u, w, version) == WriteVersion(v, w, version)
    decreases v
  {
    hide Head, WriteMany;
    if v.Node? {
      if v.kind.Compatible? {
        SameHead(u, v, m, w);
        SameMainAll(u.items, v.items, m, w, false);
      } else {
        SamePassAll(u.items, v.items, m, w, version);
      }
    }
  }

  lemma {:induction false} SamePassAll(us: List, vs: List, m: nat, w: nat, version: nat)
    requires UpgradeAll(us, vs, m) && AllShaped(us) && AllShaped(vs) && version <= m
    ensures WriteVersions(us, w, version) == WriteVersions(vs, w, version)
    decreases vs
  {
    if vs.Cons? {
      if Added(vs.head, m) {
        SamePassAll(us, vs.tail, m, w, version);
      } else {
        SamePass(us.head, vs.head, m, w, version);
        SamePassAll(us.tail, vs.tail, m, w, version);
      }
    }
  }

  predicate NotAbove(versions: seq<nat>, m: nat) { forall i :: 0 <= i < |versions| ==> versions[i] <= m }

  lemma {:induction false} SamePasses(us: List, vs: List, m: nat, w: nat, versions: seq<nat>)
    requires UpgradeAll(us, vs, m) && AllShaped(us) && AllShaped(vs) && NotAbove(versions, m)
    ensures WritePasses(us, w, versions) == WritePasses(vs, w, versions)
    decreases |versions|
  {
    if versions != [] {
      SamePassAll(us, vs, m, w, versions[0]);
      SamePasses(us, vs, m, w, versions[1..]);
    }
  }

  lemma {:induction false} PassesSplit(vs: List, w: nat, early: seq<nat>, late: seq<nat>)
    requires AllShaped(vs)
    ensures WritePasses(vs, w, early + late) == WritePasses(vs, w, early) + WritePasses(vs, w, late)
    decreases |early|
  {
    if early == [] {
      assert early + late == late;
    } else {
      assert (early + late)[1..] == early[1..] + late;
      PassesSplit(vs, w, early[1..], late);
    }
  }

  // ----- sizes, losses and reach -----

  lemma {:induction false} FitsOlder(us: List, vs: List, m: nat, w: nat)
    requires UpgradeAll(us, vs, m) && AllSizesFit(vs, w)
    ensures AllSizesFit(us, w)
    decreases vs
  {
    hide F.Fits;
    if vs.Cons? {
      if Added(vs.head, m) {
        FitsOlder(us, vs.tail, m, w);
      } else {
        FitsOlder(us.tail, vs.tail, m, w);
        if vs.head.Node? { FitsOlder(us.head.items, vs.head.items, m, w); }
      }
    }
  }

  /** Nothing the upgrade added holds a value, as in data that is older than the upgrade. */
  predicate Unset(v: Value, m: nat) { v.Node? ==> if Added(v, m) then v.items.Nil? else AllUnset(v.items, m) }

  predicate AllUnset(vs: List, m: nat) { vs.Cons? ==> Unset(vs.head, m) && AllUnset(vs.tail, m) }

  lemma {:induction false} FitsNewer(us: List, vs: List, m: nat, w: nat)
    requires UpgradeAll(us, vs, m) && AllUnset(vs, m) && AllSizesFit(us, w)
    ensures AllSizesFit(vs, w)
    decreases vs
  {
    hide F.Fits;
    if vs.Cons? {
      if Added(vs.head, m) {
        FitsNewer(us, vs.tail, m, w);
        assert AllSizesFit(Nil, w);
      } else {
        FitsNewer(us.tail, vs.tail, m, w);
        if vs.head.Node? { FitsNewer(us.head.items, vs.head.items, m, w); }
      }
    }
  }

  lemma {:induction false} SameFilled(us: List, vs: List, m: nat)
    requires UpgradeAll(us, vs, m) && AllUnset(vs, m)
    ensures AnyFilled(us) <==> AnyFilled(vs)
    decreases vs
  {
    if vs.Cons? {
      if Added(vs.head, m) {
        SameFilled(us, vs.tail, m);
      } else {
        SameFilled(us.tail, vs.tail, m);
        if vs.head.Node? {
          SameFilled(us.head.items, vs.head.items, m);
          SameLength(us.head.items, vs.head.items, m);
        }
      }
    }
  }

  lemma {:induction false} SameLossy(us: List, vs: List, m: nat)
    requires UpgradeAll(us, vs, m) && AllUnset(vs, m)
    ensures AnyLossy(us) <==> AnyLossy(vs)
    decreases vs
  {
    if vs.Cons? {
      if Added(vs.head, m) {
        SameLossy(us, vs.tail, m);
      } else {
        SameLossy(us.tail, vs.tail, m);
        if vs.head.Node? {
          SameLossy(us.head.items, vs.head.items, m);
          SameFilled(us.head.items, vs.head.items, m);
        }
      }
    }
  }

  /** After the early passes, data older than the upgrade has nothing more to give. */
  lemma {:induction false} EarlySettles(us: List, vs: List, m: nat, early: seq<nat>)
    requires UpgradeAll(us, vs, m) && AllUnset(vs, m) && AllCovered(us, early)
    ensures AllSettled(vs, early)
    decreases vs
  {
    if vs.Cons? {
      if Added(vs.head, m) {
        EarlySettles(us, vs.tail, m, early);
      } else {
        EarlySettles(us.tail, vs.tail, m, early);
        if vs.head.Node? && !vs.head.kind.Polymorphic? && !vs.head.kind.Compatible? {
          EarlySettles(us.head.items, vs.head.items, m, early);
        }
      }
    }
  }

  // ----- reading never gives bytes back -----

  lemma {:induction false} FieldsShrink(targets: seq<F.Field>, vec: seq<Byte>, i: nat, width: nat, bytes: seq<Byte>)
    requires i <= |targets| && |targets| <= 8 * |vec|
    ensures
      var r := F.ReadFields(targets, vec, i, width, bytes);
      r.Read? ==> |r.rest| <= |bytes|
    decreases |targets| - i
  {
    hide F.BitAt, F.Extend;
    if i < |targets| {
      var n := I.Min(width, F.SizeOf(targets[i]));
      FieldsShrink(targets, vec, i + 1, width, bytes);
      if n <= |bytes| { FieldsShrink(targets, vec, i + 1, width, bytes[n..]); }
    }
  }

  lemma BlockShrinks(targets: seq<F.Field>, bytes: seq<Byte>)
    requires |targets| > 0
    ensures
      var r := F.ReadBlock(targets, bytes);
      r.Read? ==> |r.rest| <= |bytes|
  {
    hide F.ReadFields, F.BitAt;
    var n := |targets|;
    var size := F.BitsetSize(n);
    if size <= |bytes| {
      var vec := bytes[..size];
      var code := F.Bit(F.BitAt(vec, n), 1) + F.Bit(F.BitAt(vec, n + 1), 2);
      FieldsShrink(targets, vec, 0, F.Bytes(code), bytes[size..]);
    }
  }

  predicate Shrinks(r: Got, bytes: seq<Byte>) { r.Got? ==> |r.rest| <= |bytes| }

  predicate AllShrinks(r: GotAll, bytes: seq<Byte>) { r.GotAll? ==> |r.rest| <= |bytes| }

  lemma {:induction false} OneShrinks(t: Type, w: nat, bytes: seq<Byte>)
    ensures Shrinks(ReadOne(t, w, bytes), bytes)
    decreases t, 0, 0
  {
    hide F.FromBytes, F.ReadBlock;
    match t
    case GroupType(ms) => MembersShrink(ms, w, false, [], bytes);
    case ContainerType(e) => if |bytes| >= w { TimesShrink(e, F.FromBytes(bytes[..w]), w, bytes[w..]); }
    case OptionalType(e) => if |bytes| >= 1 { OneShrinks(e, w, bytes[1..]); }
    case PolymorphicType(ids, derived) =>
      if |bytes| >= 5 { CaseShrinks(derived, IndexOf(ids, F.FromBytes(bytes[1..5])), w, bytes[5..]); }
    case VariantType(cases) => if |bytes| >= 1 { CaseShrinks(cases, bytes[0], w, bytes[1..]); }
    case ExpectedType(value, error) =>
      if |bytes| >= 1 {
        OneShrinks(error, w, bytes[1..]);
        MembersShrink(value, w, false, [], bytes[1..]);
      }
    case PaddedType(ms, pads) => PaddedShrinks(ms, pads, w, bytes);
    case StructType(fast, ms) =>
      MembersShrink(ms, w, fast, [], bytes);
      if fast && Targets(ms) != [] {
        BlockShrinks(Targets(ms), bytes);
        var r := F.ReadBlock(Targets(ms), bytes);
        if r.Read? { MembersShrink(ms, w, fast, r.values, r.rest); }
      }
    case _ =>
  }

  lemma {:induction false} MembersShrink(ts: Types, w: nat, fast: bool, ints: seq<int>, bytes: seq<Byte>)
    ensures AllShrinks(ReadMembers(ts, w, fast, ints, bytes), bytes)
    decreases ts, 0, 0
  {
    hide ReadOne;
    if ts.MoreTypes? {
      if fast && ts.head.NumberType? {
        if ints != [] { MembersShrink(ts.tail, w, fast, ints[1..], bytes); }
      } else {
        OneShrinks(ts.head, w, bytes);
        var r := ReadOne(ts.head, w, bytes);
        if r.Got? { MembersShrink(ts.tail, w, fast, ints, r.rest); }
      }
    }
  }

  lemma {:induction false} TimesShrink(t: Type, n: nat, w: nat, bytes: seq<Byte>)
    ensures AllShrinks(ReadTimes(t, n, w, bytes), bytes)
    decreases t, 1, n
  {
    hide ReadOne;
    if n > 0 {
      OneShrinks(t, w, bytes);
      var r := ReadOne(t, w, bytes);
      if r.Got? { TimesShrink(t, n - 1, w, r.rest); }
    }
  }

  lemma {:induction false} CaseShrinks(cases: Types, i: nat, w: nat, bytes: seq<Byte>)
    ensures AllShrinks(ReadCase(cases, i, w, bytes), bytes)
    decreases cases, 1, 0
  {
    hide ReadOne;
    if cases.MoreTypes? {
      if i == 0 { OneShrinks(cases.head, w, bytes); } else { CaseShrinks(cases.tail, i - 1, w, bytes); }
    }
  }

  lemma {:induction false} PaddedShrinks(ts: Types, pads: seq<nat>, w: nat, bytes: seq<Byte>)
    ensures AllShrinks(ReadPadded(ts, pads, w, bytes), bytes)
    decreases ts, 0, 0
  {
    hide ReadOne;
    if ts.MoreTypes? && pads != [] {
      OneShrinks(ts.head, w, bytes);
      var r := ReadOne(ts.head, w, bytes);
      if r.Got? && |r.rest| >= pads[0] { PaddedShrinks(ts.tail, pads[1..], w, r.rest[pads[0]..]); }
    }
  }

  lemma {:induction false} VersionShrinks(t: Type, v: Value, w: nat, version: nat, limit: int, bytes: seq<Byte>)
    ensures Shrinks(ReadVersion(t, v, w, version, limit, bytes), bytes)
    decreases t, 0, v
  {
    hide ReadOne;
    if v.Node? {
      match t
      case CompatibleType(_, e) => if |bytes| >= 1 { OneShrinks(e, w, bytes[1..]); }
      case GroupType(ms) => VersionsShrink(ms, v.items, w, version, limit, bytes);
      case ContainerType(e) => VersionEachShrinks(e, v.items, w, version, limit, bytes);
      case OptionalType(e) => VersionEachShrinks(e, v.items, w, version, limit, bytes);
      case VariantType(cases) =>
        if v.kind.Variant? { VersionCaseShrinks(cases, v.kind.index, v.items, w, version, limit, bytes); }
      case ExpectedType(value, error) =>
        VersionsShrink(value, v.items, w, version, limit, bytes);
        VersionEachShrinks(error, v.items, w, version, limit, bytes);
      case PaddedType(ms, _) => VersionsShrink(ms, v.items, w, version, limit, bytes);
      case StructType(_, ms) => VersionsShrink(ms, v.items, w, version, limit, bytes);
      case _ =>
    }
  }

  lemma {:induction false} VersionsShrink(ts: Types, vs: List, w: nat, version: nat, limit: int, bytes: seq<Byte>)
    ensures AllShrinks(ReadVersions(ts, vs, w, version, limit, bytes), bytes)
    decreases ts, 0, vs
  {
    hide ReadVersion;
    if ts.MoreTypes? && vs.Cons? {
      VersionShrinks(ts.head, vs.head, w, version, limit, bytes);
      var r := ReadVersion(ts.head, vs.head, w, version, limit, bytes);
      if r.Got? { VersionsShrink(ts.tail, vs.tail, w, version, limit, r.rest); }
    }
  }

  lemma {:induction false} VersionEachShrinks(t: Type, vs: List, w: nat, version: nat, limit: int, bytes: seq<Byte>)
    ensures AllShrinks(ReadVersionEach(t, vs, w, version, limit, bytes), bytes)
    decreases t, 1, vs
  {
    hide ReadVersion;
    if vs.Cons? {
      VersionShrinks(t, vs.head, w, version, limit, bytes);
      var r := ReadVersion(t, vs.head, w, version, limit, bytes);
      if r.Got? { VersionEachShrinks(t, vs.tail, w, version, limit, r.rest); }
    }
  }

  lemma {:induction false} VersionCaseShrinks(cases: Types, i: nat, vs: List, w: nat, version: nat, limit: int,
                                              bytes: seq<Byte>)
    ensures AllShrinks(ReadVersionCase(cases, i, vs, w, version, limit, bytes), bytes)
    decreases cases, 1, vs
  {
    hide ReadVersionEach;
    if cases.MoreTypes? {
      if i == 0 {
        VersionEachShrinks(cases.head, vs, w, version, limit, bytes);
      } else {
        VersionCaseShrinks(cases.tail, i - 1, vs, w, version, limit, bytes);
      }
    }
  }

  lemma {:induction false} PassesShrink(ts: Types, vs: List, w: nat, versions: seq<nat>, limit: int, bytes: seq<Byte>)
    ensures AllShrinks(ReadPasses(ts, vs, w, versions, limit, bytes), bytes)
    decreases |versions|
  {
    hide ReadVersions;
    if versions != [] {
      VersionsShrink(ts, vs, w, versions[0], limit, bytes);
      var r := ReadVersions(ts, vs, w, versions[0], limit, bytes);
      if r.GotAll? { PassesShrink(ts, r.values, w, versions[1..], limit, r.rest); }
    }
  }

  // ----- a pass that meets a member takes at least a byte -----

  /** A pass of that version reaches a member. */
  predicate Meets(v: Value, version: nat)
  {
    v.Node? && match v.kind
      case Compatible(n) => n == version
      case Polymorphic(_) => false
      case _ => AnyMeets(v.items, version)
  }

  predicate AnyMeets(vs: List, version: nat) { vs.Cons? && (Meets(vs.head, version) || AnyMeets(vs.tail, version)) }

  predicate Takes(r: Got, bytes: seq<Byte>) { r.Got? ==> |r.rest| < |bytes| }

  predicate AllTakes(r: GotAll, bytes: seq<Byte>) { r.GotAll? ==> |r.rest| < |bytes| }

  lemma {:induction false} VersionTakes(v: Value, t: Type, done: seq<nat>, w: nat, version: nat, limit: int,
                                        bytes: seq<Byte>)
    requires HasType(v, t) && Meets(v, version) && |bytes| > limit
    ensures Takes(ReadVersion(t, Keep(v, done), w, version, limit, bytes), bytes)
    decreases t, 0, v
  {
    match t
    case CompatibleType(n, e) => MemberTakes(v, n, e, done, w, version, limit, bytes);
    case GroupType(ms) => VersionsTake(v.items, ms, done, w, version, limit, bytes);
    case ContainerType(e) => VersionEachTakes(v.items, e, done, w, version, limit, bytes);
    case OptionalType(e) =>
      OneIsAll(v.items, e);
      VersionEachTakes(v.items, e, done, w, version, limit, bytes);
    case VariantType(cases) => VersionCaseTakes(v.items, cases, v.kind.index, done, w, version, limit, bytes);
    case ExpectedType(value, error) =>
      if v.kind.ok {
        VersionsTake(v.items, value, done, w, version, limit, bytes);
      } else {
        OneIsAll(v.items, error);
        VersionEachTakes(v.items, error, done, w, version, limit, bytes);
      }
    case PaddedType(ms, _) => VersionsTake(v.items, ms, done, w, version, limit, bytes);
    case StructType(_, ms) => VersionsTake(v.items, ms, done, w, version, limit, bytes);
    case _ =>
  }

  lemma MemberTakes(v: Value, n: nat, e: Type, done: seq<nat>, w: nat, version: nat, limit: int, bytes: seq<Byte>)
    requires HasType(v, CompatibleType(n, e)) && Meets(v, version) && |bytes| > limit
    ensures Takes(ReadVersion(CompatibleType(n, e), Keep(v, done), w, version, limit, bytes), bytes)
  {
    hide ReadOne, HasType;
    MemberTyped(v, n, e);
    if |bytes| >= 1 { OneShrinks(e, w, bytes[1..]); }
  }

  lemma {:induction false} VersionsTake(vs: List, ts: Types, done: seq<nat>, w: nat, version: nat, limit: int,
                                        bytes: seq<Byte>)
    requires HaveTypes(vs, ts) && AnyMeets(vs, version) && |bytes| > limit
    ensures AllTakes(ReadVersions(ts, KeepAll(vs, done), w, version, limit, bytes), bytes)
    decreases ts, 0, vs
  {
    hide ReadVersion, HasType, Keep, Meets;
    var head := Keep(vs.head, done);
    VersionShrinks(ts.head, head, w, version, limit, bytes);
    if Meets(vs.head, version) { VersionTakes(vs.head, ts.head, done, w, version, limit, bytes); }
    var r := ReadVersion(ts.head, head, w, version, limit, bytes);
    if r.Got? {
      VersionsShrink(ts.tail, KeepAll(vs.tail, done), w, version, limit, r.rest);
      if |r.rest| == |bytes| { VersionsTake(vs.tail, ts.tail, done, w, version, limit, r.rest); }
    }
  }

  lemma {:induction false} VersionEachTakes(vs: List, t: Type, done: seq<nat>, w: nat, version: nat, limit: int,
                                            bytes: seq<Byte>)
    requires AllHaveType(vs, t) && AnyMeets(vs, version) && |bytes| > limit
    ensures AllTakes(ReadVersionEach(t, KeepAll(vs, done), w, version, limit, bytes), bytes)
    decreases t, 1, vs
  {
    hide ReadVersion, HasType, Keep, Meets;
    var head := Keep(vs.head, done);
    VersionShrinks(t, head, w, version, limit, bytes);
    if Meets(vs.head, version) { VersionTakes(vs.head, t, done, w, version, limit, bytes); }
    var r := ReadVersion(t, head, w, version, limit, bytes);
    if r.Got? {
      VersionEachShrinks(t, KeepAll(vs.tail, done), w, version, limit, r.rest);
      if |r.rest| == |bytes| { VersionEachTakes(vs.tail, t, done, w, version, limit, r.rest); }
    }
  }

  lemma {:induction false} VersionCaseTakes(vs: List, cases: Types, i: nat, done: seq<nat>, w: nat, version: nat,
                                            limit: int, bytes: seq<Byte>)
    requires IsCase(vs, cases, i) && AnyMeets(vs, version) && |bytes| > limit
    ensures AllTakes(ReadVersionCase(cases, i, KeepAll(vs, done), w, version, limit, bytes), bytes)
    decreases cases, 1, vs
  {
    hide ReadVersionEach, HasType, KeepAll, AnyMeets;
    if i == 0 {
      OneIsAll(vs, cases.head);
      VersionEachTakes(vs, cases.head, done, w, version, limit, bytes);
    } else {
      VersionCaseTakes(vs, cases.tail, i - 1, done, w, version, limit, bytes);
    }
  }

  lemma {:induction false} UnmetWritesNothing(vs: List, w: nat, version: nat)
    requires AllShaped(vs) && !AnyMeets(vs, version)
    ensures WriteVersions(vs, w, version) == []
    decreases vs
  {
    if vs.Cons? {
      UnmetWritesNothing(vs.tail, w, version);
      if vs.head.Node? && !vs.head.kind.Compatible? && !vs.head.kind.Polymorphic? {
        UnmetWritesNothing(vs.head.items, w, version);
      }
    }
  }

  lemma {:induction false} PassesTake(vs: List, ts: Types, done: seq<nat>, w: nat, versions: seq<nat>, i: nat,
                                      limit: int, bytes: seq<Byte>)
    requires HaveTypes(vs, ts) && w > 0 && AllSizesFit(vs, w) && Ascending(done + versions) && |bytes| > limit
    requires i < |versions| && AnyMeets(vs, versions[i])
    ensures AllTakes(ReadPasses(ts, KeepAll(vs, done), w, versions, limit, bytes), bytes)
    decreases |versions|
  {
    hide ReadVersions, HaveTypes, KeepAll, AllSizesFit, AnyMeets, WriteVersions;
    var version, later := versions[0], versions[1..];
    if AnyMeets(vs, version) {
      VersionsTake(vs, ts, done, w, version, limit, bytes);
      var r := ReadVersions(ts, KeepAll(vs, done), w, version, limit, bytes);
      if r.GotAll? { PassesShrink(ts, r.values, w, later, limit, r.rest); }
    } else {
      assert version !in done by { NewVersion(done, versions); }
      TypedAreShaped(vs, ts);
      UnmetWritesNothing(vs, w, version);
      VersionsReadBack(vs, ts, done, w, version, limit, bytes);
      assert [] + bytes == bytes && done + versions == (done + [version]) + later;
      PassesTake(vs, ts, done + [version], w, later, i - 1, limit, bytes);
    }
  }

  lemma {:induction false} MetLater(vs: List, early: seq<nat>, late: seq<nat>) returns (i: nat)
    requires AllCovered(vs, early + late) && !AllCovered(vs, early)
    ensures i < |late| && AnyMeets(vs, late[i])
    decreases vs
  {
    if !AllCovered(vs.tail, early) {
      i := MetLater(vs.tail, early, late);
    } else if vs.head.kind.Compatible? {
      i :| 0 <= i < |late| && late[i] == vs.head.kind.version;
    } else {
      i := MetLater(vs.head.items, early, late);
    }
  }

  lemma {:induction false} PassesInTurn(ts: Types, vs: List, w: nat, early: seq<nat>, late: seq<nat>, limit: int,
                                        bytes: seq<Byte>)
    ensures ReadPasses(ts, vs, w, early + late, limit, bytes)
      == match ReadPasses(ts, vs, w, early, limit, bytes)
         case FailedAll => FailedAll
         case GotAll(us, after) => ReadPasses(ts, us, w, late, limit, after)
    decreases |early|
  {
    hide ReadVersions;
    if early == [] {
      assert early + late == late;
    } else {
      assert (early + late)[1..] == early[1..] + late;
      var r := ReadVersions(ts, vs, w, early[0], limit, bytes);
      if r.GotAll? { PassesInTurn(ts, r.values, w, early[1..], late, limit, r.rest); }
    }
  }

  // ----- the newer program reads the older one's data -----

  /** The versions grow with every upgrade. */
  predicate Grown(early: seq<nat>, late: seq<nat>, m: nat)
  {
    Ascending(early + late) && NotAbove(early, m) && forall i :: 0 <= i < |late| ==> late[i] > m
  }

  /**
    After the early passes `lost` bytes are missing from what the header announced. The
    members the upgrade added stay empty exactly when none is missing, or none is reached.
  */
  lemma LatePasses(vs: List, ts: Types, w: nat, early: seq<nat>, late: seq<nat>, lost: nat, rest: seq<Byte>)
    requires HaveTypes(vs, ts) && AllShaped(vs) && w > 0 && AllSizesFit(vs, w) && Ascending(early + late)
    requires AllCovered(vs, early + late) && AllSettled(vs, early)
    ensures
      var r := ReadPasses(ts, KeepAll(vs, []), w, early + late, |rest| - lost, WritePasses(vs, w, early) + rest);
      r == GotAll(vs, rest) <==> !AnyLossy(vs) && (lost == 0 || AllCovered(vs, early))
  {
    hide ReadPasses, WritePasses, HaveTypes, KeepAll, AllSizesFit, AllCovered, AllSettled, AnyLossy, Ascending;
    var limit := |rest| - lost;
    assert [] + early == early;
    AscendingPrefix(early, late);
    PassesReadBack(vs, ts, [], w, early, limit, rest);
    PassesInTurn(ts, KeepAll(vs, []), w, early, late, limit, WritePasses(vs, w, early) + rest);
    KeepAllIff(vs, early);
    if lost == 0 {
      NothingLeftToPass(vs, ts, early, w, late, limit, rest);
    } else if AllCovered(vs, early) {
      NothingLate(vs, w, early, late);
      PassesReadBack(vs, ts, early, w, late, limit, rest);
      assert [] + rest == rest;
      assert AllSettled(vs, early + late) by { CoveredIsSettled(vs, early + late); }
      KeepAllIff(vs, early + late);
    } else {
      var i := MetLater(vs, early, late);
      PassesTake(vs, ts, early, w, late, i, limit, rest);
    }
  }

  lemma AscendingPrefix(early: seq<nat>, late: seq<nat>)
    requires Ascending(early + late)
    ensures Ascending(early)
  {
    assert forall i :: 0 <= i < |early| ==> (early + late)[i] == early[i];
  }

  lemma NothingLate(vs: List, w: nat, early: seq<nat>, late: seq<nat>)
    requires AllShaped(vs) && Ascending(early + late) && AllCovered(vs, early) && AllCovered(vs, early + late)
    ensures WritePasses(vs, w, late) == []
  {
    AscendingPrefix(early, late);
    PassesMany(vs, w, early);
    PassesMany(vs, w, early + late);
    PassesSplit(vs, w, early, late);
  }

  /**
    Older data read by the upgraded program: it gives the older value with every added member
    empty, and leaves off where the data ends, if and only if nothing was lost in writing it
    and the announced length is exact or the program has no added member to look for.
  */
  lemma OlderDataIff(n: Traits, t: Traits, first: Traits, code: nat, literal: seq<Byte>, ts: Types, early: seq<nat>,
                     late: seq<nat>, m: nat, olds: List, news: List, rest: seq<Byte>)
    requires HaveTypes(news, ts) && AllShaped(olds) && UpgradeAll(olds, news, m) && AllUnset(news, m)
    requires Typed(t, olds) && Versioned(t, early, olds) && (!t.compatible ==> early == []) && !t.disableHash
    requires Allowed(n) && Versioned(n, early + late, news) && n.compatible && Grown(early, late, m)
    requires code % 2 == 0 && code < 0x1_0000_0000
    requires Countable(olds, InfoOf(t, |literal|, PayloadSize(olds, false)).len)
    ensures
      var info := InfoOf(t, |literal|, PayloadSize(olds, false));
      var bytes := Packed(t, first, HashHead(first, code, info), literal, early, olds) + rest;
      Deserialize(n, code, literal, ts, early + late, bytes) == GotAll(news, rest)
      <==>
      && !AnyLossy(olds)
      && (t.compatible ==>
            if OddHash(first, info) then !AnyHidden(olds) || AllCovered(news, early) else AllCovered(olds, []))
  {
    hide Deserialize, Packed, ReadPasses, WritePasses, KeepAll, PayloadSize, InfoOf, HaveTypes, AllSizesFit, HashHead,
         SizeType, F.Bytes, Ascending, AllCovered, AllSettled, OddHash, AnyLossy, AnyHidden, UpgradeAll, AllUnset,
         AllShaped, WriteMany, HeaderAgrees;
    TypedAreShaped(news, ts);
    var info := InfoOf(t, |literal|, PayloadSize(olds, false));
    var hash, w := HashHead(first, code, info), F.Bytes(SizeType(info));
    assert w > 0 by { SomeWidth(SizeType(info)); }
    assert AllSizesFit(news, w) by {
      SizeTypeIsLeast(t, |literal|, olds);
      AllFitFromSizes(olds, w);
      FitsNewer(olds, news, m, w);
    }
    SameMainAll(olds, news, m, w, false);
    SamePasses(olds, news, m, w, early);
    SameLossy(olds, news, m);
    MainPassRead(n, t, first, code, literal, ts, early + late, early, olds, news, rest);
    var packed := Packed(t, first, hash, literal, early, olds);
    if t.compatible && OddHash(first, info) {
      NeverTooShort(t, first, hash, literal, early, olds);
      assert HeaderAgrees(t, first, info) by { OddAgrees(t, first, info); }
      ExactIff(t, first, hash, literal, early, olds);
      EarlySettles(olds, news, m, early);
      LatePasses(news, ts, w, early, late, info.len - |packed|, rest);
    } else {
      Unannounced(t, first, hash, literal, ts, early, early + late, m, olds, news, rest);
    }
  }

  /** Without an announced length the added members stay empty, but so do the earlier ones. */
  lemma Unannounced(t: Traits, first: Traits, hash: nat, literal: seq<Byte>, ts: Types, early: seq<nat>,
                    known: seq<nat>, m: nat, olds: List, news: List, rest: seq<Byte>)
    requires HaveTypes(news, ts) && AllShaped(olds) && UpgradeAll(olds, news, m) && AllUnset(news, m)
    requires Versioned(t, early, olds)
    ensures
      var info := InfoOf(t, |literal|, PayloadSize(olds, false));
      var w := F.Bytes(SizeType(info));
      var bytes := Packed(t, first, hash, literal, early, olds) + rest;
      var after := (if t.compatible then WritePasses(olds, w, early) else []) + rest;
      ReadPasses(ts, KeepAll(news, []), w, known, |bytes|, after) == GotAll(news, rest)
      <==> !AnyLossy(olds) && (t.compatible ==> AllCovered(olds, []))
  {
    hide Packed, ReadPasses, WritePasses, KeepAll, PayloadSize, InfoOf, HaveTypes, AllCovered, AllSettled, AnyLossy,
         UpgradeAll, AllUnset, SizeType, Ascending;
    var info := InfoOf(t, |literal|, PayloadSize(olds, false));
    var w := F.Bytes(SizeType(info));
    var packed := Packed(t, first, hash, literal, early, olds);
    var passes := if t.compatible then WritePasses(olds, w, early) else [];
    if t.compatible {
      PassesInside(t, first, hash, literal, early, olds);
      PassesEmptyIff(olds, w, early);
    }
    NothingLeftToPass(news, ts, [], w, known, |packed + rest|, passes + rest);
    SameLossy(olds, news, m);
    if AllCovered(olds, []) {
      EarlySettles(olds, news, m, []);
      KeepAllIff(news, []);
    }
  }

  // ----- the older program reads the newer one's data -----

  /** Newer data read by a program from before the upgrade: what it is given, and what it leaves unread. */
  lemma NewerDataRead(n: Traits, t: Traits, first: Traits, code: nat, literal: seq<Byte>, ts: Types, early: seq<nat>,
                      late: seq<nat>, m: nat, olds: List, news: List, rest: seq<Byte>)
    requires HaveTypes(olds, ts) && AllShaped(news) && UpgradeAll(olds, news, m) && Grown(early, late, m)
    requires Typed(t, news) && Versioned(t, early + late, news) && t.compatible
    requires Allowed(n) && Versioned(n, early, olds) && (!n.compatible ==> early == []) && !n.disableHash
    requires code % 2 == 0 && code < 0x1_0000_0000
    requires Countable(news, InfoOf(t, |literal|, PayloadSize(news, false)).len)
    ensures
      var info := InfoOf(t, |literal|, PayloadSize(news, false));
      var bytes := Packed(t, first, HashHead(first, code, info), literal, early + late, news) + rest;
      var odd := OddHash(first, info);
      Deserialize(n, code, literal, ts, early, bytes)
      == GotAll(KeepAll(olds, if odd then early else []),
                WritePasses(news, F.Bytes(SizeType(info)), if odd then late else early + late) + rest)
  {
    hide Deserialize, Packed, ReadPasses, WritePasses, KeepAll, PayloadSize, InfoOf, HaveTypes, AllSizesFit, HashHead,
         SizeType, F.Bytes, Ascending, AllCovered, OddHash, UpgradeAll, AllShaped, WriteMany;
    TypedAreShaped(olds, ts);
    var info := InfoOf(t, |literal|, PayloadSize(news, false));
    var hash, w := HashHead(first, code, info), F.Bytes(SizeType(info));
    assert w > 0 by { SomeWidth(SizeType(info)); }
    assert AllSizesFit(olds, w) by {
      SizeTypeIsLeast(t, |literal|, news);
      AllFitFromSizes(news, w);
      FitsOlder(olds, news, m, w);
    }
    SameMainAll(olds, news, m, w, false);
    SamePasses(olds, news, m, w, early);
    PassesSplit(news, w, early, late);
    MainPassRead(n, t, first, code, literal, ts, early, early + late, news, olds, rest);
    var packed := Packed(t, first, hash, literal, early + late, news);
    var limit, unread := |packed + rest| - Announced(t, first, info), WritePasses(news, w, late) + rest;
    assert WritePasses(news, w, early + late) + rest == WritePasses(olds, w, early) + unread;
    if !n.compatible {
      assert early + late == late;
    } else if OddHash(first, info) {
      NeverTooShort(t, first, hash, literal, early + late, news);
      assert [] + early == early;
      PassesReadBack(olds, ts, [], w, early, limit, unread);
    } else {
      PassesInside(t, first, hash, literal, early + late, news);
      NothingLeftToPass(olds, ts, [], w, early, limit, WritePasses(news, w, early + late) + rest);
    }
  }

  /**
    It is given the value as it was before the upgrade if and only if no early member was lost
    in writing; and it finds the next object, past members it has never heard of, if and only
    if the announced length is exact.
  */
  lemma NewerDataIff(n: Traits, t: Traits, first: Traits, code: nat, literal: seq<Byte>, ts: Types, early: seq<nat>,
                     late: seq<nat>, m: nat, olds: List, news: List, rest: seq<Byte>)
    requires HaveTypes(olds, ts) && AllShaped(news) && UpgradeAll(olds, news, m) && Grown(early, late, m)
    requires Typed(t, news) && Versioned(t, early + late, news) && t.compatible
    requires Allowed(n) && Versioned(n, early, olds) && (!n.compatible ==> early == []) && !n.disableHash
    requires code % 2 == 0 && code < 0x1_0000_0000
    requires Countable(news, InfoOf(t, |literal|, PayloadSize(news, false)).len)
    ensures
      var info := InfoOf(t, |literal|, PayloadSize(news, false));
      var packed := Packed(t, first, HashHead(first, code, info), literal, early + late, news);
      var r := Deserialize(n, code, literal, ts, early, packed + rest);
      && r.GotAll?
      && (r.values == olds <==> if OddHash(first, info) then !AnyLossy(olds) else !AnyFilled(olds))
      && (ConsumedLength(n, code, literal, ts, early, packed + rest) == |packed|
          <==> if OddHash(first, info) then !AnyHidden(news) else AllCovered(news, []))
  {
    hide Deserialize, Packed, ReadHeader, WritePasses, KeepAll, PayloadSize, InfoOf, HaveTypes, HashHead, SizeType,
         F.Bytes, AllCovered, OddHash, UpgradeAll, AllShaped, AnyLossy, AnyFilled, AnyHidden, AllSettled, HeaderAgrees;
    var info := InfoOf(t, |literal|, PayloadSize(news, false));
    var hash, w := HashHead(first, code, info), F.Bytes(SizeType(info));
    var packed := Packed(t, first, hash, literal, early + late, news);
    NewerDataRead(n, t, first, code, literal, ts, early, late, m, olds, news, rest);
    HeaderOf(n, t, first, code, literal, early + late, news, rest);
    PassesInside(t, first, hash, literal, early + late, news);
    PassesSplit(news, w, early, late);
    if OddHash(first, info) {
      CoveredIsSettled(olds, early);
      KeepAllIff(olds, early);
      NeverTooShort(t, first, hash, literal, early + late, news);
      assert HeaderAgrees(t, first, info) by { OddAgrees(t, first, info); }
      ExactIff(t, first, hash, literal, early + late, news);
    } else {
      KeepNothingAll(olds);
      BareAllIff(olds);
      PassesEmptyIff(news, w, early + late);
    }
  }

  // ----- an upgrade that goes wrong -----

  /** A compatible member that holds an empty one, before and after a third one was added beside it. */
  function Nested(): Value { Node(Compatible(1), Cons(Node(Compatible(2), Nil), Nil)) }

  function Before(): List { Cons(Nested(), Nil) }

  function After(): List { Cons(Nested(), Cons(Node(Compatible(3), Nil), Nil)) }

  function AfterTypes(): Types
  {
    MoreTypes(CompatibleType(1, CompatibleType(2, RawType(1))), MoreTypes(CompatibleType(3, RawType(1)), NoTypes))
  }

  /** The older data announces a byte it does not have, where the upgraded program looks for its new member. */
  lemma NestingBreaksUpgrade(rest: seq<Byte>)
    ensures
      var t := Traits(true, false, false, false);
      && AllShaped(Before()) && UpgradeAll(Before(), After(), 2) && Grown([1], [3], 2)
      && Deserialize(t, 0, [], AfterTypes(), [1] + [3], Packed(t, t, 1, [], [1], Before()) + rest)
         != GotAll(After(), rest)
  {
    hide Deserialize, Packed, PayloadSize, HaveTypes, AllCovered, AllSizes, AllShaped, UpgradeAll, AllUnset, AnyHidden,
         AnyLossy, Before, After, AfterTypes;
    var t := Traits(true, false, false, false);
    NestedTyped();
    NestedUpgrade();
    NestedCounted();
    NestedReach();
    CountsMany(Before(), false);
    var sz := PayloadSize(Before(), false);
    SizeTypeIs(t, 0, sz);
    OlderDataIff(t, t, t, 0, [], AfterTypes(), [1], [3], 2, Before(), After(), rest);
  }

  lemma NestedTyped()
    ensures HaveTypes(After(), AfterTypes()) && AllShaped(Before()) && AllSizes(Before()) == []
  {
    var inner, v, w := Node(Compatible(2), Nil), Nested(), Node(Compatible(3), Nil);
    var t := CompatibleType(2, RawType(1));
    assert HasType(inner, t) && IsOne(v.items, t) && HasType(v, CompatibleType(1, t));
    assert HasType(w, CompatibleType(3, RawType(1)));
    assert HaveTypes(After().tail, AfterTypes().tail);
    TypedAreShaped(After(), AfterTypes());
    OnlySizes(inner, v.items);
    OnlySizes(v, Before());
  }

  lemma NestedUpgrade()
    ensures UpgradeAll(Before(), After(), 2) && AllUnset(After(), 2) && Grown([1], [3], 2)
  {
    var inner, v := Node(Compatible(2), Nil), Nested();
    assert UpgradeAll(Nil, Nil, 2) && AllUnset(Nil, 2) && Upgrade(inner, inner, 2) && Unset(inner, 2);
    assert UpgradeAll(v.items, v.items, 2) && Upgrade(v, v, 2) && AllUnset(v.items, 2) && Unset(v, 2);
    assert UpgradeAll(Nil, After().tail, 2) && AllUnset(After().tail, 2);
    assert [1] + [3] == [1, 3];
  }

  lemma NestedCounted()
    ensures AllShaped(Before()) && PayloadSize(Before(), false).total == 2
  {
    hide OneSize, PayloadSize;
    NestedTyped();
    var inner, v := Node(Compatible(2), Nil), Nested();
    assert AllShaped(v.items) && Shaped(v);
    assert PayloadSize(Nil, false).total == 0 by { OnlyCounted(inner, Nil); }
    MemberCounted(inner);
    OnlyCounted(inner, v.items);
    MemberCounted(v);
    OnlyCounted(v, Before());
  }

  lemma OnlyCounted(v: Value, vs: List)
    requires Shaped(v) && AllShaped(vs) && (vs == Nil || vs == Cons(v, Nil))
    ensures PayloadSize(vs, false).total == if vs == Nil then 0 else OneSize(v, false).total
  {
    hide OneSize;
    assert PayloadSize(Nil, false) == ZERO;
  }

  lemma NestedReach()
    ensures AllCovered(Before(), [1]) && AllCovered(After(), [1] + [3]) && !AllCovered(After(), [1])
    ensures AnyHidden(Before())
  {
    var inner, v, w := Node(Compatible(2), Nil), Nested(), Node(Compatible(3), Nil);
    assert [1] + [3] == [1, 3];
    assert AllCovered(Nil, [1]) && AllCovered(Nil, [1, 3]) && Covered(v, [1]) && Covered(v, [1, 3]);
    assert Covered(w, [1, 3]) && !Covered(w, [1]) && AllCovered(After().tail, [1, 3]);
    assert !AllCovered(After().tail, [1]);
    assert HasCompatible(inner) && AnyCompatible(v.items) && Hidden(v);
  }
}
