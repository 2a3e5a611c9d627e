/**
  Reading quantiles back: the two buffers' listings, each closed by a sentinel,
  are merged in value order against cumulative targets.
*/
module SketchStat {
  import opened Integers
  import opened FloatCodec
  import opened SketchBuffer

  /** A quantile rate. An infinite rate behaves like any rate above 1 or below 0. */
  datatype Rate = NaN | Rate(value: real)

  const SENTINEL: Entry := Entry(8192, 0)

  predicate PairLeq(x: Entry, y: Entry)
  {
    x.index < y.index || (x.index == y.index && x.count <= y.count)
  }

  /** The sum of decoded value times count, for a decoding of bucket indices. */
  function Weight(es: seq<Entry>, decode: int -> real): real
  {
    if |es| == 0 then 0.0
    else Weight(es[..|es| - 1], decode) + Share(es[|es| - 1], decode)
  }

  function Share(e: Entry, decode: int -> real): real { decode(e.index) * e.count as real }

  class DataCopy {
    const arr0: seq<Entry>
    const arr1: seq<Entry>
    var index0: nat
    var index1: nat
    var smallerOne: int

    ghost predicate Valid()
      reads this
    {
      index0 < |arr0| && index1 < |arr1| && smallerOne == if PairLeq(arr0[index0], arr1[index1]) then 0 else 1
    }

    constructor (arr0: seq<Entry>, arr1: seq<Entry>)
      requires |arr0| > 0 && |arr1| > 0
      ensures Valid() && this.arr0 == arr0 && this.arr1 == arr1 && index0 == 0 && index1 == 0
    {
      this.arr0, this.arr1 := arr0, arr1;
      index0, index1 := 0, 0;
      smallerOne := if PairLeq(arr0[0], arr1[0]) then 0 else 1;
    }

    function Head(): Entry
      requires Valid()
      reads this
    {
      if smallerOne == 0 then arr0[index0] else arr1[index1]
    }

    method Inc()
      requires Valid() && (if smallerOne == 0 then index0 + 1 < |arr0| else index1 + 1 < |arr1|)
      modifies this
      ensures Valid()
      ensures index0 == old(index0) + (if old(smallerOne) == 0 then 1 else 0)
      ensures index1 == old(index1) + (if old(smallerOne) == 0 then 0 else 1)
    {
      if smallerOne == 0 { index0 := index0 + 1; } else { index1 := index1 + 1; }
      smallerOne := if PairLeq(arr0[index0], arr1[index1]) then 0 else 1;
    }
  }

  // ----- what the answers should be -----

  /** The number of observations of both buffers below ordered index `o`. */
  function Below(v0: seq<nat>, v1: seq<nat>, o: int): nat
    requires |v0| == |v1| == BUCKETS && -HALF <= o <= HALF
  {
    Sum(v0[..o + HALF]) + Sum(v1[..o + HALF])
  }

  /** Bucket `o` is the first one whose cumulative count reaches the target. */
  predicate Reaches(v0: seq<nat>, v1: seq<nat>, target: real, o: int)
    requires |v0| == |v1| == BUCKETS
  {
    -HALF <= o < HALF && Below(v0, v1, o) as real < target <= Below(v0, v1, o + 1) as real
  }

  predicate Skipped(e: Rate) { e.NaN? || e.value < 0.0 }

  function Target(e: Rate, count: nat): real
  {
    if Skipped(e) then 0.0
    else if e.value > 1.0 then count as real
    else if e.value == 0.0 then (if count < 1 then count else 1) as real
    else Fraction(e.value, count)
  }

  function Fraction(e: real, count: nat): real { e * count as real }

  /** The largest target asked for so far; zero when every rate was skipped. */
  function MaxTarget(rates: seq<Rate>, count: nat): real
  {
    if |rates| == 0 then 0.0
    else
      var m, t := MaxTarget(rates[..|rates| - 1], count), Target(rates[|rates| - 1], count);
      if t > m then t else m
  }

  /** The value answered for a target: the decoded bucket that reaches it, or
      `none` when nothing was asked for. */
  ghost predicate IsAnswer(v0: seq<nat>, v1: seq<nat>, decode: int -> real, none: real, target: real, a: real)
    requires |v0| == |v1| == BUCKETS
  {
    if target <= 0.0 then a == none
    else exists o :: Reaches(v0, v1, target, o) && a == decode(o)
  }

  // ----- listings, prefixes and cumulative counts -----

  lemma {:induction false} EmitPrefix(v: seq<nat>, n: nat)
    requires n <= |v|
    ensures
      var r, m := Emit(v), |Emit(v[..n])|;
      m <= |r| && r[..m] == Emit(v[..n]) && forall k :: m <= k < |r| ==> r[k].index >= n - HALF
  {
    if n < |v| {
      var w := v[..|v| - 1];
      assert w[..n] == v[..n];
      EmitPrefix(w, n);
    } else {
      assert v[..n] == v;
    }
  }

  lemma {:induction false} SumCountsMonotone(es: seq<Entry>, i: nat, j: nat)
    requires i <= j <= |es|
    ensures SumCounts(es[..i]) <= SumCounts(es[..j])
  {
    if i < j {
      assert es[..j][..j - 1] == es[..j - 1];
      SumCountsMonotone(es, i, j - 1);
    }
  }

  /** A cut of the listing at bucket `o` cuts the counts at `o`. */
  lemma CutBounds(v: seq<nat>, i: nat, o: int)
    requires |v| == BUCKETS && i <= |Emit(v)| && -HALF <= o <= HALF
    ensures (i == |Emit(v)| || Emit(v)[i].index >= o) ==> Sum(v[..o + HALF]) <= SumCounts(Emit(v)[..i])
    ensures (i == 0 || Emit(v)[i - 1].index < o) ==> SumCounts(Emit(v)[..i]) <= Sum(v[..o + HALF])
  {
    hide Emit, SumCounts, Sum;
    var r, n := Emit(v), o + HALF;
    var m := |Emit(v[..n])|;
    EmitPrefix(v, n);
    SumOfEmitted(v[..n]);
    EmitIsListing(v[..n]);
    if i == |r| || r[i].index >= o {
      SumCountsMonotone(r, m, i);
    }
    if i == 0 || r[i - 1].index < o {
      SumCountsMonotone(r, i, m);
    }
  }

  lemma ConsumeEntry(es: seq<Entry>, i: nat, decode: int -> real)
    requires i < |es|
    ensures SumCounts(es[..i + 1]) == SumCounts(es[..i]) + es[i].count
    ensures Weight(es[..i + 1], decode) == Weight(es[..i], decode) + Share(es[i], decode)
  {
    assert es[..i + 1][..i] == es[..i];
  }

  // ----- the merge -----

  /** The cursors stand at `i` and `j`: everything consumed lies at or below
      bucket `last`, everything left at or above it. */
  ghost predicate Cut(r0: seq<Entry>, r1: seq<Entry>, i: nat, j: nat, last: int)
  {
    && i <= |r0| && j <= |r1|
    && (i > 0 ==> r0[i - 1].index <= last) && (i < |r0| ==> last <= r0[i].index)
    && (j > 0 ==> r1[j - 1].index <= last) && (j < |r1| ==> last <= r1[j].index)
  }

  function Consumed(r0: seq<Entry>, r1: seq<Entry>, i: nat, j: nat): nat
    requires i <= |r0| && j <= |r1|
  {
    SumCounts(r0[..i]) + SumCounts(r1[..j])
  }

  function ConsumedWeight(r0: seq<Entry>, r1: seq<Entry>, i: nat, j: nat, decode: int -> real): real
    requires i <= |r0| && j <= |r1|
  {
    Weight(r0[..i], decode) + Weight(r1[..j], decode)
  }

  /** At a cut, the consumed count lies between the cumulative counts of its bucket. */
  lemma CutCounts(v0: seq<nat>, v1: seq<nat>, i: nat, j: nat, o: int)
    requires |v0| == |v1| == BUCKETS && -HALF <= o < HALF && Cut(Emit(v0), Emit(v1), i, j, o)
    ensures Below(v0, v1, o) <= Consumed(Emit(v0), Emit(v1), i, j) <= Below(v0, v1, o + 1)
  {
    CutBounds(v0, i, o);
    CutBounds(v1, j, o);
    CutBounds(v0, i, o + 1);
    CutBounds(v1, j, o + 1);
  }

  lemma WholeListing(r: seq<Entry>)
    ensures r[..|r|] == r
  {
  }

  lemma EverythingConsumed(v0: seq<nat>, v1: seq<nat>)
    requires |v0| == |v1| == BUCKETS
    ensures Consumed(Emit(v0), Emit(v1), |Emit(v0)|, |Emit(v1)|) == Sum(v0) + Sum(v1)
  {
    SumOfEmitted(v0);
    SumOfEmitted(v1);
    WholeListing(Emit(v0));
    WholeListing(Emit(v1));
  }

  lemma TargetBounds(e: Rate, count: nat)
    ensures 0.0 <= Target(e, count) <= count as real
  {
    if !Skipped(e) && 0.0 < e.value <= 1.0 {
      var c := count as real;
      assert (1.0 - e.value) * c >= 0.0;
    }
  }

  /** The entry under a cursor of a listing closed by the sentinel. */
  function At(r: seq<Entry>, i: nat): Entry
    requires i <= |r|
  {
    if i < |r| then r[i] else SENTINEL
  }

  function NextIndex(r0: seq<Entry>, r1: seq<Entry>, i: nat, j: nat): int
    requires i <= |r0| && j <= |r1|
  {
    var x, y := At(r0, i).index, At(r1, j).index;
    if x <= y then x else y
  }

  /** Strictly ascending bucket indices. */
  ghost predicate Ascending(r: seq<Entry>)
  {
    && (forall k :: 0 <= k < |r| ==> -HALF <= r[k].index < HALF)
    && (forall k, l :: 0 <= k < l < |r| ==> r[k].index < r[l].index)
  }

  /** What was consumed comes before what is left, also within one bucket. */
  ghost predicate InMergeOrder(r0: seq<Entry>, r1: seq<Entry>, i: nat, j: nat)
  {
    && i <= |r0| && j <= |r1|
    && (i > 0 && j < |r1| ==> PairLeq(r0[i - 1], r1[j]))
    && (j > 0 && i < |r0| ==> PairLeq(r1[j - 1], r0[i]))
  }

  /** Consuming the smaller head keeps the cut. */
  lemma StepCut(r0: seq<Entry>, r1: seq<Entry>, i: nat, j: nat, last: int)
    requires Ascending(r0) && Ascending(r1) && Cut(r0, r1, i, j, last) && InMergeOrder(r0, r1, i, j)
    requires NextIndex(r0, r1, i, j) < HALF
    ensures
      var o := NextIndex(r0, r1, i, j);
      && -HALF <= o && Cut(r0, r1, i, j, o)
      && if PairLeq(At(r0, i), At(r1, j))
         then i < |r0| && o == r0[i].index && Cut(r0, r1, i + 1, j, o) && InMergeOrder(r0, r1, i + 1, j)
         else j < |r1| && o == r1[j].index && Cut(r0, r1, i, j + 1, o) && InMergeOrder(r0, r1, i, j + 1)
  {
  }

  lemma ConsumeHead(r0: seq<Entry>, r1: seq<Entry>, i: nat, j: nat, decode: int -> real)
    requires i <= |r0| && j <= |r1|
    ensures i < |r0| ==>
      && Consumed(r0, r1, i + 1, j) == Consumed(r0, r1, i, j) + r0[i].count
      && ConsumedWeight(r0, r1, i + 1, j, decode) ==
         ConsumedWeight(r0, r1, i, j, decode) + Share(r0[i], decode)
    ensures j < |r1| ==>
      && Consumed(r0, r1, i, j + 1) == Consumed(r0, r1, i, j) + r1[j].count
      && ConsumedWeight(r0, r1, i, j + 1, decode) ==
         ConsumedWeight(r0, r1, i, j, decode) + Share(r1[j], decode)
  {
    if i < |r0| { ConsumeEntry(r0, i, decode); }
    if j < |r1| { ConsumeEntry(r1, j, decode); }
  }

  /** A merge in progress over two closed listings. */
  ghost predicate Merging(d: DataCopy, r0: seq<Entry>, r1: seq<Entry>, last: int)
    reads d
  {
    && Ascending(r0) && Ascending(r1) && -HALF <= last < HALF
    && d.arr0 == r0 + [SENTINEL] && d.arr1 == r1 + [SENTINEL] && d.Valid()
    && Cut(r0, r1, d.index0, d.index1, last) && InMergeOrder(r0, r1, d.index0, d.index1)
  }

  /** One cursor moves on by one. */
  predicate OneStep(i: nat, j: nat, i': nat, j': nat) { (i' == i + 1 && j' == j) || (i' == i && j' == j + 1) }

  /** One step of the merge: the smaller head is read and its cursor moves on. */
  method Consume(d: DataCopy, ghost decode: int -> real, ghost r0: seq<Entry>, ghost r1: seq<Entry>, ghost last: int)
    returns (head: Entry)
    requires Merging(d, r0, r1, last) && NextIndex(r0, r1, d.index0, d.index1) < HALF
    modifies d
    ensures OneStep(old(d.index0), old(d.index1), d.index0, d.index1)
    ensures head.index == old(NextIndex(r0, r1, d.index0, d.index1))
    ensures Cut(r0, r1, old(d.index0), old(d.index1), head.index) && Merging(d, r0, r1, head.index)
    ensures Consumed(r0, r1, d.index0, d.index1) == old(Consumed(r0, r1, d.index0, d.index1)) + head.count
    ensures ConsumedWeight(r0, r1, d.index0, d.index1, decode) ==
            old(ConsumedWeight(r0, r1, d.index0, d.index1, decode)) + Share(head, decode)
  {
    StepCut(r0, r1, d.index0, d.index1, last);
    ConsumeHead(r0, r1, d.index0, d.index1, decode);
    head := d.Head();
    assert head == if d.smallerOne == 0 then r0[d.index0] else r1[d.index1];
    d.Inc();
  }

  /** The sentinel is under both cursors only when everything has been consumed. */
  lemma NotAtEnd(v0: seq<nat>, v1: seq<nat>, i: nat, j: nat)
    requires |v0| == |v1| == BUCKETS && i <= |Emit(v0)| && j <= |Emit(v1)|
    requires Consumed(Emit(v0), Emit(v1), i, j) < Sum(v0) + Sum(v1)
    ensures NextIndex(Emit(v0), Emit(v1), i, j) < HALF
  {
    hide SumCounts, Sum;
    EmitIsListing(v0);
    EmitIsListing(v1);
    EverythingConsumed(v0, v1);
  }

  lemma EmitAscending(v: seq<nat>)
    requires |v| == BUCKETS
    ensures Ascending(Emit(v))
  {
    EmitIsListing(v);
  }

  /** A bucket below zero has not been consumed. */
  predicate NegativeLeft(r0: seq<Entry>, r1: seq<Entry>, i: nat, j: nat)
    requires i <= |r0| && j <= |r1|
  {
    NextIndex(r0, r1, i, j) < 0
  }

  /** Bucket `o` is the highest used one below zero. */
  ghost predicate IsTop(v0: seq<nat>, v1: seq<nat>, o: int)
    requires |v0| == |v1| == BUCKETS
  {
    && -HALF <= o < 0 && v0[o + HALF] + v1[o + HALF] > 0
    && forall k :: o + HALF < k < HALF ==> v0[k] == 0 && v1[k] == 0
  }

  /** The count of the last entry below zero in merge order. */
  function TopCount(v0: seq<nat>, v1: seq<nat>, o: int): nat
    requires |v0| == |v1| == BUCKETS && -HALF <= o < 0
  {
    Max(v0[o + HALF], v1[o + HALF])
  }

  /** Where a listing passes from the buckets up to `o` to those not below zero. */
  ghost predicate Passage(v: seq<nat>, r: seq<Entry>, o: int, m: nat)
    requires |v| == BUCKETS && -HALF <= o < 0
  {
    && m <= |r| && SumCounts(r[..m]) == Sum(v[..HALF])
    && (forall k :: 0 <= k < m ==> r[k].index <= o)
    && (forall k :: m <= k < |r| ==> r[k].index >= 0)
    && (if v[o + HALF] > 0
        then m > 0 && r[m - 1] == Entry(o, v[o + HALF]) && SumCounts(r[..m - 1]) + v[o + HALF] == SumCounts(r[..m])
        else m > 0 ==> r[m - 1].index < o)
  }

  lemma {:induction false} SumToZeros(v: seq<nat>, n: nat, hi: nat)
    requires n < hi <= |v| && forall k :: n < k < hi ==> v[k] == 0
    ensures Sum(v[..hi]) == Sum(v[..n]) + v[n]
  {
    assert v[..hi][..hi - 1] == v[..hi - 1];
    if n + 1 < hi { SumToZeros(v, n, hi - 1); }
  }

  lemma PassageOf(v: seq<nat>, o: int) returns (m: nat)
    requires |v| == BUCKETS && -HALF <= o < 0
    requires forall k :: o + HALF < k < HALF ==> v[k] == 0
    ensures Passage(v, Emit(v), o, m)
  {
    hide Emit, SumCounts, Sum;
    var p := AroundBucket(v, o);
    m := if v[o + HALF] > 0 then p + 1 else p;
    SumToZeros(v, o + HALF, HALF);
    EmitIsListing(v);
    EntriesAreUsed(v, Emit(v), o);
  }

  /** A listing has no entry for the unused buckets between `o` and zero. */
  lemma EntriesAreUsed(v: seq<nat>, r: seq<Entry>, o: int)
    requires |v| == BUCKETS && -HALF <= o < 0 && Listing(r, v)
    requires forall k :: o + HALF < k < HALF ==> v[k] == 0
    ensures forall k :: 0 <= k < |r| ==> r[k].index <= o || r[k].index >= 0
  {
  }

  /** While a bucket below zero is left, the last entry below zero is left. */
  lemma TopIsLeft(v0: seq<nat>, v1: seq<nat>, i: nat, j: nat, o: int)
    requires |v0| == |v1| == BUCKETS && IsTop(v0, v1, o) && InMergeOrder(Emit(v0), Emit(v1), i, j)
    requires NegativeLeft(Emit(v0), Emit(v1), i, j)
    ensures Consumed(Emit(v0), Emit(v1), i, j) + TopCount(v0, v1, o) <= Below(v0, v1, 0)
  {
    hide Emit, SumCounts, Sum;
    var r0, r1 := Emit(v0), Emit(v1);
    var m0 := PassageOf(v0, o);
    var m1 := PassageOf(v1, o);
    EmitAscending(v0);
    EmitAscending(v1);
    UpTo(r0, i, m0);
    UpTo(r1, j, m1);
  }

  /** A cursor below a passage has consumed no more than the passage, and less its last entry. */
  lemma UpTo(r: seq<Entry>, i: nat, m: nat)
    requires i <= |r| && m <= |r|
    ensures i <= m ==> SumCounts(r[..i]) <= SumCounts(r[..m])
    ensures i < m ==> SumCounts(r[..i]) <= SumCounts(r[..m - 1])
  {
    if i <= m { SumCountsMonotone(r, i, m); }
    if i < m { SumCountsMonotone(r, i, m - 1); }
  }

  /** The step that reads the last entry below zero finds everything else below zero already read. */
  lemma LastNegativeStep(v0: seq<nat>, v1: seq<nat>, i: nat, j: nat, i': nat, j': nat, last: int, o: int)
    requires |v0| == |v1| == BUCKETS && IsTop(v0, v1, o) && OneStep(i, j, i', j')
    requires Cut(Emit(v0), Emit(v1), i, j, last) && Cut(Emit(v0), Emit(v1), i', j', last)
    requires NegativeLeft(Emit(v0), Emit(v1), i, j) && !NegativeLeft(Emit(v0), Emit(v1), i', j')
    ensures Below(v0, v1, 0) <= Consumed(Emit(v0), Emit(v1), i, j) + TopCount(v0, v1, o)
  {
    hide Emit, SumCounts, Sum;
    var r0, r1 := Emit(v0), Emit(v1);
    var m0 := PassageOf(v0, o);
    var m1 := PassageOf(v1, o);
    EmitAscending(v0);
    EmitAscending(v1);
    SumCountsMonotone(r0, m0, i');
    SumCountsMonotone(r1, m1, j');
    ConsumeHead(r0, r1, i, j, _ => 0.0);
  }

  /** With nothing below zero left, the target asked for the last entry below zero. */
  ghost predicate AskedForAll(v0: seq<nat>, v1: seq<nat>, i: nat, j: nat, target: real)
    requires |v0| == |v1| == BUCKETS && i <= |Emit(v0)| && j <= |Emit(v1)|
  {
    forall o :: IsTop(v0, v1, o) && !NegativeLeft(Emit(v0), Emit(v1), i, j) ==>
      target > (Below(v0, v1, 0) - TopCount(v0, v1, o)) as real
  }

  lemma StepAsksForAll(v0: seq<nat>, v1: seq<nat>, i: nat, j: nat, i': nat, j': nat, last: int, t: real)
    requires |v0| == |v1| == BUCKETS && OneStep(i, j, i', j')
    requires Cut(Emit(v0), Emit(v1), i, j, last) && Cut(Emit(v0), Emit(v1), i', j', last)
    requires AskedForAll(v0, v1, i, j, t) && Consumed(Emit(v0), Emit(v1), i, j) as real < t
    ensures AskedForAll(v0, v1, i', j', t)
  {
    hide Emit, Consumed, Below, TopCount, NegativeLeft;
    forall o | IsTop(v0, v1, o) && !NegativeLeft(Emit(v0), Emit(v1), i', j')
      ensures t > (Below(v0, v1, 0) - TopCount(v0, v1, o)) as real
    {
      if NegativeLeft(Emit(v0), Emit(v1), i, j) {
        LastNegativeStep(v0, v1, i, j, i', j', last, o);
      }
    }
  }

  lemma NothingAsked(v0: seq<nat>, v1: seq<nat>)
    requires |v0| == |v1| == BUCKETS
    ensures AskedForAll(v0, v1, 0, 0, 0.0)
  {
    hide Emit, SumCounts, Sum, Below;
    forall o | IsTop(v0, v1, o)
      ensures NegativeLeft(Emit(v0), Emit(v1), 0, 0)
    {
      var m0 := PassageOf(v0, o);
      var m1 := PassageOf(v1, o);
    }
  }

  /** So the reader passes below zero exactly when the largest target does. */
  lemma NegativeLeftIff(v0: seq<nat>, v1: seq<nat>, i: nat, j: nat, target: real, o: int)
    requires |v0| == |v1| == BUCKETS && IsTop(v0, v1, o) && InMergeOrder(Emit(v0), Emit(v1), i, j)
    requires AskedForAll(v0, v1, i, j, target) && target <= Consumed(Emit(v0), Emit(v1), i, j) as real
    ensures NegativeLeft(Emit(v0), Emit(v1), i, j) <==> target <= (Below(v0, v1, 0) - TopCount(v0, v1, o)) as real
  {
    hide Emit, Consumed, Below, TopCount;
    if NegativeLeft(Emit(v0), Emit(v1), i, j) { TopIsLeft(v0, v1, i, j, o); }
  }

  // ----- what a target makes the merge read -----

  /** How many observations the shortest part of the merge that reaches the target
      has, when bucket `o` does: within that bucket the smaller count comes first. */
  function ReadCount(v0: seq<nat>, v1: seq<nat>, target: real, o: int): nat
    requires |v0| == |v1| == BUCKETS && -HALF <= o < HALF
  {
    var below, c0, c1 := Below(v0, v1, o), v0[o + HALF], v1[o + HALF];
    var first := if c0 < c1 then c0 else c1;
    below + if first > 0 && target <= (below + first) as real then first else c0 + c1
  }

  /** The entries of a listing around bucket `o`: before `p` below it, at `p` its own if it is used. */
  ghost predicate Around(v: seq<nat>, r: seq<Entry>, o: int, p: nat)
    requires |v| == BUCKETS && -HALF <= o < HALF
  {
    var c := v[o + HALF];
    var q := if c > 0 then p + 1 else p;
    && q <= |r| && SumCounts(r[..p]) == Sum(v[..o + HALF]) && SumCounts(r[..q]) == Sum(v[..o + HALF]) + c
    && (c > 0 ==> r[p] == Entry(o, c))
    && (forall k :: 0 <= k < p ==> r[k].index < o) && (forall k :: q <= k < |r| ==> r[k].index > o)
  }

  lemma AroundBucket(v: seq<nat>, o: int) returns (p: nat)
    requires |v| == BUCKETS && -HALF <= o < HALF
    ensures Around(v, Emit(v), o, p) && Emit(v)[..p] == Emit(v[..o + HALF])
  {
    hide Emit, SumCounts, Sum;
    var n := o + HALF;
    p := |Emit(v[..n])|;
    EmitPrefix(v, n);
    EmitPrefix(v, n + 1);
    EmitStep(v, n);
    SumOfEmitted(v[..n]);
    EmitIsListing(v[..n]);
    if v[n] > 0 { ConsumeEntry(Emit(v), p, _ => 0.0); }
  }

  /** The step that reaches a target has read exactly what the target asks for. */
  lemma StepReads(v0: seq<nat>, v1: seq<nat>, i: nat, j: nat, i': nat, j': nat, o: int, t: real)
    requires |v0| == |v1| == BUCKETS && -HALF <= o < HALF && OneStep(i, j, i', j')
    requires Cut(Emit(v0), Emit(v1), i, j, o) && Cut(Emit(v0), Emit(v1), i', j', o)
    requires InMergeOrder(Emit(v0), Emit(v1), i, j) && InMergeOrder(Emit(v0), Emit(v1), i', j')
    requires Consumed(Emit(v0), Emit(v1), i, j) as real < t <= Consumed(Emit(v0), Emit(v1), i', j') as real
    ensures Consumed(Emit(v0), Emit(v1), i', j') == ReadCount(v0, v1, t, o)
  {
    hide Emit, SumCounts, Sum;
    var p0 := AroundBucket(v0, o);
    var p1 := AroundBucket(v1, o);
  }

  /** The sum of decoded value times count over a prefix of the ordered counters. */
  function Spread(v: seq<nat>, decode: int -> real): real
  {
    if |v| == 0 then 0.0
    else Spread(v[..|v| - 1], decode) + Share(Entry(|v| - 1 - HALF, v[|v| - 1]), decode)
  }

  lemma {:induction false} WeightOfEmitted(v: seq<nat>, decode: int -> real)
    ensures Weight(Emit(v), decode) == Spread(v, decode)
  {
    if |v| > 0 {
      var n := |v| - 1;
      WeightOfEmitted(v[..n], decode);
      if v[n] > 0 { assert Emit(v)[..|Emit(v)| - 1] == Emit(v[..n]); }
    }
  }

  lemma WeightAround(v: seq<nat>, i: nat, o: int, decode: int -> real)
    requires |v| == BUCKETS && -HALF <= o < HALF && i <= |Emit(v)|
    requires (i > 0 ==> Emit(v)[i - 1].index <= o) && (i < |Emit(v)| ==> o <= Emit(v)[i].index)
    ensures SumCounts(Emit(v)[..i]) >= Sum(v[..o + HALF])
    ensures Weight(Emit(v)[..i], decode) ==
            Spread(v[..o + HALF], decode) + Share(Entry(o, SumCounts(Emit(v)[..i]) - Sum(v[..o + HALF])), decode)
  {
    hide Emit, SumCounts, Sum, Spread, Weight;
    var p := AroundBucket(v, o);
    WeightOfEmitted(v[..o + HALF], decode);
    if i == p + 1 { ConsumeEntry(Emit(v), p, decode); }
  }

  /** The weight of what a target reached in bucket `o` makes the merge read. */
  function ReadWeight(v0: seq<nat>, v1: seq<nat>, decode: int -> real, target: real, o: int): real
    requires |v0| == |v1| == BUCKETS && -HALF <= o < HALF
  {
    Spread(v0[..o + HALF], decode) + Spread(v1[..o + HALF], decode)
    + Share(Entry(o, ReadCount(v0, v1, target, o) - Below(v0, v1, o)), decode)
  }

  lemma ShareAdd(o: int, m: nat, n: nat, decode: int -> real)
    ensures Share(Entry(o, m + n), decode) == Share(Entry(o, m), decode) + Share(Entry(o, n), decode)
  {
    assert (m + n) as real == m as real + n as real;
  }

  /** The consumed weight, without the cursors. */
  lemma ConsumedIsRead(v0: seq<nat>, v1: seq<nat>, i: nat, j: nat, decode: int -> real, target: real, o: int)
    requires |v0| == |v1| == BUCKETS && -HALF <= o < HALF && Cut(Emit(v0), Emit(v1), i, j, o)
    requires Consumed(Emit(v0), Emit(v1), i, j) == ReadCount(v0, v1, target, o)
    ensures ConsumedWeight(Emit(v0), Emit(v1), i, j, decode) == ReadWeight(v0, v1, decode, target, o)
  {
    hide Emit, SumCounts, Sum, Spread, Weight, Share, ReadCount;
    WeightAround(v0, i, o, decode);
    WeightAround(v1, j, o, decode);
    ShareAdd(o, SumCounts(Emit(v0)[..i]) - Sum(v0[..o + HALF]), SumCounts(Emit(v1)[..j]) - Sum(v1[..o + HALF]), decode);
  }

  /** What the loop over the rates has added up. */
  ghost predicate IsReadSum(v0: seq<nat>, v1: seq<nat>, decode: int -> real, target: real, sum: real)
    requires |v0| == |v1| == BUCKETS
  {
    if target <= 0.0 then sum == 0.0
    else exists o :: Reaches(v0, v1, target, o) && sum == ReadWeight(v0, v1, decode, target, o)
  }

  /** The tail loop adds the rest exactly when the largest target asks for the last
      entry below zero, if there is one. */
  ghost predicate TailRuns(v0: seq<nat>, v1: seq<nat>, target: real)
    requires |v0| == |v1| == BUCKETS
  {
    forall o :: IsTop(v0, v1, o) ==> target > (Below(v0, v1, 0) - TopCount(v0, v1, o)) as real
  }

  lemma {:induction false} FindTop(v0: seq<nat>, v1: seq<nat>, k: nat, n: nat) returns (o: int)
    requires |v0| == |v1| == BUCKETS && k < n <= HALF && v0[k] + v1[k] > 0
    requires forall l :: n <= l < HALF ==> v0[l] == 0 && v1[l] == 0
    ensures IsTop(v0, v1, o)
    decreases n
  {
    if v0[n - 1] + v1[n - 1] > 0 {
      o := n - 1 - HALF;
    } else {
      o := FindTop(v0, v1, k, n - 1);
    }
  }

  lemma LeftHasTop(v0: seq<nat>, v1: seq<nat>, i: nat, j: nat)
    requires |v0| == |v1| == BUCKETS && i <= |Emit(v0)| && j <= |Emit(v1)|
    requires NegativeLeft(Emit(v0), Emit(v1), i, j)
    ensures exists o :: IsTop(v0, v1, o)
  {
    hide Emit;
    EmitIsListing(v0);
    EmitIsListing(v1);
    var o := FindTop(v0, v1, NextIndex(Emit(v0), Emit(v1), i, j) + HALF, HALF);
  }

  lemma TailRunsIff(v0: seq<nat>, v1: seq<nat>, i: nat, j: nat, target: real)
    requires |v0| == |v1| == BUCKETS && InMergeOrder(Emit(v0), Emit(v1), i, j)
    requires AskedForAll(v0, v1, i, j, target) && target <= Consumed(Emit(v0), Emit(v1), i, j) as real
    ensures NegativeLeft(Emit(v0), Emit(v1), i, j) <==> !TailRuns(v0, v1, target)
  {
    hide Emit, Consumed, Below, TopCount, AskedForAll;
    if NegativeLeft(Emit(v0), Emit(v1), i, j) {
      LeftHasTop(v0, v1, i, j);
      var o :| IsTop(v0, v1, o);
      NegativeLeftIff(v0, v1, i, j, target, o);
    } else {
      forall o | IsTop(v0, v1, o) ensures target > (Below(v0, v1, 0) - TopCount(v0, v1, o)) as real {
        NegativeLeftIff(v0, v1, i, j, target, o);
      }
    }
  }

  // ----- the quantile loop -----

  /** What the loop over the rates maintains: `v` is the answer to the largest
      target so far, and that target has been consumed. */
  ghost predicate Answered(v0: seq<nat>, v1: seq<nat>, decode: int -> real, none: real,
                           i: nat, j: nat, last: int, target: real, v: real)
    requires |v0| == |v1| == BUCKETS
  {
    && Cut(Emit(v0), Emit(v1), i, j, last) && -HALF <= last < HALF
    && 0.0 <= target <= Consumed(Emit(v0), Emit(v1), i, j) as real
    && (target > 0.0 ==> Reaches(v0, v1, target, last) && v == decode(last))
    && (target <= 0.0 ==> v == none)
  }

  lemma AnsweredIsAnswer(v0: seq<nat>, v1: seq<nat>, decode: int -> real, none: real,
                         i: nat, j: nat, last: int, target: real, v: real)
    requires |v0| == |v1| == BUCKETS && Answered(v0, v1, decode, none, i, j, last, target, v)
    ensures IsAnswer(v0, v1, decode, none, target, v)
  {
  }

  /** A larger target that is already consumed has the same answer. */
  lemma AlreadyReached(v0: seq<nat>, v1: seq<nat>, decode: int -> real, none: real,
                       i: nat, j: nat, last: int, target: real, v: real, t: real)
    requires |v0| == |v1| == BUCKETS && Answered(v0, v1, decode, none, i, j, last, target, v)
    requires 0.0 <= t <= Consumed(Emit(v0), Emit(v1), i, j) as real
    requires target > 0.0 || Consumed(Emit(v0), Emit(v1), i, j) == 0
    ensures Answered(v0, v1, decode, none, i, j, last, if t > target then t else target, v)
  {
    CutCounts(v0, v1, i, j, last);
  }

  lemma AskedForMore(v0: seq<nat>, v1: seq<nat>, i: nat, j: nat, target: real, t: real)
    requires |v0| == |v1| == BUCKETS && i <= |Emit(v0)| && j <= |Emit(v1)| && target <= t
    requires AskedForAll(v0, v1, i, j, target)
    ensures AskedForAll(v0, v1, i, j, t)
  {
    hide Emit, Below;
  }

  lemma NothingConsumed(r0: seq<Entry>, r1: seq<Entry>)
    ensures Consumed(r0, r1, 0, 0) == 0
  {
  }

  lemma SameRead(v0: seq<nat>, v1: seq<nat>, target: real, t: real, o: int)
    requires |v0| == |v1| == BUCKETS && -HALF <= o < HALF
    requires target <= t <= ReadCount(v0, v1, target, o) as real
    ensures ReadCount(v0, v1, t, o) == ReadCount(v0, v1, target, o)
  {
    hide Below;
  }

  method Take(d: DataCopy, countNow: nat, sum: real, decode: int -> real,
              ghost r0: seq<Entry>, ghost r1: seq<Entry>, ghost last: int)
    returns (countNow': nat, sum': real, v: real, ghost last': int)
    requires Merging(d, r0, r1, last) && NextIndex(r0, r1, d.index0, d.index1) < HALF
    requires countNow == Consumed(r0, r1, d.index0, d.index1)
    requires sum == ConsumedWeight(r0, r1, d.index0, d.index1, decode)
    modifies d
    ensures Merging(d, r0, r1, last') && Cut(r0, r1, old(d.index0), old(d.index1), last')
    ensures OneStep(old(d.index0), old(d.index1), d.index0, d.index1)
    ensures v == decode(last')
    ensures countNow' == Consumed(r0, r1, d.index0, d.index1)
    ensures sum' == ConsumedWeight(r0, r1, d.index0, d.index1, decode)
  {
    hide SumCounts, Weight;
    var head := Consume(d, decode, r0, r1, last);
    last' := head.index;
    countNow' := countNow + head.count;
    v := decode(head.index);
    sum' := sum + v * head.count as real;
    assert sum' == sum + Share(head, decode);
  }

  /** The state between two rates: the merge in progress, its count and weighted
      sum, and the answer to the largest target so far. */
  ghost predicate Reading(d: DataCopy, v0: seq<nat>, v1: seq<nat>, decode: int -> real, none: real,
                          countNow: nat, sum: real, v: real, last: int, target: real)
    reads d
  {
    && |v0| == |v1| == BUCKETS && Merging(d, Emit(v0), Emit(v1), last)
    && countNow == Consumed(Emit(v0), Emit(v1), d.index0, d.index1)
    && sum == ConsumedWeight(Emit(v0), Emit(v1), d.index0, d.index1, decode)
    && Answered(v0, v1, decode, none, d.index0, d.index1, last, target, v)
    && (target > 0.0 || d.index0 == d.index1 == 0)
    && (target > 0.0 ==> countNow == ReadCount(v0, v1, target, last))
    && AskedForAll(v0, v1, d.index0, d.index1, target)
  }

  /** Consumes entries until the target is reached. */
  method Advance(d: DataCopy, t: real, countNow: nat, sum: real, v: real, decode: int -> real, ghost none: real,
                 ghost v0: seq<nat>, ghost v1: seq<nat>, ghost last: int, ghost target: real)
    returns (countNow': nat, sum': real, v': real, ghost last': int)
    requires Reading(d, v0, v1, decode, none, countNow, sum, v, last, target)
    requires 0.0 <= t <= (Sum(v0) + Sum(v1)) as real
    modifies d
    ensures Reading(d, v0, v1, decode, none, countNow', sum', v', last', if t > target then t else target)
  {
    hide Emit, SumCounts, Sum, ReadCount, AskedForAll, Weight;
    countNow', sum', v', last' := countNow, sum, v, last;
    ghost var r0, r1 := Emit(v0), Emit(v1);
    ghost var moved := false;
    NothingConsumed(r0, r1);
    AskedForMore(v0, v1, d.index0, d.index1, target, if t > target then t else target);
    while t > countNow' as real
      invariant Merging(d, r0, r1, last')
      invariant countNow' == Consumed(r0, r1, d.index0, d.index1)
      invariant sum' == ConsumedWeight(r0, r1, d.index0, d.index1, decode)
      invariant !moved ==> last' == last && d.index0 == old(d.index0) && d.index1 == old(d.index1)
      invariant !moved ==>
        countNow' == countNow && Answered(v0, v1, decode, none, d.index0, d.index1, last', target, v')
      invariant AskedForAll(v0, v1, d.index0, d.index1, if t > target then t else target)
      invariant moved && t <= countNow' as real ==> countNow' == ReadCount(v0, v1, t, last')
      invariant moved ==>
        t > target && Below(v0, v1, last') as real < t && countNow' <= Below(v0, v1, last' + 1) && v' == decode(last')
      decreases |r0| + |r1| - d.index0 - d.index1
    {
      NotAtEnd(v0, v1, d.index0, d.index1);
      ghost var i, j := d.index0, d.index1;
      countNow', sum', v', last' := Take(d, countNow', sum', decode, r0, r1, last');
      CutCounts(v0, v1, i, j, last');
      CutCounts(v0, v1, d.index0, d.index1, last');
      if t <= countNow' as real { StepReads(v0, v1, i, j, d.index0, d.index1, last', t); }
      StepAsksForAll(v0, v1, i, j, d.index0, d.index1, last', if t > target then t else target);
      moved := true;
    }
    if !moved {
      AlreadyReached(v0, v1, decode, none, d.index0, d.index1, last', target, v', t);
      if t > target > 0.0 { SameRead(v0, v1, target, t, last'); }
    }
  }

  function Total(v0: seq<nat>, v1: seq<nat>, decode: int -> real): real
  {
    Weight(Emit(v0), decode) + Weight(Emit(v1), decode)
  }

  lemma MaxTargetStep(rates: seq<Rate>, count: nat, k: nat)
    requires k < |rates|
    ensures
      var m, t := MaxTarget(rates[..k], count), Target(rates[k], count);
      MaxTarget(rates[..k + 1], count) == if t > m then t else m
  {
    assert rates[..k + 1][..k] == rates[..k];
  }

  /** The tail loop compares the signed bucket index with an unsigned size, so a
      negative index reads as a huge one and ends the loop. */
  predicate TailContinues(index: int) { ToU64(index) < HALF }

  /** The last loop adds the rest of the weighted sum, unless the next bucket is negative. */
  method TailSum(d: DataCopy, sum: real, decode: int -> real, ghost v0: seq<nat>, ghost v1: seq<nat>, ghost last: int)
    returns (sum': real)
    requires |v0| == |v1| == BUCKETS && Merging(d, Emit(v0), Emit(v1), last)
    requires sum == ConsumedWeight(Emit(v0), Emit(v1), d.index0, d.index1, decode)
    modifies d
    ensures sum' == if old(NegativeLeft(Emit(v0), Emit(v1), d.index0, d.index1)) then sum else Total(v0, v1, decode)
  {
    hide Emit;
    ghost var r0, r1, last' := Emit(v0), Emit(v1), last;
    ghost var negative := NegativeLeft(r0, r1, d.index0, d.index1);
    sum' := sum;
    var more := TailTest(d, r0, r1, last);
    while more
      invariant Merging(d, r0, r1, last')
      invariant sum' == ConsumedWeight(r0, r1, d.index0, d.index1, decode)
      invariant more <==> 0 <= NextIndex(r0, r1, d.index0, d.index1) < HALF
      invariant negative ==> sum' == sum && !more
      invariant !negative ==> !NegativeLeft(r0, r1, d.index0, d.index1)
      decreases |r0| + |r1| - d.index0 - d.index1
    {
      var head := Consume(d, decode, r0, r1, last');
      last' := head.index;
      sum' := sum' + Share(head, decode);
      more := TailTest(d, r0, r1, last');
    }
    if !negative {
      WholeListing(r0);
      WholeListing(r1);
    }
  }

  method TailTest(d: DataCopy, ghost r0: seq<Entry>, ghost r1: seq<Entry>, ghost last: int) returns (more: bool)
    requires Merging(d, r0, r1, last)
    ensures more <==> 0 <= NextIndex(r0, r1, d.index0, d.index1) < HALF
    ensures NextIndex(r0, r1, d.index0, d.index1) >= last
    ensures NextIndex(r0, r1, d.index0, d.index1) >= HALF <==> d.index0 == |r0| && d.index1 == |r1|
  {
    more := TailContinues(d.Head().index);
    HeadIndex(d, r0, r1, last);
  }

  lemma HeadIndex(d: DataCopy, r0: seq<Entry>, r1: seq<Entry>, last: int)
    requires Merging(d, r0, r1, last)
    ensures d.Head().index == NextIndex(r0, r1, d.index0, d.index1) >= last
    ensures TailContinues(d.Head().index) <==> 0 <= NextIndex(r0, r1, d.index0, d.index1) < HALF
    ensures NextIndex(r0, r1, d.index0, d.index1) >= HALF <==> d.index0 == |r0| && d.index1 == |r1|
  {
    Unwrap64(d.Head().index);
  }

  /** One rate: a skipped one repeats the previous answer. */
  method AnswerRate(d: DataCopy, rates: seq<Rate>, k: nat, count: nat, countNow: nat, sum: real, v: real,
                    decode: int -> real, ghost none: real, ghost v0: seq<nat>, ghost v1: seq<nat>, ghost last: int)
    returns (countNow': nat, sum': real, v': real, ghost last': int)
    requires k < |rates| && Reading(d, v0, v1, decode, none, countNow, sum, v, last, MaxTarget(rates[..k], count))
    requires count == Sum(v0) + Sum(v1)
    modifies d
    ensures Reading(d, v0, v1, decode, none, countNow', sum', v', last', MaxTarget(rates[..k + 1], count))
    ensures IsAnswer(v0, v1, decode, none, MaxTarget(rates[..k + 1], count), v')
  {
    MaxTargetStep(rates, count, k);
    countNow', sum', v', last' := countNow, sum, v, last;
    if !Skipped(rates[k]) {
      TargetBounds(rates[k], count);
      countNow', sum', v', last' := Advance(d, Target(rates[k], count), countNow, sum, v, decode, none,
                                            v0, v1, last, MaxTarget(rates[..k], count));
    }
    AnsweredIsAnswer(v0, v1, decode, none, d.index0, d.index1, last', MaxTarget(rates[..k + 1], count), v');
  }

  method StartReading(r0: seq<Entry>, r1: seq<Entry>, ghost decode: int -> real, ghost none: real,
                      ghost v0: seq<nat>, ghost v1: seq<nat>)
    returns (d: DataCopy)
    requires |v0| == |v1| == BUCKETS && r0 == Emit(v0) && r1 == Emit(v1)
    ensures fresh(d) && Reading(d, v0, v1, decode, none, 0, 0.0, none, -HALF, 0.0)
  {
    EmitAscending(v0);
    EmitAscending(v1);
    NothingAsked(v0, v1);
    d := new DataCopy(r0 + [SENTINEL], r1 + [SENTINEL]);
  }

  lemma NoTarget(count: nat)
    ensures MaxTarget([], count) == 0.0
  {
  }

  lemma ReadingSize(d: DataCopy, v0: seq<nat>, v1: seq<nat>, decode: int -> real, none: real,
                    countNow: nat, sum: real, v: real, last: int, target: real)
    requires Reading(d, v0, v1, decode, none, countNow, sum, v, last, target)
    ensures |v0| == |v1| == BUCKETS
  {
  }

  method AnswerRates(d: DataCopy, rates: seq<Rate>, count: nat, decode: int -> real, none: real,
                     ghost v0: seq<nat>, ghost v1: seq<nat>)
    returns (result: seq<real>, sum: real, ghost countNow': nat, ghost v': real, ghost last: int)
    requires Reading(d, v0, v1, decode, none, 0, 0.0, none, -HALF, 0.0) && count == Sum(v0) + Sum(v1)
    modifies d
    ensures |result| == |rates|
    ensures forall k :: 0 <= k < |rates| ==>
      IsAnswer(v0, v1, decode, none, MaxTarget(rates[..k + 1], count), result[k])
    ensures Reading(d, v0, v1, decode, none, countNow', sum, v', last, MaxTarget(rates, count))
  {
    ReadingSize(d, v0, v1, decode, none, 0, 0.0, none, -HALF, 0.0);
    hide Emit, Reading, IsAnswer, MaxTarget, Sum;
    NoTarget(count);
    assert rates[..0] == [];
    var countNow, v := 0, none;
    result, sum, last := [], 0.0, -HALF;
    var k := 0;
    while k < |rates|
      invariant 0 <= k <= |rates| && |result| == k
      invariant Reading(d, v0, v1, decode, none, countNow, sum, v, last, MaxTarget(rates[..k], count))
      invariant forall l :: 0 <= l < k ==>
        IsAnswer(v0, v1, decode, none, MaxTarget(rates[..l + 1], count), result[l])
    {
      countNow, sum, v, last := AnswerRate(d, rates, k, count, countNow, sum, v, decode, none, v0, v1, last);
      result := result + [v];
      k := k + 1;
    }
    assert rates[..k] == rates;
    countNow', v' := countNow, v;
  }

  /** The whole read-out. The k-th answer is the first bucket whose cumulative
      count reaches the largest target among the first k rates. The sum is the
      total of decoded value times count exactly when the tail loop runs or has
      nothing to add; otherwise it is what the largest target made the merge read. */
  method Answers(rates: seq<Rate>, r0: seq<Entry>, r1: seq<Entry>, count: nat, decode: int -> real, none: real,
                 ghost v0: seq<nat>, ghost v1: seq<nat>)
    returns (result: seq<real>, sum: real)
    requires |v0| == |v1| == BUCKETS && r0 == Emit(v0) && r1 == Emit(v1) && count == Sum(v0) + Sum(v1)
    ensures |result| == |rates|
    ensures forall k :: 0 <= k < |rates| ==>
      IsAnswer(v0, v1, decode, none, MaxTarget(rates[..k + 1], count), result[k])
    ensures if TailRuns(v0, v1, MaxTarget(rates, count)) then sum == Total(v0, v1, decode)
            else IsReadSum(v0, v1, decode, MaxTarget(rates, count), sum)
  {
    hide Emit, SumCounts, Sum, Weight, TailRuns, IsAnswer, MaxTarget;
    var d := StartReading(r0, r1, decode, none, v0, v1);
    ghost var countNow, v, last;
    result, sum, countNow, v, last := AnswerRates(d, rates, count, decode, none, v0, v1);
    ghost var target := MaxTarget(rates, count);
    TailRunsIff(v0, v1, d.index0, d.index1, target);
    ReadingIsReadSum(d, v0, v1, decode, none, countNow, sum, v, last, target);
    sum := TailSum(d, sum, decode, v0, v1, last);
  }

  lemma ReadingIsReadSum(d: DataCopy, v0: seq<nat>, v1: seq<nat>, decode: int -> real, none: real,
                         countNow: nat, sum: real, v: real, last: int, target: real)
    requires Reading(d, v0, v1, decode, none, countNow, sum, v, last, target)
    ensures IsReadSum(v0, v1, decode, target, sum)
  {
    hide Emit, SumCounts, Sum, Spread, Share, ReadCount, AskedForAll;
    if target > 0.0 {
      ConsumedIsRead(v0, v1, d.index0, d.index1, decode, target, last);
    } else {
      assert Emit(v0)[..0] == [] && Emit(v1)[..0] == [];
    }
  }
}
