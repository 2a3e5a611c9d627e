/**
  From counters back to observations: filling a buffer counts observations by
  bucket, and the bucket that reaches a target decodes to the true order
  statistic of the observations, quantised.
*/
module SketchAccuracy {
  import opened Integers
  import opened FloatCodec
  import opened SketchBuffer
  import opened SketchStat

  // ----- counting observations -----

  function CountIf(xs: seq<Bits32>, p: Bits32 -> bool): nat
  {
    if |xs| == 0 then 0 else CountIf(xs[..|xs| - 1], p) + if p(xs[|xs| - 1]) then 1 else 0
  }

  lemma {:induction false} CountIfAppend(xs: seq<Bits32>, ys: seq<Bits32>, p: Bits32 -> bool)
    ensures CountIf(xs + ys, p) == CountIf(xs, p) + CountIf(ys, p)
  {
    if |ys| == 0 {
      assert xs + ys == xs;
    } else {
      var n := |ys| - 1;
      assert (xs + ys)[..|xs| + n] == xs + ys[..n];
      CountIfAppend(xs, ys[..n], p);
    }
  }

  lemma {:induction false} CountIfImplies(xs: seq<Bits32>, p: Bits32 -> bool, q: Bits32 -> bool)
    requires forall x :: x in xs && p(x) ==> q(x)
    ensures CountIf(xs, p) <= CountIf(xs, q)
  {
    if |xs| > 0 { CountIfImplies(xs[..|xs| - 1], p, q); }
  }

  lemma {:induction false} CountIfBounds(xs: seq<Bits32>, p: Bits32 -> bool)
    ensures CountIf(xs, p) <= |xs|
    ensures (forall x :: x in xs ==> p(x)) ==> CountIf(xs, p) == |xs|
    ensures (forall x :: x in xs ==> !p(x)) ==> CountIf(xs, p) == 0
  {
    if |xs| > 0 { CountIfBounds(xs[..|xs| - 1], p); }
  }

  function Without(xs: seq<Bits32>, k: nat): seq<Bits32>
    requires k < |xs|
  {
    xs[..k] + xs[k + 1..]
  }

  lemma WithoutAt(xs: seq<Bits32>, k: nat, p: Bits32 -> bool)
    requires k < |xs|
    ensures multiset(Without(xs, k)) == multiset(xs) - multiset{xs[k]}
    ensures CountIf(xs, p) == CountIf(Without(xs, k), p) + if p(xs[k]) then 1 else 0
  {
    hide CountIf;
    WithoutElements(xs, k);
    CountWithout(xs, k, p);
  }

  lemma WithoutElements(xs: seq<Bits32>, k: nat)
    requires k < |xs|
    ensures multiset(Without(xs, k)) == multiset(xs) - multiset{xs[k]}
  {
    assert xs == xs[..k] + ([xs[k]] + xs[k + 1..]);
  }

  lemma CountOne(x: Bits32, p: Bits32 -> bool)
    ensures CountIf([x], p) == if p(x) then 1 else 0
  {
    assert [x][..0] == [];
  }

  lemma CountWithout(xs: seq<Bits32>, k: nat, p: Bits32 -> bool)
    requires k < |xs|
    ensures CountIf(xs, p) == CountIf(Without(xs, k), p) + if p(xs[k]) then 1 else 0
  {
    hide CountIf;
    assert xs == xs[..k] + ([xs[k]] + xs[k + 1..]);
    CountOne(xs[k], p);
    CountIfAppend(xs[..k], [xs[k]] + xs[k + 1..], p);
    CountIfAppend([xs[k]], xs[k + 1..], p);
    CountIfAppend(xs[..k], xs[k + 1..], p);
  }

  lemma {:induction false} CountIfPermutation(xs: seq<Bits32>, ys: seq<Bits32>, p: Bits32 -> bool)
    requires multiset(xs) == multiset(ys)
    ensures CountIf(xs, p) == CountIf(ys, p)
    decreases |xs|
  {
    hide Without;
    if |xs| == 0 {
      assert |multiset(ys)| == 0;
    } else {
      assert xs[0] in multiset(xs);
      var k :| 0 <= k < |ys| && ys[k] == xs[0];
      WithoutAt(xs, 0, p);
      WithoutAt(ys, k, p);
      assert |multiset(Without(xs, 0))| < |multiset(xs)|;
      CountIfPermutation(Without(xs, 0), Without(ys, k), p);
    }
  }

  // ----- order statistics -----

  /** `x` is the `r`-th smallest observation, counting from 1. */
  ghost predicate IsOrderStatistic(xs: seq<Bits32>, r: int, x: Bits32)
  {
    x in xs && CountIf(xs, LessThan(x)) < r <= CountIf(xs, AtMost(x))
  }

  function LessThan(x: Bits32): Bits32 -> bool { (y: Bits32) => Value(y) < Value(x) }
  function AtMost(x: Bits32): Bits32 -> bool { (y: Bits32) => Value(y) <= Value(x) }

  predicate Sorted(s: seq<Bits32>) { forall i, j :: 0 <= i < j < |s| ==> Value(s[i]) <= Value(s[j]) }

  /** The counting definition agrees with sorting. */
  lemma OrderStatisticOfSorted(xs: seq<Bits32>, s: seq<Bits32>, r: int)
    requires multiset(xs) == multiset(s) && 1 <= r <= |s| && Sorted(s)
    ensures IsOrderStatistic(xs, r, s[r - 1])
  {
    hide Value;
    var x := s[r - 1];
    var less, leq := LessThan(x), AtMost(x);
    CountIfPermutation(xs, s, less);
    CountIfPermutation(xs, s, leq);
    SortedCounts(s, r - 1, less);
    SortedCounts(s, r, leq);
    assert s[r - 1] in multiset(s);
  }

  lemma SortedCounts(s: seq<Bits32>, k: nat, p: Bits32 -> bool)
    requires k <= |s|
    ensures (forall i :: k <= i < |s| ==> !p(s[i])) ==> CountIf(s, p) <= k
    ensures (forall i :: 0 <= i < k ==> p(s[i])) ==> CountIf(s, p) >= k
  {
    assert s == s[..k] + s[k..];
    CountIfAppend(s[..k], s[k..], p);
    CountIfBounds(s[..k], p);
    CountIfBounds(s[k..], p);
  }

  function Inserted(s: seq<Bits32>, x: Bits32): seq<Bits32>
  {
    if |s| == 0 || Value(s[|s| - 1]) <= Value(x) then s + [x]
    else Inserted(s[..|s| - 1], x) + [s[|s| - 1]]
  }

  lemma {:induction false} InsertedSorted(s: seq<Bits32>, x: Bits32)
    requires Sorted(s)
    ensures Sorted(Inserted(s, x)) && multiset(Inserted(s, x)) == multiset(s) + multiset{x}
  {
    hide Value;
    if |s| > 0 && Value(s[|s| - 1]) > Value(x) {
      var rest, last := s[..|s| - 1], s[|s| - 1];
      InsertedSorted(rest, x);
      var r := Inserted(rest, x);
      assert s == rest + [last];
      forall y | y in r ensures Value(y) <= Value(last) {
        assert y in multiset(r);
        assert y in multiset(rest) || y == x;
      }
    }
  }

  lemma {:induction false} SortedExists(xs: seq<Bits32>) returns (s: seq<Bits32>)
    ensures Sorted(s) && multiset(s) == multiset(xs)
  {
    if |xs| == 0 {
      s := [];
    } else {
      var n := |xs| - 1;
      var r := SortedExists(xs[..n]);
      InsertedSorted(r, xs[n]);
      s := Inserted(r, xs[n]);
      assert xs == xs[..n] + [xs[n]];
    }
  }

  /** Every rank from 1 to the number of observations has an order statistic. */
  lemma OrderStatisticExists(xs: seq<Bits32>, r: int) returns (x: Bits32)
    requires 1 <= r <= |xs|
    ensures IsOrderStatistic(xs, r, x)
  {
    hide IsOrderStatistic;
    var s := SortedExists(xs);
    assert |s| == |multiset(s)| == |multiset(xs)| == |xs|;
    OrderStatisticOfSorted(xs, s, r);
    x := s[r - 1];
  }

  /** Rounding a target up to a rank. */
  predicate IsRank(target: real, r: int) { (r - 1) as real < target <= r as real }

  // ----- filling a buffer -----

  lemma {:induction false} FindNearest(c: seq<nat>, pos: RawIndex, delta: nat) returns (j: int)
    requires |c| == BUCKETS && NoneWithin(c, pos, delta) && !Saturated(c, pos) && delta <= BUCKETS
    ensures Nearest(c, pos, j)
    decreases BUCKETS - delta
  {
    ProbeOutcome(c, pos, delta);
    if pos + delta < Upper(pos) && Free(c, pos + delta) {
      j := pos + delta;
    } else if pos - delta >= Lower(pos) && Free(c, pos - delta) {
      j := pos - delta;
    } else {
      if delta == BUCKETS { AllProbed(c, pos, delta); }
      j := FindNearest(c, pos, delta + 1);
    }
  }

  lemma NearestExists(c: seq<nat>, pos: RawIndex)
    requires |c| == BUCKETS && !Saturated(c, pos)
    ensures exists j :: Nearest(c, pos, j)
  {
    var j := FindNearest(c, pos, 0);
  }

  ghost function Landing(c: seq<nat>, pos: RawIndex): (j: int)
    requires |c| == BUCKETS
    ensures if Saturated(c, pos) then j == -1 else Nearest(c, pos, j)
  {
    if Saturated(c, pos) then -1
    else
      NearestExists(c, pos);
      var j :| Nearest(c, pos, j);
      j
  }

  /** The counters after one increment. */
  ghost function Bump(c: seq<nat>, pos: RawIndex, narrow: bool): (d: seq<nat>)
    requires |c| == BUCKETS
    ensures |d| == BUCKETS
  {
    if !narrow then c[pos := (c[pos] + 1) % 0x1_0000_0000_0000_0000]
    else
      var j := Landing(c, pos);
      if j < 0 then c else c[j := c[j] + 1]
  }

  lemma IncreasedIsBump(c: seq<nat>, pos: RawIndex, j: int, d: seq<nat>)
    requires |c| == BUCKETS && Increased(c, pos, j, d)
    ensures d == Bump(c, pos, true)
  {
    if j >= 0 {
      assert Free(c, j) && Lower(pos) <= j < Upper(pos);
      NearestUnique(c, pos, j, Landing(c, pos));
    }
  }

  /** The counters of a buffer that received the observations in turn since it was last cleared. */
  ghost function Fill(xs: seq<Bits32>, narrow: bool): (c: seq<nat>)
    ensures |c| == BUCKETS
  {
    if |xs| == 0 then Zeros(BUCKETS)
    else Bump(Fill(xs[..|xs| - 1], narrow), Encode(xs[|xs| - 1]), narrow)
  }

  /** The largest count a counter takes on. */
  function Capacity(narrow: bool): nat { if narrow then NEAR_MAX + 1 else 0xffff_ffff_ffff_ffff }

  /** No bucket received more observations than its counter holds. */
  predicate Roomy(xs: seq<Bits32>, narrow: bool)
  {
    forall o :: -HALF <= o < HALF ==> CountIf(xs, AtBucket(o)) <= Capacity(narrow)
  }

  function AtBucket(o: int): Bits32 -> bool { (x: Bits32) => OrderedOf(Encode(x)) == o }
  function InBucketBelow(o: int): Bits32 -> bool { (x: Bits32) => OrderedOf(Encode(x)) < o }
  function InBucketAbove(o: int): Bits32 -> bool { (x: Bits32) => OrderedOf(Encode(x)) > o }

  lemma {:induction false} SumOfZeros(n: nat)
    ensures Sum(Zeros(n)) == 0
  {
    if n > 0 {
      assert Zeros(n)[..n - 1] == Zeros(n - 1);
      SumOfZeros(n - 1);
    }
  }

  lemma ZerosInOrder(n: nat)
    requires n <= BUCKETS
    ensures InOrder(Zeros(BUCKETS))[..n] == Zeros(n)
  {
    var c := Zeros(BUCKETS);
    forall p | 0 <= p < n
      ensures InOrder(c)[p] == 0
    {
      InOrderAt(c, RawOf(p - HALF));
      assert OrderedOf(RawOf(p - HALF)) + HALF == p;
    }
  }

  lemma RoomyPrefix(xs: seq<Bits32>, narrow: bool)
    requires |xs| > 0 && Roomy(xs, narrow)
    ensures Roomy(xs[..|xs| - 1], narrow)
  {
    hide Encode;
    forall o | -HALF <= o < HALF
      ensures CountIf(xs[..|xs| - 1], AtBucket(o)) <= CountIf(xs, AtBucket(o))
    {
    }
  }

  ghost predicate IsHistogram(c: seq<nat>, xs: seq<Bits32>)
  {
    |c| == BUCKETS && forall i: RawIndex :: c[i] == CountIf(xs, AtBucket(OrderedOf(i)))
  }

  /** While there is room, a filled buffer is the histogram of its observations. */
  lemma {:induction false} FillIsHistogram(xs: seq<Bits32>, narrow: bool)
    requires Roomy(xs, narrow)
    ensures IsHistogram(Fill(xs, narrow), xs)
    ensures |xs| > 0 ==>
      var n := |xs| - 1;
      var c, pos := Fill(xs[..n], narrow), Encode(xs[n]);
      Fill(xs, narrow) == c[pos := c[pos] + 1]
  {
    hide Encode, CountIf, Roomy;
    if |xs| > 0 {
      RoomyPrefix(xs, narrow);
      FillIsHistogram(xs[..|xs| - 1], narrow);
      var c, x := Fill(xs[..|xs| - 1], narrow), xs[|xs| - 1];
      HistogramStep(c, xs);
      RoomFor(c, xs, narrow);
      LandsAt(c, Encode(x), narrow);
    } else {
      EmptyHistogram();
    }
  }

  lemma EmptyHistogram()
    ensures IsHistogram(Zeros(BUCKETS), [])
  {
  }

  lemma HistogramStep(c: seq<nat>, xs: seq<Bits32>)
    requires |xs| > 0 && IsHistogram(c, xs[..|xs| - 1])
    ensures
      var pos := Encode(xs[|xs| - 1]);
      IsHistogram(c[pos := c[pos] + 1], xs)
  {
    hide Encode;
  }

  lemma RoomFor(c: seq<nat>, xs: seq<Bits32>, narrow: bool)
    requires |xs| > 0 && IsHistogram(c, xs[..|xs| - 1]) && Roomy(xs, narrow)
    ensures c[Encode(xs[|xs| - 1])] < Capacity(narrow)
  {
    hide Encode;
    var o := OrderedOf(Encode(xs[|xs| - 1]));
    assert CountIf(xs, AtBucket(o)) == CountIf(xs[..|xs| - 1], AtBucket(o)) + 1;
  }

  /** With room in its own bucket an increment lands there. */
  lemma LandsAt(c: seq<nat>, pos: RawIndex, narrow: bool)
    requires |c| == BUCKETS && c[pos] < Capacity(narrow)
    ensures Bump(c, pos, narrow) == c[pos := c[pos] + 1]
  {
    if narrow {
      assert Free(c, pos);
      assert Nearest(c, pos, pos);
      NearestUnique(c, pos, pos, Landing(c, pos));
    }
  }

  lemma {:induction false} FillBounded(xs: seq<Bits32>, narrow: bool)
    ensures forall i :: 0 <= i < BUCKETS ==> Fill(xs, narrow)[i] <= Capacity(narrow)
  {
    hide Encode;
    if |xs| > 0 {
      var n := |xs| - 1;
      FillBounded(xs[..n], narrow);
      var c, pos := Fill(xs[..n], narrow), Encode(xs[n]);
      var j := Landing(c, pos);
      assert !Saturated(c, pos) ==> Free(c, j);
    }
  }

  /** Room in every bucket is exactly what it takes: a buffer is the histogram of its
      observations if and only if none of its buckets received too many. */
  lemma HistogramIff(xs: seq<Bits32>, narrow: bool)
    ensures IsHistogram(Fill(xs, narrow), xs) <==> Roomy(xs, narrow)
  {
    hide Encode, Fill, CountIf;
    if Roomy(xs, narrow) { FillIsHistogram(xs, narrow); }
    FillBounded(xs, narrow);
    if IsHistogram(Fill(xs, narrow), xs) {
      forall o | -HALF <= o < HALF
        ensures CountIf(xs, AtBucket(o)) <= Capacity(narrow)
      {
        assert OrderedOf(RawOf(o)) == o;
        assert Fill(xs, narrow)[RawOf(o)] <= Capacity(narrow);
      }
    }
  }

  lemma {:induction false} CountBelowIsCount(xs: seq<Bits32>, narrow: bool, o: int)
    requires Roomy(xs, narrow) && -HALF <= o <= HALF
    ensures CountBelow(Fill(xs, narrow), o) == CountIf(xs, InBucketBelow(o))
  {
    hide Encode;
    if |xs| == 0 {
      ZerosInOrder(o + HALF);
      SumOfZeros(o + HALF);
    } else {
      var n := |xs| - 1;
      FillIsHistogram(xs, narrow);
      RoomyPrefix(xs, narrow);
      CountBelowIsCount(xs[..n], narrow, o);
      var c, pos := Fill(xs[..n], narrow), Encode(xs[n]);
      CountBelowUpdate(c, pos, c[pos] + 1, o);
    }
  }

  /** Two buffers together count the observations of both. */
  lemma BelowIsCount(xs: seq<Bits32>, ys: seq<Bits32>, narrow: bool, o: int)
    requires Roomy(xs, narrow) && Roomy(ys, narrow) && -HALF <= o <= HALF
    ensures Below(InOrder(Fill(xs, narrow)), InOrder(Fill(ys, narrow)), o) == CountIf(xs + ys, InBucketBelow(o))
  {
    CountBelowIsCount(xs, narrow, o);
    CountBelowIsCount(ys, narrow, o);
    CountIfAppend(xs, ys, InBucketBelow(o));
  }

  // ----- the accuracy theorem -----

  function BucketValue(o: int): real { if -HALF <= o < HALF then Decode(GetRawIndex(o)) else 0.0 }

  lemma BucketValueOf(o: OrderedIndex, x: Bits32)
    ensures BucketValue(o) == Decode(RawOf(o))
    ensures BucketValue(OrderedOf(Encode(x))) == Quantize(x)
  {
    hide Decode, Encode;
    UnwrappedRaw(o);
    UnwrappedRaw(OrderedOf(Encode(x)));
  }

  lemma BucketValueMonotone(o: OrderedIndex, p: OrderedIndex)
    requires o <= p
    ensures BucketValue(o) <= BucketValue(p)
  {
    hide Decode, Encode;
    BucketValueOf(o, 0);
    BucketValueOf(p, 0);
    DecodeMonotone(o, p);
  }

  predicate NoNaN(xs: seq<Bits32>) { forall x :: x in xs ==> !IsNaN(x) }

  /** The bucket that reaches a target decodes to the quantised order statistic
      of the rank the target rounds up to. */
  lemma BucketIsOrderStatistic(xs: seq<Bits32>, below: nat, upto: nat, o: OrderedIndex, r: int, x: Bits32)
    requires NoNaN(xs) && IsOrderStatistic(xs, r, x)
    requires below == CountIf(xs, InBucketBelow(o)) && upto == CountIf(xs, InBucketBelow(o + 1))
    requires below < r <= upto
    ensures BucketValue(o) == Quantize(x)
  {
    hide Encode, Decode, Value, Quantize, BucketValue;
    var a, q := BucketValue(o), Quantize(x);
    forall y | y in xs
      ensures Value(y) <= Value(x) && q < a ==> OrderedOf(Encode(y)) < o
      ensures OrderedOf(Encode(y)) <= o && a < q ==> Value(y) < Value(x)
    {
      BucketValueOf(o, y);
      if OrderedOf(Encode(y)) >= o {
        BucketValueMonotone(o, OrderedOf(Encode(y)));
      } else {
        BucketValueMonotone(OrderedOf(Encode(y)), o);
      }
      if Value(y) <= Value(x) { QuantizeMonotone(y, x); } else { QuantizeMonotone(x, y); }
      if Value(x) <= Value(y) { QuantizeMonotone(x, y); }
    }
    if q < a {
      CountIfImplies(xs, AtMost(x), InBucketBelow(o));
    } else if a < q {
      CountIfImplies(xs, InBucketBelow(o + 1), LessThan(x));
    }
  }

  /** The quantised order statistic of the rank the target rounds up to, or minus 2^64
      when nothing was asked for yet. */
  ghost predicate AccurateAt(xs: seq<Bits32>, target: real, a: real)
  {
    if target <= 0.0 then a == -Pow2(64)
    else forall r, x :: IsRank(target, r) && IsOrderStatistic(xs, r, x) ==> a == Quantize(x)
  }

  lemma AnswerIsAccurate(xs: seq<Bits32>, ys: seq<Bits32>, narrow: bool, target: real, a: real)
    requires Roomy(xs, narrow) && Roomy(ys, narrow) && NoNaN(xs + ys)
    requires IsAnswer(InOrder(Fill(xs, narrow)), InOrder(Fill(ys, narrow)), BucketValue, -Pow2(64), target, a)
    ensures AccurateAt(xs + ys, target, a)
  {
    hide Quantize, BucketValue, Fill, InOrder, Below, Pow2, NoNaN, IsOrderStatistic;
    if target > 0.0 {
      var v0, v1 := InOrder(Fill(xs, narrow)), InOrder(Fill(ys, narrow));
      var o :| Reaches(v0, v1, target, o) && a == BucketValue(o);
      BelowIsCount(xs, ys, narrow, o);
      BelowIsCount(xs, ys, narrow, o + 1);
      forall r, x | IsRank(target, r) && IsOrderStatistic(xs + ys, r, x)
        ensures a == Quantize(x)
      {
        BucketIsOrderStatistic(xs + ys, Below(v0, v1, o), Below(v0, v1, o + 1), o, r, x);
      }
    }
  }

  // ----- the rank a list of rates asks for -----

  predicate Asked(e: Rate) { e.Rate? && e.value >= 0.0 }

  function Capped(v: real): real { if v > 1.0 then 1.0 else v }

  /** `r` is max(1, ceil(min(v, 1) * n)). */
  predicate IsRateRank(v: real, n: nat, r: int)
  {
    1 <= r && Portion(v, n) <= r as real && (r == 1 || (r - 1) as real < Portion(v, n))
  }

  function Portion(v: real, n: nat): real { Capped(v) * n as real }

  predicate SomeAsked(rates: seq<Rate>) { exists j :: 0 <= j < |rates| && Asked(rates[j]) }

  /** `r` is the largest rank that a rate of the list asks for; NaN and negative rates ask for nothing. */
  ghost predicate IsLargestRank(rates: seq<Rate>, n: nat, r: int)
  {
    && (exists j :: 0 <= j < |rates| && Asked(rates[j]) && IsRateRank(rates[j].value, n, r))
    && (forall j, q :: 0 <= j < |rates| && Asked(rates[j]) && IsRateRank(rates[j].value, n, q) ==> q <= r)
  }

  /** What a list of rates is answered with: the quantised order statistic of the largest
      rank asked for, or minus 2^64 if none is. */
  ghost predicate AnsweredBy(rates: seq<Rate>, xs: seq<Bits32>, a: real)
  {
    if SomeAsked(rates)
    then forall r, x :: IsLargestRank(rates, |xs|, r) && IsOrderStatistic(xs, r, x) ==> a == Quantize(x)
    else a == -Pow2(64)
  }

  /** Any rates, in any order: the k-th answer is about the first k + 1 of them. */
  ghost predicate RanksAnswered(rates: seq<Rate>, xs: seq<Bits32>, result: seq<real>)
  {
    |result| == |rates| && forall k :: 0 <= k < |rates| ==> AnsweredBy(rates[..k + 1], xs, result[k])
  }

  lemma PortionMonotone(v: real, w: real, n: nat)
    requires v <= w
    ensures Portion(v, n) <= Portion(w, n)
  {
    RealProductMonotone(Capped(v), Capped(w), n as real);
  }

  lemma PortionLimits(n: nat)
    ensures Portion(0.0, n) == 0.0 && Portion(1.0, n) == n as real
  {
  }

  lemma PositivePortion(v: real, n: nat)
    requires v > 0.0 && n > 0
    ensures Portion(v, n) > 0.0
  {
    assert Capped(v) > 0.0;
  }

  /** What a rate makes the loop aim at. */
  lemma TargetIsPortion(e: Rate, n: nat)
    requires n > 0 && Asked(e)
    ensures Target(e, n) == if e.value == 0.0 then 1.0 else Portion(e.value, n)
  {
    if e.value > 1.0 { PortionLimits(n); }
  }

  lemma TargetRank(e: Rate, n: nat, r: int)
    requires n > 0 && Asked(e)
    ensures Target(e, n) > 0.0 && (IsRank(Target(e, n), r) <==> IsRateRank(e.value, n, r))
  {
    hide Target, Portion;
    TargetIsPortion(e, n);
    PortionLimits(n);
    if e.value > 0.0 { PositivePortion(e.value, n); }
  }

  lemma {:induction false} MaxTargetIsMax(rates: seq<Rate>, n: nat)
    ensures forall j :: 0 <= j < |rates| && Asked(rates[j]) ==> Target(rates[j], n) <= MaxTarget(rates, n)
    ensures MaxTarget(rates, n) > 0.0 ==>
      exists j :: 0 <= j < |rates| && Asked(rates[j]) && MaxTarget(rates, n) == Target(rates[j], n)
  {
    hide Target;
    if |rates| > 0 {
      var rest, last := rates[..|rates| - 1], rates[|rates| - 1];
      MaxTargetIsMax(rest, n);
      SkippedTarget(last, n);
      assert forall j :: 0 <= j < |rest| ==> rest[j] == rates[j];
      if MaxTarget(rates, n) == MaxTarget(rest, n) > 0.0 {
        var j :| 0 <= j < |rest| && Asked(rest[j]) && MaxTarget(rest, n) == Target(rest[j], n);
        assert Asked(rates[j]) && MaxTarget(rates, n) == Target(rates[j], n);
      }
    }
  }

  lemma SkippedTarget(e: Rate, n: nat)
    ensures !Asked(e) ==> Target(e, n) == 0.0
  {
  }

  lemma RankMonotone(t: real, u: real, q: int, r: int)
    requires t <= u && IsRank(t, q) && IsRank(u, r)
    ensures q <= r
  {
  }

  /** The target of a list of rates rounds up to the largest rank they ask for. */
  lemma LargestRankIff(rates: seq<Rate>, n: nat, r: int)
    requires n > 0 && SomeAsked(rates)
    ensures MaxTarget(rates, n) > 0.0
    ensures IsRank(MaxTarget(rates, n), r) <==> IsLargestRank(rates, n, r)
  {
    hide Target, MaxTarget, IsRank, IsRateRank;
    var m := MaxTarget(rates, n);
    MaxTargetIsMax(rates, n);
    var i :| 0 <= i < |rates| && Asked(rates[i]);
    TargetRank(rates[i], n, r);
    var j :| 0 <= j < |rates| && Asked(rates[j]) && m == Target(rates[j], n);
    TargetRank(rates[j], n, r);
    if IsRank(m, r) {
      forall k, q | 0 <= k < |rates| && Asked(rates[k]) && IsRateRank(rates[k].value, n, q)
        ensures q <= r
      {
        TargetRank(rates[k], n, q);
        RankMonotone(Target(rates[k], n), m, q, r);
      }
    }
    if IsLargestRank(rates, n, r) {
      var k :| 0 <= k < |rates| && Asked(rates[k]) && IsRateRank(rates[k].value, n, r);
      var q := RankExists(m);
      TargetRank(rates[j], n, q);
      TargetRank(rates[k], n, r);
      RankMonotone(Target(rates[k], n), m, r, q);
    }
  }

  lemma RankExists(t: real) returns (r: int)
    ensures IsRank(t, r)
  {
    r := if t.Floor as real == t then t.Floor else t.Floor + 1;
  }

  /** A list that asks for anything asks for a rank between 1 and the number of observations. */
  lemma LargestRankExists(rates: seq<Rate>, n: nat) returns (r: int)
    requires n > 0 && SomeAsked(rates)
    ensures 1 <= r <= n && IsLargestRank(rates, n, r)
  {
    hide MaxTarget, IsLargestRank;
    r := RankExists(MaxTarget(rates, n));
    LargestRankIff(rates, n, r);
    MaxTargetBound(rates, n);
  }

  lemma AccurateIsAnswered(rates: seq<Rate>, xs: seq<Bits32>, a: real)
    requires |xs| > 0 && AccurateAt(xs, MaxTarget(rates, |xs|), a)
    ensures AnsweredBy(rates, xs, a)
  {
    hide MaxTarget, IsRank, IsLargestRank, IsOrderStatistic, Quantize, Pow2;
    if SomeAsked(rates) {
      LargestRankIff(rates, |xs|, 0);
      forall r, x | IsLargestRank(rates, |xs|, r) && IsOrderStatistic(xs, r, x)
        ensures a == Quantize(x)
      {
        LargestRankIff(rates, |xs|, r);
      }
    } else {
      MaxTargetIsMax(rates, |xs|);
    }
  }

  /** A rate of one or more, and everything after it, is answered with the largest observation. */
  lemma RateOfOneIsLargest(rates: seq<Rate>, xs: seq<Bits32>, a: real, j: nat, x: Bits32)
    requires |xs| > 0 && AnsweredBy(rates, xs, a) && j < |rates| && rates[j].Rate? && rates[j].value >= 1.0
    requires x in xs && forall y :: y in xs ==> Value(y) <= Value(x)
    ensures a == Quantize(x)
  {
    hide Quantize, Value, CountIf, IsRateRank;
    var n := |xs|;
    RankOfOne(rates[j].value, n);
    forall k, q | 0 <= k < |rates| && Asked(rates[k]) && IsRateRank(rates[k].value, n, q)
      ensures q <= n
    {
      RateRankAtMost(rates[k].value, n, q);
    }
    assert Asked(rates[j]) && IsLargestRank(rates, n, n);
    CountIfBounds(xs, AtMost(x));
    NotAllCounted(xs, LessThan(x), x);
    assert IsOrderStatistic(xs, n, x);
  }

  lemma RankOfOne(v: real, n: nat)
    requires v >= 1.0 && n > 0
    ensures IsRateRank(v, n, n)
  {
    assert Capped(v) == 1.0;
    PortionLimits(n);
  }

  lemma RateRankAtMost(v: real, n: nat, q: int)
    requires v >= 0.0 && n > 0 && IsRateRank(v, n, q)
    ensures q <= n
  {
    if v <= 1.0 { PortionMonotone(v, 1.0, n); }
    PortionLimits(n);
  }

  lemma RealProductMonotone(x: real, y: real, m: real)
    requires x <= y && m >= 0.0
    ensures x * m <= y * m
  {
    assert (y - x) * m >= 0.0;
    assert (y - x) * m == y * m - x * m;
  }

  lemma {:induction false} NotAllCounted(xs: seq<Bits32>, p: Bits32 -> bool, x: Bits32)
    requires x in xs && !p(x)
    ensures CountIf(xs, p) < |xs|
  {
    var n := |xs| - 1;
    CountIfBounds(xs[..n], p);
    if x != xs[n] { NotAllCounted(xs[..n], p, x); }
  }

  predicate SortedUnitRates(rates: seq<Rate>)
  {
    && (forall i :: 0 <= i < |rates| ==> rates[i].Rate? && 0.0 <= rates[i].value <= 1.0)
    && (forall i, j :: 0 <= i < j < |rates| ==> rates[i].value <= rates[j].value)
  }

  /** Rates in ascending order between 0 and 1 are answered one by one: the rank
      asked for is the fraction of the observations rounded up, and at least 1. */
  lemma SortedRatesRank(rates: seq<Rate>, n: nat, k: nat, r: int)
    requires k < |rates| && n > 0 && SortedUnitRates(rates)
    ensures IsLargestRank(rates[..k + 1], n, r) <==> IsRateRank(rates[k].value, n, r)
  {
    hide IsRateRank;
    var prefix := rates[..k + 1];
    assert prefix[k] == rates[k] && Asked(prefix[k]);
    var top := RateRankExists(rates[k].value, n);
    forall j, q, u | 0 <= j <= k && IsRateRank(prefix[j].value, n, q) && IsRateRank(rates[k].value, n, u)
      ensures q <= u
    {
      RateRankMonotone(prefix[j].value, rates[k].value, n, q, u);
    }
  }

  lemma RateRankExists(v: real, n: nat) returns (r: int)
    requires v >= 0.0
    ensures IsRateRank(v, n, r)
  {
    hide Portion;
    r := RankExists(Portion(v, n));
    if r < 1 { r := 1; }
  }

  lemma RateRankMonotone(v: real, w: real, n: nat, q: int, r: int)
    requires 0.0 <= v <= w && IsRateRank(v, n, q) && IsRateRank(w, n, r)
    ensures q <= r
  {
    hide Portion;
    PortionMonotone(v, w, n);
  }

  // ----- the weighted sum -----

  lemma {:induction false} SpreadIncrement(v: seq<nat>, k: nat, decode: int -> real)
    requires k < |v|
    ensures Spread(v[k := v[k] + 1], decode) == Spread(v, decode) + decode(k - HALF)
  {
    var w, n := v[k := v[k] + 1], |v| - 1;
    if k < n {
      assert w[..n] == v[..n][k := v[k] + 1];
      SpreadIncrement(v[..n], k, decode);
    } else {
      assert w[..n] == v[..n];
      ShareIncrement(Entry(k - HALF, v[k]), decode);
    }
  }

  lemma ShareIncrement(e: Entry, decode: int -> real)
    ensures Share(e.(count := e.count + 1), decode) == Share(e, decode) + decode(e.index)
  {
    assert (e.count + 1) as real == e.count as real + 1.0;
  }

  function QuantizedSum(xs: seq<Bits32>): real
  {
    if |xs| == 0 then 0.0 else QuantizedSum(xs[..|xs| - 1]) + Quantize(xs[|xs| - 1])
  }

  lemma {:induction false} SpreadOfZeros(n: nat, decode: int -> real)
    ensures Spread(Zeros(n), decode) == 0.0
  {
    if n > 0 {
      assert Zeros(n)[..n - 1] == Zeros(n - 1);
      SpreadOfZeros(n - 1, decode);
    }
  }

  /** The quantised sum of some of the observations. */
  function SumIf(xs: seq<Bits32>, p: Bits32 -> bool): real
  {
    if |xs| == 0 then 0.0 else SumIf(xs[..|xs| - 1], p) + if p(xs[|xs| - 1]) then Quantize(xs[|xs| - 1]) else 0.0
  }

  /** The weighted sum of a buffer up to a bucket is the sum of the quantised observations below it. */
  lemma {:induction false} SpreadBelowIsSum(xs: seq<Bits32>, narrow: bool, o: int)
    requires Roomy(xs, narrow) && -HALF <= o <= HALF
    ensures Spread(InOrder(Fill(xs, narrow))[..o + HALF], BucketValue) == SumIf(xs, InBucketBelow(o))
  {
    hide Encode, Quantize, BucketValue, InOrder, Spread, OrderedOf, Roomy, IsHistogram;
    if |xs| == 0 {
      ZerosInOrder(o + HALF);
      SpreadOfZeros(o + HALF, BucketValue);
    } else {
      var n := |xs| - 1;
      var c, pos := Fill(xs[..n], narrow), Encode(xs[n]);
      FillIsHistogram(xs, narrow);
      RoomyPrefix(xs, narrow);
      SpreadBelowIsSum(xs[..n], narrow, o);
      hide Fill;
      SpreadStep(c, pos, o);
      BucketValueOf(0, xs[n]);
    }
  }

  lemma SpreadStep(c: seq<nat>, pos: RawIndex, o: int)
    requires |c| == BUCKETS && -HALF <= o <= HALF
    ensures Spread(InOrder(c[pos := c[pos] + 1])[..o + HALF], BucketValue) ==
            Spread(InOrder(c)[..o + HALF], BucketValue)
            + if OrderedOf(pos) < o then BucketValue(OrderedOf(pos)) else 0.0
  {
    hide BucketValue, InOrder, Spread;
    InOrderUpdate(c, pos, c[pos] + 1);
    InOrderAt(c, pos);
    PrefixIncrement(InOrder(c), OrderedOf(pos) + HALF, o + HALF, BucketValue);
  }

  lemma PrefixIncrement(v: seq<nat>, k: nat, n: nat, decode: int -> real)
    requires k < |v| && n <= |v|
    ensures Spread(v[k := v[k] + 1][..n], decode) == Spread(v[..n], decode) + if k < n then decode(k - HALF) else 0.0
  {
    if k < n {
      assert v[k := v[k] + 1][..n] == v[..n][k := v[k] + 1];
      SpreadIncrement(v[..n], k, decode);
    } else {
      assert v[k := v[k] + 1][..n] == v[..n];
    }
  }

  lemma {:induction false} SumOfAll(xs: seq<Bits32>, p: Bits32 -> bool)
    requires forall x :: x in xs ==> p(x)
    ensures SumIf(xs, p) == QuantizedSum(xs)
  {
    hide Quantize;
    if |xs| > 0 { SumOfAll(xs[..|xs| - 1], p); }
  }

  /** The weighted sum of a buffer is the sum of its quantised observations. */
  lemma WeightIsQuantizedSum(xs: seq<Bits32>, narrow: bool)
    requires Roomy(xs, narrow)
    ensures Spread(InOrder(Fill(xs, narrow)), BucketValue) == QuantizedSum(xs)
  {
    hide Encode, Quantize, BucketValue, Fill, Spread;
    SpreadBelowIsSum(xs, narrow, HALF);
    SumOfAll(xs, InBucketBelow(HALF));
    var v := InOrder(Fill(xs, narrow));
    assert v[..BUCKETS] == v;
  }

  // ----- the meaning of a read-out of two filled buffers -----

  lemma {:induction false} QuantizedSumAppend(xs: seq<Bits32>, ys: seq<Bits32>)
    ensures QuantizedSum(xs + ys) == QuantizedSum(xs) + QuantizedSum(ys)
  {
    hide Quantize;
    if |ys| == 0 {
      assert xs + ys == xs;
    } else {
      var n := |ys| - 1;
      assert (xs + ys)[..|xs| + n] == xs + ys[..n];
      QuantizedSumAppend(xs, ys[..n]);
    }
  }

  ghost function View(xs: seq<Bits32>, narrow: bool): (v: seq<nat>)
    ensures |v| == BUCKETS
  {
    InOrder(Fill(xs, narrow))
  }

  predicate IsNegative(x: Bits32) { SignBit(x) == 1 }

  lemma NegativeBuckets(x: Bits32)
    ensures OrderedOf(Encode(x)) < 0 <==> IsNegative(x)
  {
    hide Encode;
    EncodedFields(x);
    ClampBounds(x);
    Fields(x);
  }

  lemma ViewTotals(xs: seq<Bits32>, ys: seq<Bits32>, narrow: bool)
    requires Roomy(xs, narrow) && Roomy(ys, narrow)
    ensures Sum(View(xs, narrow)) == |xs|
    ensures Below(View(xs, narrow), View(ys, narrow), 0) == CountIf(xs + ys, IsNegative)
  {
    hide Encode, Sum, InOrder, Fill, IsNegative, CountIf;
    var v := View(xs, narrow);
    CountBelowIsCount(xs, narrow, HALF);
    assert v[..BUCKETS] == v;
    CountIfBounds(xs, InBucketBelow(HALF));
    BelowIsCount(xs, ys, narrow, 0);
    forall x | x in xs + ys
      ensures InBucketBelow(0)(x) <==> IsNegative(x)
    {
      NegativeBuckets(x);
    }
    CountIfImplies(xs + ys, InBucketBelow(0), IsNegative);
    CountIfImplies(xs + ys, IsNegative, InBucketBelow(0));
  }

  // ----- the count, also past the room of a bucket -----

  /** What a sign half of 8192 narrow counters holds when all are full. */
  const FULL: int := 8192 * 4290000001

  lemma {:induction false} FullSum(s: seq<nat>)
    requires forall i :: 0 <= i < |s| ==> s[i] <= 4290000001
    ensures Sum(s) <= |s| * 4290000001
    ensures Sum(s) == |s| * 4290000001 <==> forall i :: 0 <= i < |s| ==> s[i] == 4290000001
  {
    if |s| > 0 {
      var rest := s[..|s| - 1];
      FullSum(rest);
      assert forall i :: 0 <= i < |rest| ==> rest[i] == s[i];
    }
  }

  lemma {:induction false} SumAppend(s: seq<nat>, t: seq<nat>)
    ensures Sum(s + t) == Sum(s) + Sum(t)
  {
    if |t| == 0 {
      assert s + t == s;
    } else {
      assert (s + t)[..|s| + |t| - 1] == s + t[..|t| - 1];
      SumAppend(s, t[..|t| - 1]);
    }
  }

  /** The total of the half that `pos` is in. */
  ghost function HalfTotal(c: seq<nat>, pos: RawIndex): int
    requires |c| == BUCKETS
  {
    if pos >= HALF then CountBelow(c, 0) else CountBelow(c, HALF) - CountBelow(c, 0)
  }

  lemma HalfAt(c: seq<nat>, pos: RawIndex, k: int)
    requires |c| == BUCKETS && Lower(pos) <= k < Upper(pos)
    ensures
      var p := OrderedOf(k) + HALF;
      InOrder(c)[p] == c[k] && (if pos >= HALF then 0 <= p < HALF else HALF <= p < BUCKETS)
  {
    hide InOrder;
    InOrderAt(c, k);
  }

  /** The counters of that half, in value order. */
  ghost function HalfOf(c: seq<nat>, pos: RawIndex): (h: seq<nat>)
    requires |c| == BUCKETS
    ensures |h| == HALF
  {
    if pos >= HALF then InOrder(c)[..HALF] else InOrder(c)[HALF..]
  }

  lemma HalfTotalIsSum(c: seq<nat>, pos: RawIndex)
    requires |c| == BUCKETS
    ensures HalfTotal(c, pos) == Sum(HalfOf(c, pos))
  {
    hide InOrder, Sum;
    var v := InOrder(c);
    assert v == v[..HALF] + v[HALF..] && v[..BUCKETS] == v;
    SumAppend(v[..HALF], v[HALF..]);
  }

  lemma AllFullIff(c: seq<nat>, pos: RawIndex)
    requires |c| == BUCKETS && Bounded(c)
    ensures forall p :: 0 <= p < HALF ==> HalfOf(c, pos)[p] <= 4290000001
    ensures Saturated(c, pos) <==> forall p :: 0 <= p < HALF ==> HalfOf(c, pos)[p] == 4290000001
  {
    hide InOrder;
    var half := HalfOf(c, pos);
    forall p | 0 <= p < HALF
      ensures half[p] <= 4290000001 && (Saturated(c, pos) ==> half[p] == 4290000001)
    {
      var k := RawOf(if pos >= HALF then p - HALF else p);
      HalfAt(c, pos, k);
      assert half[p] == c[k] && (Saturated(c, pos) ==> !Free(c, k));
    }
    forall k | Lower(pos) <= k < Upper(pos)
      ensures exists p :: 0 <= p < HALF && half[p] == c[k]
    {
      HalfAt(c, pos, k);
      var p := if pos >= HALF then OrderedOf(k) + HALF else OrderedOf(k);
      assert 0 <= p < HALF && half[p] == c[k];
    }
  }

  /** A half is saturated exactly when its total is all it can hold. */
  lemma SaturatedIff(c: seq<nat>, pos: RawIndex)
    requires |c| == BUCKETS && Bounded(c)
    ensures HalfTotal(c, pos) <= FULL && (Saturated(c, pos) <==> HalfTotal(c, pos) == FULL)
  {
    hide Sum, HalfOf, HalfTotal, Saturated, Bounded;
    AllFullIff(c, pos);
    HalfTotalIsSum(c, pos);
    FullSum(HalfOf(c, pos));
  }

  /** What a narrow buffer counts of some observations: of either sign as many as a half holds. */
  function Held(xs: seq<Bits32>): int
  {
    var negative := CountIf(xs, IsNegative);
    Min(negative, FULL) + Min(|xs| - negative, FULL)
  }

  /** Nothing goes uncounted exactly while neither sign half overflows. */
  lemma HeldIff(xs: seq<Bits32>)
    ensures Held(xs) == |xs| <==> CountIf(xs, IsNegative) <= FULL && |xs| - CountIf(xs, IsNegative) <= FULL
  {
  }

  /** However full its buckets are, a narrow buffer counts every observation until a sign half is full. */
  lemma {:induction false} HalfTotals(xs: seq<Bits32>)
    ensures
      var c, negative := Fill(xs, true), CountIf(xs, IsNegative);
      && CountBelow(c, 0) == Min(negative, FULL)
      && CountBelow(c, HALF) == Held(xs) && negative <= |xs|
  {
    hide Encode, CountBelow, IsNegative;
    CountIfBounds(xs, IsNegative);
    if |xs| == 0 {
      ZeroTotals();
    } else {
      var n := |xs| - 1;
      var c, x := Fill(xs[..n], true), xs[n];
      HalfTotals(xs[..n]);
      CountIfBounds(xs[..n], IsNegative);
      FillBounded(xs[..n], true);
      SaturatedIff(c, Encode(x));
      BumpTotals(c, Encode(x));
      NegativeHalf(x);
    }
  }

  lemma ZeroTotals()
    ensures CountBelow(Zeros(BUCKETS), 0) == 0 && CountBelow(Zeros(BUCKETS), HALF) == 0
  {
    ZerosInOrder(HALF);
    ZerosInOrder(BUCKETS);
    SumOfZeros(HALF);
    SumOfZeros(BUCKETS);
  }

  lemma BumpTotals(c: seq<nat>, pos: RawIndex)
    requires |c| == BUCKETS
    ensures
      var d, unit := Bump(c, pos, true), if Saturated(c, pos) then 0 else 1;
      && CountBelow(d, 0) == CountBelow(c, 0) + (if pos >= HALF then unit else 0)
      && CountBelow(d, HALF) == CountBelow(c, HALF) + unit
  {
    hide CountBelow;
    IncreaseConservesHalves(c, pos, Landing(c, pos), Bump(c, pos, true));
  }

  lemma NegativeHalf(x: Bits32)
    ensures Encode(x) >= HALF <==> IsNegative(x)
  {
    hide Encode, IsNegative;
    NegativeBuckets(x);
  }

  lemma HeldTotal(xs: seq<Bits32>)
    ensures Sum(View(xs, true)) == Held(xs)
  {
    hide Sum, InOrder, Fill, Held;
    HalfTotals(xs);
    var v := View(xs, true);
    assert v[..BUCKETS] == v;
  }

  // ----- the sum, in terms of the observations -----

  /** Bucket `o` is the highest one below zero that received an observation. */
  ghost predicate TopNegative(zs: seq<Bits32>, o: int)
  {
    && -HALF <= o < 0 && CountIf(zs, AtBucket(o)) > 0
    && forall p :: o < p < 0 ==> CountIf(zs, AtBucket(p)) == 0
  }

  /** How many observations of that bucket come last: the larger of what the two buffers hold of it. */
  function LastCount(xs: seq<Bits32>, ys: seq<Bits32>, o: int): int
  {
    Max(CountIf(xs, AtBucket(o)), CountIf(ys, AtBucket(o)))
  }

  /** The target exceeds the number of negative observations before the last ones. */
  ghost predicate AsksForNegatives(xs: seq<Bits32>, ys: seq<Bits32>, target: real)
  {
    forall o :: TopNegative(xs + ys, o) ==> target > (CountIf(xs + ys, IsNegative) - LastCount(xs, ys, o)) as real
  }

  /** Bucket `o` is the first one up to which there are as many observations as the target asks for. */
  ghost predicate ReachedAt(zs: seq<Bits32>, target: real, o: int)
  {
    -HALF <= o < HALF && CountIf(zs, InBucketBelow(o)) as real < target <= CountIf(zs, InBucketBelow(o + 1)) as real
  }

  /** How many observations of bucket `o` are read: those of the buffer with fewer, if they suffice, or all. */
  function ReadAt(xs: seq<Bits32>, ys: seq<Bits32>, target: real, o: int): nat
  {
    var below, c0, c1 := CountIf(xs + ys, InBucketBelow(o)), CountIf(xs, AtBucket(o)), CountIf(ys, AtBucket(o));
    var first := if c0 < c1 then c0 else c1;
    if first > 0 && target <= (below + first) as real then first else c0 + c1
  }

  function SumRead(xs: seq<Bits32>, ys: seq<Bits32>, target: real, o: int): real
  {
    SumIf(xs + ys, InBucketBelow(o)) + Share(Entry(o, ReadAt(xs, ys, target, o)), BucketValue)
  }

  /** What is not read: the rest of bucket `o` and everything above it. */
  function SumUnread(xs: seq<Bits32>, ys: seq<Bits32>, target: real, o: int): real
    requires ReadAt(xs, ys, target, o) <= CountIf(xs + ys, AtBucket(o))
  {
    Share(Entry(o, CountIf(xs + ys, AtBucket(o)) - ReadAt(xs, ys, target, o)), BucketValue)
    + SumIf(xs + ys, InBucketAbove(o))
  }

  /** The sum of what the largest target asks for. */
  ghost predicate IsPartialSum(xs: seq<Bits32>, ys: seq<Bits32>, target: real, sum: real)
  {
    if target <= 0.0 then sum == 0.0
    else exists o :: ReachedAt(xs + ys, target, o) && sum == SumRead(xs, ys, target, o)
  }

  /** What a read-out says about the observations of the two buffers: how many there are,
      their quantised order statistics, and the sum of their quantised values if the
      largest target asks for the last negative ones, of those it asks for otherwise. */
  ghost predicate Describes(rates: seq<Rate>, xs: seq<Bits32>, ys: seq<Bits32>,
                            result: seq<real>, sum: real, count: nat)
  {
    && count == |xs + ys| && |result| == |rates|
    && (count == 0 ==> sum == 0.0 && forall k :: 0 <= k < |result| ==> result[k] == 0.0)
    && (count > 0 && NoNaN(xs + ys) ==> RanksAnswered(rates, xs + ys, result))
    && (count > 0 ==>
          if AsksForNegatives(xs, ys, MaxTarget(rates, count)) then sum == QuantizedSum(xs + ys)
          else IsPartialSum(xs, ys, MaxTarget(rates, count), sum))
  }

  lemma ViewAt(xs: seq<Bits32>, narrow: bool, o: int)
    requires Roomy(xs, narrow) && -HALF <= o < HALF
    ensures View(xs, narrow)[o + HALF] == CountIf(xs, AtBucket(o))
  {
    hide Encode, Fill, InOrder, CountIf;
    FillIsHistogram(xs, narrow);
    InOrderAt(Fill(xs, narrow), RawOf(o));
    assert OrderedOf(RawOf(o)) == o;
  }

  lemma TopIsTop(xs: seq<Bits32>, ys: seq<Bits32>, narrow: bool, o: int)
    requires Roomy(xs, narrow) && Roomy(ys, narrow)
    ensures IsTop(View(xs, narrow), View(ys, narrow), o) <==> TopNegative(xs + ys, o)
    ensures -HALF <= o < 0 ==> TopCount(View(xs, narrow), View(ys, narrow), o) == LastCount(xs, ys, o)
  {
    hide Encode, View, CountIf, Roomy;
    var v0, v1 := View(xs, narrow), View(ys, narrow);
    forall p | -HALF <= p < HALF
      ensures v0[p + HALF] == CountIf(xs, AtBucket(p)) && v1[p + HALF] == CountIf(ys, AtBucket(p))
      ensures CountIf(xs + ys, AtBucket(p)) == v0[p + HALF] + v1[p + HALF]
    {
      ViewAt(xs, narrow, p);
      ViewAt(ys, narrow, p);
      CountIfAppend(xs, ys, AtBucket(p));
    }
    assert forall k :: 0 <= k < HALF ==> v0[k] == CountIf(xs, AtBucket(k - HALF));
    assert forall k :: 0 <= k < HALF ==> CountIf(xs + ys, AtBucket(k - HALF)) == v0[k] + v1[k];
  }

  lemma TailRunsMeans(xs: seq<Bits32>, ys: seq<Bits32>, narrow: bool, target: real)
    requires Roomy(xs, narrow) && Roomy(ys, narrow)
    ensures TailRuns(View(xs, narrow), View(ys, narrow), target) <==> AsksForNegatives(xs, ys, target)
  {
    hide View, CountIf, Roomy, IsTop, TopNegative, Below, TopCount, LastCount;
    ViewTotals(xs, ys, narrow);
    forall o
      ensures IsTop(View(xs, narrow), View(ys, narrow), o) <==> TopNegative(xs + ys, o)
      ensures -HALF <= o < 0 ==> TopCount(View(xs, narrow), View(ys, narrow), o) == LastCount(xs, ys, o)
      ensures TopNegative(xs + ys, o) ==> -HALF <= o < 0
    {
      TopIsTop(xs, ys, narrow, o);
      TopRange(xs + ys, o);
    }
  }

  lemma TopRange(zs: seq<Bits32>, o: int)
    ensures TopNegative(zs, o) ==> -HALF <= o < 0
  {
  }

  lemma {:induction false} SumIfAppend(xs: seq<Bits32>, ys: seq<Bits32>, p: Bits32 -> bool)
    ensures SumIf(xs + ys, p) == SumIf(xs, p) + SumIf(ys, p)
  {
    hide Quantize;
    if |ys| == 0 {
      assert xs + ys == xs;
    } else {
      var n := |ys| - 1;
      assert (xs + ys)[..|xs| + n] == xs + ys[..n];
      SumIfAppend(xs, ys[..n], p);
    }
  }

  /** The merge's partial sum is the partial sum of the observations. */
  lemma ReadSumMeans(xs: seq<Bits32>, ys: seq<Bits32>, narrow: bool, target: real, sum: real)
    requires Roomy(xs, narrow) && Roomy(ys, narrow)
    requires IsReadSum(View(xs, narrow), View(ys, narrow), BucketValue, target, sum)
    ensures IsPartialSum(xs, ys, target, sum)
  {
    hide CountIf, SumIf, Roomy, Spread, Sum, InOrder, Fill, BucketValue, Share;
    var v0, v1 := View(xs, narrow), View(ys, narrow);
    if target > 0.0 {
      var o :| Reaches(v0, v1, target, o) && sum == ReadWeight(v0, v1, BucketValue, target, o);
      BelowIsCount(xs, ys, narrow, o);
      BelowIsCount(xs, ys, narrow, o + 1);
      ViewAt(xs, narrow, o);
      ViewAt(ys, narrow, o);
      SpreadBelowIsSum(xs, narrow, o);
      SpreadBelowIsSum(ys, narrow, o);
      SumIfAppend(xs, ys, InBucketBelow(o));
      assert ReachedAt(xs + ys, target, o) && sum == SumRead(xs, ys, target, o);
    }
  }

  lemma ReadOut(rates: seq<Rate>, xs: seq<Bits32>, ys: seq<Bits32>, narrow: bool,
                result: seq<real>, sum: real, count: nat)
    requires Roomy(xs, narrow) && Roomy(ys, narrow)
    requires count == Sum(View(xs, narrow)) + Sum(View(ys, narrow)) > 0 && |result| == |rates|
    requires forall k :: 0 <= k < |rates| ==>
      IsAnswer(View(xs, narrow), View(ys, narrow), BucketValue, -Pow2(64), MaxTarget(rates[..k + 1], count), result[k])
    requires if TailRuns(View(xs, narrow), View(ys, narrow), MaxTarget(rates, count))
             then sum == Total(View(xs, narrow), View(ys, narrow), BucketValue)
             else IsReadSum(View(xs, narrow), View(ys, narrow), BucketValue, MaxTarget(rates, count), sum)
    ensures Describes(rates, xs, ys, result, sum, count)
  {
    hide Encode, Quantize, BucketValue, Emit, Sum, InOrder, Fill, Pow2, IsAnswer, AccurateAt, AnsweredBy, Weight,
         Spread, MaxTarget, CountIf, QuantizedSum, Below, NoNaN, Roomy, TailRuns, IsReadSum, AsksForNegatives,
         IsPartialSum;
    ViewTotals(xs, ys, narrow);
    ViewTotals(ys, xs, narrow);
    if NoNaN(xs + ys) {
      forall k | 0 <= k < |rates|
        ensures AnsweredBy(rates[..k + 1], xs + ys, result[k])
      {
        AnswerIsAccurate(xs, ys, narrow, MaxTarget(rates[..k + 1], count), result[k]);
        AccurateIsAnswered(rates[..k + 1], xs + ys, result[k]);
      }
    }
    TailRunsMeans(xs, ys, narrow, MaxTarget(rates, count));
    if AsksForNegatives(xs, ys, MaxTarget(rates, count)) {
      WeightOfEmitted(View(xs, narrow), BucketValue);
      WeightOfEmitted(View(ys, narrow), BucketValue);
      WeightIsQuantizedSum(xs, narrow);
      WeightIsQuantizedSum(ys, narrow);
      QuantizedSumAppend(xs, ys);
    } else {
      ReadSumMeans(xs, ys, narrow, MaxTarget(rates, count), sum);
    }
  }

  lemma CountSwapped(xs: seq<Bits32>, ys: seq<Bits32>, p: Bits32 -> bool)
    ensures CountIf(xs + ys, p) == CountIf(ys + xs, p) && SumIf(xs + ys, p) == SumIf(ys + xs, p)
  {
    CountIfAppend(xs, ys, p);
    CountIfAppend(ys, xs, p);
    SumIfAppend(xs, ys, p);
    SumIfAppend(ys, xs, p);
  }

  lemma AsksSwapped(xs: seq<Bits32>, ys: seq<Bits32>, target: real)
    requires AsksForNegatives(xs, ys, target)
    ensures AsksForNegatives(ys, xs, target)
  {
    hide Encode, CountIf;
    CountSwapped(xs, ys, IsNegative);
    forall o | TopNegative(ys + xs, o)
      ensures TopNegative(xs + ys, o)
    {
      forall p ensures CountIf(xs + ys, AtBucket(p)) == CountIf(ys + xs, AtBucket(p)) {
        CountSwapped(xs, ys, AtBucket(p));
      }
    }
  }

  lemma PartialSumSwapped(xs: seq<Bits32>, ys: seq<Bits32>, target: real, sum: real)
    requires IsPartialSum(xs, ys, target, sum)
    ensures IsPartialSum(ys, xs, target, sum)
  {
    hide Encode, CountIf, SumIf, BucketValue;
    if target > 0.0 {
      var o :| ReachedAt(xs + ys, target, o) && sum == SumRead(xs, ys, target, o);
      CountSwapped(xs, ys, InBucketBelow(o));
      CountSwapped(xs, ys, InBucketBelow(o + 1));
      assert ReachedAt(ys + xs, target, o) && sum == SumRead(ys, xs, target, o);
    }
  }

  lemma OrderStatisticSwapped(xs: seq<Bits32>, ys: seq<Bits32>, r: int, x: Bits32)
    ensures IsOrderStatistic(xs + ys, r, x) == IsOrderStatistic(ys + xs, r, x)
  {
    hide CountIf;
    CountSwapped(xs, ys, LessThan(x));
    CountSwapped(xs, ys, AtMost(x));
  }

  lemma AnswersSwapped(rates: seq<Rate>, xs: seq<Bits32>, ys: seq<Bits32>, result: seq<real>)
    requires RanksAnswered(rates, xs + ys, result)
    ensures RanksAnswered(rates, ys + xs, result)
  {
    hide Quantize, Pow2, IsOrderStatistic, IsLargestRank, SomeAsked;
    assert |xs + ys| == |ys + xs|;
    forall k | 0 <= k < |rates|
      ensures AnsweredBy(rates[..k + 1], ys + xs, result[k])
    {
      assert AnsweredBy(rates[..k + 1], xs + ys, result[k]);
      forall r, x ensures IsOrderStatistic(xs + ys, r, x) == IsOrderStatistic(ys + xs, r, x) {
        OrderStatisticSwapped(xs, ys, r, x);
      }
    }
  }

  /** Which of the buffers is listed first does not matter. */
  lemma DescribesSwapped(rates: seq<Rate>, xs: seq<Bits32>, ys: seq<Bits32>, result: seq<real>, sum: real, count: nat)
    requires Describes(rates, xs, ys, result, sum, count)
    ensures Describes(rates, ys, xs, result, sum, count)
  {
    hide Quantize, MaxTarget, CountIf, QuantizedSum, RanksAnswered, AsksForNegatives, IsPartialSum;
    var target := MaxTarget(rates, count);
    QuantizedSumAppend(xs, ys);
    QuantizedSumAppend(ys, xs);
    assert NoNaN(ys + xs) ==> NoNaN(xs + ys);
    if count > 0 && NoNaN(ys + xs) { AnswersSwapped(rates, xs, ys, result); }
    if AsksForNegatives(xs, ys, target) { AsksSwapped(xs, ys, target); }
    if AsksForNegatives(ys, xs, target) { AsksSwapped(ys, xs, target); }
    if IsPartialSum(xs, ys, target, sum) { PartialSumSwapped(xs, ys, target, sum); }
  }

  /** End to end, for any rates: the k-th answer keeps the sign of the true order
      statistic of the largest rank asked for so far and lies below it in size by less
      than one part in 64, is zero below 2^-62 and plus or minus 2^64 from there on. */
  lemma QuantileErrorBound(rates: seq<Rate>, xs: seq<Bits32>, result: seq<real>, k: nat, r: int, x: Bits32)
    requires NoNaN(xs) && RanksAnswered(rates, xs, result) && k < |rates|
    requires IsLargestRank(rates[..k + 1], |xs|, r) && IsOrderStatistic(xs, r, x)
    ensures
      var v, a := Value(x), result[k];
      if RealAbs(v) < Pow2(-62) then a == 0.0
      else if RealAbs(v) >= Pow2(64) then a == if v < 0.0 then -Pow2(64) else Pow2(64)
      else (v < 0.0 <==> a < 0.0) && RealAbs(a) <= RealAbs(v) < RealAbs(a) * (1.0 + 1.0 / 64.0)
  {
    hide Quantize, Value, Pow2, CountIf, IsNaN, IsRateRank;
    assert AnsweredBy(rates[..k + 1], xs, result[k]);
    QuantizeAccuracy(x);
  }

  // ----- when the sum is right -----

  lemma {:induction false} SumSplits(zs: seq<Bits32>, o: int)
    ensures QuantizedSum(zs) ==
            SumIf(zs, InBucketBelow(o)) + Share(Entry(o, CountIf(zs, AtBucket(o))), BucketValue)
            + SumIf(zs, InBucketAbove(o))
    ensures CountIf(zs, InBucketBelow(o + 1)) == CountIf(zs, InBucketBelow(o)) + CountIf(zs, AtBucket(o))
  {
    hide Encode, Quantize, BucketValue, Share;
    if |zs| == 0 {
      NoShare(o, BucketValue);
    } else {
      var n := |zs| - 1;
      SumSplits(zs[..n], o);
      BucketValueOf(0, zs[n]);
      ShareIncrement(Entry(o, CountIf(zs[..n], AtBucket(o))), BucketValue);
    }
  }

  lemma NoShare(o: int, decode: int -> real)
    ensures Share(Entry(o, 0), decode) == 0.0
  {
  }

  lemma ReadAtMost(xs: seq<Bits32>, ys: seq<Bits32>, target: real, o: int)
    ensures ReadAt(xs, ys, target, o) <= CountIf(xs + ys, AtBucket(o))
    ensures CountIf(xs + ys, AtBucket(o)) == CountIf(xs, AtBucket(o)) + CountIf(ys, AtBucket(o))
  {
    hide Encode, CountIf;
    CountIfAppend(xs, ys, AtBucket(o));
  }

  /** Nothing is lost between what is read and what is not. */
  lemma ReadAndUnread(xs: seq<Bits32>, ys: seq<Bits32>, target: real, o: int)
    ensures ReadAt(xs, ys, target, o) <= CountIf(xs + ys, AtBucket(o))
    ensures QuantizedSum(xs + ys) == SumRead(xs, ys, target, o) + SumUnread(xs, ys, target, o)
  {
    hide Encode, CountIf, SumIf, BucketValue, Share, QuantizedSum, ReadAt;
    ReadAtMost(xs, ys, target, o);
    SumSplits(xs + ys, o);
    var m, n := ReadAt(xs, ys, target, o), CountIf(xs + ys, AtBucket(o));
    ShareAdd(o, m, n - m, BucketValue);
  }

  lemma ReachedOnce(zs: seq<Bits32>, target: real, o: int, p: int)
    requires ReachedAt(zs, target, o) && ReachedAt(zs, target, p)
    ensures o == p
  {
    hide Encode;
    if o < p { CountIfImplies(zs, InBucketBelow(o + 1), InBucketBelow(p)); }
    if p < o { CountIfImplies(zs, InBucketBelow(p + 1), InBucketBelow(o)); }
  }

  /** Some bucket reaches every target up to the number of observations. */
  lemma {:induction false} ReachedExists(zs: seq<Bits32>, target: real, n: int) returns (o: int)
    requires -HALF <= n <= HALF && 0.0 < target <= CountIf(zs, InBucketBelow(n)) as real
    ensures ReachedAt(zs, target, o)
    decreases n + HALF
  {
    hide Encode;
    if n == -HALF {
      CountIfBounds(zs, InBucketBelow(n));
      o := 0;
    } else if CountIf(zs, InBucketBelow(n - 1)) as real < target {
      o := n - 1;
    } else {
      o := ReachedExists(zs, target, n - 1);
    }
  }

  lemma {:induction false} MaxTargetBound(rates: seq<Rate>, count: nat)
    ensures 0.0 <= MaxTarget(rates, count) <= count as real
  {
    hide Target;
    if |rates| > 0 {
      MaxTargetBound(rates[..|rates| - 1], count);
      TargetBounds(rates[|rates| - 1], count);
    }
  }

  /** For any data: the sum is right if and only if the largest target asks for the last
      negative observations, or what it leaves unread, from the bucket that reaches it
      on, adds up to zero. */
  lemma SumExactIff(rates: seq<Rate>, xs: seq<Bits32>, ys: seq<Bits32>,
                    result: seq<real>, sum: real, count: nat) returns (o: int)
    requires Describes(rates, xs, ys, result, sum, count) && count > 0
    ensures
      var target := MaxTarget(rates, count);
      && (target > 0.0 ==> ReachedAt(xs + ys, target, o))
      && ReadAt(xs, ys, target, o) <= CountIf(xs + ys, AtBucket(o))
      && (sum == QuantizedSum(xs + ys) <==>
            || AsksForNegatives(xs, ys, target)
            || (if target > 0.0 then SumUnread(xs, ys, target, o) else QuantizedSum(xs + ys)) == 0.0)
  {
    hide MaxTarget, AsksForNegatives, ReachedAt, SumRead, SumUnread, QuantizedSum, RanksAnswered,
         CountIf, ReadAt, Encode;
    var zs, target := xs + ys, MaxTarget(rates, count);
    MaxTargetBound(rates, count);
    CountIfBounds(zs, InBucketBelow(HALF));
    o := 0;
    if target > 0.0 { o := ReachedExists(zs, target, HALF); }
    ReadAndUnread(xs, ys, target, o);
    if !AsksForNegatives(xs, ys, target) && target > 0.0 {
      var p :| ReachedAt(zs, target, p) && sum == SumRead(xs, ys, target, p);
      ReachedOnce(zs, target, o, p);
    }
  }

  lemma {:induction false} NegativeSum(zs: seq<Bits32>, p: Bits32 -> bool)
    requires forall x :: x in zs && p(x) ==> Quantize(x) <= 0.0
    ensures SumIf(zs, p) <= 0.0
    ensures (exists x :: x in zs && p(x) && Quantize(x) < 0.0) ==> SumIf(zs, p) < 0.0
  {
    hide Quantize;
    if |zs| > 0 {
      var n := |zs| - 1;
      NegativeSum(zs[..n], p);
      assert forall x :: x in zs ==> x in zs[..n] || x == zs[n];
    }
  }

  lemma {:induction false} SomeCounted(zs: seq<Bits32>, p: Bits32 -> bool) returns (x: Bits32)
    requires CountIf(zs, p) > 0
    ensures x in zs && p(x)
  {
    var n := |zs| - 1;
    if p(zs[n]) { x := zs[n]; } else { x := SomeCounted(zs[..n], p); }
  }

  /** Observations whose negative ones decode below zero and whose others decode to zero. */
  ghost predicate NegativeData(zs: seq<Bits32>)
  {
    forall x :: x in zs ==> if IsNegative(x) then Quantize(x) < 0.0 else Quantize(x) == 0.0
  }

  lemma NegativeUpTo(zs: seq<Bits32>, o: int, p: int)
    requires TopNegative(zs, o) && o < p
    ensures CountIf(zs, IsNegative) <= CountIf(zs, InBucketBelow(p))
  {
    hide Encode;
    forall x | x in zs && IsNegative(x)
      ensures InBucketBelow(p)(x)
    {
      NegativeBuckets(x);
      var b := OrderedOf(Encode(x));
      if b > o { CountedOne(zs, x, AtBucket(b)); }
    }
    CountIfImplies(zs, IsNegative, InBucketBelow(p));
  }

  lemma {:induction false} CountedOne(zs: seq<Bits32>, x: Bits32, p: Bits32 -> bool)
    requires x in zs && p(x)
    ensures CountIf(zs, p) > 0
  {
    var n := |zs| - 1;
    if x != zs[n] { CountedOne(zs[..n], x, p); }
  }

  lemma ShareSign(o: int, n: nat, decode: int -> real)
    requires decode(o) <= 0.0
    ensures Share(Entry(o, n), decode) <= 0.0 && (n > 0 && decode(o) < 0.0 ==> Share(Entry(o, n), decode) < 0.0)
  {
    if n > 0 && decode(o) < 0.0 { assert decode(o) * n as real < 0.0; }
  }

  /** What a target that stops short of the last negative observations leaves unread weighs less than nothing. */
  lemma UnreadIsNegative(xs: seq<Bits32>, ys: seq<Bits32>, target: real, top: int, o: int)
    requires NegativeData(xs + ys) && TopNegative(xs + ys, top) && ReachedAt(xs + ys, target, o)
    requires target <= (CountIf(xs + ys, IsNegative) - LastCount(xs, ys, top)) as real
    ensures ReadAt(xs, ys, target, o) <= CountIf(xs + ys, AtBucket(o)) && SumUnread(xs, ys, target, o) < 0.0
  {
    hide Encode, Quantize, BucketValue, CountIf, SumIf, Share, QuantizedSum;
    var zs := xs + ys;
    ReadAtMost(xs, ys, target, o);
    ReadAtMost(xs, ys, target, top);
    SumSplits(zs, o);
    NegativeUpTo(zs, top, top + 1);
    SumSplits(zs, top);
    if o > top { NegativeUpTo(zs, top, o); }
    var x := SomeCounted(zs, AtBucket(o));
    BucketValueOf(0, x);
    var y := SomeCounted(zs, AtBucket(top));
    NegativeBuckets(y);
    BucketValueOf(0, y);
    ShareSign(o, CountIf(zs, AtBucket(o)) - ReadAt(xs, ys, target, o), BucketValue);
    NegativeSum(zs, InBucketAbove(o));
    if o < top { assert InBucketAbove(o)(y); }
  }

  /** On negative data the sum is right if and only if the largest target asks for the
      last negative observations: more than those that come before them. */
  lemma NegativeSumExactIff(rates: seq<Rate>, xs: seq<Bits32>, ys: seq<Bits32>,
                            result: seq<real>, sum: real, count: nat)
    requires Describes(rates, xs, ys, result, sum, count) && count > 0 && NegativeData(xs + ys)
    ensures sum == QuantizedSum(xs + ys) <==> AsksForNegatives(xs, ys, MaxTarget(rates, count))
  {
    hide MaxTarget, ReachedAt, SumRead, SumUnread, QuantizedSum, RanksAnswered, CountIf, ReadAt, TopNegative, LastCount;
    var zs, target := xs + ys, MaxTarget(rates, count);
    if !AsksForNegatives(xs, ys, target) {
      var top :| TopNegative(zs, top) && target <= (CountIf(zs, IsNegative) - LastCount(xs, ys, top)) as real;
      if target > 0.0 {
        var o :| ReachedAt(zs, target, o) && sum == SumRead(xs, ys, target, o);
        ReadAndUnread(xs, ys, target, o);
        UnreadIsNegative(xs, ys, target, top, o);
      } else {
        TotalIsNegative(zs, top);
      }
    }
  }

  lemma TotalIsNegative(zs: seq<Bits32>, top: int)
    requires NegativeData(zs) && TopNegative(zs, top)
    ensures QuantizedSum(zs) < 0.0
  {
    hide Encode, Quantize, CountIf, SumIf;
    var y := SomeCounted(zs, AtBucket(top));
    NegativeBuckets(y);
    SumOfAll(zs, InBucketBelow(HALF));
    NegativeSum(zs, InBucketBelow(HALF));
    assert InBucketBelow(HALF)(y);
  }

  /** Asking for as many observations as are negative is enough. */
  lemma CoveringIsEnough(xs: seq<Bits32>, ys: seq<Bits32>, target: real)
    requires CountIf(xs + ys, IsNegative) as real <= target
    ensures AsksForNegatives(xs, ys, target)
  {
    hide CountIf;
    forall o | TopNegative(xs + ys, o)
      ensures LastCount(xs, ys, o) > 0
    {
      CountIfAppend(xs, ys, AtBucket(o));
    }
  }

  /** An observation of -1 and no rates: every read-out has the sum 0 instead. */
  lemma TailSumMissesNegatives(result: seq<real>, sum: real, count: nat)
    requires Describes([], [0xbf80_0000], [], result, sum, count)
    ensures count == 1 && sum == 0.0 && QuantizedSum([0xbf80_0000] + []) < 0.0
  {
    hide Encode, Quantize, CountIf, QuantizedSum, RanksAnswered, SumRead, ReachedAt;
    var x: Bits32 := 0xbf80_0000;
    var zs := [x] + [];
    assert zs == [x] && IsNegative(x);
    MinusOne();
    assert NegativeData(zs);
    NoTarget(1);
    NegativeBuckets(x);
    var o := OrderedOf(Encode(x));
    CountOne(x, IsNegative);
    CountOne(x, AtBucket(o));
    CountIfBounds([], AtBucket(o));
    assert TopNegative(zs, o) by {
      forall p | o < p < 0 ensures CountIf(zs, AtBucket(p)) == 0 { CountOne(x, AtBucket(p)); }
    }
    TotalIsNegative(zs, o);
  }

  lemma MinusOne()
    ensures Quantize(0xbf80_0000) < 0.0
  {
    hide Quantize;
    var x: Bits32 := 0xbf80_0000;
    assert SignBit(x) == 1 && Magnitude(x) == 127 * 0x80_0000 && !IsNaN(x);
    QuantizedValue(x);
    assert Truncated(127 * 0x80_0000) == 127 * 0x80_0000;
    MagnitudeOrder(0, 127 * 0x80_0000);
    Limits();
  }
}
