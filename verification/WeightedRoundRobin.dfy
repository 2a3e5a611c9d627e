/**
  Weighted round robin: hosts are inspected in turn against a current weight that
  sinks by the greatest common divisor of the weights after every sweep.
*/
module WeightedRoundRobin {
  import opened Integers

  // ----- divisibility -----

  function Times(d: int, q: int): int { d * q }

  ghost predicate Divides(d: int, x: int) { exists q :: x == Times(d, q) }

  function Abs(x: int): nat { if x < 0 then -x else x }

  function Gcd(a: nat, b: nat): nat
    decreases b
  {
    if b == 0 then a else Gcd(b, a % b)
  }

  lemma DividesCombination(d: int, x: int, y: int, k: int)
    requires Divides(d, x) && Divides(d, y)
    ensures Divides(d, x * k + y) && Divides(d, -x)
  {
    var p :| x == Times(d, p);
    var q :| y == Times(d, q);
    assert x * k + y == Times(d, p * k + q) by { assert d * p * k == d * (p * k); }
    assert -x == Times(d, -p);
  }

  lemma DividesTrivially(d: int)
    ensures Divides(d, d) && Divides(d, 0)
  {
    assert d == Times(d, 1) && 0 == Times(d, 0);
  }

  lemma {:induction false} GcdIsGreatest(a: nat, b: nat)
    ensures Divides(Gcd(a, b), a) && Divides(Gcd(a, b), b)
    ensures forall d :: Divides(d, a) && Divides(d, b) ==> Divides(d, Gcd(a, b))
    decreases b
  {
    var g := Gcd(a, b);
    if b == 0 {
      DividesTrivially(a);
    } else {
      GcdIsGreatest(b, a % b);
      assert a == b * (a / b) + a % b;
      DividesCombination(g, b, a % b, a / b);
      forall d | Divides(d, a) && Divides(d, b)
        ensures Divides(d, g)
      {
        DividesCombination(d, b, a, -(a / b));
        assert b * -(a / b) + a == a % b;
      }
    }
  }

  /** `g` divides every weight and every common divisor divides `g`. */
  ghost predicate IsGcdOf(w: seq<int>, g: int)
  {
    && g >= 0
    && (forall i :: 0 <= i < |w| ==> Divides(g, w[i]))
    && (forall d :: (forall i :: 0 <= i < |w| ==> Divides(d, w[i])) ==> Divides(d, g))
  }

  ghost predicate IsMaxOf(w: seq<int>, m: int)
  {
    m in w && forall i :: 0 <= i < |w| ==> w[i] <= m
  }

  lemma GcdStep(res: int, x: int)
    ensures
      var g := Gcd(Abs(Max(res, x)), Abs(Min(res, x)));
      && Divides(g, res) && Divides(g, x)
      && (forall d :: Divides(d, res) && Divides(d, x) ==> Divides(d, g))
      && (forall d :: Divides(res, d) ==> Divides(g, d))
  {
    hide Divides, Gcd;
    var a, b := Abs(Max(res, x)), Abs(Min(res, x));
    var g := Gcd(a, b);
    GcdIsGreatest(a, b);
    SignOfDivisor(g, res);
    SignOfDivisor(g, x);
    forall d | Divides(d, res) && Divides(d, x)
      ensures Divides(d, g)
    {
      SignOfDivisor(d, res);
      SignOfDivisor(d, x);
    }
    forall d | Divides(res, d)
      ensures Divides(g, d)
    {
      DividesTransitive(g, res, d);
    }
  }

  lemma DividesTransitive(g: int, r: int, d: int)
    requires Divides(g, r) && Divides(r, d)
    ensures Divides(g, d)
  {
    var p :| r == Times(g, p);
    var q :| d == Times(r, q);
    assert d == Times(g, p * q) by { assert g * p * q == g * (p * q); }
  }

  lemma SignOfDivisor(d: int, x: int)
    ensures Divides(d, x) <==> Divides(d, Abs(x))
  {
    DividesTrivially(d);
    if Divides(d, x) { DividesCombination(d, x, 0, 1); }
    if Divides(d, Abs(x)) { DividesCombination(d, Abs(x), 0, 1); }
  }

  method MaxWeightGcd(w: seq<int>) returns (res: int)
    requires |w| > 0
    ensures IsGcdOf(w, res)
  {
    res := w[0];
    DividesTrivially(res);
    var i := 0;
    while i < |w|
      invariant 0 <= i <= |w|
      invariant i > 0 ==> res >= 0
      invariant i == 0 ==> res == w[0]
      invariant forall k :: 0 <= k < i ==> Divides(res, w[k])
      invariant forall d :: (forall k :: 0 <= k < |w| ==> Divides(d, w[k])) ==> Divides(d, res)
    {
      GcdStep(res, w[i]);
      res := Gcd(Abs(Max(res, w[i])), Abs(Min(res, w[i])));
      i := i + 1;
    }
  }

  method MaxWeight(w: seq<int>) returns (m: int)
    requires |w| > 0
    ensures IsMaxOf(w, m)
  {
    m := w[0];
    var i := 1;
    while i < |w|
      invariant 1 <= i <= |w| && m in w
      invariant forall k :: 0 <= k < i ==> w[k] <= m
    {
      if w[i] > m { m := w[i]; }
      i := i + 1;
    }
  }

  // ----- the schedule -----

  /** The hosts below `i` that a sweep at level `c` picks. */
  function Sweep(w: seq<int>, c: int, i: nat): seq<int>
    requires i <= |w|
  {
    if i == 0 then [] else if w[i - 1] >= c then Sweep(w, c, i - 1) + [i - 1] else Sweep(w, c, i - 1)
  }

  /** The picks of the sweeps at levels `m`, `m - g`, ... that lie above `c`. */
  function Above(w: seq<int>, m: int, g: int, c: int): seq<int>
    requires g > 0
    decreases m - c
  {
    if c >= m then [] else Above(w, m, g, c + g) + Sweep(w, c + g, |w|)
  }

  /** The picks of one period: all levels from the largest weight down to the divisor. */
  function Period(w: seq<int>, m: int, g: int): seq<int>
    requires g > 0
  {
    Above(w, m, g, 0)
  }

  function Repeat(p: seq<int>, t: nat): seq<int>
  {
    if t == 0 then [] else Repeat(p, t - 1) + p
  }

  function Count(s: seq<int>, x: int): nat
  {
    if |s| == 0 then 0 else Count(s[..|s| - 1], x) + if s[|s| - 1] == x then 1 else 0
  }

  lemma {:induction false} CountAppend(s: seq<int>, t: seq<int>, x: int)
    ensures Count(s + t, x) == Count(s, x) + Count(t, x)
  {
    if |t| == 0 {
      assert s + t == s;
    } else {
      var n := |t| - 1;
      assert (s + t)[..|s| + n] == s + t[..n];
      CountAppend(s, t[..n], x);
    }
  }

  lemma {:induction false} SweepCount(w: seq<int>, c: int, i: nat, x: int)
    requires i <= |w|
    ensures Count(Sweep(w, c, i), x) == if 0 <= x < i && w[x] >= c then 1 else 0
  {
    if i > 0 {
      SweepCount(w, c, i - 1, x);
      if w[i - 1] >= c { assert Sweep(w, c, i)[..|Sweep(w, c, i)| - 1] == Sweep(w, c, i - 1); }
    }
  }

  lemma MultipleGap(g: int, x: int, c: int)
    requires g > 0 && Divides(g, x) && Divides(g, c) && x < c + g
    ensures x <= c
  {
    var p :| x == Times(g, p);
    var q :| c == Times(g, q);
    TimesMonotone(g, q + 1, p);
    TimesMonotone(g, p, q);
    TimesStep(g, q);
  }

  lemma TimesMonotone(g: int, a: int, b: int)
    requires g > 0
    ensures a <= b ==> Times(g, a) <= Times(g, b)
  {
    var d := b - a;
    assert Times(g, b) == Times(g, a) + g * d;
  }

  lemma TimesStep(g: int, k: int)
    ensures Times(g, k + 1) == Times(g, k) + g
  {
  }

  /** Each host is picked once for every level its weight reaches. */
  lemma {:induction false} AboveCount(w: seq<int>, m: int, g: int, c: int, x: int)
    requires g > 0 && 0 <= x < |w| && w[x] <= m && Divides(g, w[x]) && Divides(g, c)
    ensures Times(g, Count(Above(w, m, g, c), x)) == Max(0, w[x] - c)
    decreases m - c
  {
    hide Times, Divides, Count, Sweep;
    if c < m {
      DividesTrivially(g);
      DividesCombination(g, g, c, 1);
      AboveCount(w, m, g, c + g, x);
      SweepCount(w, c + g, |w|, x);
      CountAppend(Above(w, m, g, c + g), Sweep(w, c + g, |w|), x);
      TimesStep(g, Count(Above(w, m, g, c + g), x));
      if w[x] < c + g { MultipleGap(g, w[x], c); }
    } else {
      NothingCounted(g, x);
    }
  }

  lemma NothingCounted(g: int, x: int)
    ensures Count([], x) == 0 && Times(g, 0) == 0
  {
  }

  /** The weights' total excess over a level. */
  function Excess(w: seq<int>, c: int, i: nat): nat
    requires i <= |w|
  {
    if i == 0 then 0 else Excess(w, c, i - 1) + Max(0, w[i - 1] - c)
  }

  lemma {:induction false} SweepLength(w: seq<int>, g: int, c: int, i: nat)
    requires g > 0 && i <= |w| && Divides(g, c) && forall k :: 0 <= k < |w| ==> Divides(g, w[k])
    ensures Times(g, |Sweep(w, c + g, i)|) + Excess(w, c + g, i) == Excess(w, c, i)
  {
    hide Times, Divides;
    if i == 0 {
      NothingCounted(g, 0);
    } else {
      SweepLength(w, g, c, i - 1);
      TimesStep(g, |Sweep(w, c + g, i - 1)|);
      if w[i - 1] < c + g { MultipleGap(g, w[i - 1], c); }
    }
  }

  lemma TimesSum(g: int, a: int, b: int)
    ensures Times(g, a + b) == Times(g, a) + Times(g, b)
  {
  }

  lemma {:induction false} AboveLength(w: seq<int>, m: int, g: int, c: int)
    requires g > 0 && Divides(g, c) && forall k :: 0 <= k < |w| ==> Divides(g, w[k]) && w[k] <= m
    ensures Times(g, |Above(w, m, g, c)|) == Excess(w, c, |w|)
    decreases m - c
  {
    hide Times, Divides;
    if c < m {
      DividesTrivially(g);
      DividesCombination(g, g, c, 1);
      AboveLength(w, m, g, c + g);
      SweepLength(w, g, c, |w|);
      TimesSum(g, |Above(w, m, g, c + g)|, |Sweep(w, c + g, |w|)|);
    } else {
      NothingCounted(g, 0);
      NoExcess(w, c, |w|);
    }
  }

  lemma {:induction false} NoExcess(w: seq<int>, c: int, i: nat)
    requires i <= |w| && forall k :: 0 <= k < |w| ==> w[k] <= c
    ensures Excess(w, c, i) == 0
  {
    if i > 0 { NoExcess(w, c, i - 1); }
  }

  /** Exact proportionality: in one period of (sum of weights) / g picks, host `x`
      is picked exactly (its weight) / g times; a host of negative weight never. */
  lemma PeriodIsProportional(w: seq<int>, m: int, g: int, x: int)
    requires g > 0 && IsGcdOf(w, g) && IsMaxOf(w, m) && 0 <= x < |w|
    ensures g * Count(Period(w, m, g), x) == Max(0, w[x])
    ensures g * |Period(w, m, g)| == Excess(w, 0, |w|)
  {
    DividesTrivially(g);
    AboveCount(w, m, g, 0, x);
    AboveLength(w, m, g, 0);
  }

  // ----- the picks follow the schedule -----

  /** After the picks so far, `t` periods and a part of the next are done; the last
      host inspected is `i`, at level `c`. */
  ghost predicate InSchedule(w: seq<int>, m: int, g: int, i: int, c: int, t: nat, picks: seq<int>)
    requires g > 0
  {
    (i == -1 && c == 0 && t == 0 && picks == []) ||
    (0 <= i < |w| && AtHost(w, m, g, i + 1, c, t, picks))
  }

  /** Level `c` has been swept up to, but not including, host `i`. */
  ghost predicate AtHost(w: seq<int>, m: int, g: int, i: int, c: int, t: nat, picks: seq<int>)
    requires g > 0
  {
    && 0 <= i <= |w| && 0 < c <= m && Divides(g, c)
    && picks == Repeat(Period(w, m, g), t) + (Above(w, m, g, c) + Sweep(w, c, i))
  }

  function NextHost(n: int, i: int): int requires n > 0 { (i + 1) % n }

  function NextLevel(m: int, g: int, n: int, i: int, c: int): int
    requires n > 0
  {
    if NextHost(n, i) != 0 then c else if c - g <= 0 then m else c - g
  }

  /** One inspection moves on in the schedule. */
  lemma InspectNext(w: seq<int>, m: int, g: int, i: int, c: int, t: nat, picks: seq<int>)
    requires g > 0 && m > 0 && |w| > 0 && Divides(g, m) && InSchedule(w, m, g, i, c, t, picks)
    ensures
      var j, d := NextHost(|w|, i), NextLevel(m, g, |w|, i, c);
      && j == (if i + 1 == |w| then 0 else i + 1) && 0 < d <= m
      && AtHost(w, m, g, j, d, if j == 0 && i >= 0 && c - g <= 0 then t + 1 else t, picks)
  {
    hide Divides, Repeat, Sweep, Above, Period;
    SweepNone(w, m);
    NothingAbove(w, m, g);
    if i == -1 {
      RepeatStep(Period(w, m, g), 0);
    } else if i + 1 == |w| {
      SweepNone(w, c - g);
      EndOfSweep(w, m, g, c, t);
      DividesTrivially(g);
      DividesCombination(g, g, c, -1);
    }
  }

  lemma NothingAbove(w: seq<int>, m: int, g: int)
    requires g > 0
    ensures Above(w, m, g, m) == []
  {
  }

  /** A finished sweep joins the ones above the next level; the last one completes a period. */
  lemma EndOfSweep(w: seq<int>, m: int, g: int, c: int, t: nat)
    requires g > 0 && 0 < c <= m && Divides(g, c)
    ensures c >= g && Above(w, m, g, c - g) == Above(w, m, g, c) + Sweep(w, c, |w|)
    ensures c == g ==>
      Repeat(Period(w, m, g), t) + (Above(w, m, g, c) + Sweep(w, c, |w|)) == Repeat(Period(w, m, g), t + 1)
  {
    LevelIsPositiveMultiple(g, c);
  }

  lemma SweepNone(w: seq<int>, c: int)
    ensures Sweep(w, c, 0) == []
  {
  }

  lemma RepeatStep(p: seq<int>, t: nat)
    ensures Repeat(p, 0) == [] && Repeat(p, t + 1) == Repeat(p, t) + p
  {
  }

  lemma LevelIsPositiveMultiple(g: int, c: int)
    requires g > 0 && c > 0 && Divides(g, c)
    ensures c >= g
  {
    var q :| c == Times(g, q);
    TimesMonotone(g, 1, q);
    TimesMonotone(g, q, 0);
  }

  lemma PickOrSkip(w: seq<int>, m: int, g: int, i: int, c: int, t: nat, picks: seq<int>)
    requires g > 0 && 0 <= i < |w| && AtHost(w, m, g, i, c, t, picks)
    ensures
      if w[i] >= c then InSchedule(w, m, g, i, c, t, picks + [i]) else InSchedule(w, m, g, i, c, t, picks)
  {
    hide Divides, Above, Repeat, Period;
    var r, a := Repeat(Period(w, m, g), t), Above(w, m, g, c);
    assert picks + [i] == r + (a + (Sweep(w, c, i) + [i]));
  }

  // ----- the pick sequence repeats -----

  lemma {:induction false} SweepPrefix(w: seq<int>, c: int, i: nat, j: nat)
    requires i <= j <= |w|
    ensures Sweep(w, c, i) <= Sweep(w, c, j)
  {
    if i < j { SweepPrefix(w, c, i, j - 1); }
  }

  lemma {:induction false} AbovePrefix(w: seq<int>, m: int, g: int, c: int, d: int, q: nat)
    requires g > 0 && c == d + Times(g, q)
    ensures Above(w, m, g, c) <= Above(w, m, g, d)
    decreases q
  {
    hide Sweep;
    if q > 0 {
      TimesStep(g, q - 1);
      AbovePrefix(w, m, g, c, d + g, q - 1);
    }
  }

  lemma PartOfPeriod(w: seq<int>, m: int, g: int, i: int, c: int)
    requires g > 0 && 0 <= i <= |w| && 0 < c <= m && Divides(g, c)
    ensures Above(w, m, g, c) + Sweep(w, c, i) <= Period(w, m, g)
  {
    var q :| c == Times(g, q);
    TimesMonotone(g, q, 0);
    TimesStep(g, q - 1);
    AbovePrefix(w, m, g, c - g, 0, q - 1);
    SweepPrefix(w, c, i, |w|);
    assert Above(w, m, g, c - g) == Above(w, m, g, c) + Sweep(w, c, |w|);
    assert Above(w, m, g, c) + Sweep(w, c, i) <= Above(w, m, g, c - g);
  }

  lemma {:induction false} RepeatAt(p: seq<int>, t: nat, k: nat)
    requires |p| > 0 && k < |Repeat(p, t)|
    ensures Repeat(p, t)[k] == p[k % |p|] && |Repeat(p, t)| == t * |p|
  {
    RepeatLength(p, t);
    RepeatLength(p, t - 1);
    var n := (t - 1) * |p|;
    assert t * |p| == n + |p|;
    if k < n {
      RepeatAt(p, t - 1, k);
    } else {
      Remainder(k, |p|, t - 1, k - n);
    }
  }

  lemma {:induction false} RepeatLength(p: seq<int>, t: nat)
    ensures |Repeat(p, t)| == t * |p|
  {
    if t > 0 {
      RepeatLength(p, t - 1);
      assert t * |p| == (t - 1) * |p| + |p|;
    }
  }

  /** Every run: the k-th pick is the one the period prescribes at k modulo its length. */
  lemma PicksRepeat(w: seq<int>, m: int, g: int, i: int, c: int, t: nat, picks: seq<int>, k: nat)
    requires g > 0 && InSchedule(w, m, g, i, c, t, picks) && k < |picks|
    ensures |Period(w, m, g)| > 0 && picks[k] == Period(w, m, g)[k % |Period(w, m, g)|]
  {
    hide Divides, Above, Sweep;
    var p := Period(w, m, g);
    var part := Above(w, m, g, c) + Sweep(w, c, i + 1);
    PartOfPeriod(w, m, g, i + 1, c);
    RepeatStep(p, t);
    assert picks <= Repeat(p, t + 1);
    RepeatLength(p, t + 1);
    RepeatAt(p, t + 1, k);
  }

  lemma GcdOfPositive(w: seq<int>, m: int, g: int)
    requires IsGcdOf(w, g) && IsMaxOf(w, m) && m > 0
    ensures g > 0 && Divides(g, m)
  {
    var i :| 0 <= i < |w| && w[i] == m;
    assert Divides(g, w[i]);
    var q :| m == Times(g, q);
  }

  // ----- without a positive weight -----

  /** With a largest weight of zero, a wrap of the list falls back to host 0 whatever its
      weight, which then counts like zero. */
  function Effective(w: seq<int>, m: int): (e: seq<int>)
    requires |w| > 0
    ensures |e| == |w|
  {
    if m == 0 then w[0 := 0] else w
  }

  /** With no positive weight the level never leaves the largest weight: after the
      picks so far, `t` sweeps at that level and a part of the next are done. */
  ghost predicate InFlat(e: seq<int>, m: int, i: int, c: int, t: nat, picks: seq<int>)
  {
    (i == -1 && c == 0 && t == 0 && picks == []) || (0 <= i < |e| && c == m && FlatAt(e, m, i + 1, t, picks))
  }

  ghost predicate FlatAt(e: seq<int>, m: int, i: int, t: nat, picks: seq<int>)
  {
    0 <= i <= |e| && picks == Repeat(Sweep(e, m, |e|), t) + Sweep(e, m, i)
  }

  lemma FlatNext(e: seq<int>, m: int, g: int, i: int, c: int, t: nat, picks: seq<int>)
    requires g >= 0 && m <= 0 && |e| > 0 && InFlat(e, m, i, c, t, picks)
    ensures
      var j := NextHost(|e|, i);
      && j == (if i + 1 == |e| then 0 else i + 1) && NextLevel(m, g, |e|, i, c) == m && (j == 0 ==> c - g <= 0)
      && FlatAt(e, m, j, if j == 0 && i >= 0 then t + 1 else t, picks)
  {
    hide Repeat, Sweep;
    SweepNone(e, m);
    RepeatStep(Sweep(e, m, |e|), if i == -1 then 0 else t);
  }

  lemma FlatPick(e: seq<int>, m: int, i: int, t: nat, picks: seq<int>)
    requires 0 <= i < |e| && FlatAt(e, m, i, t, picks)
    ensures InFlat(e, m, i, m, t, if e[i] >= m then picks + [i] else picks)
  {
    hide Repeat;
    var r := Repeat(Sweep(e, m, |e|), t);
    assert picks + [i] == r + (Sweep(e, m, i) + [i]);
  }

  lemma FlatRepeats(e: seq<int>, m: int, i: int, c: int, t: nat, picks: seq<int>, k: nat)
    requires InFlat(e, m, i, c, t, picks) && k < |picks|
    ensures |Sweep(e, m, |e|)| > 0 && picks[k] == Sweep(e, m, |e|)[k % |Sweep(e, m, |e|)|]
  {
    hide Sweep;
    var p := Sweep(e, m, |e|);
    SweepPrefix(e, m, i + 1, |e|);
    RepeatStep(p, t);
    assert picks <= Repeat(p, t + 1);
    RepeatLength(p, t + 1);
    RepeatAt(p, t + 1, k);
  }

  // ----- every list of weights -----

  /** The picks that repeat: a period of all levels, or one sweep at the largest weight. */
  function Cycle(w: seq<int>, m: int, g: int): seq<int>
    requires |w| > 0 && (m > 0 ==> g > 0)
  {
    if m > 0 then Period(w, m, g) else Sweep(Effective(w, m), m, |w|)
  }

  ghost predicate Follows(w: seq<int>, m: int, g: int, i: int, c: int, t: nat, picks: seq<int>)
    requires |w| > 0 && (m > 0 ==> g > 0)
  {
    if m > 0 then InSchedule(w, m, g, i, c, t, picks) else InFlat(Effective(w, m), m, i, c, t, picks)
  }

  /** For any weights at all, the k-th pick of a run is the one the cycle has at k
      modulo its length. */
  lemma PicksCycle(w: seq<int>, m: int, g: int, i: int, c: int, t: nat, picks: seq<int>, k: nat)
    requires |w| > 0 && (m > 0 ==> g > 0) && Follows(w, m, g, i, c, t, picks) && k < |picks|
    ensures |Cycle(w, m, g)| > 0 && picks[k] == Cycle(w, m, g)[k % |Cycle(w, m, g)|]
  {
    hide Sweep, Period, InSchedule, InFlat;
    if m > 0 {
      PicksRepeat(w, m, g, i, c, t, picks, k);
    } else {
      FlatRepeats(Effective(w, m), m, i, c, t, picks, k);
    }
  }

  /** Without a positive weight a cycle has every heaviest host once and no other;
      host 0 is in it as well when the largest weight is zero. */
  lemma FlatCycleCount(w: seq<int>, m: int, g: int, x: int)
    requires IsMaxOf(w, m) && m <= 0 && 0 <= x < |w|
    ensures Count(Cycle(w, m, g), x) == if w[x] == m || (x == 0 && m == 0) then 1 else 0
  {
    SweepCount(Effective(w, m), m, |w|, x);
  }

  /** Equal weights that are not positive are taken in turn. */
  lemma {:induction false} TakenInTurn(e: seq<int>, m: int, i: nat)
    requires i <= |e| && forall k :: 0 <= k < |e| ==> e[k] == m
    ensures |Sweep(e, m, i)| == i && forall k :: 0 <= k < i ==> Sweep(e, m, i)[k] == k
  {
    if i > 0 { TakenInTurn(e, m, i - 1); }
  }

  lemma NextPlace(w: seq<int>, m: int, g: int, i: int, c: int, t: nat, picks: seq<int>)
    requires |w| > 0 && g >= 0 && (m > 0 ==> g > 0 && Divides(g, m)) && Follows(w, m, g, i, c, t, picks)
    requires forall k :: 0 <= k < |w| ==> w[k] <= m
    ensures
      var j, d := NextHost(|w|, i), NextLevel(m, g, |w|, i, c);
      var u := if j == 0 && i >= 0 && c - g <= 0 then t + 1 else t;
      var hit := Effective(w, m)[j] >= d;
      && j == (if i + 1 == |w| then 0 else i + 1) && d <= m && (if m > 0 then d > 0 else d == m)
      && Follows(w, m, g, j, d, u, if hit then picks + [j] else picks)
  {
    hide Divides, Repeat, Sweep, Above, Period;
    var e := Effective(w, m);
    var j, d := NextHost(|w|, i), NextLevel(m, g, |w|, i, c);
    var u := if j == 0 && i >= 0 && c - g <= 0 then t + 1 else t;
    if m > 0 {
      InspectNext(w, m, g, i, c, t, picks);
      hide AtHost, InSchedule;
      PickOrSkip(w, m, g, j, d, u, picks);
    } else {
      FlatNext(e, m, g, i, c, t, picks);
      hide FlatAt, InFlat;
      FlatPick(e, m, j, u, picks);
    }
  }

  // ----- the picker -----

  /** How many inspections it takes to come round to host `h`. */
  function Distance(n: int, i: int, h: int): int { if i < h then h - i else h + n - i }

  /** From `i` to `j` the walk has come at least `steps` inspections closer to each
      heaviest host, unless it has just arrived there. */
  ghost predicate CloserToHeaviest(e: seq<int>, m: int, i: int, j: int, steps: int)
  {
    forall h :: 0 <= h < |e| && e[h] == m && j != h ==> Distance(|e|, j, h) <= Distance(|e|, i, h) - steps
  }

  /** The same for every heaviest host. */
  ghost predicate AllCloser(e: seq<int>, m: int, i: int, j: int, steps: int)
  {
    forall h :: 0 <= h < |e| && e[h] == m ==> Distance(|e|, j, h) <= Distance(|e|, i, h) - steps
  }

  lemma NextDistance(n: int, i: int, j: int, h: int)
    requires -1 <= i < n && 0 <= h < n && j == if i + 1 == n then 0 else i + 1
    ensures 0 < Distance(n, i, h) && 0 < Distance(n, j, h)
    ensures j != h ==> Distance(n, j, h) == Distance(n, i, h) - 1
  {
  }

  lemma StartCloser(e: seq<int>, m: int, i: int, h: int)
    requires -1 <= i < |e| && 0 <= h < |e|
    ensures AllCloser(e, m, i, i, 0) && 0 < Distance(|e|, i, h) <= |e|
  {
  }

  lemma StepCloser(e: seq<int>, m: int, i: int, j: int, k: int, steps: int)
    requires |e| > 0 && -1 <= j < |e| && k == (if j + 1 == |e| then 0 else j + 1) && steps >= 0
    requires AllCloser(e, m, i, j, steps)
    ensures CloserToHeaviest(e, m, i, k, 1) && (e[k] != m ==> AllCloser(e, m, i, k, steps + 1))
  {
    hide Distance;
    forall h | 0 <= h < |e| && e[h] == m && h != k
      ensures Distance(|e|, k, h) <= Distance(|e|, i, h) - steps - 1
    {
      NextDistance(|e|, j, k, h);
    }
  }

  class Balancer {
    const weights: seq<int>
    const maxGcd: int
    const maxWeight: int
    var current: int
    var weightCurrent: int

    // The picks so far and the cycles they complete, for the specification.
    ghost var picks: seq<int>
    ghost var periods: nat

    ghost predicate Valid()
      reads this
    {
      && |weights| > 0 && IsGcdOf(weights, maxGcd) && IsMaxOf(weights, maxWeight)
      && (maxWeight > 0 ==> maxGcd > 0 && Divides(maxGcd, maxWeight))
      && Follows(weights, maxWeight, maxGcd, current, weightCurrent, periods, picks)
    }

    constructor (weights: seq<int>)
      requires |weights| > 0
      ensures Valid() && this.weights == weights && picks == []
    {
      var g := MaxWeightGcd(weights);
      var m := MaxWeight(weights);
      this.weights := weights;
      maxGcd := g;
      maxWeight := m;
      current, weightCurrent := -1, 0;
      picks, periods := [], 0;
      if m > 0 { GcdOfPositive(weights, m, g); }
    }

    /** The selection loop, for any weights; -1 stands for "no host has a weight". It
        inspects at most as many hosts as there are. */
    method SelectHost() returns (selected: int, ghost inspected: int)
      requires Valid()
      modifies `current, `weightCurrent, `picks, `periods
      ensures 1 <= inspected <= |weights|
      ensures 0 <= current < |weights| && selected == if maxWeight == 0 && current == 0 then -1 else current
      ensures maxWeight <= 0 ==> Effective(weights, maxWeight)[current] == maxWeight
      ensures Valid() && picks == old(picks) + [current]
      ensures CloserToHeaviest(Effective(weights, maxWeight), maxWeight, old(current), current, 1)
    {
      hide Follows, IsGcdOf, Divides, Effective, Distance, CloserToHeaviest, AllCloser;
      ghost var e := Effective(weights, maxWeight);
      ghost var h := HeaviestHost(weights, maxWeight);
      HostRange(weights, maxWeight, maxGcd, current, weightCurrent, periods, picks);
      StartCloser(e, maxWeight, current, h);
      selected, inspected := -1, 0;
      var hit := false;
      while !hit
        invariant -1 <= current < |weights|
        invariant Follows(weights, maxWeight, maxGcd, current, weightCurrent, periods, picks)
        invariant !hit ==> picks == old(picks) && 0 <= inspected
        invariant !hit ==> 0 < Distance(|weights|, current, h) <= |weights| - inspected
        invariant !hit ==> AllCloser(e, maxWeight, old(current), current, inspected)
        invariant hit ==> picks == old(picks) + [current] && 0 <= current && 1 <= inspected <= |weights|
        invariant hit ==> selected == if maxWeight == 0 && current == 0 then -1 else current
        invariant hit && maxWeight <= 0 ==> e[current] == maxWeight
        invariant hit ==> CloserToHeaviest(e, maxWeight, old(current), current, 1)
        decreases !hit, Distance(|weights|, current, h)
      {
        ghost var i := current;
        hit, selected := Inspect();
        StepCloser(e, maxWeight, old(current), i, current, inspected);
        NextDistance(|weights|, i, current, h);
        inspected := inspected + 1;
      }
    }

    /** One turn of the selection loop: the next host, at the level that is due. */
    method Inspect() returns (hit: bool, selected: int)
      requires Valid()
      modifies `current, `weightCurrent, `picks, `periods
      ensures Valid()
      ensures current == (if old(current) + 1 == |weights| then 0 else old(current) + 1) && 0 <= current < |weights|
      ensures Effective(weights, maxWeight)[current] == maxWeight ==> hit
      ensures hit && maxWeight <= 0 ==> Effective(weights, maxWeight)[current] == maxWeight
      ensures hit ==> selected == if maxWeight == 0 && current == 0 then -1 else current
      ensures picks == if hit then old(picks) + [current] else old(picks)
    {
      hide Divides, Follows;
      NextPlace(weights, maxWeight, maxGcd, current, weightCurrent, periods, picks);
      if (current + 1) % |weights| == 0 && current >= 0 && weightCurrent - maxGcd <= 0 { periods := periods + 1; }
      current := (current + 1) % |weights|;
      if current == 0 {
        weightCurrent := weightCurrent - maxGcd;
        if weightCurrent <= 0 {
          weightCurrent := maxWeight;
          if weightCurrent == 0 {
            picks := picks + [current];
            return true, -1;
          }
        }
      }
      hit, selected := weights[current] >= weightCurrent, current;
      if hit { picks := picks + [current]; }
    }

    /** One pick: a missing selection falls back to host 0. */
    method Pick(pools: nat) returns (pool: nat)
      requires Valid() && pools > 0
      modifies `current, `weightCurrent, `picks, `periods
      ensures Valid() && picks == old(picks) + [current] && 0 <= current < |weights| && pool == current % pools
      ensures CloserToHeaviest(Effective(weights, maxWeight), maxWeight, old(current), current, 1)
    {
      ghost var inspected;
      var selected;
      selected, inspected := SelectHost();
      if selected == -1 {
        selected := 0;
      }
      current := selected;
      pool := selected % pools;
    }
  }

  lemma HeaviestHost(w: seq<int>, m: int) returns (h: int)
    requires IsMaxOf(w, m)
    ensures 0 <= h < |w| && Effective(w, m)[h] == m
  {
    h :| 0 <= h < |w| && w[h] == m;
  }

  lemma HostRange(w: seq<int>, m: int, g: int, i: int, c: int, t: nat, picks: seq<int>)
    requires |w| > 0 && (m > 0 ==> g > 0) && Follows(w, m, g, i, c, t, picks)
    ensures -1 <= i < |w|
  {
  }
}
