/**
  The summary metric: observations go to a front buffer, buffers rotate and are
  cleared as time passes, and a read-out answers quantiles of what is retained.
*/
module SummaryWindow {
  import opened FloatCodec

  const NS_PER_MS: int := 1_000_000

  datatype Observation = Observation(time: int, bits: Bits32)

  /** The two-buffer window. `back + front` is the tail of the history; the front
      buffer was opened at `tp`, the back one less than two periods before, and
      whatever was dropped is older than one period. */
  ghost predicate Window(period: int, tp: int, clock: int, history: seq<Observation>,
                         back: seq<Observation>, front: seq<Observation>)
  {
    && tp <= clock && |back| + |front| <= |history|
    && history[|history| - |back| - |front|..] == back + front
    && if period <= 0 then |back| + |front| == |history|
       else
         && (forall k :: 0 <= k < |front| ==> tp <= front[k].time < tp + period && front[k].time <= clock)
         && (forall k :: 0 <= k < |back| ==> tp - 2 * period < back[k].time < tp)
         && (forall k :: 0 <= k < |history| - |back| - |front| ==> history[k].time + period < clock)
  }

  lemma WindowClock(period: int, tp: int, clock: int, history: seq<Observation>,
                    back: seq<Observation>, front: seq<Observation>)
    requires Window(period, tp, clock, history, back, front)
    ensures tp <= clock
  {
  }

  lemma WindowTick(period: int, tp: int, clock: int, now: int, history: seq<Observation>,
                   back: seq<Observation>, front: seq<Observation>)
    requires Window(period, tp, clock, history, back, front) && clock <= now
    ensures Window(period, tp, now, history, back, front)
  {
  }

  /** Between one and two periods: the back buffer is dropped and the front one becomes the back. */
  lemma WindowRotate(period: int, tp: int, clock: int, now: int, history: seq<Observation>,
                     back: seq<Observation>, front: seq<Observation>)
    requires Window(period, tp, clock, history, back, front) && clock <= now
    requires 0 < period <= now - tp < 2 * period
    ensures Window(period, now, now, history, front, [])
  {
  }

  /** After two periods both buffers are dropped. */
  lemma WindowClear(period: int, tp: int, clock: int, now: int, history: seq<Observation>,
                    back: seq<Observation>, front: seq<Observation>)
    requires Window(period, tp, clock, history, back, front) && clock <= now
    requires 0 < period && 2 * period <= now - tp
    ensures Window(period, now, now, history, [], [])
  {
  }

  lemma WindowInsert(period: int, tp: int, now: int, history: seq<Observation>,
                     back: seq<Observation>, front: seq<Observation>, o: Observation)
    requires Window(period, tp, now, history, back, front) && o.time == now
    requires period > 0 ==> now < tp + period
    ensures Window(period, tp, now, history + [o], back, front + [o])
  {
    var n := |history| - |back| - |front|;
    assert (history + [o])[n..] == history[n..] + [o] == back + (front + [o]);
  }

  /** What a read-out at `now` sees: nothing as old as three periods, and
      everything that is at most one period old. */
  lemma WindowAges(period: int, tp: int, now: int, history: seq<Observation>,
                   back: seq<Observation>, front: seq<Observation>)
    requires Window(period, tp, now, history, back, front) && 0 < period && now < tp + period
    ensures forall k :: 0 <= k < |back + front| ==> now - (back + front)[k].time < 3 * period
    ensures forall k :: 0 <= k < |history| && now - history[k].time <= period ==>
      k >= |history| - |back + front|
  {
  }

  lemma RetainedWindow(period: int, tp: int, now: int, history: seq<Observation>,
                       back: seq<Observation>, front: seq<Observation>)
    requires Window(period, tp, now, history, back, front) && (period > 0 ==> now < tp + period)
    ensures
      var kept := back + front;
      && |kept| <= |history| && kept == history[|history| - |kept|..] && (period <= 0 ==> kept == history)
      && (period > 0 ==>
            && (forall k :: 0 <= k < |kept| ==> now - kept[k].time < 3 * period)
            && (forall k :: 0 <= k < |history| && now - history[k].time <= period ==> k >= |history| - |kept|))
  {
    if period > 0 { WindowAges(period, tp, now, history, back, front); }
  }

  /** Elapsed time in whole milliseconds reaches a bound exactly when it does in nanoseconds. */
  lemma WholeMilliseconds(elapsed: int, bound: int)
    requires elapsed >= 0
    ensures elapsed / 1_000_000 >= bound <==> elapsed >= bound * 1_000_000
  {
  }
}

module Summary {
  import opened FloatCodec
  import opened SketchBuffer
  import opened SketchStat
  import opened SketchAccuracy
  import opened SummaryWindow

  function BitsOf(log: seq<Observation>): (xs: seq<Bits32>)
    ensures |xs| == |log|
  {
    if |log| == 0 then [] else BitsOf(log[..|log| - 1]) + [log[|log| - 1].bits]
  }

  lemma {:induction false} BitsOfAppend(log: seq<Observation>, more: seq<Observation>)
    ensures BitsOf(log + more) == BitsOf(log) + BitsOf(more)
  {
    if |more| == 0 {
      assert log + more == log;
    } else {
      var n := |more| - 1;
      assert (log + more)[..|log| + n] == log + more[..n];
      BitsOfAppend(log, more[..n]);
    }
  }

  /** The buffer holds exactly the observations of the log. */
  ghost predicate Holds(b: Buffer?, log: seq<Observation>, narrow: bool)
    reads b
  {
    if b == null then log == []
    else b.Valid() && b.narrow == narrow && b.Counts() == Fill(BitsOf(log), narrow)
  }

  class Summary {
    const rates: seq<Rate>
    const refreshMs: int
    const narrow: bool
    var tp: int
    var front: int
    var data: seq<Buffer?>

    // What happened so far, for the specification.
    ghost var logs: seq<seq<Observation>>
    ghost var history: seq<Observation>
    ghost var clock: int

    ghost function Period(): int { refreshMs * 1_000_000 }

    ghost predicate Valid()
      reads this, data
    {
      && |data| == |logs| == 2 && (front == 0 || front == 1)
      && (data[0] != null ==> data[0] != data[1])
      && Holds(data[0], logs[0], narrow) && Holds(data[1], logs[1], narrow)
      && Window(Period(), tp, clock, history, logs[1 - front], logs[front])
    }

    /** The observations a read-out is about, oldest first. */
    ghost function Retained(): seq<Observation>
      requires |logs| == 2 && (front == 0 || front == 1)
      reads this
    {
      logs[1 - front] + logs[front]
    }

    /** The period is half the refresh time. Seconds are scaled by an unsigned factor, so a
        negative time becomes a period of about 2^63 milliseconds. */
    constructor (rates: seq<Rate>, refreshSeconds: int, narrow: bool, now: int)
      ensures Valid() && data == [null, null] && history == [] && clock == now
      ensures this.rates == rates && this.narrow == narrow
      ensures 0 <= refreshSeconds < 0x40_0000_0000_0000 ==> refreshMs == refreshSeconds * 500
      ensures -0x40_0000_0000_0000 <= refreshSeconds < 0 ==> refreshMs == 0x8000_0000_0000_0000 + refreshSeconds * 500
    {
      this.rates, this.narrow := rates, narrow;
      refreshMs := refreshSeconds * 1000 % 0x1_0000_0000_0000_0000 / 2;
      tp, front, data := now, 0, [null, null];
      logs, history, clock := [[], []], [], now;
    }

    method ClearBuffer(i: int)
      requires |data| == |logs| == 2 && (i == 0 || i == 1) && (data[0] != null ==> data[0] != data[1])
      requires Holds(data[0], logs[0], narrow) && Holds(data[1], logs[1], narrow)
      modifies `logs, data
      ensures logs == old(logs)[i := []]
      ensures Holds(data[0], logs[0], narrow) && Holds(data[1], logs[1], narrow)
    {
      if data[i] != null {
        data[i].Refresh();
      }
      logs := logs[i := []];
    }

    method ClearBoth(now: int)
      requires Valid() && clock <= now && Period() > 0 && 2 * Period() <= now - tp
      modifies `tp, `logs, `clock, data
      ensures Valid() && clock == tp == now
    {
      hide Window, Fill, Flatten, WellFormed, Bounded;
      WindowClear(Period(), tp, clock, now, history, logs[1 - front], logs[front]);
      tp, clock := now, now;
      ClearBuffer(0);
      ClearBuffer(1);
    }

    method Rotate(now: int)
      requires Valid() && clock <= now && 0 < Period() <= now - tp < 2 * Period()
      modifies `tp, `front, `logs, `clock, data
      ensures Valid() && clock == tp == now
    {
      hide Window, Fill, Flatten, WellFormed, Bounded;
      WindowRotate(Period(), tp, clock, now, history, logs[1 - front], logs[front]);
      tp, clock := now, now;
      var pos := 1 - front;
      ClearBuffer(pos);
      front := pos;
    }

    method Refresh(now: int)
      requires Valid() && clock <= now
      modifies `tp, `front, `logs, `clock, data
      ensures Valid() && clock == now
      ensures Period() > 0 ==> now < tp + Period()
    {
      hide Window, Holds;
      WindowClock(Period(), tp, clock, history, logs[1 - front], logs[front]);
      var ms := (now - tp) / 1_000_000;
      WholeMilliseconds(now - tp, refreshMs);
      WholeMilliseconds(now - tp, 2 * refreshMs);
      if refreshMs > 0 && ms >= refreshMs {
        if ms >= 2 * refreshMs { ClearBoth(now); } else { Rotate(now); }
      } else {
        WindowTick(Period(), tp, clock, now, history, logs[1 - front], logs[front]);
        clock := now;
      }
    }

    /** The front buffer, allocated on first use. */
    method FrontBuffer() returns (b: Buffer)
      requires Valid()
      modifies `data
      ensures Valid() && b == data[front] && data[1 - front] == old(data)[1 - front]
      ensures b == old(data)[front] || fresh(b)
    {
      hide Window, Flatten, WellFormed, Bounded;
      if data[front] == null {
        b := new Buffer(narrow);
        data := data[front := b];
      } else {
        b := data[front];
      }
    }

    method Insert(value: Bits32, now: int)
      requires Valid() && clock <= now
      modifies this, data
      ensures Valid() && clock == now
      ensures data[0] == old(data[0]) || (data[0] != null && fresh(data[0]))
      ensures data[1] == old(data[1]) || (data[1] != null && fresh(data[1]))
      ensures history == old(history) + [Observation(now, value)]
    {
      hide Window, Flatten, WellFormed, Bounded, Encode, Bump, Increased, Fill, BitsOf;
      Refresh(now);
      var b := FrontBuffer();
      Record(b, value, now);
    }

    /** Counts one observation in the front buffer. */
    method Record(b: Buffer, value: Bits32, now: int)
      requires Valid() && b == data[front] && clock == now && (Period() > 0 ==> now < tp + Period())
      modifies `logs, `history, b
      ensures Valid() && history == old(history) + [Observation(now, value)]
    {
      hide Window, Flatten, WellFormed, Bounded, Encode, Bump, Increased, Fill, BitsOf;
      ghost var o, log := Observation(now, value), logs[front];
      WindowInsert(Period(), tp, now, history, logs[1 - front], log, o);
      ghost var c := b.Counts();
      var pos := Encode(value);
      ghost var landed := b.Increase(pos);
      NextFill(c, pos, landed, b.Counts(), log, o, narrow);
      logs, history := logs[front := log + [o]], history + [o];
    }

    /** One buffer's listing, added to a running count. */
    method ListBuffer(i: int, count: nat) returns (count': nat, r: seq<Entry>)
      requires Valid() && 0 <= i < 2
      ensures r == Emit(View(BitsOf(logs[i]), narrow))
      ensures count' == count + Sum(View(BitsOf(logs[i]), narrow))
    {
      hide Window, Flatten, WellFormed, Bounded, Emit, Sum, InOrder;
      if data[i] == null {
        count', r := count, [];
        EmptyView(narrow);
      } else {
        count', r := data[i].Stat(count);
      }
    }

    /** A read-out: it describes the retained observations, which are the most
        recent ones. With a refresh period every retained observation is younger
        than three periods and every observation at most one period old is retained.
        However full the buckets are, a narrow sketch counts as many as its halves hold. */
    method Stat(now: int) returns (result: seq<real>, sum: real, count: nat)
      requires Valid() && clock <= now
      modifies `tp, `front, `logs, `clock, data
      ensures Valid() && clock == now
      ensures |Retained()| <= |history| && Retained() == history[|history| - |Retained()|..]
      ensures Period() <= 0 ==> Retained() == history
      ensures Period() > 0 ==> forall k :: 0 <= k < |Retained()| ==> now - Retained()[k].time < 3 * Period()
      ensures Period() > 0 ==> forall k :: 0 <= k < |history| && now - history[k].time <= Period() ==>
        k >= |history| - |Retained()|
      ensures BitsOf(Retained()) == BitsOf(logs[1 - front]) + BitsOf(logs[front])
      ensures narrow ==> count == Held(BitsOf(logs[0])) + Held(BitsOf(logs[1]))
      ensures Roomy(BitsOf(logs[0]), narrow) && Roomy(BitsOf(logs[1]), narrow) ==>
        Describes(rates, BitsOf(logs[1 - front]), BitsOf(logs[front]), result, sum, count)
    {
      hide Window, Holds, Describes, BitsOf, Roomy, Held;
      Refresh(now);
      BitsOfAppend(logs[1 - front], logs[front]);
      RetainedWindow(Period(), tp, now, history, logs[1 - front], logs[front]);
      result, sum, count := ReadBuffers();
    }

    method ReadBuffers() returns (result: seq<real>, sum: real, count: nat)
      requires Valid()
      ensures narrow ==> count == Held(BitsOf(logs[0])) + Held(BitsOf(logs[1]))
      ensures Roomy(BitsOf(logs[0]), narrow) && Roomy(BitsOf(logs[1]), narrow) ==>
        Describes(rates, BitsOf(logs[1 - front]), BitsOf(logs[front]), result, sum, count)
    {
      hide Window, Holds, BitsOf, Describes, View, Emit, Sum, Held, Roomy, Total, TailRuns, IsReadSum, IsAnswer,
           MaxTarget;
      var r0, r1;
      count, r0 := ListBuffer(0, 0);
      count, r1 := ListBuffer(1, count);
      ghost var xs, ys := BitsOf(logs[0]), BitsOf(logs[1]);
      HeldTotal(xs);
      HeldTotal(ys);
      if count == 0 {
        result, sum := seq(|rates|, _ => 0.0), 0.0;
        if Roomy(xs, narrow) && Roomy(ys, narrow) { NothingRead(rates, xs, ys, narrow, result); }
      } else {
        result, sum :=
          Answers(rates, r0, r1, count, BucketValue, -Pow2(64), View(xs, narrow), View(ys, narrow));
        if Roomy(xs, narrow) && Roomy(ys, narrow) {
          ReadOut(rates, xs, ys, narrow, result, sum, count);
        }
      }
      if Roomy(xs, narrow) && Roomy(ys, narrow) {
        if front == 0 { DescribesSwapped(rates, xs, ys, result, sum, count); }
      }
    }
  }

  lemma EmptyView(narrow: bool)
    ensures BitsOf([]) == []
    ensures Emit(View([], narrow)) == [] && Sum(View([], narrow)) == 0
  {
    ZerosInOrder(BUCKETS);
    var v := View([], narrow);
    assert v[..BUCKETS] == v && v[..0] == [];
    SumOfZeros(BUCKETS);
    EmitZeros(v, 0, BUCKETS);
  }

  lemma NothingRead(rates: seq<Rate>, xs: seq<Bits32>, ys: seq<Bits32>, narrow: bool, result: seq<real>)
    requires Roomy(xs, narrow) && Roomy(ys, narrow) && Sum(View(xs, narrow)) + Sum(View(ys, narrow)) == 0
    requires result == seq(|rates|, _ => 0.0)
    ensures Describes(rates, xs, ys, result, 0.0, 0)
  {
    ViewTotals(xs, ys, narrow);
    ViewTotals(ys, xs, narrow);
  }

  lemma NextFill(c: seq<nat>, pos: RawIndex, landed: int, d: seq<nat>,
                 log: seq<Observation>, o: Observation, narrow: bool)
    requires |c| == BUCKETS && c == Fill(BitsOf(log), narrow) && pos == Encode(o.bits)
    requires narrow ==> Increased(c, pos, landed, d)
    requires !narrow ==> d == c[pos := (c[pos] + 1) % 0x1_0000_0000_0000_0000]
    ensures d == Fill(BitsOf(log + [o]), narrow)
  {
    hide Encode, Increased, Bump;
    NextBits(log, o);
    hide BitsOf;
    if narrow { IncreasedIsBump(c, pos, landed, d); } else { WideBump(c, pos); }
  }

  lemma NextBits(log: seq<Observation>, o: Observation)
    ensures
      var xs := BitsOf(log + [o]);
      xs[..|xs| - 1] == BitsOf(log) && xs[|xs| - 1] == o.bits
  {
    assert (log + [o])[..|log|] == log;
  }

  lemma WideBump(c: seq<nat>, pos: RawIndex)
    requires |c| == BUCKETS
    ensures Bump(c, pos, false) == c[pos := (c[pos] + 1) % 0x1_0000_0000_0000_0000]
  {
  }
}
