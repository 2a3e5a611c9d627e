/**
  The striped counter: a value spread over slots that are installed on first use
  by compare-and-swap. Any number of threads increment, decrement, exchange and
  read; every step is one atomic operation and the threads interleave freely.
  Creating a zero cell is invisible to others until it is installed, so it
  belongs to the installing step.
*/
module StripedCounter {

  datatype Op = Inc(v: int) | Dec(v: int) | Update(v: int) | Read

  datatype Pc =
    | Idle
    | FindSlot(op: Op, slot: nat)                         // is the slot's pointer null?
    | Install(op: Op, slot: nat)                          // compare-and-swap a fresh cell in
    | LoadSlot(op: Op, slot: nat)                         // load the pointer
    | Access(op: Op, slot: nat, cell: nat)                // about to work on the cell
    | Retry(op: Op, slot: nat, cell: nat, expected: int)  // compare-and-swap loop of types without fetch_add
    | Sweep(acc: int, i: nat)                             // update: is slot i installed?
    | SweepLoad(acc: int, i: nat)
    | SweepCell(acc: int, i: nat, cell: nat)
    | Scan(acc: int, i: nat, start: int)                  // value(): is slot i installed?
    | ScanLoad(acc: int, i: nat, start: int)
    | ScanCell(acc: int, i: nat, cell: nat, start: int)

  /** A finished read: the true totals when it began and when it returned, and what it returned. */
  datatype Reading = Reading(start: int, value: int, finish: int)

  datatype Slot = Null | Cell(cell: nat)

  datatype State = State(
    slots: seq<Slot>,
    cells: seq<int>,
    threads: seq<Pc>,
    results: seq<int>,   // what finished updates returned
    readings: seq<Reading>)

  // `LoadFirst` is the load that opens the loop of types without fetch_add.
  datatype Choice = Start(op: Op, slot: nat) | Proceed | LoadFirst | SpuriousFailure
  datatype Action = Action(tid: nat, choice: Choice)

  function CellValue(slot: Slot, cells: seq<int>): int
  {
    if slot.Cell? && slot.cell < |cells| then cells[slot.cell] else 0
  }

  /** The counter's value: the sum over installed slots. */
  function Total(slots: seq<Slot>, cells: seq<int>): int
  {
    if |slots| == 0 then 0 else Total(slots[..|slots| - 1], cells) + CellValue(slots[|slots| - 1], cells)
  }

  /** What an update has taken out and not returned yet. */
  function Accumulated(pc: Pc): int
  {
    if pc.Sweep? || pc.SweepLoad? || pc.SweepCell? then pc.acc else 0
  }

  /** What an operation adds to the counter, or stores in it. */
  function Amount(op: Op): int
  {
    match op
    case Inc(v) => v
    case Dec(v) => -v
    case Update(v) => v
    case Read => 0
  }

  /** The amount of an operation that was called but has not reached its cell yet. */
  function Unapplied(pc: Pc): int
  {
    if pc.FindSlot? || pc.Install? || pc.LoadSlot? || pc.Access? || pc.Retry? then Amount(pc.op) else 0
  }

  function SumOver(threads: seq<Pc>, f: Pc -> int): int
  {
    if |threads| == 0 then 0 else SumOver(threads[..|threads| - 1], f) + f(threads[|threads| - 1])
  }

  function Sum(xs: seq<int>): int { if |xs| == 0 then 0 else Sum(xs[..|xs| - 1]) + xs[|xs| - 1] }

  /** What the calls of a run amount to: increments less decrements plus values set. */
  function Called(actions: seq<Action>): int
  {
    if |actions| == 0 then 0
    else
      var a := actions[|actions| - 1];
      Called(actions[..|actions| - 1]) + if a.choice.Start? then Amount(a.choice.op) else 0
  }

  function Initial(slots: nat, threads: nat): State
  {
    State(seq(slots, _ => Null), [], seq(threads, _ => Idle), [], [])
  }

  predicate Enabled(s: State, a: Action)
  {
    && a.tid < |s.threads|
    && (a.choice.Start? <==> s.threads[a.tid].Idle?)
    && (a.choice.Start? ==> a.choice.slot < |s.slots|)
    && (a.choice.SpuriousFailure? ==> s.threads[a.tid].Retry?)
    && (a.choice.LoadFirst? ==> s.threads[a.tid].Access? && !s.threads[a.tid].op.Update?)
  }

  // ----- well-formedness: pointers held by threads are the installed ones -----

  predicate SlotsDistinct(slots: seq<Slot>, cells: seq<int>)
  {
    && (forall i :: 0 <= i < |slots| && slots[i].Cell? ==> slots[i].cell < |cells|)
    && (forall i, j :: 0 <= i < j < |slots| && slots[i].Cell? ==> slots[i] != slots[j])
  }

  predicate ThreadOk(slots: seq<Slot>, pc: Pc)
  {
    match pc
    case Idle => true
    case FindSlot(_, k) => k < |slots|
    case Install(_, k) => k < |slots|
    case LoadSlot(_, k) => k < |slots| && slots[k].Cell?
    case Access(op, k, c) => k < |slots| && slots[k] == Cell(c) && !op.Read?
    case Retry(op, k, c, _) => k < |slots| && slots[k] == Cell(c) && (op.Inc? || op.Dec?)
    case Sweep(_, i) => i <= |slots|
    case SweepLoad(_, i) => i < |slots| && slots[i].Cell?
    case SweepCell(_, i, c) => i < |slots| && slots[i] == Cell(c)
    case Scan(_, i, _) => i <= |slots|
    case ScanLoad(_, i, _) => i < |slots| && slots[i].Cell?
    case ScanCell(_, i, c, _) => i < |slots| && slots[i] == Cell(c)
  }

  predicate WellFormed(s: State)
  {
    && |s.slots| > 0 && SlotsDistinct(s.slots, s.cells)
    && forall t :: 0 <= t < |s.threads| ==> ThreadOk(s.slots, s.threads[t])
  }

  // ----- one atomic step -----

  function WithCell(s: State, c: nat, x: int): State
    requires c < |s.cells|
  {
    s.(cells := s.cells[c := x])
  }

  /** The work on a cell, in the fetch-and-add form or the exchange of an update. */
  function Work(s: State, op: Op, c: nat): (State, Pc)
    requires c < |s.cells|
  {
    var x := s.cells[c];
    match op
    case Inc(v) => (WithCell(s, c, x + v), Idle)
    case Dec(v) => (WithCell(s, c, x - v), Idle)
    case Update(v) => (WithCell(s, c, v), Sweep(x, 1))
    case Read => (s, Idle)
  }

  function Step(s: State, pc: Pc, choice: Choice): (State, Pc)
    requires WellFormed(s) && ThreadOk(s.slots, pc)
    requires choice.Start? ==> choice.slot < |s.slots|
  {
    if choice.Start? then
      (s, if choice.op.Read? then Scan(0, 0, Total(s.slots, s.cells))
          else FindSlot(choice.op, if choice.op.Update? then 0 else choice.slot))
    else
      match pc
      case Idle => (s, Idle)
      case FindSlot(op, k) => (s, if s.slots[k].Null? then Install(op, k) else LoadSlot(op, k))
      case Install(op, k) =>
        (if s.slots[k].Null? then s.(slots := s.slots[k := Cell(|s.cells|)], cells := s.cells + [0]) else s,
         LoadSlot(op, k))
      case LoadSlot(op, k) => (s, if op.Read? then Idle else Access(op, k, s.slots[k].cell))
      case Access(op, k, c) =>
        if choice.LoadFirst? && !op.Update? then (s, Retry(op, k, c, s.cells[c])) else Work(s, op, c)
      case Retry(op, k, c, expected) =>
        if choice.Proceed? && s.cells[c] == expected then Work(s, op, c) else (s, Retry(op, k, c, s.cells[c]))
      case Sweep(acc, i) =>
        if i >= |s.slots| then (s.(results := s.results + [acc]), Idle)
        else (s, if s.slots[i].Null? then Sweep(acc, i + 1) else SweepLoad(acc, i))
      case SweepLoad(acc, i) => (s, SweepCell(acc, i, s.slots[i].cell))
      case SweepCell(acc, i, c) => (WithCell(s, c, 0), Sweep(acc + s.cells[c], i + 1))
      case Scan(acc, i, start) =>
        if i >= |s.slots|
        then (s.(readings := s.readings + [Reading(start, acc, Total(s.slots, s.cells))]), Idle)
        else (s, if s.slots[i].Null? then Scan(acc, i + 1, start) else ScanLoad(acc, i, start))
      case ScanLoad(acc, i, start) => (s, ScanCell(acc, i, s.slots[i].cell, start))
      case ScanCell(acc, i, c, start) => (s, Scan(acc + s.cells[c], i + 1, start))
  }

  function Next(s: State, a: Action): State
  {
    if WellFormed(s) && Enabled(s, a) then
      var (t, pc) := Step(s, s.threads[a.tid], a.choice);
      t.(threads := s.threads[a.tid := pc])
    else s
  }

  ghost predicate IsRun(run: seq<State>, actions: seq<Action>)
  {
    && |run| == |actions| + 1 && |run[0].slots| > 0 && run[0] == Initial(|run[0].slots|, |run[0].threads|)
    && forall i :: 0 <= i < |actions| ==> Enabled(run[i], actions[i]) && run[i + 1] == Next(run[i], actions[i])
  }

  // ----- sums -----

  lemma {:induction false} TotalUntouched(slots: seq<Slot>, cells: seq<int>, c: nat, x: int)
    requires c < |cells| && Cell(c) !in slots
    ensures Total(slots, cells[c := x]) == Total(slots, cells)
  {
    if |slots| > 0 { TotalUntouched(slots[..|slots| - 1], cells, c, x); }
  }

  /** Changing a cell changes the total by as much, because no two slots share it. */
  lemma {:induction false} TotalUpdate(slots: seq<Slot>, cells: seq<int>, k: nat, x: int)
    requires SlotsDistinct(slots, cells) && k < |slots| && slots[k].Cell?
    ensures Total(slots, cells[slots[k].cell := x]) == Total(slots, cells) + x - cells[slots[k].cell]
  {
    var n := |slots| - 1;
    if k < n {
      TotalUpdate(slots[..n], cells, k, x);
    } else {
      TotalUntouched(slots[..n], cells, slots[k].cell, x);
    }
  }

  lemma {:induction false} TotalGrow(slots: seq<Slot>, cells: seq<int>)
    requires SlotsDistinct(slots, cells)
    ensures Total(slots, cells + [0]) == Total(slots, cells)
  {
    if |slots| > 0 { TotalGrow(slots[..|slots| - 1], cells); }
  }

  lemma {:induction false} TotalInstall(slots: seq<Slot>, cells: seq<int>, k: nat)
    requires SlotsDistinct(slots, cells) && k < |slots| && slots[k].Null?
    ensures Total(slots[k := Cell(|cells|)], cells + [0]) == Total(slots, cells)
  {
    var n := |slots| - 1;
    var after := slots[k := Cell(|cells|)];
    if k < n {
      assert after[..n] == slots[..n][k := Cell(|cells|)];
      TotalInstall(slots[..n], cells, k);
    } else {
      assert after[..n] == slots[..n];
      TotalGrow(slots[..n], cells);
    }
  }

  lemma {:induction false} SumOverUpdate(threads: seq<Pc>, f: Pc -> int, t: nat, pc: Pc)
    requires t < |threads|
    ensures SumOver(threads[t := pc], f) == SumOver(threads, f) + f(pc) - f(threads[t])
  {
    var n := |threads| - 1;
    if t < n {
      assert threads[t := pc][..n] == threads[..n][t := pc];
      SumOverUpdate(threads[..n], f, t, pc);
    } else {
      assert threads[t := pc][..n] == threads[..n];
    }
  }

  lemma SumAppend(xs: seq<int>, x: int)
    ensures Sum(xs + [x]) == Sum(xs) + x
  {
    assert (xs + [x])[..|xs|] == xs;
  }

  // ----- what every step keeps -----

  /** An installed slot keeps its cell for ever. */
  predicate SlotsKept(before: seq<Slot>, after: seq<Slot>)
  {
    |before| == |after| && forall i :: 0 <= i < |before| && before[i].Cell? ==> after[i] == before[i]
  }

  lemma StepShape(s: State, pc: Pc, choice: Choice)
    requires WellFormed(s) && ThreadOk(s.slots, pc) && (choice.Start? ==> choice.slot < |s.slots|)
    ensures
      var (t, next) := Step(s, pc, choice);
      && SlotsKept(s.slots, t.slots) && SlotsDistinct(t.slots, t.cells) && ThreadOk(t.slots, next)
      && t.threads == s.threads
  {
  }

  lemma NextIsWellFormed(s: State, a: Action)
    requires WellFormed(s) && Enabled(s, a)
    ensures WellFormed(Next(s, a)) && SlotsKept(s.slots, Next(s, a).slots)
  {
    hide Step;
    StepShape(s, s.threads[a.tid], a.choice);
  }

  /** What is in the slots, in running updates and in returned updates together is
      what the calls so far amount to, less those that have not reached their cell. */
  predicate Balanced(s: State, called: int)
  {
    Total(s.slots, s.cells) + SumOver(s.threads, Accumulated) + Sum(s.results)
    == called - SumOver(s.threads, Unapplied)
  }

  lemma WorkBalance(s: State, op: Op, k: nat, c: nat)
    requires WellFormed(s) && k < |s.slots| && s.slots[k] == Cell(c)
    ensures
      var (t, next) := Work(s, op, c);
      && Total(t.slots, t.cells) + Accumulated(next) == Total(s.slots, s.cells) + Amount(op)
      && Unapplied(next) == 0 && t.results == s.results
  {
    hide Total;
    match op
    case Inc(v) => TotalUpdate(s.slots, s.cells, k, s.cells[c] + v);
    case Dec(v) => TotalUpdate(s.slots, s.cells, k, s.cells[c] - v);
    case Update(v) => TotalUpdate(s.slots, s.cells, k, v);
    case Read =>
  }

  function Own(s: State, pc: Pc): int
  {
    Total(s.slots, s.cells) + Accumulated(pc) + Sum(s.results) + Unapplied(pc)
  }

  lemma StepBalance(s: State, pc: Pc, choice: Choice)
    requires WellFormed(s) && ThreadOk(s.slots, pc) && (choice.Start? <==> pc.Idle?)
    requires choice.Start? ==> choice.slot < |s.slots|
    ensures
      var (t, next) := Step(s, pc, choice);
      Own(t, next) == Own(s, pc) + if choice.Start? then Amount(choice.op) else 0
  {
    hide Total, Work, Sum;
    match pc
    case Install(op, k) => if s.slots[k].Null? { TotalInstall(s.slots, s.cells, k); }
    case Access(op, k, c) => WorkBalance(s, op, k, c);
    case Retry(op, k, c, _) => WorkBalance(s, op, k, c);
    case Sweep(acc, i) => SumAppend(s.results, acc);
    case SweepCell(acc, i, c) => TotalUpdate(s.slots, s.cells, i, 0);
    case _ =>
  }

  lemma NextIsBalanced(s: State, a: Action, called: int)
    requires WellFormed(s) && Enabled(s, a) && Balanced(s, called)
    ensures Balanced(Next(s, a), called + if a.choice.Start? then Amount(a.choice.op) else 0)
  {
    hide Step, Total, SumOver, Sum, ThreadOk, SlotsDistinct, Accumulated, Unapplied, Amount;
    var pc := s.threads[a.tid];
    var next := Step(s, pc, a.choice).1;
    StepBalance(s, pc, a.choice);
    StepShape(s, pc, a.choice);
    SumOverUpdate(s.threads, Accumulated, a.tid, next);
    SumOverUpdate(s.threads, Unapplied, a.tid, next);
  }

  lemma {:induction false} NothingOpen(threads: seq<Pc>)
    requires forall t :: 0 <= t < |threads| ==> threads[t].Idle?
    ensures SumOver(threads, Accumulated) == 0 && SumOver(threads, Unapplied) == 0
  {
    if |threads| > 0 { NothingOpen(threads[..|threads| - 1]); }
  }

  lemma {:induction false} NothingInstalled(slots: nat)
    ensures Total(seq(slots, _ => Null), []) == 0
  {
    if slots > 0 {
      assert seq(slots, _ => Null)[..slots - 1] == seq(slots - 1, _ => Null);
      NothingInstalled(slots - 1);
    }
  }

  /** Conservation: in every state of every run nothing has been lost or doubled. The
      slots, what running updates hold and what finished ones returned make up the
      increments less the decrements plus the values set by the calls made so far,
      but for those still on their way to their cell. */
  lemma {:induction false} Conservation(run: seq<State>, actions: seq<Action>, i: nat)
    requires IsRun(run, actions) && i < |run|
    ensures WellFormed(run[i]) && Balanced(run[i], Called(actions[..i]))
  {
    hide Next, Total, SumOver, Enabled, Amount;
    if i == 0 {
      NothingInstalled(|run[0].slots|);
      NothingOpen(run[0].threads);
    } else {
      Conservation(run, actions, i - 1);
      NextIsWellFormed(run[i - 1], actions[i - 1]);
      NextIsBalanced(run[i - 1], actions[i - 1], Called(actions[..i - 1]));
      assert actions[..i][..i - 1] == actions[..i - 1];
    }
  }

  /** An installed slot is never replaced, however the run goes on. */
  lemma {:induction false} SlotsNeverReplaced(run: seq<State>, actions: seq<Action>, i: nat, j: nat)
    requires IsRun(run, actions) && i <= j < |run|
    ensures SlotsKept(run[i].slots, run[j].slots)
  {
    hide Next, Enabled;
    if i < j {
      SlotsNeverReplaced(run, actions, i, j - 1);
      Conservation(run, actions, j - 1);
      NextIsWellFormed(run[j - 1], actions[j - 1]);
    }
  }

  /** When no call is running, the counter's value is increments less decrements plus
      values set of all calls made, less what updates returned. */
  lemma QuiescentValue(run: seq<State>, actions: seq<Action>, i: nat)
    requires IsRun(run, actions) && i < |run|
    requires forall t :: 0 <= t < |run[i].threads| ==> run[i].threads[t].Idle?
    ensures Total(run[i].slots, run[i].cells) == Called(actions[..i]) - Sum(run[i].results)
  {
    hide Next, Total, SumOver, Sum, Enabled, WellFormed;
    Conservation(run, actions, i);
    NothingOpen(run[i].threads);
  }

  // ----- a thread that runs alone -----

  /** What holds of a call that found the total `before` and the logs `results` and
      `readings`, while no other thread steps. */
  predicate Alone(s: State, pc: Pc, op: Op, before: int, results: seq<int>, readings: seq<Reading>)
    requires ThreadOk(s.slots, pc)
  {
    && s.results == results && s.readings == readings
    && match pc
       case Idle => false
       case Sweep(acc, i) => op.Update? && i >= 1 && Swept(s, acc, i, op.v, before)
       case SweepLoad(acc, i) => op.Update? && i >= 1 && Swept(s, acc, i, op.v, before)
       case SweepCell(acc, i, _) => op.Update? && i >= 1 && Swept(s, acc, i, op.v, before)
       case Scan(acc, i, start) => op.Read? && Scanned(s, acc, i, start, before)
       case ScanLoad(acc, i, start) => op.Read? && Scanned(s, acc, i, start, before)
       case ScanCell(acc, i, _, start) => op.Read? && Scanned(s, acc, i, start, before)
       case _ => pc.op == op && !op.Read? && Total(s.slots, s.cells) == before && (op.Update? ==> pc.slot == 0)
  }

  predicate Swept(s: State, acc: int, i: nat, v: int, before: int)
    requires i <= |s.slots|
  {
    Total(s.slots[..i], s.cells) == v && acc + Total(s.slots, s.cells) - v == before
  }

  predicate Scanned(s: State, acc: int, i: nat, start: int, before: int)
    requires i <= |s.slots|
  {
    acc == Total(s.slots[..i], s.cells) && Total(s.slots, s.cells) == start == before
  }

  /** What a finished call has done. */
  predicate Finished(s: State, op: Op, before: int, results: seq<int>, readings: seq<Reading>)
  {
    match op
    case Inc(v) => Total(s.slots, s.cells) == before + v && s.results == results && s.readings == readings
    case Dec(v) => Total(s.slots, s.cells) == before - v && s.results == results && s.readings == readings
    case Update(v) => Total(s.slots, s.cells) == v && s.results == results + [before] && s.readings == readings
    case Read =>
      && Total(s.slots, s.cells) == before && s.results == results
      && s.readings == readings + [Reading(before, before, before)]
  }

  lemma AloneStarts(s: State, op: Op, slot: nat)
    requires WellFormed(s) && slot < |s.slots|
    ensures
      var (t, next) := Step(s, Idle, Start(op, slot));
      ThreadOk(t.slots, next) && Alone(t, next, op, Total(s.slots, s.cells), s.results, s.readings)
  {
    hide Total;
    EmptyPrefix(s.slots, s.cells);
  }

  lemma AloneWork(s: State, op: Op, k: nat, c: nat)
    requires WellFormed(s) && k < |s.slots| && s.slots[k] == Cell(c) && !op.Read? && (op.Update? ==> k == 0)
    ensures
      var (t, next) := Work(s, op, c);
      var before := Total(s.slots, s.cells);
      if next.Idle? then Finished(t, op, before, s.results, s.readings)
      else ThreadOk(t.slots, next) && Alone(t, next, op, before, s.results, s.readings)
  {
    hide Total;
    match op
    case Inc(v) => TotalUpdate(s.slots, s.cells, k, s.cells[c] + v);
    case Dec(v) => TotalUpdate(s.slots, s.cells, k, s.cells[c] - v);
    case Update(v) =>
      TotalUpdate(s.slots, s.cells, 0, v);
      EmptyPrefix(s.slots, s.cells[c := v]);
      PrefixStep(s.slots, s.cells[c := v], 0);
  }

  lemma AloneSweep(s: State, pc: Pc, op: Op, before: int)
    requires WellFormed(s) && ThreadOk(s.slots, pc) && (pc.Sweep? || pc.SweepLoad? || pc.SweepCell?)
    requires Alone(s, pc, op, before, s.results, s.readings)
    ensures
      var (t, next) := Step(s, pc, Proceed);
      if next.Idle? then Finished(t, op, before, s.results, s.readings)
      else ThreadOk(t.slots, next) && Alone(t, next, op, before, s.results, s.readings)
  {
    hide Total;
    if pc.i < |s.slots| { PrefixStep(s.slots, s.cells, pc.i); } else { assert s.slots[..pc.i] == s.slots; }
    if pc.SweepCell? {
      PrefixUpdate(s.slots, s.cells, pc.i, -s.cells[pc.cell], pc.i);
      PrefixUpdate(s.slots, s.cells, pc.i, -s.cells[pc.cell], pc.i + 1);
    }
  }

  lemma AloneScan(s: State, pc: Pc, op: Op, before: int)
    requires WellFormed(s) && ThreadOk(s.slots, pc) && Scanning(pc)
    requires Alone(s, pc, op, before, s.results, s.readings)
    ensures
      var (t, next) := Step(s, pc, Proceed);
      if next.Idle? then Finished(t, op, before, s.results, s.readings)
      else ThreadOk(t.slots, next) && Alone(t, next, op, before, s.results, s.readings)
  {
    hide Total;
    if pc.i < |s.slots| { PrefixStep(s.slots, s.cells, pc.i); } else { assert s.slots[..pc.i] == s.slots; }
  }

  lemma AloneStep(s: State, pc: Pc, choice: Choice, op: Op, before: int)
    requires WellFormed(s) && ThreadOk(s.slots, pc) && !choice.Start?
    requires choice.SpuriousFailure? ==> pc.Retry?
    requires choice.LoadFirst? ==> pc.Access? && !pc.op.Update?
    requires Alone(s, pc, op, before, s.results, s.readings)
    ensures
      var (t, next) := Step(s, pc, choice);
      if next.Idle? then Finished(t, op, before, s.results, s.readings)
      else ThreadOk(t.slots, next) && Alone(t, next, op, before, s.results, s.readings)
  {
    hide Total, Work, Swept, Scanned;
    StepShape(s, pc, choice);
    match pc
    case Install(_, k) => if s.slots[k].Null? { TotalInstall(s.slots, s.cells, k); }
    case Access(_, k, c) => AloneWork(s, op, k, c);
    case Retry(_, k, c, _) => AloneWork(s, op, k, c);
    case Sweep(_, _) => AloneSweep(s, pc, op, before);
    case SweepLoad(_, _) => AloneSweep(s, pc, op, before);
    case SweepCell(_, _, _) => AloneSweep(s, pc, op, before);
    case Scan(_, _, _) => AloneScan(s, pc, op, before);
    case ScanLoad(_, _, _) => AloneScan(s, pc, op, before);
    case ScanCell(_, _, _, _) => AloneScan(s, pc, op, before);
    case _ =>
  }

  /** From action `i` to state `j` only thread `t` steps, and its one call runs throughout. */
  ghost predicate OneCall(run: seq<State>, actions: seq<Action>, t: nat, i: nat, j: nat)
  {
    && IsRun(run, actions) && i < j < |run|
    && (forall k :: i <= k < j ==> actions[k].tid == t)
    && actions[i].choice.Start? && (forall k :: i < k < j ==> !actions[k].choice.Start?)
  }

  lemma {:induction false} CallSoFar(run: seq<State>, actions: seq<Action>, t: nat, i: nat, j: nat)
    requires OneCall(run, actions, t, i, j)
    ensures
      var s, op, before := run[j], actions[i].choice.op, Total(run[i].slots, run[i].cells);
      && WellFormed(s) && t < |s.threads|
      && if s.threads[t].Idle? then Finished(s, op, before, run[i].results, run[i].readings)
         else Alone(s, s.threads[t], op, before, run[i].results, run[i].readings)
    decreases j
  {
    hide Total, Step, Alone, Finished, SlotsDistinct, ThreadOk;
    var p := run[j - 1];
    Conservation(run, actions, j - 1);
    Conservation(run, actions, j);
    var op, before := actions[i].choice.op, Total(run[i].slots, run[i].cells);
    var (u, next) := Step(p, p.threads[t], actions[j - 1].choice);
    StepShape(p, p.threads[t], actions[j - 1].choice);
    assert run[j].threads[t] == next && run[j] == u.(threads := run[j].threads);
    if j == i + 1 {
      AloneStarts(p, op, actions[i].choice.slot);
      assert !next.Idle? by { StartsRunning(p, actions[i].choice); }
    } else {
      CallSoFar(run, actions, t, i, j - 1);
      AloneLogs(p, p.threads[t], op, before, run[i].results, run[i].readings);
      AloneStep(p, p.threads[t], actions[j - 1].choice, op, before);
    }
    ThreadsDoNotMatter(u, run[j], next, op, before, run[i].results, run[i].readings);
  }

  lemma StartsRunning(s: State, choice: Choice)
    requires WellFormed(s) && choice.Start? && choice.slot < |s.slots|
    ensures !Step(s, Idle, choice).1.Idle?
  {
  }

  lemma AloneLogs(s: State, pc: Pc, op: Op, before: int, results: seq<int>, readings: seq<Reading>)
    requires ThreadOk(s.slots, pc) && Alone(s, pc, op, before, results, readings)
    ensures s.results == results && s.readings == readings && !pc.Idle?
  {
  }

  lemma ThreadsDoNotMatter(u: State, s: State, pc: Pc, op: Op, before: int, results: seq<int>, readings: seq<Reading>)
    requires s == u.(threads := s.threads)
    ensures Finished(u, op, before, results, readings) == Finished(s, op, before, results, readings)
    ensures ThreadOk(u.slots, pc) ==>
      Alone(u, pc, op, before, results, readings) == Alone(s, pc, op, before, results, readings)
  {
  }

  /** A call that no other thread interrupts does what its name says: inc and dec change
      the value by their amount, update returns the former value and leaves its own, and
      value() returns the value and changes nothing. */
  lemma UninterruptedCall(run: seq<State>, actions: seq<Action>, t: nat, i: nat, j: nat)
    requires OneCall(run, actions, t, i, j) && t < |run[j].threads| && run[j].threads[t].Idle?
    ensures Finished(run[j], actions[i].choice.op, Total(run[i].slots, run[i].cells), run[i].results, run[i].readings)
  {
    hide Total, Alone, Finished;
    CallSoFar(run, actions, t, i, j);
  }

  // ----- the non-atomic read -----

  predicate Grows(op: Op) { op.Read? || (op.Inc? && op.v >= 0) }

  predicate OnlyIncrements(actions: seq<Action>)
  {
    forall i :: 0 <= i < |actions| && actions[i].choice.Start? ==> Grows(actions[i].choice.op)
  }

  /** Threads that only increment or read. */
  predicate Growing(pc: Pc)
  {
    match pc
    case FindSlot(op, _) => Grows(op)
    case Install(op, _) => Grows(op)
    case LoadSlot(op, _) => Grows(op)
    case Access(op, _, _) => Grows(op)
    case Retry(op, _, _, _) => Grows(op)
    case Idle => true
    case Scan(_, _, _) => true
    case ScanLoad(_, _, _) => true
    case ScanCell(_, _, _, _) => true
    case _ => false
  }

  predicate Scanning(pc: Pc) { pc.Scan? || pc.ScanLoad? || pc.ScanCell? }

  /** A read in progress: what it has summed is at most the slots it has passed hold
      now, and together with the slots ahead at least the total it started from. */
  predicate ScanBounded(slots: seq<Slot>, cells: seq<int>, pc: Pc)
    requires ThreadOk(slots, pc)
  {
    Scanning(pc) ==>
      var passed, all := Total(slots[..pc.i], cells), Total(slots, cells);
      pc.acc <= passed && pc.start <= pc.acc + all - passed
  }

  predicate ReadingOk(r: Reading) { r.start <= r.value <= r.finish }

  predicate ReadInv(s: State)
  {
    && WellFormed(s)
    && (forall t :: 0 <= t < |s.threads| ==> Growing(s.threads[t]) && ScanBounded(s.slots, s.cells, s.threads[t]))
    && (forall r :: 0 <= r < |s.readings| ==> ReadingOk(s.readings[r]))
  }

  lemma PrefixDistinct(slots: seq<Slot>, cells: seq<int>, i: nat)
    requires SlotsDistinct(slots, cells) && i <= |slots|
    ensures SlotsDistinct(slots[..i], cells)
  {
  }

  /** An increment of one cell is seen by a prefix of the slots or by the rest. */
  lemma PrefixUpdate(slots: seq<Slot>, cells: seq<int>, k: nat, v: int, i: nat)
    requires SlotsDistinct(slots, cells) && k < |slots| && slots[k].Cell? && i <= |slots|
    ensures
      var after := cells[slots[k].cell := cells[slots[k].cell] + v];
      && Total(slots, after) == Total(slots, cells) + v
      && Total(slots[..i], after) == Total(slots[..i], cells) + if k < i then v else 0
  {
    hide Total;
    var c := slots[k].cell;
    TotalUpdate(slots, cells, k, cells[c] + v);
    PrefixDistinct(slots, cells, i);
    if k < i {
      TotalUpdate(slots[..i], cells, k, cells[c] + v);
    } else {
      TotalUntouched(slots[..i], cells, c, cells[c] + v);
    }
  }

  lemma PrefixInstall(slots: seq<Slot>, cells: seq<int>, k: nat, i: nat)
    requires SlotsDistinct(slots, cells) && k < |slots| && slots[k].Null? && i <= |slots|
    ensures
      var after := slots[k := Cell(|cells|)];
      Total(after, cells + [0]) == Total(slots, cells) && Total(after[..i], cells + [0]) == Total(slots[..i], cells)
  {
    hide Total;
    var after := slots[k := Cell(|cells|)];
    TotalInstall(slots, cells, k);
    PrefixDistinct(slots, cells, i);
    if k < i {
      assert after[..i] == slots[..i][k := Cell(|cells|)];
      TotalInstall(slots[..i], cells, k);
    } else {
      assert after[..i] == slots[..i];
      TotalGrow(slots[..i], cells);
    }
  }

  lemma PrefixStep(slots: seq<Slot>, cells: seq<int>, i: nat)
    requires i < |slots|
    ensures Total(slots[..i + 1], cells) == Total(slots[..i], cells) + CellValue(slots[i], cells)
  {
    assert slots[..i + 1][..i] == slots[..i];
  }

  /** A step of any thread keeps the bounds of a read in progress elsewhere. */
  lemma OthersKeepBound(s: State, pc: Pc, choice: Choice, other: Pc)
    requires WellFormed(s) && ThreadOk(s.slots, pc) && Growing(pc) && (choice.Start? <==> pc.Idle?)
    requires choice.Start? ==> choice.slot < |s.slots| && Grows(choice.op)
    requires ThreadOk(s.slots, other) && ScanBounded(s.slots, s.cells, other)
    ensures
      var t := Step(s, pc, choice).0;
      ThreadOk(t.slots, other) && ScanBounded(t.slots, t.cells, other)
  {
    hide Total;
    StepShape(s, pc, choice);
    if Scanning(other) {
      match pc
      case Install(op, k) => if s.slots[k].Null? { PrefixInstall(s.slots, s.cells, k, other.i); }
      case Access(op, k, c) => if op.Inc? { PrefixUpdate(s.slots, s.cells, k, op.v, other.i); }
      case Retry(op, k, c, _) => if op.Inc? { PrefixUpdate(s.slots, s.cells, k, op.v, other.i); }
      case _ =>
    }
  }

  /** The reading thread's own steps keep its bounds, and what it returns lies
      between the totals at its beginning and at its end. */
  lemma OwnStepKeepsBound(s: State, pc: Pc, choice: Choice)
    requires WellFormed(s) && ThreadOk(s.slots, pc) && Growing(pc) && (choice.Start? <==> pc.Idle?)
    requires choice.Start? ==> choice.slot < |s.slots| && Grows(choice.op)
    requires ScanBounded(s.slots, s.cells, pc)
    ensures
      var (t, next) := Step(s, pc, choice);
      && ThreadOk(t.slots, next) && Growing(next) && ScanBounded(t.slots, t.cells, next)
      && (t.readings == s.readings ||
          (|t.readings| == |s.readings| + 1 && t.readings[..|s.readings|] == s.readings &&
           ReadingOk(t.readings[|s.readings|])))
  {
    hide Total;
    StepShape(s, pc, choice);
    EmptyPrefix(s.slots, s.cells);
    if Scanning(pc) {
      if pc.i < |s.slots| { PrefixStep(s.slots, s.cells, pc.i); } else { assert s.slots[..pc.i] == s.slots; }
    }
  }

  lemma EmptyPrefix(slots: seq<Slot>, cells: seq<int>)
    ensures Total(slots[..0], cells) == 0
  {
  }

  lemma NextKeepsReads(s: State, a: Action)
    requires ReadInv(s) && Enabled(s, a) && (a.choice.Start? ==> Grows(a.choice.op))
    ensures ReadInv(Next(s, a))
  {
    hide Step, Total, SlotsDistinct, ThreadOk, ScanBounded, Growing;
    var pc, n := s.threads[a.tid], Next(s, a);
    NextIsWellFormed(s, a);
    OwnStepKeepsBound(s, pc, a.choice);
    forall t | 0 <= t < |n.threads|
      ensures Growing(n.threads[t]) && ThreadOk(n.slots, n.threads[t]) && ScanBounded(n.slots, n.cells, n.threads[t])
    {
      if t != a.tid { OthersKeepBound(s, pc, a.choice, s.threads[t]); }
    }
    var m := |s.readings|;
    forall r | 0 <= r < |n.readings|
      ensures ReadingOk(n.readings[r])
    {
      if n.readings != s.readings && r < m { assert n.readings[r] == n.readings[..m][r]; }
    }
  }

  /** In every run that only increments by non-negative amounts, every finished
      `value()` returned a number between the true totals at its call and at its
      return, whatever was incremented or installed meanwhile. */
  lemma {:induction false} ReadsAreBounded(run: seq<State>, actions: seq<Action>, i: nat)
    requires IsRun(run, actions) && OnlyIncrements(actions) && i < |run|
    ensures ReadInv(run[i])
    ensures forall r :: 0 <= r < |run[i].readings| ==> ReadingOk(run[i].readings[r])
  {
    hide Next, Enabled, WellFormed, Growing, ScanBounded;
    Conservation(run, actions, i);
    if i == 0 {
      IdleIsBounded(run[0]);
    } else {
      ReadsAreBounded(run, actions, i - 1);
      NextKeepsReads(run[i - 1], actions[i - 1]);
    }
  }

  lemma IdleIsBounded(s: State)
    requires WellFormed(s) && s.readings == [] && forall t :: 0 <= t < |s.threads| ==> s.threads[t].Idle?
    ensures ReadInv(s)
  {
  }
}
