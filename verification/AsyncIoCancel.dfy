/**
  The cancellation handshake of `async_io`: the starter of an I/O operation, the
  handler of a terminate signal and the resumed coroutine race on one atomic
  flag. Every action is one atomic operation; the actors interleave freely.
*/
module AsyncIoCancel {

  const NO_CANCEL: int := 0
  const COULD_CANCEL: int := 1
  const START_CANCEL: int := 2
  const FINISH_CANCEL: int := 3

  datatype Actor = Starter | Handler
  datatype First = Nobody | StarterFirst | HandlerFirst

  // The slot holds no handler, the registered one, or the mark of an emitted signal.
  datatype Slot = Empty | Registered | Emitted

  // The arming protocol is the same code for the starter and for the handler.
  datatype ArmPc = FirstCas | SecondCas | Cancel | Store | Done

  datatype StarterPc = CheckSignal | Emplace | DispatchCanceled | StartIo | Arm(arm: ArmPc)
  datatype HandlerPc = NotRun | Run(arm: ArmPc)
  datatype CoroutinePc = Suspended | ClearSlot | ExitFirstCas | ExitSecondCas | Wait | SkipHandshake | Returned

  datatype State = State(
    flag: int,
    signalled: bool,              // the signal's state word
    slot: Slot,
    starter: StarterPc,
    handler: HandlerPc,
    coroutine: CoroutinePc,
    hasCanceled: bool,
    ioStarted: bool,
    first: First,                 // who moved the flag from 0 to 1
    cancelledBy: seq<Actor>)      // the calls of cancel(obj) so far, in order

  datatype Action = SignalState | SignalExchange | StarterStep | HandlerStep | IoComplete | CoroutineStep

  const INITIAL: State :=
    State(NO_CANCEL, false, Empty, CheckSignal, NotRun, Suspended, false, false, Nobody, [])

  predicate Enabled(s: State, a: Action)
  {
    match a
    case SignalState => !s.signalled
    case SignalExchange => s.signalled && s.slot != Emitted
    case StarterStep => s.starter != Arm(Done)
    case HandlerStep => s.handler.Run? && s.handler != Run(Done)
    case IoComplete => s.ioStarted && s.coroutine == Suspended
    case CoroutineStep => s.coroutine != Suspended && s.coroutine != Returned
  }

  function FirstBy(a: Actor): First { if a == Starter then StarterFirst else HandlerFirst }

  /** One step of the arming protocol, by the starter after the I/O was started or by the handler. */
  function ArmStep(s: State, me: Actor, pc: ArmPc): (State, ArmPc)
  {
    match pc
    case FirstCas =>
      if s.flag == NO_CANCEL then (s.(flag := COULD_CANCEL, first := FirstBy(me)), Done)
      else (s, if s.flag == COULD_CANCEL then SecondCas else Done)
    case SecondCas =>
      if s.flag == COULD_CANCEL then (s.(flag := START_CANCEL), Cancel) else (s, Done)
    case Cancel => (s.(cancelledBy := s.cancelledBy + [me]), Store)
    case Store => (s.(flag := FINISH_CANCEL), Done)
    case Done => (s, Done)
  }

  function Apply(s: State, a: Action): State
  {
    match a
    case SignalState => s.(signalled := true)
    case SignalExchange =>
      s.(slot := Emitted, handler := if s.slot == Registered then Run(FirstCas) else s.handler)
    case StarterStep =>
      (match s.starter
       case CheckSignal =>
         if s.signalled then s.(hasCanceled := true, starter := DispatchCanceled) else s.(starter := Emplace)
       case Emplace =>
         if s.slot == Emitted then s.(hasCanceled := true, starter := DispatchCanceled)
         else s.(slot := Registered, starter := StartIo)
       case DispatchCanceled => s.(coroutine := SkipHandshake, starter := Arm(Done))
       case StartIo => s.(ioStarted := true, starter := Arm(FirstCas))
       case Arm(pc) => var (t, next) := ArmStep(s, Starter, pc); t.(starter := Arm(next)))
    case HandlerStep =>
      if s.handler.Run? then var (t, next) := ArmStep(s, Handler, s.handler.arm); t.(handler := Run(next)) else s
    case IoComplete => s.(coroutine := ClearSlot)
    case CoroutineStep =>
      (match s.coroutine
       case ClearSlot => s.(slot := if s.slot == Registered then Empty else s.slot, coroutine := ExitFirstCas)
       case ExitFirstCas =>
         if s.flag == NO_CANCEL then s.(flag := FINISH_CANCEL, coroutine := Returned)
         else if s.flag == FINISH_CANCEL then s.(coroutine := Returned)
         else s.(coroutine := if s.flag == COULD_CANCEL then ExitSecondCas else Wait)
       case ExitSecondCas =>
         if s.flag == COULD_CANCEL then s.(flag := FINISH_CANCEL, coroutine := Returned)
         else s.(coroutine := if s.flag == FINISH_CANCEL then Returned else Wait)
       case Wait => if s.flag == START_CANCEL then s else s.(coroutine := Returned)
       case SkipHandshake => s.(coroutine := Returned)
       case _ => s)
  }

  /** The states after each action of a run, starting from the initial one. */
  ghost predicate IsRun(run: seq<State>, actions: seq<Action>)
  {
    && |run| == |actions| + 1 && run[0] == INITIAL
    && forall i :: 0 <= i < |actions| ==> Enabled(run[i], actions[i]) && run[i + 1] == Apply(run[i], actions[i])
  }

  // ----- the inductive invariant -----

  predicate Holds(pc: ArmPc) { pc == Cancel || pc == Store }
  predicate Second(pc: ArmPc) { pc == SecondCas || Holds(pc) }
  predicate StarterHolds(s: State) { s.starter.Arm? && Holds(s.starter.arm) }
  predicate HandlerHolds(s: State) { s.handler.Run? && Holds(s.handler.arm) }

  /** One cancel, by the actor that found the flag already moved by the other. */
  predicate CancelledBySecond(s: State)
  {
    (s.first == StarterFirst && s.cancelledBy == [Handler]) || (s.first == HandlerFirst && s.cancelledBy == [Starter])
  }

  predicate Inv(s: State)
  {
    && 0 <= s.flag <= 3
    // the path through the starter
    && (s.hasCanceled <==> s.starter == DispatchCanceled || (s.starter == Arm(Done) && !s.ioStarted))
    && (s.ioStarted <==> s.starter.Arm? && !s.hasCanceled)
    && (s.slot == Registered || s.handler.Run? ==> s.starter == StartIo || s.ioStarted)
    && (s.slot == Registered ==> s.handler == NotRun)
    && (s.handler.Run? ==> s.slot == Emitted)
    && (s.starter == StartIo || (s.ioStarted && s.coroutine in {Suspended, ClearSlot}) ==>
          s.slot == Registered || s.handler.Run?)
    && (s.coroutine in {ExitFirstCas, ExitSecondCas, Wait, Returned} ==> s.slot != Registered)
    && (s.hasCanceled ==> s.coroutine in {Suspended, SkipHandshake, Returned} && s.flag == NO_CANCEL)
    && (!s.ioStarted && !s.hasCanceled ==> s.coroutine == Suspended)
    && (s.coroutine == SkipHandshake ==> s.hasCanceled)
    && (s.starter == DispatchCanceled ==> s.coroutine == Suspended)
    // who moved the flag to 1, and who may cancel
    && (s.flag == NO_CANCEL <==> s.first == Nobody && (s.coroutine == Returned ==> s.hasCanceled))
    && (s.first == StarterFirst ==> s.ioStarted && s.starter == Arm(Done))
    && (s.first == HandlerFirst ==> s.handler == Run(Done))
    && (s.starter.Arm? && Second(s.starter.arm) ==> s.first == HandlerFirst)
    && (s.handler.Run? && Second(s.handler.arm) ==> s.first == StarterFirst)
    && (s.flag == START_CANCEL <==> StarterHolds(s) || HandlerHolds(s))
    && (s.ioStarted && s.starter == Arm(Done) && s.first != StarterFirst ==> s.flag == FINISH_CANCEL)
    && (s.handler == Run(Done) && s.first != HandlerFirst ==> s.flag == FINISH_CANCEL)
    // the calls of cancel
    && |s.cancelledBy| <= 1
    && (s.starter == Arm(Cancel) || s.handler == Run(Cancel) ==> s.cancelledBy == [])
    && (s.starter == Arm(Store) ==> s.cancelledBy == [Starter])
    && (s.handler == Run(Store) ==> s.cancelledBy == [Handler])
    && (s.cancelledBy != [] ==> CancelledBySecond(s) && s.flag >= START_CANCEL)
    // the coroutine's exit
    && (s.coroutine == Wait ==> s.flag >= START_CANCEL)
    && (s.coroutine == ExitSecondCas ==> s.flag != NO_CANCEL)
    && (s.coroutine == Returned && !s.hasCanceled ==> s.flag == FINISH_CANCEL)
    && (s.flag == FINISH_CANCEL && s.cancelledBy == [] ==> s.coroutine == Returned)
  }

  lemma InvStep(s: State, a: Action)
    requires Inv(s) && Enabled(s, a)
    ensures Inv(Apply(s, a))
  {
    match a
    case StarterStep => InvStarterStep(s);
    case HandlerStep => InvHandlerStep(s);
    case CoroutineStep => InvCoroutineStep(s);
    case _ =>
  }

  lemma InvStarterStep(s: State)
    requires Inv(s) && Enabled(s, StarterStep)
    ensures Inv(Apply(s, StarterStep))
  {
  }

  lemma InvHandlerStep(s: State)
    requires Inv(s) && Enabled(s, HandlerStep)
    ensures Inv(Apply(s, HandlerStep))
  {
  }

  lemma InvCoroutineStep(s: State)
    requires Inv(s) && Enabled(s, CoroutineStep)
    ensures Inv(Apply(s, CoroutineStep))
  {
  }

  lemma {:induction false} InvHolds(run: seq<State>, actions: seq<Action>, i: nat)
    requires IsRun(run, actions) && i < |run|
    ensures Inv(run[i])
  {
    if i > 0 {
      InvHolds(run, actions, i - 1);
      InvStep(run[i - 1], actions[i - 1]);
    }
  }

  // ----- safety over every run -----

  predicate IsCancel(s: State, a: Action)
  {
    (a == StarterStep && s.starter == Arm(Cancel)) || (a == HandlerStep && s.handler == Run(Cancel))
  }

  /** The I/O object is cancelled only after its I/O was started, and never once
      the coroutine that owns it has returned. */
  lemma CancelOnlyWhileAlive(run: seq<State>, actions: seq<Action>, i: nat)
    requires IsRun(run, actions) && i < |actions| && IsCancel(run[i], actions[i])
    ensures run[i].ioStarted && run[i].coroutine != Returned && run[i + 1].coroutine != Returned
    ensures run[i].cancelledBy == [] && |run[i + 1].cancelledBy| == 1
  {
    InvHolds(run, actions, i);
    InvHolds(run, actions, i + 1);
  }

  /** `cancel(obj)` runs at most once, by the one who came second. */
  lemma CancelAtMostOnce(run: seq<State>, actions: seq<Action>, i: nat)
    requires IsRun(run, actions) && i < |run|
    ensures |run[i].cancelledBy| <= 1
    ensures run[i].cancelledBy != [] ==> CancelledBySecond(run[i])
  {
    InvHolds(run, actions, i);
  }

  /** The flag moves 0-1-2-3, 0-3 or 1-3 and nowhere else. */
  lemma FlagMoves(run: seq<State>, actions: seq<Action>, i: nat)
    requires IsRun(run, actions) && i < |actions|
    ensures
      var f, g := run[i].flag, run[i + 1].flag;
      f == g || (f, g) in {(0, 1), (1, 2), (2, 3), (0, 3), (1, 3)}
  {
    InvHolds(run, actions, i);
  }

  /** From the moment the coroutine returns, nothing touches the I/O object: the
      flag keeps its last value, which is 3 exactly when the handler had been
      registered, and no further cancel happens. */
  lemma {:induction false} ReturnedIsFinal(run: seq<State>, actions: seq<Action>, i: nat, j: nat)
    requires IsRun(run, actions) && i <= j < |run| && run[i].coroutine == Returned
    ensures run[j].coroutine == Returned && run[j].cancelledBy == run[i].cancelledBy
    ensures run[j].hasCanceled == run[i].hasCanceled
    ensures run[j].flag == if run[i].hasCanceled then NO_CANCEL else FINISH_CANCEL
  {
    hide Apply, Enabled;
    InvHolds(run, actions, j);
    if i < j {
      ReturnedIsFinal(run, actions, i, j - 1);
      InvHolds(run, actions, j - 1);
      ReturnedStep(run[j - 1], actions[j - 1]);
    }
  }

  lemma ReturnedStep(s: State, a: Action)
    requires Inv(s) && Enabled(s, a) && s.coroutine == Returned
    ensures
      var t := Apply(s, a);
      t.coroutine == Returned && t.cancelledBy == s.cancelledBy && t.hasCanceled == s.hasCanceled
  {
  }

  /** A run that returns with the flag at 0: the signal comes before the handler is registered. */
  lemma ReturnedWithoutFlag() returns (run: seq<State>, actions: seq<Action>)
    ensures IsRun(run, actions) && run[|run| - 1].coroutine == Returned && run[|run| - 1].flag == NO_CANCEL
  {
    actions := [SignalState, StarterStep, StarterStep, CoroutineStep];
    var s1 := Apply(INITIAL, SignalState);
    var s2 := Apply(s1, StarterStep);
    var s3 := Apply(s2, StarterStep);
    run := [INITIAL, s1, s2, s3, Apply(s3, CoroutineStep)];
  }

  /** No cancellation is lost: when the signal's handler and the starter are both
      through and the coroutine has not begun its exit, the I/O object has been
      cancelled, once, by whichever of the two came second. */
  lemma NoCancellationLost(run: seq<State>, actions: seq<Action>, i: nat)
    requires IsRun(run, actions) && i < |run|
    requires run[i].handler == Run(Done) && run[i].starter == Arm(Done)
    requires run[i].coroutine in {Suspended, ClearSlot, ExitFirstCas}
    ensures run[i].flag == FINISH_CANCEL && CancelledBySecond(run[i])
  {
    InvHolds(run, actions, i);
  }

  /** A signal that reaches a started operation cancels it: once the signal was emitted and
      neither starter nor handler has a step left, and the coroutine has not cleared the
      slot, `cancel(obj)` has been called exactly once and the flag is 3. */
  lemma SignalCancels(run: seq<State>, actions: seq<Action>, i: nat)
    requires IsRun(run, actions) && i < |run|
    requires run[i].ioStarted && run[i].slot == Emitted && run[i].coroutine in {Suspended, ClearSlot}
    requires !Enabled(run[i], StarterStep) && !Enabled(run[i], HandlerStep)
    ensures |run[i].cancelledBy| == 1 && CancelledBySecond(run[i]) && run[i].flag == FINISH_CANCEL
  {
    InvHolds(run, actions, i);
  }

  /** The emitted signal of a started operation always finds its handler. */
  lemma SignalRunsHandler(run: seq<State>, actions: seq<Action>, i: nat)
    requires IsRun(run, actions) && i < |actions| && actions[i] == SignalExchange
    requires run[i].ioStarted && run[i].coroutine in {Suspended, ClearSlot}
    ensures run[i].handler == NotRun && run[i + 1].handler == Run(FirstCas)
  {
    InvHolds(run, actions, i);
  }

  /** Once the coroutine has cleared the slot no handler starts any more. */
  lemma ClearedSlotStartsNoHandler(run: seq<State>, actions: seq<Action>, i: nat)
    requires IsRun(run, actions) && i < |actions|
    requires run[i].coroutine in {ExitFirstCas, ExitSecondCas, Wait, Returned} && run[i].handler == NotRun
    ensures run[i + 1].handler == NotRun
  {
    InvHolds(run, actions, i);
  }

  /** A run in which the signal comes after the start and the handler cancels. */
  lemma SignalledRun() returns (run: seq<State>, actions: seq<Action>)
    ensures IsRun(run, actions) && run[|run| - 1].cancelledBy == [Handler] && run[|run| - 1].flag == FINISH_CANCEL
    ensures run[|run| - 1].coroutine == Suspended
  {
    hide IsRun;
    run, actions := RunOfStart();
    run, actions := Grow(run, actions, SignalState);
    run, actions := Grow(run, actions, SignalExchange);
    run, actions := Grow(run, actions, HandlerStep);
    run, actions := Grow(run, actions, HandlerStep);
    run, actions := Grow(run, actions, HandlerStep);
    run, actions := Grow(run, actions, HandlerStep);
  }

  lemma RunOfStart() returns (run: seq<State>, actions: seq<Action>)
    ensures IsRun(run, actions) && |run| > 0
    ensures run[|run| - 1] ==
            State(COULD_CANCEL, false, Registered, Arm(Done), NotRun, Suspended, false, true, StarterFirst, [])
  {
    run, actions := [INITIAL], [];
    assert IsRun(run, actions);
    hide IsRun;
    run, actions := Grow(run, actions, StarterStep);
    run, actions := Grow(run, actions, StarterStep);
    run, actions := Grow(run, actions, StarterStep);
    run, actions := Grow(run, actions, StarterStep);
  }

  /** A run goes on with any enabled action. */
  lemma Grow(run: seq<State>, actions: seq<Action>, a: Action) returns (run': seq<State>, actions': seq<Action>)
    requires |run| > 0 && IsRun(run, actions) && Enabled(run[|run| - 1], a)
    ensures |run'| > 0 && IsRun(run', actions') && run'[|run'| - 1] == Apply(run[|run| - 1], a)
  {
    hide Apply, Enabled;
    run', actions' := run + [Apply(run[|run| - 1], a)], actions + [a];
  }

  /** The signal came too early for the operation to start. */
  predicate TooLate(s: State)
  {
    || (s.signalled && s.starter == CheckSignal)
    || (s.slot == Emitted && s.starter == Emplace)
    || s.hasCanceled
  }

  /** A signal that is set before the starter looks, or emitted before it registers its
      handler, keeps the operation from ever starting. */
  lemma {:induction false} EarlySignalStopsIo(run: seq<State>, actions: seq<Action>, i: nat, j: nat)
    requires IsRun(run, actions) && i <= j < |run| && TooLate(run[i])
    ensures TooLate(run[j]) && !run[j].ioStarted && run[j].cancelledBy == []
  {
    hide Apply, Enabled;
    InvHolds(run, actions, j);
    if i < j {
      EarlySignalStopsIo(run, actions, i, j - 1);
      InvHolds(run, actions, j - 1);
      TooLateStep(run[j - 1], actions[j - 1]);
    }
  }

  lemma TooLateStep(s: State, a: Action)
    requires Inv(s) && Enabled(s, a) && TooLate(s)
    ensures TooLate(Apply(s, a))
  {
  }

  /** A signal seen before the handler could be registered stops the I/O from
      being started at all, and then nobody ever cancels. */
  lemma CanceledBeforeStart(run: seq<State>, actions: seq<Action>, i: nat)
    requires IsRun(run, actions) && i < |run| && run[i].hasCanceled
    ensures !run[i].ioStarted && run[i].handler == NotRun && run[i].cancelledBy == []
  {
    InvHolds(run, actions, i);
  }

  // ----- progress -----

  function ArmSteps(pc: ArmPc): nat
  {
    match pc case FirstCas => 4 case SecondCas => 3 case Cancel => 2 case Store => 1 case Done => 0
  }

  /** A bound on the steps that are left. */
  function Remaining(s: State): nat
  {
    (if s.signalled then 0 else 1)
    + (if s.slot == Emitted then 0 else 1)
    + (match s.starter
       case CheckSignal => 8 case Emplace => 7 case DispatchCanceled => 6 case StartIo => 5
       case Arm(pc) => ArmSteps(pc))
    + (match s.handler case NotRun => (if s.slot == Emitted then 0 else 4) case Run(pc) => ArmSteps(pc))
    + (match s.coroutine
       case Suspended => 5 case ClearSlot => 4 case ExitFirstCas => 3 case ExitSecondCas => 2
       case Wait => 1 case SkipHandshake => 1 case Returned => 0)
  }

  predicate Spinning(s: State, a: Action)
  {
    a == CoroutineStep && s.coroutine == Wait && s.flag == START_CANCEL
  }

  /** Every step but a turn of the wait loop uses up one of finitely many steps. */
  lemma StepsAreBounded(s: State, a: Action)
    requires Inv(s) && Enabled(s, a) && !Spinning(s, a)
    ensures Remaining(Apply(s, a)) < Remaining(s)
  {
  }

  /** A resumed coroutine is never stuck: until it returns, some actor has a step
      to take other than another turn of the wait loop. */
  lemma CoroutineNeverStuck(run: seq<State>, actions: seq<Action>, i: nat) returns (a: Action)
    requires IsRun(run, actions) && i < |run| && run[i].coroutine != Suspended && run[i].coroutine != Returned
    ensures Enabled(run[i], a) && !Spinning(run[i], a)
    ensures a == StarterStep || a == HandlerStep || a == CoroutineStep
  {
    InvHolds(run, actions, i);
    var s := run[i];
    a := if !Spinning(s, CoroutineStep) then CoroutineStep else if StarterHolds(s) then StarterStep else HandlerStep;
  }

  /** The turns of an interleaving that are not turns of the wait loop. */
  function Work(run: seq<State>, actions: seq<Action>, i: nat): nat
    requires |run| == |actions| + 1 && i <= |actions|
  {
    if i == 0 then 0 else Work(run, actions, i - 1) + if Spinning(run[i - 1], actions[i - 1]) then 0 else 1
  }

  /** However the actors interleave, a whole run takes a bounded number of steps
      besides turns of the wait loop. */
  lemma {:induction false} WorkIsBounded(run: seq<State>, actions: seq<Action>, i: nat)
    requires IsRun(run, actions) && i <= |actions|
    ensures Work(run, actions, i) + Remaining(run[i]) <= Remaining(INITIAL)
  {
    hide Remaining, Spinning;
    if i > 0 {
      WorkIsBounded(run, actions, i - 1);
      InvHolds(run, actions, i - 1);
      if Spinning(run[i - 1], actions[i - 1]) {
        SpinChangesNothing(run[i - 1], actions[i - 1]);
      } else {
        StepsAreBounded(run[i - 1], actions[i - 1]);
      }
    }
  }

  lemma SpinChangesNothing(s: State, a: Action)
    requires Spinning(s, a)
    ensures Apply(s, a) == s
  {
  }
}
