/**
  The cancellable timer of `ExecutorWrapper::schedule`: the scheduling call and
  the handler of a terminate signal meet on one atomic bit, and the second to
  arrive cancels the timer.
*/
module TimerCancel {

  datatype Slot = Empty | Registered | Emitted
  datatype StarterPc = CheckSignal | Emplace | Dispatch | ArmTimer | Meet | CancelTimer | Done
  datatype HandlerPc = NotRun | HandlerMeet | HandlerCancel | HandlerDone

  datatype State = State(
    met: bool,                  // the atomic bit
    signalled: bool,            // the signal's state word
    slot: Slot,
    starter: StarterPc,
    handler: HandlerPc,
    armed: bool,                // async_wait has been called
    completed: bool,            // the wait has completed, by expiry or by cancel
    calls: nat,                 // runs of the scheduled function
    cancels: nat)               // calls of timer.cancel()

  datatype Action = SignalState | SignalExchange | StarterStep | HandlerStep | Complete

  const INITIAL: State := State(false, false, Empty, CheckSignal, NotRun, false, false, 0, 0)

  predicate Enabled(s: State, a: Action)
  {
    match a
    case SignalState => !s.signalled
    case SignalExchange => s.signalled && s.slot != Emitted
    case StarterStep => s.starter != Done
    case HandlerStep => s.handler == HandlerMeet || s.handler == HandlerCancel
    case Complete => s.armed && !s.completed
  }

  function Apply(s: State, a: Action): State
  {
    match a
    case SignalState => s.(signalled := true)
    case SignalExchange => s.(slot := Emitted, handler := if s.slot == Registered then HandlerMeet else s.handler)
    case StarterStep =>
      (match s.starter
       case CheckSignal => s.(starter := if s.signalled then Dispatch else Emplace)
       case Emplace =>
         if s.slot == Emitted then s.(starter := Dispatch) else s.(slot := Registered, starter := ArmTimer)
       case Dispatch => s.(calls := s.calls + 1, starter := Done)
       case ArmTimer => s.(armed := true, starter := Meet)
       case Meet => if s.met then s.(starter := CancelTimer) else s.(met := true, starter := Done)
       case CancelTimer => s.(cancels := s.cancels + 1, starter := Done)
       case Done => s)
    case HandlerStep =>
      (match s.handler
       case HandlerMeet => if s.met then s.(handler := HandlerCancel) else s.(met := true, handler := HandlerDone)
       case HandlerCancel => s.(cancels := s.cancels + 1, handler := HandlerDone)
       case _ => s)
    case Complete => s.(completed := true, calls := s.calls + 1)
  }

  ghost predicate IsRun(run: seq<State>, actions: seq<Action>)
  {
    && |run| == |actions| + 1 && run[0] == INITIAL
    && forall i :: 0 <= i < |actions| ==> Enabled(run[i], actions[i]) && run[i + 1] == Apply(run[i], actions[i])
  }

  predicate StarterThrough(s: State) { s.starter == CancelTimer || s.starter == Done }
  predicate HandlerThrough(s: State) { s.handler == HandlerCancel || s.handler == HandlerDone }

  predicate Inv(s: State)
  {
    && (s.armed ==> s.starter in {Meet, CancelTimer, Done})
    && (s.starter in {Meet, CancelTimer} ==> s.armed)
    && (s.slot == Registered || s.handler != NotRun ==> s.starter == ArmTimer || s.armed)
    && (s.slot == Registered ==> s.handler == NotRun)
    && (s.handler != NotRun ==> s.slot == Emitted)
    && (s.starter == ArmTimer || s.armed ==> s.slot == Registered || s.handler != NotRun)
    && (s.met <==> HandlerThrough(s) || (s.armed && StarterThrough(s)))
    && (s.handler == HandlerCancel ==> s.armed && s.starter == Done && s.cancels == 0)
    && (s.starter == CancelTimer ==> s.handler == HandlerDone && s.cancels == 0)
    && (s.cancels > 0 ==> s.armed && s.starter == Done && s.handler == HandlerDone)
    && (s.armed && s.starter == Done && s.handler == HandlerDone ==> s.cancels == 1)
    && (s.completed ==> s.armed)
    && s.calls == (if s.completed || (s.starter == Done && !s.armed) then 1 else 0)
  }

  lemma InvStep(s: State, a: Action)
    requires Inv(s) && Enabled(s, a)
    ensures Inv(Apply(s, a))
  {
  }

  lemma {:induction false} InvHolds(run: seq<State>, actions: seq<Action>, i: nat)
    requires IsRun(run, actions) && i < |run|
    ensures Inv(run[i])
  {
    if i > 0 {
      InvHolds(run, actions, i - 1);
      InvStep(run[i - 1], actions[i - 1]);
    }
  }

  /** The timer is cancelled at most once and only after it was armed; when both
      sides are through, an armed timer has been cancelled. */
  lemma TimerRendezvous(run: seq<State>, actions: seq<Action>, i: nat)
    requires IsRun(run, actions) && i < |run|
    ensures run[i].cancels <= 1 && (run[i].cancels == 1 ==> run[i].armed)
    ensures run[i].starter == Done && run[i].handler == HandlerDone ==> run[i].cancels == 1
    ensures run[i].cancels == 1 ==> run[i].starter == Done && run[i].handler == HandlerDone
  {
    InvHolds(run, actions, i);
  }

  /** A signal that reaches an armed timer cancels it: once the signal was emitted and
      neither side has a step left, the timer has been cancelled exactly once. */
  lemma SignalCancelsTimer(run: seq<State>, actions: seq<Action>, i: nat)
    requires IsRun(run, actions) && i < |run| && run[i].armed && run[i].slot == Emitted
    requires !Enabled(run[i], StarterStep) && !Enabled(run[i], HandlerStep)
    ensures run[i].cancels == 1
  {
    InvHolds(run, actions, i);
  }

  predicate TooLate(s: State)
  {
    || (s.signalled && s.starter == CheckSignal)
    || (s.slot == Emitted && s.starter == Emplace)
    || (s.starter in {Dispatch, Done} && !s.armed)
  }

  /** A signal before the timer could be armed keeps it from being armed. */
  lemma {:induction false} EarlySignalArmsNothing(run: seq<State>, actions: seq<Action>, i: nat, j: nat)
    requires IsRun(run, actions) && i <= j < |run| && TooLate(run[i])
    ensures TooLate(run[j]) && !run[j].armed && run[j].cancels == 0
  {
    hide Apply, Enabled;
    InvHolds(run, actions, j);
    if i < j {
      EarlySignalArmsNothing(run, actions, i, j - 1);
      InvHolds(run, actions, j - 1);
      TooLateStep(run[j - 1], actions[j - 1]);
    }
  }

  lemma TooLateStep(s: State, a: Action)
    requires Inv(s) && Enabled(s, a) && TooLate(s)
    ensures TooLate(Apply(s, a))
  {
  }

  /** A run in which the signal comes after arming and the handler cancels. */
  lemma SignalledRun() returns (run: seq<State>, actions: seq<Action>)
    ensures IsRun(run, actions) && run[|run| - 1].cancels == 1 && !run[|run| - 1].completed
  {
    var s1 := Apply(INITIAL, StarterStep);
    var s2 := Apply(s1, StarterStep);
    var s3 := Apply(s2, StarterStep);
    var s4 := Apply(s3, StarterStep);
    var s5 := Apply(s4, SignalState);
    var s6 := Apply(s5, SignalExchange);
    var s7 := Apply(s6, HandlerStep);
    actions := [StarterStep, StarterStep, StarterStep, StarterStep,
                SignalState, SignalExchange, HandlerStep, HandlerStep];
    run := [INITIAL, s1, s2, s3, s4, s5, s6, s7, Apply(s7, HandlerStep)];
  }

  /** The scheduled function runs at most once; it has run once the wait has
      completed, or once the call ended without arming the timer. */
  lemma FunctionRunsOnce(run: seq<State>, actions: seq<Action>, i: nat)
    requires IsRun(run, actions) && i < |run|
    ensures run[i].calls <= 1
    ensures run[i].calls == 1 <==> run[i].completed || (run[i].starter == Done && !run[i].armed)
  {
    InvHolds(run, actions, i);
  }
}
