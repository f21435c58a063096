/** The reply context shared by the thread that sends a message and waits, and the block that is
    invoked once with the reply. Each access to the context is one atomic step; the wait may time
    out at any moment; the steps of the two parties interleave freely. */
module XpcReply {

  /** Where the reply block is. After its own decrement it may have to dispose of the context. */
  datatype BlockPc = NotInvoked | HasReply | Signalled | BlockFreeing(left: nat) | BlockDone

  /** Where the waiting caller is. */
  datatype WaiterPc = Waiting | GotSignal | TookResult | Leaving | WaiterFreeing(left: nat) | Returned

  /** What happened to the one retained reply object. */
  datatype Reply = NoReply | InContext | WithCaller | Released

  /** `lateTouches` counts accesses to the context's fields after it was freed, `frees` the calls to
      free, `semFrees` the releases of the semaphore. */
  datatype State = State(
    block: BlockPc, waiter: WaiterPc,
    refs: int, semaphore: nat, semFrees: nat, frees: nat, lateTouches: nat,
    hasResult: bool,        // the context's result field is not NULL
    callerHolds: bool,      // the caller's local `out` is not NULL
    retained: nat, handedOver: nat, released: nat
  )

  const START: State := State(NotInvoked, Waiting, 2, 0, 0, 0, 0, false, false, 0, 0, 0)

  datatype Step =
    | Invoke(reply: bool)     // the block runs; with a reply object, it retains and stores it
    | Signal
    | BlockUnref
    | BlockDispose
    | WakeUp                  // the wait consumed a signal
    | TimeOut                 // the wait gave up
    | Take                    // out = result
    | Clear                   // result = NULL
    | WaiterUnref
    | WaiterDispose

  function Touch(s: State): State {
    if s.frees > 0 then s.(lateTouches := s.lateTouches + 1) else s
  }

  /** One of the disposal steps of whoever saw the count drop to zero: release a leftover result,
      release the semaphore, free the memory. */
  function Dispose(s: State, left: nat): State {
    if left == 3 then
      Touch(if s.hasResult then s.(released := s.released + 1) else s)
    else if left == 2 then Touch(s.(semFrees := s.semFrees + 1))
    else s.(frees := s.frees + 1)
  }

  predicate Enabled(s: State, step: Step) {
    match step
    case Invoke(_) => s.block == NotInvoked
    case Signal => s.block == HasReply
    case BlockUnref => s.block == Signalled
    case BlockDispose => s.block.BlockFreeing? && s.block.left > 0
    case WakeUp => s.waiter == Waiting && s.semaphore > 0
    case TimeOut => s.waiter == Waiting
    case Take => s.waiter == GotSignal
    case Clear => s.waiter == TookResult
    case WaiterUnref => s.waiter == Leaving
    case WaiterDispose => s.waiter.WaiterFreeing? && s.waiter.left > 0
  }

  function Next(s: State, step: Step): State
    requires Enabled(s, step)
  {
    match step
    case Invoke(reply) =>
      if reply then Touch(s.(block := HasReply, hasResult := true, retained := s.retained + 1))
      else s.(block := HasReply)
    case Signal => Touch(s.(block := Signalled, semaphore := s.semaphore + 1))
    case BlockUnref => Touch(s.(block := if s.refs == 1 then BlockFreeing(3) else BlockDone, refs := s.refs - 1))
    case BlockDispose =>
      Dispose(s, s.block.left).(block := if s.block.left == 1 then BlockDone else BlockFreeing(s.block.left - 1))
    case WakeUp => Touch(s.(waiter := GotSignal, semaphore := s.semaphore - 1))
    case TimeOut => Touch(s.(waiter := Leaving))
    case Take => Touch(s.(waiter := TookResult, callerHolds := s.hasResult))
    case Clear =>
      Touch(s.(waiter := Leaving, hasResult := false, handedOver := s.handedOver + if s.hasResult then 1 else 0))
    case WaiterUnref => Touch(s.(waiter := if s.refs == 1 then WaiterFreeing(3) else Returned, refs := s.refs - 1))
    case WaiterDispose =>
      Dispose(s, s.waiter.left).(waiter := if s.waiter.left == 1 then Returned else WaiterFreeing(s.waiter.left - 1))
  }

  /** Every schedule that only takes enabled steps. */
  ghost predicate Schedule(s: State, steps: seq<Step>)
    decreases |steps|
  {
    steps != [] ==> Enabled(s, steps[0]) && Schedule(Next(s, steps[0]), steps[1..])
  }

  ghost function RunAll(s: State, steps: seq<Step>): State
    requires Schedule(s, steps)
    decreases |steps|
  {
    if steps == [] then s else RunAll(Next(s, steps[0]), steps[1..])
  }

  predicate BlockUnreffed(s: State) {
    s.block.BlockFreeing? || s.block == BlockDone
  }

  predicate WaiterUnreffed(s: State) {
    s.waiter.WaiterFreeing? || s.waiter == Returned
  }

  function Left(s: State): nat {
    if s.block.BlockFreeing? then s.block.left else if s.waiter.WaiterFreeing? then s.waiter.left else 0
  }

  /** The block has not signalled yet. */
  predicate Silent(s: State) {
    s.block == NotInvoked || s.block == HasReply
  }

  /** The waiter consumed the signal and is picking up the result. */
  predicate Woken(s: State) {
    s.waiter == GotSignal || s.waiter == TookResult
  }

  ghost predicate Inv(s: State) {
    && s.lateTouches == 0
    && s.refs == (if BlockUnreffed(s) then 0 else 1) + (if WaiterUnreffed(s) then 0 else 1)
    // At most one party disposes, only when nobody refers to the context any more, and it
    // disposes of everything exactly once.
    && !(s.block.BlockFreeing? && s.waiter.WaiterFreeing?)
    && (s.block.BlockFreeing? || s.waiter.WaiterFreeing? ==> s.refs == 0 && 1 <= Left(s) <= 3)
    && s.frees == (if s.refs == 0 && Left(s) == 0 then 1 else 0)
    && s.semFrees == (if s.refs == 0 && Left(s) <= 1 then 1 else 0)
    // The semaphore counts the one signal that was not consumed.
    && s.semaphore + (if Woken(s) then 1 else 0) <= 1
    && (s.semaphore > 0 ==> !Silent(s))
    && (Woken(s) ==> !Silent(s) && s.semaphore == 0)
    && (Silent(s) ==> s.semaphore == 0 && s.handedOver == 0 && s.released == 0 && !s.callerHolds)
    // The retained reply is in exactly one place.
    && (s.block == NotInvoked ==> s.retained == 0 && !s.hasResult)
    && s.retained <= 1
    && s.retained == s.handedOver + s.released
                     + (if s.hasResult && !(s.refs == 0 && Left(s) <= 2) then 1 else 0)
    && (s.refs == 0 && Left(s) <= 2 ==> s.released == if s.hasResult then 1 else 0)
    && (s.refs > 0 || Left(s) == 3 ==> s.released == 0)
    // The caller holds a reply exactly when ownership was moved to it.
    && (s.waiter == TookResult ==> s.callerHolds == s.hasResult && s.handedOver == 0)
    && (s.waiter != TookResult ==> (s.callerHolds <==> s.handedOver == 1))
    && ((s.waiter == Waiting || s.waiter == GotSignal) ==> s.handedOver == 0)
    && s.handedOver <= 1
  }

  lemma StartInv()
    ensures Inv(START)
  {
  }

  predicate OfBlock(step: Step) {
    step.Invoke? || step.Signal? || step.BlockUnref? || step.BlockDispose?
  }

  lemma DisposeKeepsInv(s: State, step: Step)
    requires Inv(s) && Enabled(s, step) && (step.BlockDispose? || step.WaiterDispose?)
    ensures Inv(Next(s, step)) && Remaining(Next(s, step)) < Remaining(s)
  {
    var left := Left(s);
    assert left == 1 || left == 2 || left == 3;
  }

  lemma BlockStepKeepsInv(s: State, step: Step)
    requires Inv(s) && Enabled(s, step) && OfBlock(step) && !step.BlockDispose?
    ensures Inv(Next(s, step)) && Remaining(Next(s, step)) < Remaining(s)
  {
    match step
    case Invoke(reply) =>
    case Signal =>
    case BlockUnref =>
  }

  lemma WaitKeepsInv(s: State, step: Step)
    requires Inv(s) && Enabled(s, step) && (step.WakeUp? || step.TimeOut?)
    ensures Inv(Next(s, step)) && Remaining(Next(s, step)) < Remaining(s)
  {
  }

  lemma PickUpKeepsInv(s: State, step: Step)
    requires Inv(s) && Enabled(s, step) && (step.Take? || step.Clear?)
    ensures Inv(Next(s, step)) && Remaining(Next(s, step)) < Remaining(s)
  {
  }

  lemma WaiterUnrefKeepsInv(s: State)
    requires Inv(s) && Enabled(s, WaiterUnref)
    ensures Inv(Next(s, WaiterUnref)) && Remaining(Next(s, WaiterUnref)) < Remaining(s)
  {
  }

  lemma StepKeepsInv(s: State, step: Step)
    requires Inv(s) && Enabled(s, step)
    ensures Inv(Next(s, step)) && Remaining(Next(s, step)) < Remaining(s)
  {
    hide Inv, Next, Remaining;
    if step.BlockDispose? || step.WaiterDispose? {
      DisposeKeepsInv(s, step);
    } else if OfBlock(step) {
      BlockStepKeepsInv(s, step);
    } else if step.WakeUp? || step.TimeOut? {
      WaitKeepsInv(s, step);
    } else if step.Take? || step.Clear? {
      PickUpKeepsInv(s, step);
    } else {
      WaiterUnrefKeepsInv(s);
    }
  }

  lemma {:induction false} EveryScheduleKeepsInv(s: State, steps: seq<Step>)
    requires Inv(s) && Schedule(s, steps)
    ensures Inv(RunAll(s, steps))
    decreases |steps|
  {
    hide Next, Inv;
    if steps != [] {
      StepKeepsInv(s, steps[0]);
      EveryScheduleKeepsInv(Next(s, steps[0]), steps[1..]);
    }
  }

  predicate Finished(s: State) {
    s.block == BlockDone && s.waiter == Returned
  }

  /** In every schedule nothing is touched after being freed and nothing is freed twice; once
      both parties are through, the context and its semaphore were freed exactly once and the
      retained reply, if there was one, was either handed to the caller or released. */
  lemma FreedExactlyOnce(steps: seq<Step>)
    requires Schedule(START, steps)
    ensures var s := RunAll(START, steps);
            && s.lateTouches == 0 && s.frees <= 1 && s.semFrees <= 1 && s.handedOver + s.released <= s.retained <= 1
            && (Finished(s) ==>
                  && s.frees == 1 && s.semFrees == 1
                  && s.handedOver + s.released == s.retained
                  && (s.callerHolds <==> s.handedOver == 1))
  {
    StartInv();
    EveryScheduleKeepsInv(START, steps);
  }

  /* ---- The state and the steps taken so far ---- */

  predicate Invoked(past: seq<Step>) {
    Invoke(true) in past || Invoke(false) in past
  }

  /** Where the block is, told by its steps. */
  ghost predicate BlockHistory(s: State, past: seq<Step>) {
    && (s.block == NotInvoked <==> !Invoked(past))
    && (s.block == HasReply <==> Invoked(past) && Signal !in past)
    && (s.block == Signalled <==> Signal in past && BlockUnref !in past)
    && (BlockUnreffed(s) <==> BlockUnref in past)
    && !(Invoke(true) in past && Invoke(false) in past)
    && (Signal in past ==> Invoked(past)) && (BlockUnref in past ==> Signal in past)
  }

  /** Where the waiter is, told by its steps. */
  ghost predicate WaiterHistory(s: State, past: seq<Step>) {
    && (s.waiter == Waiting <==> WakeUp !in past && TimeOut !in past)
    && (s.waiter == GotSignal <==> WakeUp in past && Take !in past)
    && (s.waiter == TookResult <==> Take in past && Clear !in past)
    && (s.waiter == Leaving <==> (Clear in past || TimeOut in past) && WaiterUnref !in past)
    && (WaiterUnreffed(s) <==> WaiterUnref in past)
    && !(WakeUp in past && TimeOut in past)
    && (Take in past ==> WakeUp in past) && (Clear in past ==> Take in past)
    && (WaiterUnref in past ==> Clear in past || TimeOut in past)
  }

  /** The signal and the reply, told by both parties' steps. */
  ghost predicate ReplyHistory(s: State, past: seq<Step>) {
    && s.semaphore == (if Signal in past && WakeUp !in past then 1 else 0)
    && s.retained == (if Invoke(true) in past then 1 else 0)
    && (s.hasResult <==> Invoke(true) in past && Clear !in past)
    && (s.callerHolds <==> Invoke(true) in past && Take in past)
    && s.handedOver == (if Invoke(true) in past && Clear in past then 1 else 0)
    && (WakeUp in past ==> Signal in past)
  }

  ghost predicate History(s: State, past: seq<Step>) {
    BlockHistory(s, past) && WaiterHistory(s, past) && ReplyHistory(s, past)
  }

  lemma StepAdds(past: seq<Step>, step: Step)
    ensures forall x :: x in past + [step] <==> x in past || x == step
  {
  }

  lemma BlockHistoryStep(s: State, past: seq<Step>, step: Step)
    requires BlockHistory(s, past) && Enabled(s, step)
    ensures BlockHistory(Next(s, step), past + [step])
  {
    StepAdds(past, step);
  }

  lemma WaiterHistoryStep(s: State, past: seq<Step>, step: Step)
    requires WaiterHistory(s, past) && Enabled(s, step)
    ensures WaiterHistory(Next(s, step), past + [step])
  {
    StepAdds(past, step);
  }

  lemma ReplyHistoryStep(s: State, past: seq<Step>, step: Step)
    requires History(s, past) && Enabled(s, step)
    ensures ReplyHistory(Next(s, step), past + [step])
  {
    if step.Invoke? {
      InvokeHistory(s, past, step);
    } else if step == Signal || step == WakeUp || step == Take || step == Clear {
      OrderOfSteps(s, past, step);
      HandOverHistory(s, past, step);
    } else {
      OtherHistory(s, past, step);
    }
  }

  lemma HandOverHistory(s: State, past: seq<Step>, step: Step)
    requires ReplyHistory(s, past) && Enabled(s, step) && step !in past
    requires step == Signal || step == WakeUp || step == Take || step == Clear
    requires step == WakeUp ==> Signal in past
    requires step == Take ==> Clear !in past
    requires step == Clear ==> Take in past
    requires step == Signal ==> WakeUp !in past
    ensures ReplyHistory(Next(s, step), past + [step])
  {
    StepAdds(past, step);
  }

  lemma OtherHistory(s: State, past: seq<Step>, step: Step)
    requires ReplyHistory(s, past) && Enabled(s, step)
    requires !step.Invoke? && step != Signal && step != WakeUp && step != Take && step != Clear
    ensures ReplyHistory(Next(s, step), past + [step])
  {
    StepAdds(past, step);
    OtherKeeps(s, step);
    hide Next, Enabled;
  }

  lemma OtherKeeps(s: State, step: Step)
    requires Enabled(s, step)
    requires !step.Invoke? && step != Signal && step != WakeUp && step != Take && step != Clear
    ensures var s' := Next(s, step);
            && s'.semaphore == s.semaphore && s'.retained == s.retained && s'.hasResult == s.hasResult
            && s'.callerHolds == s.callerHolds && s'.handedOver == s.handedOver
  {
  }

  lemma InvokeHistory(s: State, past: seq<Step>, step: Step)
    requires History(s, past) && Enabled(s, step) && step.Invoke?
    ensures ReplyHistory(Next(s, step), past + [step])
  {
    StepAdds(past, step);
    assert Signal !in past && WakeUp !in past && Take !in past && Clear !in past;
    hide WaiterHistory;
  }

  lemma OrderOfSteps(s: State, past: seq<Step>, step: Step)
    requires History(s, past) && Enabled(s, step)
    ensures step in past ==> step == BlockDispose || step == WaiterDispose
    ensures step == WakeUp ==> Signal in past
    ensures step == Take ==> Clear !in past
    ensures step == Clear ==> Take in past
    ensures step == Signal ==> WakeUp !in past
  {
    if step.Signal? {
      assert ReplyHistory(s, past) && Signal !in past;
    }
    hide ReplyHistory;
    if step.WakeUp? {
      assert ReplyHistory(s, past);
      SignalledFirst(s, past);
    }
  }

  lemma SignalledFirst(s: State, past: seq<Step>)
    requires ReplyHistory(s, past) && s.semaphore > 0
    ensures Signal in past
  {
  }

  lemma {:induction false} EveryScheduleHasHistory(s: State, past: seq<Step>, steps: seq<Step>)
    requires History(s, past) && Schedule(s, steps)
    ensures History(RunAll(s, steps), past + steps)
    decreases |steps|
  {
    if steps == [] {
      NothingMore(past);
    } else {
      var step := steps[0];
      BlockHistoryStep(s, past, step);
      WaiterHistoryStep(s, past, step);
      ReplyHistoryStep(s, past, step);
      hide Next, BlockHistory, WaiterHistory, ReplyHistory, Enabled;
      EveryScheduleHasHistory(Next(s, step), past + [step], steps[1..]);
      OneMore(past, steps);
    }
  }

  lemma NothingMore<T>(past: seq<T>)
    ensures past + [] == past && [] + past == past
  {
  }

  lemma OneMore<T>(past: seq<T>, steps: seq<T>)
    requires steps != []
    ensures past + [steps[0]] + steps[1..] == past + steps
  {
  }

  lemma HistoryFromStart(steps: seq<Step>)
    requires Schedule(START, steps)
    ensures History(RunAll(START, steps), steps) && Inv(RunAll(START, steps))
  {
    StartInv();
    EveryScheduleKeepsInv(START, steps);
    EveryScheduleHasHistory(START, [], steps);
    NothingMore(steps);
  }

  /** A reply in time reaches the caller, and nothing else does: once both parties are through, the
      caller holds a reply exactly when it was woken and there was one, and after a timeout the
      reply was released instead. */
  lemma ReplyReachesTheWoken(steps: seq<Step>)
    requires Schedule(START, steps) && Finished(RunAll(START, steps))
    ensures var s := RunAll(START, steps);
            && (s.callerHolds <==> WakeUp in steps && Invoke(true) in steps)
            && s.retained == (if Invoke(true) in steps then 1 else 0)
            && s.handedOver == (if s.callerHolds then 1 else 0)
            && s.released == (if TimeOut in steps then s.retained else 0)
            && (WakeUp in steps <==> TimeOut !in steps)
  {
    HistoryFromStart(steps);
    assert WaiterUnreffed(RunAll(START, steps));
  }

  /** What can happen next, told by what has happened: each party goes through its own steps in
      order and once, the signal can be consumed as soon as it is there, and until then the waiter
      may give up. */
  lemma NextStepsAre(steps: seq<Step>)
    requires Schedule(START, steps)
    ensures var s := RunAll(START, steps);
            && (forall reply :: Enabled(s, Invoke(reply)) <==> !Invoked(steps))
            && (Enabled(s, Signal) <==> Invoked(steps) && Signal !in steps)
            && (Enabled(s, BlockUnref) <==> Signal in steps && BlockUnref !in steps)
            && (Enabled(s, TimeOut) <==> WakeUp !in steps && TimeOut !in steps)
            && (Enabled(s, WakeUp) <==> Signal in steps && WakeUp !in steps && TimeOut !in steps)
            && (Enabled(s, Take) <==> WakeUp in steps && Take !in steps)
            && (Enabled(s, Clear) <==> Take in steps && Clear !in steps)
            && (Enabled(s, WaiterUnref) <==> (Clear in steps || TimeOut in steps) && WaiterUnref !in steps)
  {
    HistoryFromStart(steps);
    hide Inv, RunAll, Schedule, BlockHistory, WaiterHistory, ReplyHistory, Enabled;
    BlockMayGo(RunAll(START, steps), steps);
    WaiterMayGo(RunAll(START, steps), steps);
  }

  lemma BlockMayGo(s: State, past: seq<Step>)
    requires BlockHistory(s, past)
    ensures forall reply :: Enabled(s, Invoke(reply)) <==> !Invoked(past)
    ensures Enabled(s, Signal) <==> Invoked(past) && Signal !in past
    ensures Enabled(s, BlockUnref) <==> Signal in past && BlockUnref !in past
  {
  }

  lemma WaiterMayGo(s: State, past: seq<Step>)
    requires WaiterHistory(s, past) && ReplyHistory(s, past)
    ensures Enabled(s, TimeOut) <==> WakeUp !in past && TimeOut !in past
    ensures Enabled(s, WakeUp) <==> Signal in past && WakeUp !in past && TimeOut !in past
    ensures Enabled(s, Take) <==> WakeUp in past && Take !in past
    ensures Enabled(s, Clear) <==> Take in past && Clear !in past
    ensures Enabled(s, WaiterUnref) <==> (Clear in past || TimeOut in past) && WaiterUnref !in past
  {
  }

  /** A party that has dropped its reference does nothing more than dispose of the context, and
      only when the other party has dropped its own. */
  lemma NothingAfterUnref(steps: seq<Step>, step: Step)
    requires Schedule(START, steps) && Enabled(RunAll(START, steps), step)
    ensures var s := RunAll(START, steps);
            && (BlockUnreffed(s) && OfBlock(step) ==>
                  step == BlockDispose && WaiterUnreffed(s) && s.refs == 0 && s.frees == 0)
            && (WaiterUnreffed(s) && !OfBlock(step) ==>
                  step == WaiterDispose && BlockUnreffed(s) && s.refs == 0 && s.frees == 0)
  {
    StartInv();
    EveryScheduleKeepsInv(START, steps);
  }

  /** Steps still possible at most. */
  function Remaining(s: State): nat {
    (match s.block
     case NotInvoked => 6 case HasReply => 5 case Signalled => 4 case BlockFreeing(n) => n case BlockDone => 0)
    + (match s.waiter
       case Waiting => 7 case GotSignal => 6 case TookResult => 5 case Leaving => 4
       case WaiterFreeing(n) => n case Returned => 0)
  }

  /** Every schedule is finite, and one that stops early left somebody able to move: with the
      handler invoked once, as XPC guarantees, both parties always get through. */
  lemma AlwaysFinishes(steps: seq<Step>)
    requires Schedule(START, steps)
    ensures |steps| <= Remaining(START)
    ensures Finished(RunAll(START, steps)) || exists step :: Enabled(RunAll(START, steps), step)
  {
    StartInv();
    Shrinks(START, steps);
    EveryScheduleKeepsInv(START, steps);
    if !Finished(RunAll(START, steps)) {
      SomebodyCanMove(RunAll(START, steps));
    }
  }

  lemma {:induction false} Shrinks(s: State, steps: seq<Step>)
    requires Inv(s) && Schedule(s, steps)
    ensures |steps| + Remaining(RunAll(s, steps)) <= Remaining(s)
    decreases |steps|
  {
    if steps != [] {
      StepKeepsInv(s, steps[0]);
      hide Next, Inv, Remaining;
      Shrinks(Next(s, steps[0]), steps[1..]);
    }
  }

  lemma SomebodyCanMove(s: State)
    requires Inv(s) && !Finished(s)
    ensures exists step :: Enabled(s, step)
  {
    if s.block != BlockDone {
      var step := match s.block
        case NotInvoked => Invoke(false) case HasReply => Signal case Signalled => BlockUnref case _ => BlockDispose;
      assert Enabled(s, step);
    } else {
      var step := match s.waiter
        case Waiting => TimeOut case GotSignal => Take case TookResult => Clear
        case Leaving => WaiterUnref case _ => WaiterDispose;
      assert Enabled(s, step);
    }
  }
}
