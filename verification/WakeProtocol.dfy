/** The register-then-check protocol between the demux thread, which appends and then notifies,
    and any number of asynchronous log readers, which register for a notification, look at the
    buffer, look at the end flag and only then go to sleep. Every access is one atomic step and
    steps of all parties interleave freely. */
module WakeProtocol {

  /** The writer appends and then notifies. A failure in between skips that notification and
      goes straight to ending the stream, which notifies as well. */
  datatype WriterPc = Idle | OwesNotify | OwesFinalNotify | Ended

  /** A reader's registration: absent, or present and perhaps already notified. */
  datatype Wait = NoWait | Waiting(notified: bool)

  /** Where a reader is inside its poll loop. `seen` is the stream length when it found the
      buffer empty and `ended` whether the end flag was already up at that moment. */
  datatype ReaderPc = Outside | Looping | Registered | SawEmpty(seen: nat, ended: bool) | Parked

  datatype PollResult = NotYet | GotData | EndOfStream

  datatype Reader = Reader(pc: ReaderPc, offset: nat, wait: Wait, result: PollResult)

  datatype System = System(writer: WriterPc, total: nat, terminated: bool, readers: seq<Reader>)

  datatype Action =
    | Append(n: nat)
    | NotifyWaiters
    | SetTerminated
    | StartPoll(i: nat)
    | PollWait(i: nat)
    | CheckBuffer(i: nat, take: nat)
    | CheckTerminated(i: nat)

  function Init(n: nat): System {
    System(Idle, 0, false, seq(n, _ => Reader(Outside, 0, NoWait, NotYet)))
  }

  function Woken(r: Reader): Reader {
    if r.wait.Waiting? then r.(wait := Waiting(true)) else r
  }

  function WokenAll(readers: seq<Reader>): (w: seq<Reader>)
    ensures |w| == |readers| && forall i :: 0 <= i < |w| ==> w[i] == Woken(readers[i])
  {
    seq(|readers|, i requires 0 <= i < |readers| => Woken(readers[i]))
  }

  /** One atomic step of reader `r`; a step it is not ready for changes nothing. */
  function ReaderStep(r: Reader, a: Action, total: nat, terminated: bool): Reader {
    match a
    case StartPoll(_) =>
      if r.pc == Outside || r.pc == Parked then r.(pc := Looping, result := NotYet) else r
    case PollWait(_) =>
      if r.pc != Looping then r
      else if r.wait == Waiting(true) then r.(wait := NoWait)
      else r.(wait := Waiting(false), pc := Registered)
    case CheckBuffer(_, take) =>
      if r.pc != Registered then r
      else if r.offset < total then
        var n := if take == 0 then 1 else take;
        Reader(Outside, if r.offset + n <= total then r.offset + n else total, NoWait, GotData)
      else r.(pc := SawEmpty(total, terminated))
    case CheckTerminated(_) =>
      if !r.pc.SawEmpty? then r
      else if terminated then r.(pc := Outside, wait := NoWait, result := EndOfStream)
      else r.(pc := Parked)
    case _ => r
  }

  function Next(s: System, a: Action): (s': System)
    ensures |s'.readers| == |s.readers|
  {
    match a
    case Append(n) =>
      if s.writer == Idle && n > 0 then s.(total := s.total + n, writer := OwesNotify) else s
    case NotifyWaiters =>
      if s.writer == OwesNotify then s.(writer := Idle, readers := WokenAll(s.readers))
      else if s.writer == OwesFinalNotify then s.(writer := Ended, readers := WokenAll(s.readers))
      else s
    case SetTerminated =>
      if s.writer == Idle || s.writer == OwesNotify then s.(terminated := true, writer := OwesFinalNotify) else s
    case _ =>
      if a.i < |s.readers| then
        s.(readers := s.readers[a.i := ReaderStep(s.readers[a.i], a, s.total, s.terminated)])
      else s
  }

  function RunAll(s: System, actions: seq<Action>): (s': System)
    ensures |s'.readers| == |s.readers|
    decreases |actions|
  {
    if actions == [] then s else RunAll(Next(s, actions[0]), actions[1..])
  }

  predicate Owes(s: System) {
    s.writer == OwesNotify || s.writer == OwesFinalNotify
  }

  ghost predicate ReaderInv(s: System, r: Reader) {
    && r.offset <= s.total
    && (r.pc.Registered? || r.pc.SawEmpty? || r.pc.Parked? ==> r.wait.Waiting?)
    && (r.pc.Outside? ==> r.wait.NoWait?)
    && (r.pc.SawEmpty? ==>
          && r.offset == r.pc.seen <= s.total
          && (r.pc.ended ==> s.terminated && r.pc.seen == s.total)
          && (r.wait == Waiting(false) && r.offset < s.total ==> Owes(s)))
    && (r.pc.Parked? && r.wait == Waiting(false) && (r.offset < s.total || s.terminated) ==> Owes(s))
  }

  ghost predicate Inv(s: System) {
    && (s.terminated <==> s.writer == OwesFinalNotify || s.writer == Ended)
    && forall i :: 0 <= i < |s.readers| ==> ReaderInv(s, s.readers[i])
  }

  lemma StepKeepsInv(s: System, a: Action)
    requires Inv(s)
    ensures Inv(Next(s, a))
  {
    var s' := Next(s, a);
    forall i | 0 <= i < |s'.readers| ensures ReaderInv(s', s'.readers[i]) {
      assert ReaderInv(s, s.readers[i]);
    }
  }

  lemma {:induction false} EveryRunKeepsInv(s: System, actions: seq<Action>)
    requires Inv(s)
    ensures Inv(RunAll(s, actions))
    decreases |actions|
  {
    if actions != [] {
      StepKeepsInv(s, actions[0]);
      EveryRunKeepsInv(Next(s, actions[0]), actions[1..]);
    }
  }

  /** No lost wakeup: in every reachable state a sleeping reader with something to see has been
      notified, or the writer has still to notify. */
  lemma NoLostWakeup(n: nat, actions: seq<Action>, i: nat)
    requires i < n
    ensures var s := RunAll(Init(n), actions);
            var r := s.readers[i];
            r.pc.Parked? && (r.offset < s.total || s.terminated) ==> r.wait == Waiting(true) || Owes(s)
  {
    EveryRunKeepsInv(Init(n), actions);
    assert ReaderInv(RunAll(Init(n), actions), RunAll(Init(n), actions).readers[i]);
  }

  /** What the writer's steps do: an append makes the stream longer and owes a notification, ending
      the stream owes the last one, and a notification reaches every registered reader and is
      then no longer owed. */
  lemma WriterSteps(s: System, n: nat)
    ensures s.writer == Idle && n > 0 ==>
              Next(s, Append(n)) == s.(total := s.total + n, writer := OwesNotify)
    ensures s.writer == Idle || s.writer == OwesNotify ==>
              Next(s, SetTerminated) == s.(terminated := true, writer := OwesFinalNotify)
    ensures Owes(s) ==>
              var s' := Next(s, NotifyWaiters);
              && s'.writer == (if s.writer == OwesNotify then Idle else Ended)
              && s'.total == s.total && s'.terminated == s.terminated && |s'.readers| == |s.readers|
              && forall i :: 0 <= i < |s.readers| ==>
                   s'.readers[i]
                   == if s.readers[i].wait.NoWait? then s.readers[i] else s.readers[i].(wait := Waiting(true))
  {
  }

  /** The owed notification is enough: one step of the writer, and a sleeping reader with something
      to see is notified; the poll it is woken for is not left pending. */
  lemma OwedNotificationWakes(n: nat, actions: seq<Action>, i: nat)
    requires i < n
    ensures var s := RunAll(Init(n), actions);
            var r, s' := s.readers[i], Next(s, NotifyWaiters);
            r.pc.Parked? && (r.offset < s.total || s.terminated) ==>
              && s'.readers[i] == r.(wait := Waiting(true)) && !Owes(s')
              && RunAll(s', OnePoll(i)).readers[i].result == if r.offset < s.total then GotData else EndOfStream
  {
    var s := RunAll(Init(n), actions);
    NoLostWakeup(n, actions, i);
    EveryRunKeepsInv(Init(n), actions);
    StepKeepsInv(s, NotifyWaiters);
    WriterSteps(s, 0);
    hide RunAll;
    assert ReaderInv(s, s.readers[i]);
    var s' := Next(s, NotifyWaiters);
    if s.readers[i].pc.Parked? && (s.readers[i].offset < s.total || s.terminated) {
      assert s'.readers[i].pc == Parked && s'.total == s.total && s'.terminated == s.terminated;
      UndisturbedPollIsReady(s', i);
    }
  }

  /** Once the writer is through, nobody is asleep unnotified. */
  lemma NobodySleepsAfterTheEnd(n: nat, actions: seq<Action>, i: nat)
    requires i < n && RunAll(Init(n), actions).writer == Ended
    ensures var r := RunAll(Init(n), actions).readers[i];
            r.pc.Parked? ==> r.wait == Waiting(true)
  {
    EveryRunKeepsInv(Init(n), actions);
    NoLostWakeup(n, actions, i);
  }

  lemma RunStep(s: System, a: Action, rest: seq<Action>)
    ensures RunAll(s, [a] + rest) == RunAll(Next(s, a), rest)
  {
    assert ([a] + rest)[1..] == rest;
  }

  lemma RunFive(s: System, a: Action, b: Action, c: Action, d: Action, e: Action)
    ensures RunAll(s, [a, b, c, d, e]) == Next(Next(Next(Next(Next(s, a), b), c), d), e)
  {
    hide Next, RunAll;
    RunStep(s, a, [b, c, d, e]);
    RunStep(Next(s, a), b, [c, d, e]);
    RunStep(Next(Next(s, a), b), c, [d, e]);
    RunStep(Next(Next(Next(s, a), b), c), d, [e]);
    RunOne(Next(Next(Next(Next(s, a), b), c), d), e);
    assert [a] + [b, c, d, e] == [a, b, c, d, e] && [b] + [c, d, e] == [b, c, d, e];
    assert [c] + [d, e] == [c, d, e] && [d] + [e] == [d, e];
  }

  lemma InitInv(n: nat)
    ensures Inv(Init(n))
  {
  }

  lemma RunNone(s: System)
    ensures RunAll(s, []) == s
  {
  }

  lemma RunOne(s: System, a: Action)
    ensures RunAll(s, [a]) == Next(s, a)
  {
  }

  /** The steps of one undisturbed poll by reader `i`. */
  function OnePoll(i: nat): seq<Action> {
    [StartPoll(i), PollWait(i), PollWait(i), CheckBuffer(i, 1), CheckTerminated(i)]
  }

  lemma ReaderActs(s: System, a: Action, i: nat) returns (s': System)
    requires i < |s.readers| && (a.StartPoll? || a.PollWait? || a.CheckBuffer? || a.CheckTerminated?) && a.i == i
    ensures s' == Next(s, a) && s'.readers[i] == ReaderStep(s.readers[i], a, s.total, s.terminated)
    ensures s'.total == s.total && s'.terminated == s.terminated && |s'.readers| == |s.readers|
  {
    s' := Next(s, a);
  }

  /** An undisturbed poll of a stream that has unread bytes or has ended is never left pending,
      whatever registration an earlier poll left behind; and it hands out data first. */
  lemma UndisturbedPollIsReady(s: System, i: nat)
    requires Inv(s) && i < |s.readers| && (s.readers[i].pc == Outside || s.readers[i].pc == Parked)
    requires s.readers[i].offset < s.total || s.terminated
    ensures RunAll(s, OnePoll(i)).readers[i].result
         == if s.readers[i].offset < s.total then GotData else EndOfStream
  {
    hide Next, RunAll;
    RunFive(s, StartPoll(i), PollWait(i), PollWait(i), CheckBuffer(i, 1), CheckTerminated(i));
    var s1 := ReaderActs(s, StartPoll(i), i);
    var s2 := ReaderActs(s1, PollWait(i), i);
    var s3 := ReaderActs(s2, PollWait(i), i);
    assert s3.readers[i].pc == Registered;
    var s4 := ReaderActs(s3, CheckBuffer(i, 1), i);
    var s5 := ReaderActs(s4, CheckTerminated(i), i);
  }

  /** Some action of `actions` appends bytes. */
  ghost predicate AppendsIn(s: System, actions: seq<Action>)
    decreases |actions|
  {
    actions != [] && (Appends(s, actions[0]) || AppendsIn(Next(s, actions[0]), actions[1..]))
  }

  ghost predicate Appends(s: System, a: Action) {
    a.Append? && a.n > 0 && s.writer == Idle
  }

  ghost predicate Spares(actions: seq<Action>, i: nat) {
    forall k :: 0 <= k < |actions| ==> !OfReader(actions[k], i)
  }

  ghost predicate OfReader(a: Action, i: nat) {
    (a.StartPoll? || a.PollWait? || a.CheckBuffer? || a.CheckTerminated?) && a.i == i
  }

  /** While others act a reader stays where it is; the stream grows exactly by what is appended. */
  lemma {:induction false} Meanwhile(s: System, actions: seq<Action>, i: nat)
    requires i < |s.readers| && Spares(actions, i)
    ensures var s' := RunAll(s, actions);
            && s'.readers[i].pc == s.readers[i].pc && s'.readers[i].offset == s.readers[i].offset
            && s.total <= s'.total && (s'.total == s.total <==> !AppendsIn(s, actions))
            && (s.terminated ==> s'.terminated)
    decreases |actions|
  {
    if actions != [] {
      assert !OfReader(actions[0], i);
      MeanwhileStep(s, actions[0], i);
      hide Next;
      Meanwhile(Next(s, actions[0]), actions[1..], i);
    }
  }

  lemma MeanwhileStep(s: System, a: Action, i: nat)
    requires i < |s.readers| && !OfReader(a, i)
    ensures var s' := Next(s, a);
            && s'.readers[i].pc == s.readers[i].pc && s'.readers[i].offset == s.readers[i].offset
            && s.total <= s'.total && (s'.total == s.total <==> !Appends(s, a))
            && (s.terminated ==> s'.terminated)
  {
  }

  /** A poll that finds the buffer empty after `before` and the end flag up after `between`, in
      which others act, reports the end of the stream. Everything was read exactly when nothing
      was appended in `between`, as when the flag was already up at the first look. The offset
      does not move, so what was missed stays readable. */
  lemma EndOfStreamIsComplete(n: nat, before: seq<Action>, i: nat, take: nat, between: seq<Action>)
    requires i < n && Spares(between, i)
    requires var s0 := RunAll(Init(n), before); s0.readers[i].pc == Registered && s0.readers[i].offset == s0.total
    requires RunAll(Next(RunAll(Init(n), before), CheckBuffer(i, take)), between).terminated
    ensures var s0 := RunAll(Init(n), before);
            var s1 := Next(s0, CheckBuffer(i, take));
            var s3 := Next(RunAll(s1, between), CheckTerminated(i));
            && s3.readers[i].result == EndOfStream && s3.readers[i].offset == s0.readers[i].offset
            && (s3.readers[i].offset == s3.total <==> !AppendsIn(s1, between))
            && (s0.terminated ==> s3.readers[i].offset == s3.total)
  {
    hide RunAll, Next, Spares, OfReader, AppendsIn;
    var s0 := RunAll(Init(n), before);
    var s1 := ReaderActs(s0, CheckBuffer(i, take), i);
    Meanwhile(s1, between, i);
    var s2 := RunAll(s1, between);
    var s3 := ReaderActs(s2, CheckTerminated(i), i);
    EveryRunKeepsInv(Init(n), before);
    StepKeepsInv(s0, CheckBuffer(i, take));
    EveryRunKeepsInv(s1, between);
    assert ReaderInv(s2, s2.readers[i]);
  }

  lemma {:induction false} RunConcat(s: System, a: seq<Action>, b: seq<Action>)
    ensures RunAll(s, a + b) == RunAll(RunAll(s, a), b)
    decreases |a|
  {
    hide Next;
    if a == [] {
      assert a + b == b;
    } else {
      assert (a + b)[0] == a[0] && (a + b)[1..] == a[1..] + b;
      RunConcat(Next(s, a[0]), a[1..], b);
    }
  }

  /** The writer appends and ends the stream between a reader's two looks. */
  function EarlyRun(): seq<Action> {
    [StartPoll(0), PollWait(0), CheckBuffer(0, 1), Append(1), NotifyWaiters] + [SetTerminated, CheckTerminated(0)]
  }

  /** A run in which the end is reported although one byte is unread, and a second poll
      then delivers it. */
  lemma EarlyEndOfStream()
    ensures var s := RunAll(Init(1), EarlyRun());
            && s.readers[0].result == EndOfStream && s.readers[0].offset < s.total
            && RunAll(s, OnePoll(0)).readers[0].result == GotData
  {
    hide RunAll, Next;
    var opening := [StartPoll(0), PollWait(0), CheckBuffer(0, 1), Append(1), NotifyWaiters];
    var ending := [SetTerminated, CheckTerminated(0)];
    RunFive(Init(1), StartPoll(0), PollWait(0), CheckBuffer(0, 1), Append(1), NotifyWaiters);
    var early := RunAll(Init(1), opening);
    RunConcat(Init(1), opening, ending);
    RunStep(early, SetTerminated, [CheckTerminated(0)]);
    assert ending == [SetTerminated] + [CheckTerminated(0)];
    RunOne(Next(early, SetTerminated), CheckTerminated(0));
    EarlyState(early);
    var s := RunAll(Init(1), EarlyRun());
    EveryRunKeepsInv(Init(1), EarlyRun());
    UndisturbedPollIsReady(s, 0);
  }

  lemma EarlyState(early: System)
    requires var empty := Next(Next(Next(Init(1), StartPoll(0)), PollWait(0)), CheckBuffer(0, 1));
             early == Next(Next(empty, Append(1)), NotifyWaiters)
    ensures var s := Next(Next(early, SetTerminated), CheckTerminated(0));
            s.readers == [Reader(Outside, 0, NoWait, EndOfStream)] && s.total == 1
  {
    var s3 := System(Idle, 0, false, [Reader(SawEmpty(0, false), 0, Waiting(false), NotYet)]);
    assert Next(Next(Next(Init(1), StartPoll(0)), PollWait(0)), CheckBuffer(0, 1)) == s3;
    assert early == System(Idle, 1, false, [Reader(SawEmpty(0, false), 0, Waiting(true), NotYet)]);
  }
}
