/** The wake protocol and the shared buffer as one system: the readers of `LogReaders`, which copy
    bytes out of the ring, driven by the steps of `WakeProtocol`. Whether a reader finds anything
    is decided here by the bytes it copies; the protocol on byte counts is a projection. */
module WakeBytes {
  import opened Bytes
  import opened LogBuffer
  import R = LogReaders
  import W = WakeProtocol

  /** A reader's control state; its bytes are in the store. */
  datatype Control = Control(pc: W.ReaderPc, wait: W.Wait, result: W.PollResult)

  datatype System = System(store: R.System, writer: W.WriterPc, terminated: bool, controls: seq<Control>)

  datatype Action =
    | Append(pieces: seq<seq<Byte>>)   // the payload slices of one chunk, under one lock
    | NotifyWaiters
    | SetTerminated
    | StartPoll(i: nat)
    | PollWait(i: nat)
    | ReadBuffer(i: nat)
    | CheckTerminated(i: nat)
    | Consume(i: nat, amount: nat)

  function Init(limit: nat, n: nat): System {
    System(R.Init(limit, n), W.Idle, false, seq(n, _ => Control(W.Outside, W.NoWait, W.NotYet)))
  }

  function AppendEvents(pieces: seq<seq<Byte>>): seq<R.Event> {
    if pieces == [] then [] else [R.Append(pieces[0])] + AppendEvents(pieces[1..])
  }

  predicate SomeBytes(pieces: seq<seq<Byte>>) {
    exists k :: 0 <= k < |pieces| && pieces[k] != []
  }

  ghost predicate Shaped(s: System) {
    s.store.ring.Valid() && |s.controls| == |s.store.readers|
  }

  function ViewReader(s: System, i: nat): W.Reader
    requires i < |s.controls| == |s.store.readers|
  {
    W.Reader(s.controls[i].pc, s.store.readers[i].offset, s.controls[i].wait, s.controls[i].result)
  }

  /** The protocol state: bytes forgotten, counts kept. */
  function View(s: System): (v: W.System)
    requires Shaped(s)
    ensures |v.readers| == |s.controls|
  {
    W.System(s.writer, |s.store.retained|, s.terminated,
             seq(|s.controls|, i requires 0 <= i < |s.controls| => ViewReader(s, i)))
  }

  function ControlOf(r: W.Reader): Control {
    Control(r.pc, r.wait, r.result)
  }

  /** A step of reader `i` that touches no bytes. */
  function Controlled(s: System, i: nat, a: W.Action): System
    requires Shaped(s)
  {
    if i < |s.controls| then
      s.(controls := s.controls[i := ControlOf(W.ReaderStep(ViewReader(s, i), a, |s.store.retained|, s.terminated))])
    else s
  }

  /** Copying out of the ring: with bytes the poll is over, without it goes on to the end flag. */
  function Copied(s: System, i: nat): System
    requires Shaped(s) && i < |s.controls|
  {
    var store := R.Next(s.store, R.Fill(i, READ_CHUNK));
    s.(store := store,
       controls := s.controls[i := if store.readers[i].pending != [] then Control(W.Outside, W.NoWait, W.GotData)
                                   else s.controls[i].(pc := W.SawEmpty(|s.store.retained|, s.terminated))])
  }

  function Woken(s: System): System {
    s.(controls := seq(|s.controls|, i requires 0 <= i < |s.controls| =>
                       if s.controls[i].wait.Waiting? then s.controls[i].(wait := W.Waiting(true)) else s.controls[i]))
  }

  /** A poll with bytes left over from the last copy answers at once and takes no part. */
  function Next(s: System, a: Action): (s': System)
    requires Shaped(s)
    ensures Shaped(s') && |s'.controls| == |s.controls|
  {
    match a
    case Append(pieces) =>
      if s.writer == W.Idle && SomeBytes(pieces) then
        s.(store := R.RunAll(s.store, AppendEvents(pieces)), writer := W.OwesNotify)
      else s
    case NotifyWaiters =>
      if s.writer == W.OwesNotify then Woken(s).(writer := W.Idle)
      else if s.writer == W.OwesFinalNotify then Woken(s).(writer := W.Ended)
      else s
    case SetTerminated =>
      if s.writer == W.Idle || s.writer == W.OwesNotify then s.(terminated := true, writer := W.OwesFinalNotify) else s
    case StartPoll(i) =>
      if i < |s.controls| && s.store.readers[i].pending != [] then s else Controlled(s, i, W.StartPoll(i))
    case PollWait(i) => Controlled(s, i, W.PollWait(i))
    case ReadBuffer(i) => if i < |s.controls| && s.controls[i].pc == W.Registered then Copied(s, i) else s
    case CheckTerminated(i) => Controlled(s, i, W.CheckTerminated(i))
    case Consume(i, amount) => s.(store := R.Next(s.store, R.Consume(i, amount)))
  }

  function RunAll(s: System, actions: seq<Action>): (s': System)
    requires Shaped(s)
    ensures Shaped(s') && |s'.controls| == |s.controls|
    decreases |actions|
  {
    if actions == [] then s else RunAll(Next(s, actions[0]), actions[1..])
  }

  /** What a step is for the protocol: one step of it or none. */
  function ViewAction(s: System, a: Action): seq<W.Action>
    requires Shaped(s)
  {
    match a
    case Append(pieces) =>
      var s' := Next(s, a);
      if |s'.store.retained| > |s.store.retained| then [W.Append(|s'.store.retained| - |s.store.retained|)] else []
    case NotifyWaiters => [W.NotifyWaiters]
    case SetTerminated => [W.SetTerminated]
    case StartPoll(i) => if i < |s.controls| && s.store.readers[i].pending != [] then [] else [W.StartPoll(i)]
    case PollWait(i) => [W.PollWait(i)]
    case ReadBuffer(i) =>
      if i < |s.controls| && s.controls[i].pc == W.Registered then
        var from, to := s.store.readers[i].offset, Next(s, a).store.readers[i].offset;
        [W.CheckBuffer(i, if from <= to then to - from else 0)]
      else []
    case CheckTerminated(i) => [W.CheckTerminated(i)]
    case Consume(_, _) => []
  }

  function ViewActions(s: System, actions: seq<Action>): seq<W.Action>
    requires Shaped(s)
    decreases |actions|
  {
    if actions == [] then [] else ViewAction(s, actions[0]) + ViewActions(Next(s, actions[0]), actions[1..])
  }

  /** A reader inside a poll has nothing left over. */
  ghost predicate Inv(s: System) {
    && Shaped(s) && s.store.ring.limit > 0 && R.Inv(s.store)
    && forall i :: 0 <= i < |s.controls| && s.controls[i].pc != W.Outside ==> s.store.readers[i].pending == []
  }

  lemma {:induction false} AppendsStore(store: R.System, pieces: seq<seq<Byte>>)
    requires store.ring.limit > 0 && R.Inv(store)
    ensures var store' := R.RunAll(store, AppendEvents(pieces));
            && R.Inv(store') && store'.readers == store.readers
            && |store.retained| <= |store'.retained|
            && (SomeBytes(pieces) <==> |store.retained| < |store'.retained|)
    decreases |pieces|
  {
    if pieces != [] {
      var rest := pieces[1..];
      AppendStores(store, pieces[0]);
      assert AppendEvents(pieces)[0] == R.Append(pieces[0]) && AppendEvents(pieces)[1..] == AppendEvents(rest);
      AppendsStore(R.Next(store, R.Append(pieces[0])), rest);
      SomeBytesHead(pieces);
    }
  }

  lemma SomeBytesHead(pieces: seq<seq<Byte>>)
    requires pieces != []
    ensures SomeBytes(pieces) <==> pieces[0] != [] || SomeBytes(pieces[1..])
  {
    if k :| 0 <= k < |pieces| && pieces[k] != [] {
      assert k > 0 ==> pieces[1..][k - 1] != [];
    }
    if k :| 0 <= k < |pieces[1..]| && pieces[1..][k] != [] {
      assert pieces[k + 1] != [];
    }
  }

  lemma AppendStores(store: R.System, data: seq<Byte>)
    requires store.ring.limit > 0 && R.Inv(store)
    ensures var store' := R.Next(store, R.Append(data));
            && R.Inv(store') && store'.readers == store.readers && store'.ring.limit == store.ring.limit
            && |store.retained| <= |store'.retained|
            && (data != [] <==> |store.retained| < |store'.retained|)
  {
    R.StepKeepsInv(store, R.Append(data));
  }

  lemma RingHasBytes(ring: Ring, stored: seq<Byte>, offset: nat)
    requires R.RingIsSuffix(ring, stored) && ring.limit > 0 && offset <= |stored|
    ensures var o := ReadSpec(ring, offset, READ_CHUNK);
            && offset <= o.next <= |stored|
            && (o.bytes != [] <==> offset < |stored|)
            && (o.bytes != [] <==> offset < o.next)
  {
    R.RingFromHead(ring, stored);
  }

  /** A reader that copies gets bytes exactly when it is behind the end of the stream. */
  lemma CopyFindsBytes(store: R.System, i: nat)
    requires store.ring.limit > 0 && R.Inv(store) && i < |store.readers| && store.readers[i].pending == []
    ensures var store' := R.Next(store, R.Fill(i, READ_CHUNK));
            var r, r' := store.readers[i], store'.readers[i];
            && R.Inv(store') && store'.retained == store.retained && store'.ring == store.ring
            && store'.readers == store.readers[i := r']
            && (r'.pending != [] <==> r.offset < |store.retained|)
            && r.offset <= r'.offset <= |store.retained|
            && (r'.pending != [] <==> r.offset < r'.offset)
  {
    R.StepKeepsInv(store, R.Fill(i, READ_CHUNK));
    OffsetInStream(store, i);
    RingHasBytes(store.ring, store.retained, store.readers[i].offset);
    hide R.Inv, R.RingInv, R.RingIsSuffix, ReadSpec;
  }

  lemma OffsetInStream(store: R.System, i: nat)
    requires R.Inv(store) && i < |store.readers|
    ensures store.readers[i].offset <= |store.retained| && R.RingIsSuffix(store.ring, store.retained)
  {
    assert R.ReaderInv(store.readers[i], store.retained);
    R.ExplainsBounded(store.readers[i].log, store.readers[i].offset, store.retained);
  }

  predicate Bytesless(a: W.Action) {
    a.StartPoll? || a.PollWait? || a.CheckTerminated?
  }

  lemma ControlledKeepsInv(s: System, i: nat, a: W.Action)
    requires Inv(s) && Bytesless(a) && a.i == i
    requires i < |s.controls| && a.StartPoll? ==> s.store.readers[i].pending == []
    ensures Inv(Controlled(s, i, a))
  {
    hide R.Inv;
  }

  lemma CopiedKeepsInv(s: System, i: nat)
    requires Inv(s) && i < |s.controls| && s.controls[i].pc == W.Registered
    ensures Inv(Copied(s, i))
  {
    CopyFindsBytes(s.store, i);
    hide R.Inv, R.Next;
  }

  lemma ConsumeKeepsInv(s: System, i: nat, amount: nat)
    requires Inv(s)
    ensures Inv(Next(s, Consume(i, amount)))
  {
    R.StepKeepsInv(s.store, R.Consume(i, amount));
    hide R.Inv;
  }

  lemma AppendKeepsInv(s: System, pieces: seq<seq<Byte>>)
    requires Inv(s)
    ensures Inv(Next(s, Append(pieces)))
  {
    AppendsStore(s.store, pieces);
    hide R.Inv, R.RunAll;
  }

  lemma StepKeepsInv(s: System, a: Action)
    requires Inv(s)
    ensures Inv(Next(s, a))
  {
    hide R.Inv, R.Next, R.RunAll, Controlled, Copied;
    match a
    case Append(pieces) => AppendKeepsInv(s, pieces);
    case NotifyWaiters =>
    case SetTerminated =>
    case StartPoll(i) =>
      if i >= |s.controls| || s.store.readers[i].pending == [] {
        ControlledKeepsInv(s, i, W.StartPoll(i));
      }
    case PollWait(i) => ControlledKeepsInv(s, i, W.PollWait(i));
    case ReadBuffer(i) =>
      if i < |s.controls| && s.controls[i].pc == W.Registered {
        CopiedKeepsInv(s, i);
      }
    case CheckTerminated(i) => ControlledKeepsInv(s, i, W.CheckTerminated(i));
    case Consume(i, amount) => ConsumeKeepsInv(s, i, amount);
  }

  lemma ControlledProjects(s: System, i: nat, a: W.Action)
    requires Shaped(s) && Bytesless(a) && a.i == i
    ensures View(Controlled(s, i, a)) == W.Next(View(s), a)
  {
    var s' := Controlled(s, i, a);
    if i < |s.controls| {
      var r := ViewReader(s, i);
      assert View(s).readers[i] == r;
      OffsetStays(r, a, |s.store.retained|, s.terminated);
      hide W.ReaderStep;
      assert View(s').readers == View(s).readers[i := W.ReaderStep(r, a, |s.store.retained|, s.terminated)];
    }
  }

  lemma OffsetStays(r: W.Reader, a: W.Action, total: nat, terminated: bool)
    requires Bytesless(a)
    ensures W.ReaderStep(r, a, total, terminated).offset == r.offset
  {
  }

  lemma WokenProjects(s: System)
    requires Shaped(s)
    ensures View(Woken(s)) == View(s).(readers := W.WokenAll(View(s).readers))
  {
  }

  lemma CheckBufferStep(r: W.Reader, i: nat, take: nat, total: nat, terminated: bool)
    requires r.pc == W.Registered && r.offset + take <= total && (take > 0 <==> r.offset < total)
    ensures W.ReaderStep(r, W.CheckBuffer(i, take), total, terminated)
         == if take > 0 then W.Reader(W.Outside, r.offset + take, W.NoWait, W.GotData)
            else r.(pc := W.SawEmpty(total, terminated))
  {
  }

  lemma CopiedProjects(s: System, i: nat)
    requires Inv(s) && i < |s.controls| && s.controls[i].pc == W.Registered
    ensures var take := Copied(s, i).store.readers[i].offset - s.store.readers[i].offset;
            take >= 0 && View(Copied(s, i)) == W.Next(View(s), W.CheckBuffer(i, take))
  {
    hide R.Next, R.Inv, W.ReaderStep;
    CopyFindsBytes(s.store, i);
    var s', r := Copied(s, i), ViewReader(s, i);
    var take := s'.store.readers[i].offset - s.store.readers[i].offset;
    CheckBufferStep(r, i, take, |s.store.retained|, s.terminated);
    assert View(s).readers[i] == r;
    assert View(s').readers == View(s).readers[i := ViewReader(s', i)];
  }

  lemma AppendProjects(s: System, pieces: seq<seq<Byte>>)
    requires Inv(s) && s.writer == W.Idle && SomeBytes(pieces)
    ensures var s' := Next(s, Append(pieces));
            var n := |s'.store.retained| - |s.store.retained|;
            n > 0 && View(s') == W.Next(View(s), W.Append(n))
  {
    hide R.Inv, R.RunAll;
    AppendsStore(s.store, pieces);
  }

  /** Every step on bytes is the protocol's step on counts, or none. */
  lemma StepProjects(s: System, a: Action)
    requires Inv(s)
    ensures View(Next(s, a)) == W.RunAll(View(s), ViewAction(s, a))
  {
    hide R.Inv, R.Next, R.RunAll, W.RunAll, View, Woken, Controlled, Copied;
    W.RunNone(View(s));
    if ViewAction(s, a) != [] {
      W.RunOne(View(s), ViewAction(s, a)[0]);
    }
    match a
    case Append(pieces) =>
      if s.writer == W.Idle && SomeBytes(pieces) {
        AppendProjects(s, pieces);
      }
    case NotifyWaiters => NotifyProjects(s);
    case SetTerminated => SetTerminatedProjects(s);
    case StartPoll(i) => ControlledProjects(s, i, W.StartPoll(i));
    case PollWait(i) => ControlledProjects(s, i, W.PollWait(i));
    case ReadBuffer(i) =>
      if i < |s.controls| && s.controls[i].pc == W.Registered {
        CopiedProjects(s, i);
      }
    case CheckTerminated(i) => ControlledProjects(s, i, W.CheckTerminated(i));
    case Consume(i, amount) => ConsumeProjects(s, i, amount);
  }

  lemma NotifyProjects(s: System)
    requires Shaped(s)
    ensures View(Next(s, NotifyWaiters)) == W.Next(View(s), W.NotifyWaiters)
  {
    WokenProjects(s);
  }

  lemma SetTerminatedProjects(s: System)
    requires Shaped(s)
    ensures View(Next(s, SetTerminated)) == W.Next(View(s), W.SetTerminated)
  {
  }

  lemma ConsumeProjects(s: System, i: nat, amount: nat)
    requires Shaped(s)
    ensures View(Next(s, Consume(i, amount))) == View(s)
  {
  }

  /** Every run on bytes is a run of the protocol on counts. */
  lemma {:induction false} RunProjects(s: System, actions: seq<Action>)
    requires Inv(s)
    ensures Inv(RunAll(s, actions))
    ensures View(RunAll(s, actions)) == W.RunAll(View(s), ViewActions(s, actions))
    decreases |actions|
  {
    hide Next, View, ViewAction, R.Inv, W.RunAll;
    if actions == [] {
      W.RunNone(View(s));
    } else {
      var s' := Next(s, actions[0]);
      StepKeepsInv(s, actions[0]);
      StepProjects(s, actions[0]);
      RunProjects(s', actions[1..]);
      W.RunConcat(View(s), ViewAction(s, actions[0]), ViewActions(s', actions[1..]));
    }
  }

  lemma FromStart(limit: nat, n: nat, actions: seq<Action>)
    requires limit > 0
    ensures Inv(Init(limit, n)) && Inv(RunAll(Init(limit, n), actions))
    ensures View(RunAll(Init(limit, n), actions)) == W.RunAll(W.Init(n), ViewActions(Init(limit, n), actions))
  {
    R.InitInv(limit, n);
    assert View(Init(limit, n)) == W.Init(n);
    RunProjects(Init(limit, n), actions);
  }

  /** No lost wakeup, in bytes: a sleeping reader has handed on everything it copied, and if the
      stream holds a byte it has not got, or has ended, it has been notified or will be. */
  lemma NoLostWakeupForBytes(limit: nat, n: nat, actions: seq<Action>, i: nat)
    requires limit > 0 && i < n
    ensures var s := RunAll(Init(limit, n), actions);
            var c, r := s.controls[i], s.store.readers[i];
            c.pc.Parked? ==>
              && r.taken == R.Delivered(r.log) && R.Explains(r.log, r.offset, s.store.retained)
              && (r.offset < |s.store.retained| || s.terminated ==>
                    c.wait == W.Waiting(true) || s.writer == W.OwesNotify || s.writer == W.OwesFinalNotify)
  {
    FromStart(limit, n, actions);
    var s := RunAll(Init(limit, n), actions);
    W.NoLostWakeup(n, ViewActions(Init(limit, n), actions), i);
    hide W.RunAll, RunAll;
    assert View(s).readers[i] == ViewReader(s, i);
    assert R.ReaderInv(s.store.readers[i], s.store.retained);
    assert s.store.readers[i].taken + [] == s.store.readers[i].taken;
  }

  /** The same in bytes for the notification itself: it reaches every registered reader, and after
      it a sleeping reader with something to see is notified. */
  lemma NotificationReachesForBytes(limit: nat, n: nat, actions: seq<Action>, i: nat)
    requires limit > 0 && i < n
    ensures var s := RunAll(Init(limit, n), actions);
            var c, s' := s.controls[i], Next(s, NotifyWaiters);
            && s'.store == s.store && s'.writer != W.OwesNotify && s'.writer != W.OwesFinalNotify
            && (c.pc.Parked? && (s.store.readers[i].offset < |s.store.retained| || s.terminated) ==>
                  s'.controls[i] == c.(wait := W.Waiting(true)))
  {
    NoLostWakeupForBytes(limit, n, actions, i);
    FromStart(limit, n, actions);
    var s := RunAll(Init(limit, n), actions);
    W.EveryRunKeepsInv(W.Init(n), ViewActions(Init(limit, n), actions));
    hide W.RunAll, RunAll;
    assert W.ReaderInv(View(s), View(s).readers[i]);
  }

  /** An end of stream reported after the end flag was up at the first look comes with everything:
      the transcript reaches the end of the stream, and without skips every byte was handed on. */
  lemma KnowingEndDeliversEverything(limit: nat, n: nat, actions: seq<Action>, i: nat)
    requires limit > 0 && i < n
    requires var pc := RunAll(Init(limit, n), actions).controls[i].pc; pc.SawEmpty? && pc.ended
    ensures var s := Next(RunAll(Init(limit, n), actions), CheckTerminated(i));
            var r, stream := s.store.readers[i], s.store.retained;
            && s.controls[i].result == W.EndOfStream && R.Explains(r.log, |stream|, stream)
            && r.taken == R.Delivered(r.log) && (R.NoSkips(r.log) ==> r.taken == stream)
  {
    FromStart(limit, n, actions);
    var s := RunAll(Init(limit, n), actions);
    W.InitInv(n);
    W.EveryRunKeepsInv(W.Init(n), ViewActions(Init(limit, n), actions));
    hide W.RunAll, RunAll, W.Inv, R.Inv, View;
    EndFound(s, i);
    HandedOn(s, i);
  }

  lemma EndFound(s: System, i: nat)
    requires Inv(s) && W.Inv(View(s)) && i < |s.controls| && s.controls[i].pc.SawEmpty? && s.controls[i].pc.ended
    ensures s.store.readers[i].offset == |s.store.retained|
    ensures var s' := Next(s, CheckTerminated(i)); s'.store == s.store && s'.controls[i].result == W.EndOfStream
  {
    hide R.Inv;
    assert W.ReaderInv(View(s), View(s).readers[i]);
  }

  /** A reader with nothing left over has handed on all that its transcript says. */
  lemma HandedOn(s: System, i: nat)
    requires Inv(s) && i < |s.controls| && s.controls[i].pc != W.Outside
    ensures var r, stream := s.store.readers[i], s.store.retained;
            && R.Explains(r.log, r.offset, stream) && r.taken == R.Delivered(r.log)
            && (R.NoSkips(r.log) ==> r.offset <= |stream| && r.taken == stream[..r.offset])
  {
    var r, stream := s.store.readers[i], s.store.retained;
    assert R.ReaderInv(r, stream);
    hide R.Inv, R.Explains, R.Delivered, R.NoSkips;
    assert r.taken + [] == r.taken;
    if R.NoSkips(r.log) {
      R.WithoutSkipsAllIsDelivered(r.log, r.offset, stream);
    }
  }

  /* ---- One poll as a method and as steps ---- */

  /** The steps of one undisturbed poll by reader `i`; a notified registration takes two looks. */
  function OnePoll(i: nat): seq<Action> {
    [StartPoll(i), PollWait(i), PollWait(i), ReadBuffer(i), CheckTerminated(i)]
  }

  lemma RunFive(s: System, a: Action, b: Action, c: Action, d: Action, e: Action)
    requires Shaped(s)
    ensures RunAll(s, [a, b, c, d, e]) == Next(Next(Next(Next(Next(s, a), b), c), d), e)
  {
    hide Next, RunAll, Shaped;
    RunCons(s, a, [b, c, d, e]);
    RunCons(Next(s, a), b, [c, d, e]);
    RunThree(Next(Next(s, a), b), c, d, e);
    Displays(a, b, c, d, e);
  }

  lemma Displays<T>(a: T, b: T, c: T, d: T, e: T)
    ensures [a] + [b, c, d, e] == [a, b, c, d, e] && [b] + [c, d, e] == [b, c, d, e]
    ensures [c] + [d, e] == [c, d, e] && [d] + [e] == [d, e]
  {
  }

  lemma RunThree(s: System, c: Action, d: Action, e: Action)
    requires Shaped(s)
    ensures RunAll(s, [c, d, e]) == Next(Next(Next(s, c), d), e)
  {
    hide Next, RunAll, Shaped;
    RunCons(s, c, [d, e]);
    RunCons(Next(s, c), d, [e]);
    RunOne(Next(Next(s, c), d), e);
    Displays(c, c, c, d, e);
  }

  lemma RunOne(s: System, a: Action)
    requires Shaped(s)
    ensures RunAll(s, [a]) == Next(s, a)
  {
  }

  lemma RunCons(s: System, a: Action, rest: seq<Action>)
    requires Shaped(s)
    ensures RunAll(s, [a] + rest) == RunAll(Next(s, a), rest)
  {
    assert ([a] + rest)[1..] == rest;
  }

  function ResultOf(out: R.PollOutcome): W.PollResult {
    match out
    case Ready(_) => W.GotData
    case EndOfStream => W.EndOfStream
    case Pending => W.NotYet
  }

  /** A poll in which nobody else acts does to the reader what `LogReader.PollFill` does: the same
      bytes and transcript, the same registration and, unless left-over bytes are served without a
      step, the same result. */
  lemma UndisturbedPollIsPollFill(s: System, i: nat)
    requires Inv(s) && i < |s.controls| && (s.controls[i].pc == W.Outside || s.controls[i].pc == W.Parked)
    ensures var s' := RunAll(s, OnePoll(i));
            var r, r' := s.store.readers[i], s'.store.readers[i];
            var out := R.Polled(r', s.terminated);
            && r' == R.Filled(s.store.ring, r, READ_CHUNK) && s'.store.ring == s.store.ring
            && s'.controls[i].wait == R.WaitAfter(r, s.controls[i].wait, out)
            && (r.pending == [] ==> s'.controls[i].result == ResultOf(out))
            && (r.pending != [] ==> s' == s && s.controls[i].pc == W.Outside)
  {
    RunFive(s, StartPoll(i), PollWait(i), PollWait(i), ReadBuffer(i), CheckTerminated(i));
    hide RunAll;
    if s.store.readers[i].pending == [] {
      var s3 := Registering(s, i);
      FillEnds(s3, i);
    } else {
      ServedLeftOver(s, i);
    }
  }

  lemma ServedLeftOver(s: System, i: nat)
    requires Shaped(s) && i < |s.controls| && s.controls[i].pc == W.Outside && s.store.readers[i].pending != []
    ensures var s3 := Next(Next(Next(s, StartPoll(i)), PollWait(i)), PollWait(i));
            Next(Next(s3, ReadBuffer(i)), CheckTerminated(i)) == s
  {
    Idles(s, i, W.PollWait(i));
    Idles(s, i, W.CheckTerminated(i));
  }

  lemma Idles(s: System, i: nat, a: W.Action)
    requires Shaped(s) && i < |s.controls| && s.controls[i].pc == W.Outside
    requires a == W.PollWait(i) || a == W.CheckTerminated(i)
    ensures Controlled(s, i, a) == s
  {
  }

  lemma Registering(s: System, i: nat) returns (s3: System)
    requires Shaped(s) && i < |s.controls| && (s.controls[i].pc == W.Outside || s.controls[i].pc == W.Parked)
    requires s.store.readers[i].pending == []
    ensures s3 == Next(Next(Next(s, StartPoll(i)), PollWait(i)), PollWait(i))
    ensures s3 == s.(controls := s.controls[i := Control(W.Registered, W.Waiting(false), W.NotYet)])
  {
    var s1 := Next(s, StartPoll(i));
    assert s1 == s.(controls := s.controls[i := Control(W.Looping, s.controls[i].wait, W.NotYet)]);
    var s2 := Next(s1, PollWait(i));
    s3 := Next(s2, PollWait(i));
  }

  lemma FillEnds(s: System, i: nat)
    requires Shaped(s) && i < |s.controls| && s.store.readers[i].pending == []
    requires s.controls[i] == Control(W.Registered, W.Waiting(false), W.NotYet)
    ensures var s' := Next(Next(s, ReadBuffer(i)), CheckTerminated(i));
            var r, r' := s.store.readers[i], s'.store.readers[i];
            var out := R.Polled(r', s.terminated);
            && r' == R.Filled(s.store.ring, r, READ_CHUNK) && s'.store.ring == s.store.ring
            && s'.controls[i].wait == R.WaitAfter(r, s.controls[i].wait, out)
            && s'.controls[i].result == ResultOf(out)
  {
    hide R.Filled;
  }
}
