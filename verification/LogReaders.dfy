/** Any number of independent readers over one drop-oldest buffer, in any interleaving with the
    writer. */
module LogReaders {
  import opened Bytes
  import opened LogBuffer
  import WakeProtocol

  /** One entry of a reader's transcript: a range it was told it lost, or bytes it got. */
  datatype Segment = Skipped(from: nat, to: nat) | Data(from: nat, bytes: seq<Byte>)

  /** `pending` is the reader's own copied-but-unconsumed data, `taken` what its user consumed. */
  datatype Reader = Reader(offset: nat, log: seq<Segment>, pending: seq<Byte>, taken: seq<Byte>)

  /** `appended` is everything the writer ever appended; `retained` leaves out the front of
      every single append longer than the limit, which never enters the ring. */
  datatype System = System(ring: Ring, appended: seq<Byte>, retained: seq<Byte>, readers: seq<Reader>)

  datatype Event =
    | Append(data: seq<Byte>)
    | Fill(i: nat, cap: nat)
    | Consume(i: nat, amount: nat)

  function Init(limit: nat, n: nat): System {
    System(NewRing(limit, false), [], [], seq(n, _ => Reader(0, [], [], [])))
  }

  /** What a reader records for one read of the shared buffer. */
  function Noted(r: Reader, o: ReadOutcome): Reader
    requires |o.bytes| <= o.next
  {
    var from := o.next - |o.bytes|;
    var log := if o.skipped then r.log + [Skipped(r.offset, from)] else r.log;
    Reader(o.next, if o.bytes == [] then log else log + [Data(from, o.bytes)], o.bytes, r.taken)
  }

  /** Refilling: only an empty reader goes to the shared buffer. */
  function Filled(ring: Ring, r: Reader, cap: nat): Reader {
    if r.pending != [] then r else Noted(r, ReadSpec(ring, r.offset, cap))
  }

  function Consumed(r: Reader, amount: nat): Reader {
    var n := if amount < |r.pending| then amount else |r.pending|;
    r.(pending := r.pending[n..], taken := r.taken + r.pending[..n])
  }

  function Next(s: System, e: Event): (s': System)
    requires s.ring.Valid()
    ensures s'.ring.Valid() && s'.ring.limit == s.ring.limit && |s'.readers| == |s.readers|
  {
    match e
    case Append(data) =>
      s.(ring := Appended(s.ring, data), appended := s.appended + data, retained := s.retained + Kept(s.ring, data))
    case Fill(i, cap) =>
      if i < |s.readers| then s.(readers := s.readers[i := Filled(s.ring, s.readers[i], cap)]) else s
    case Consume(i, amount) =>
      if i < |s.readers| then s.(readers := s.readers[i := Consumed(s.readers[i], amount)]) else s
  }

  function RunAll(s: System, es: seq<Event>): (s': System)
    requires s.ring.Valid()
    ensures s'.ring.Valid() && s'.ring.limit == s.ring.limit && |s'.readers| == |s.readers|
    decreases |es|
  {
    if es == [] then s else RunAll(Next(s, es[0]), es[1..])
  }

  /** The transcript covers exactly the offsets below `offset`, in order and without overlap,
      and every delivered range holds the stream's own bytes. */
  ghost predicate Explains(log: seq<Segment>, offset: nat, stream: seq<Byte>)
    decreases |log|
  {
    if log == [] then offset == 0
    else
      match log[|log| - 1]
      case Skipped(from, to) => from < to == offset <= |stream| && Explains(log[..|log| - 1], from, stream)
      case Data(from, bytes) =>
        && bytes != [] && from + |bytes| == offset <= |stream|
        && stream[from..offset] == bytes
        && Explains(log[..|log| - 1], from, stream)
  }

  function Delivered(log: seq<Segment>): seq<Byte> {
    if log == [] then []
    else Delivered(log[..|log| - 1]) + if log[|log| - 1].Data? then log[|log| - 1].bytes else []
  }

  /** The ring is the newest `limit` bytes of what was stored, and its offsets count stored
      bytes: `buf` is `stored` from `head` on. */
  ghost predicate RingIsSuffix(ring: Ring, stored: seq<Byte>) {
    && !ring.strict
    && ring.Tail() == |stored|
    && ring.buf == LastN(stored, ring.limit)
  }

  lemma RingFromHead(ring: Ring, stored: seq<Byte>)
    requires RingIsSuffix(ring, stored)
    ensures ring.Valid() && ring.buf == stored[ring.head..]
    ensures ring.head == if |stored| <= ring.limit then 0 else |stored| - ring.limit
  {
  }

  ghost predicate RingInv(s: System) {
    && s.ring.Valid() && RingIsSuffix(s.ring, s.retained)
    && s.ring.buf == LastN(s.appended, s.ring.limit)
  }

  ghost predicate ReaderInv(r: Reader, stream: seq<Byte>) {
    && Explains(r.log, r.offset, stream)
    && r.taken + r.pending == Delivered(r.log)
  }

  ghost predicate Inv(s: System) {
    && RingInv(s)
    && forall i :: 0 <= i < |s.readers| ==> ReaderInv(s.readers[i], s.retained)
  }

  lemma {:induction false} ExplainsLonger(log: seq<Segment>, offset: nat, stream: seq<Byte>, more: seq<Byte>)
    requires Explains(log, offset, stream)
    ensures Explains(log, offset, stream + more)
    decreases |log|
  {
    if log != [] {
      var last := log[|log| - 1];
      assert last.Data? ==> (stream + more)[last.from..offset] == stream[last.from..offset];
      ExplainsLonger(log[..|log| - 1], last.from, stream, more);
    }
  }

  lemma SuffixGrows(ring: Ring, stored: seq<Byte>, data: seq<Byte>)
    requires RingIsSuffix(ring, stored) && ring.Valid()
    ensures RingIsSuffix(Appended(ring, data), stored + Kept(ring, data))
  {
    LastNOfAppend(stored, Kept(ring, data), ring.limit);
  }

  lemma AppendKeepsRing(s: System, data: seq<Byte>)
    requires RingInv(s)
    ensures RingInv(Next(s, Append(data)))
  {
    SuffixGrows(s.ring, s.retained, data);
    assert Appended(s.ring, data).buf == LastN(s.appended + data, s.ring.limit) by {
      ContentsAfterAppend(s.ring, data);
      LastNOfAppend(s.appended, data, s.ring.limit);
    }
  }

  lemma LogSkip(log: seq<Segment>, from: nat, to: nat, stream: seq<Byte>)
    requires Explains(log, from, stream) && from < to <= |stream|
    ensures Explains(log + [Skipped(from, to)], to, stream)
    ensures Delivered(log + [Skipped(from, to)]) == Delivered(log)
  {
    assert (log + [Skipped(from, to)])[..|log|] == log;
  }

  lemma LogData(log: seq<Segment>, from: nat, bytes: seq<Byte>, stream: seq<Byte>)
    requires Explains(log, from, stream) && bytes != [] && from + |bytes| <= |stream|
    requires stream[from..from + |bytes|] == bytes
    ensures Explains(log + [Data(from, bytes)], from + |bytes|, stream)
    ensures Delivered(log + [Data(from, bytes)]) == Delivered(log) + bytes
  {
    assert (log + [Data(from, bytes)])[..|log|] == log;
  }

  lemma ExplainsBounded(log: seq<Segment>, offset: nat, stream: seq<Byte>)
    requires Explains(log, offset, stream)
    ensures offset <= |stream|
  {
  }

  /** One read returns the stream's own bytes, right after the skipped range if there is one. */
  lemma ReadIsStream(s: System, offset: nat, cap: nat)
    requires RingInv(s) && offset <= |s.retained|
    ensures var o := ReadSpec(s.ring, offset, cap);
            && o.next <= |s.retained|
            && o.next - |o.bytes| == (if o.skipped then s.ring.head else offset)
            && s.retained[o.next - |o.bytes|..o.next] == o.bytes
  {
    RingFromHead(s.ring, s.retained);
    var o := ReadSpec(s.ring, offset, cap);
    if o.bytes != [] {
      hide RingInv, RingIsSuffix, LastN;
      var at := o.next - |o.bytes| - s.ring.head;
      SliceOfSuffix(s.retained, s.ring.head, at, |o.bytes|);
    }
  }

  lemma SliceOfSuffix(stream: seq<Byte>, head: nat, at: nat, n: nat)
    requires head + at + n <= |stream|
    ensures stream[head..][at..at + n] == stream[head + at..head + at + n]
  {
  }

  lemma NotedKeepsReader(r: Reader, o: ReadOutcome, stream: seq<Byte>)
    requires ReaderInv(r, stream) && r.pending == []
    requires |o.bytes| <= o.next <= |stream| && stream[o.next - |o.bytes|..o.next] == o.bytes
    requires if o.skipped then r.offset < o.next - |o.bytes| else r.offset == o.next - |o.bytes|
    ensures ReaderInv(Noted(r, o), stream)
  {
    hide Explains, Delivered;
    var from := o.next - |o.bytes|;
    assert r.taken + [] == r.taken;
    var log := r.log;
    if o.skipped {
      LogSkip(r.log, r.offset, from, stream);
      log := r.log + [Skipped(r.offset, from)];
    }
    if o.bytes != [] {
      LogData(log, from, o.bytes, stream);
    }
  }

  lemma FillKeepsReader(s: System, r: Reader, cap: nat)
    requires RingInv(s) && ReaderInv(r, s.retained)
    ensures ReaderInv(Filled(s.ring, r, cap), s.retained)
  {
    if r.pending == [] {
      ExplainsBounded(r.log, r.offset, s.retained);
      ReadIsStream(s, r.offset, cap);
      NotedKeepsReader(r, ReadSpec(s.ring, r.offset, cap), s.retained);
    }
  }

  lemma StepKeepsInv(s: System, e: Event)
    requires Inv(s)
    ensures Inv(Next(s, e))
  {
    match e
    case Append(data) =>
      AppendKeepsRing(s, data);
      forall i | 0 <= i < |s.readers| ensures ReaderInv(s.readers[i], Next(s, e).retained) {
        ExplainsLonger(s.readers[i].log, s.readers[i].offset, s.retained, Kept(s.ring, data));
      }
    case Fill(i, cap) =>
      if i < |s.readers| {
        FillKeepsReader(s, s.readers[i], cap);
      }
    case Consume(i, amount) =>
      if i < |s.readers| {
        var r := s.readers[i];
        var n := if amount < |r.pending| then amount else |r.pending|;
        assert r.pending == r.pending[..n] + r.pending[n..];
        assert r.taken + r.pending[..n] + r.pending[n..] == r.taken + r.pending;
      }
  }

  /** In every run: the ring holds exactly the newest `limit` bytes, and each reader's transcript
      is the stream minus exactly the ranges it was told it skipped. */
  lemma {:induction false} EveryRunKeepsInv(s: System, es: seq<Event>)
    requires Inv(s)
    ensures Inv(RunAll(s, es))
    decreases |es|
  {
    hide Next;
    if es != [] {
      StepKeepsInv(s, es[0]);
      EveryRunKeepsInv(Next(s, es[0]), es[1..]);
    }
  }

  lemma InitInv(limit: nat, n: nat)
    ensures Inv(Init(limit, n))
  {
  }

  lemma StepMovesForward(s: System, e: Event, i: nat)
    requires Inv(s) && i < |s.readers|
    ensures var r, r' := s.readers[i], Next(s, e).readers[i];
            r.offset <= r'.offset && r.taken <= r'.taken
  {
  }

  /** Offsets never go back, and what was taken is never taken back. */
  lemma {:induction false} ReadersOnlyMoveForward(s: System, es: seq<Event>, i: nat)
    requires Inv(s) && i < |s.readers|
    ensures var s' := RunAll(s, es);
            s.readers[i].offset <= s'.readers[i].offset && s.readers[i].taken <= s'.readers[i].taken
    decreases |es|
  {
    hide Next;
    if es != [] {
      StepKeepsInv(s, es[0]);
      StepMovesForward(s, es[0], i);
      ReadersOnlyMoveForward(Next(s, es[0]), es[1..], i);
    }
  }

  ghost predicate Concerns(e: Event, i: nat) {
    e.Append? || e.i == i
  }

  ghost function Seen(es: seq<Event>, i: nat): seq<Event> {
    if es == [] then [] else (if Concerns(es[0], i) then [es[0]] else []) + Seen(es[1..], i)
  }

  lemma StepsAgree(s: System, t: System, e: Event, i: nat)
    requires Inv(s) && Inv(t) && i < |s.readers| && i < |t.readers|
    requires s.ring == t.ring && s.readers[i] == t.readers[i]
    ensures Concerns(e, i) ==> Next(s, e).ring == Next(t, e).ring && Next(s, e).readers[i] == Next(t, e).readers[i]
    ensures !Concerns(e, i) ==> Next(s, e).ring == t.ring && Next(s, e).readers[i] == t.readers[i]
  {
  }

  /** Readers do not affect each other: deleting every event of the other readers from a run
      leaves reader `i` exactly where it was. */
  lemma {:induction false} ReadersAreIndependent(s: System, t: System, es: seq<Event>, i: nat)
    requires Inv(s) && Inv(t) && i < |s.readers| && i < |t.readers|
    requires s.ring == t.ring && s.readers[i] == t.readers[i]
    ensures RunAll(s, es).readers[i] == RunAll(t, Seen(es, i)).readers[i]
    decreases |es|
  {
    hide Next;
    if es != [] {
      var e := es[0];
      StepKeepsInv(s, e);
      StepsAgree(s, t, e, i);
      if Concerns(e, i) {
        assert Seen(es, i)[0] == e && Seen(es, i)[1..] == Seen(es[1..], i);
        StepKeepsInv(t, e);
        ReadersAreIndependent(Next(s, e), Next(t, e), es[1..], i);
      } else {
        assert Seen(es, i) == Seen(es[1..], i);
        ReadersAreIndependent(Next(s, e), t, es[1..], i);
      }
    }
  }

  /** Reader `i` is never more than `limit` bytes behind when it goes to the shared buffer. */
  ghost predicate KeepsUp(s: System, es: seq<Event>, i: nat)
    requires s.ring.Valid() && i < |s.readers|
    decreases |es|
  {
    es != [] ==>
      && (es[0].Fill? && es[0].i == i ==> |s.retained| - s.readers[i].offset <= s.ring.limit)
      && KeepsUp(Next(s, es[0]), es[1..], i)
  }

  ghost predicate NoSkips(log: seq<Segment>) {
    forall k :: 0 <= k < |log| ==> log[k].Data?
  }

  lemma KeepingUpStep(s: System, e: Event, i: nat)
    requires Inv(s) && i < |s.readers| && NoSkips(s.readers[i].log)
    requires e.Fill? && e.i == i ==> |s.retained| - s.readers[i].offset <= s.ring.limit
    ensures NoSkips(Next(s, e).readers[i].log)
  {
    if e.Fill? && e.i == i {
      RingFromHead(s.ring, s.retained);
      ExplainsBounded(s.readers[i].log, s.readers[i].offset, s.retained);
    }
  }

  lemma {:induction false} KeepingUpNeverSkips(s: System, es: seq<Event>, i: nat)
    requires Inv(s) && i < |s.readers| && NoSkips(s.readers[i].log) && KeepsUp(s, es, i)
    ensures NoSkips(RunAll(s, es).readers[i].log)
    decreases |es|
  {
    hide Next;
    if es != [] {
      StepKeepsInv(s, es[0]);
      KeepingUpStep(s, es[0], i);
      KeepingUpNeverSkips(Next(s, es[0]), es[1..], i);
    }
  }

  lemma {:induction false} WithoutSkipsAllIsDelivered(log: seq<Segment>, offset: nat, stream: seq<Byte>)
    requires Explains(log, offset, stream) && NoSkips(log)
    ensures offset <= |stream| && Delivered(log) == stream[..offset]
    decreases |log|
  {
    if log != [] {
      var last := log[|log| - 1];
      WithoutSkipsAllIsDelivered(log[..|log| - 1], last.from, stream);
      assert stream[..offset] == stream[..last.from] + stream[last.from..offset];
    }
  }

  /** A reader that keeps up sees the whole stored stream, in order and complete up to its offset;
      with appends of at most `limit` bytes that is the stream as written. */
  lemma KeepingUpSeesEverything(limit: nat, n: nat, es: seq<Event>, i: nat)
    requires i < n && KeepsUp(Init(limit, n), es, i)
    ensures var s := RunAll(Init(limit, n), es);
            var r := s.readers[i];
            && r.offset <= |s.retained| && r.taken + r.pending == s.retained[..r.offset]
            && (ShortAppends(es, limit) ==>
                  r.offset <= |s.appended| && r.taken + r.pending == s.appended[..r.offset])
  {
    var s0 := Init(limit, n);
    EveryRunKeepsInv(s0, es);
    KeepingUpNeverSkips(s0, es, i);
    TrueOffsetsIff(limit, n, es);
    var s := RunAll(s0, es);
    WithoutSkipsAllIsDelivered(s.readers[i].log, s.readers[i].offset, s.retained);
  }

  ghost predicate ShortAppends(es: seq<Event>, limit: nat) {
    es != [] ==> (es[0].Append? ==> |es[0].data| <= limit) && ShortAppends(es[1..], limit)
  }

  /** How many appended bytes never entered the ring. */
  ghost function NeverStored(s: System): int {
    |s.appended| - |s.retained|
  }

  lemma StepStores(s: System, e: Event)
    requires RingInv(s)
    ensures var s' := Next(s, e);
            && NeverStored(s) <= NeverStored(s')
            && (NeverStored(s) == NeverStored(s') <==> (e.Append? ==> |e.data| <= s.ring.limit))
            && (NeverStored(s) == NeverStored(s') && s.retained == s.appended ==> s'.retained == s'.appended)
            && s'.ring.limit == s.ring.limit
  {
  }

  /** Offsets count the bytes the container wrote exactly when every append was at most `limit`. */
  lemma {:induction false} OffsetsAreAbsoluteIff(s: System, es: seq<Event>)
    requires Inv(s)
    ensures var s' := RunAll(s, es);
            && NeverStored(s) <= NeverStored(s')
            && (NeverStored(s) == NeverStored(s') <==> ShortAppends(es, s.ring.limit))
            && (ShortAppends(es, s.ring.limit) && s.retained == s.appended ==> s'.retained == s'.appended)
    decreases |es|
  {
    hide Next;
    if es != [] {
      StepKeepsInv(s, es[0]);
      StepStores(s, es[0]);
      OffsetsAreAbsoluteIff(Next(s, es[0]), es[1..]);
    }
  }

  /** From the start: the transcript is against the true stream in every run of short appends,
      and the head is the true number of evicted bytes exactly in those runs. */
  lemma TrueOffsetsIff(limit: nat, n: nat, es: seq<Event>)
    ensures var s := RunAll(Init(limit, n), es);
            && Inv(s)
            && (s.retained == s.appended <==> ShortAppends(es, limit))
            && (s.ring.Tail() == |s.appended| <==> ShortAppends(es, limit))
  {
    EveryRunKeepsInv(Init(limit, n), es);
    OffsetsAreAbsoluteIff(Init(limit, n), es);
  }

  /* ---- The readers themselves ---- */

  datatype PollOutcome = Ready(data: seq<Byte>) | EndOfStream | Pending

  /** What a poll returns when it leaves the reader as `r`. */
  function Polled(r: Reader, terminated: bool): PollOutcome {
    if r.pending != [] then Ready(r.pending) else if terminated then EndOfStream else Pending
  }

  /** The registration after a poll; only a pending poll stays registered, and one that is served
      from left-over bytes does not look at it. */
  function WaitAfter(before: Reader, wait: WakeProtocol.Wait, out: PollOutcome): WakeProtocol.Wait {
    if before.pending != [] then wait else if out.Pending? then WakeProtocol.Waiting(false) else WakeProtocol.NoWait
  }

  /* ---- What a poll hands out and what consuming leaves ---- */

  /** What a reader has not consumed is the stream's own bytes right before its offset. */
  ghost predicate HoldsStream(r: Reader, stream: seq<Byte>) {
    |r.pending| <= r.offset <= |stream| && r.pending == stream[r.offset - |r.pending|..r.offset]
  }

  ghost predicate AllHoldStream(s: System) {
    forall i :: 0 <= i < |s.readers| ==> HoldsStream(s.readers[i], s.retained)
  }

  function Min(a: nat, b: nat): nat {
    if a < b then a else b
  }

  /** A reader with nothing left gets, from its offset or from the oldest byte still in the ring,
      everything there is up to the room it has. */
  lemma FillTakesStream(s: System, i: nat, cap: nat)
    requires Inv(s) && i < |s.readers| && s.readers[i].pending == []
    ensures var r, r', end := s.readers[i], Next(s, Fill(i, cap)).readers[i], |s.retained|;
            var oldest := if end <= s.ring.limit then 0 else end - s.ring.limit;
            var from := if r.offset < oldest then oldest else r.offset;
            && from <= end && r'.offset == Min(from + cap, end) && r'.taken == r.taken
            && r'.pending == s.retained[from..r'.offset]
  {
    var r := s.readers[i];
    assert ReaderInv(r, s.retained);
    ExplainsBounded(r.log, r.offset, s.retained);
    RingFromHead(s.ring, s.retained);
    ReadIsStream(s, r.offset, cap);
  }

  lemma HoldsAfterConsume(r: Reader, amount: nat, stream: seq<Byte>)
    requires HoldsStream(r, stream)
    ensures HoldsStream(Consumed(r, amount), stream)
  {
  }

  lemma HoldsLonger(r: Reader, stream: seq<Byte>, more: seq<Byte>)
    requires HoldsStream(r, stream)
    ensures HoldsStream(r, stream + more)
  {
    var from := r.offset - |r.pending|;
    SliceOfLonger(stream, more, from, r.offset);
  }

  lemma SliceOfLonger<T>(stream: seq<T>, more: seq<T>, from: nat, to: nat)
    requires from <= to <= |stream|
    ensures (stream + more)[from..to] == stream[from..to]
  {
  }

  lemma HoldsAfterFill(s: System, i: nat, cap: nat)
    requires Inv(s) && i < |s.readers| && HoldsStream(s.readers[i], s.retained)
    ensures HoldsStream(Filled(s.ring, s.readers[i], cap), s.retained)
  {
    hide Inv, ReadSpec, Noted;
    if s.readers[i].pending == [] {
      FillTakesStream(s, i, cap);
      assert Next(s, Fill(i, cap)).readers[i] == Filled(s.ring, s.readers[i], cap);
      hide Next, Filled;
    }
  }

  lemma StepHoldsStream(s: System, e: Event)
    requires Inv(s) && AllHoldStream(s)
    ensures AllHoldStream(Next(s, e))
  {
    hide Inv, HoldsStream, Kept, Appended, Consumed, Filled;
    match e
    case Append(data) =>
      forall i | 0 <= i < |s.readers| ensures HoldsStream(s.readers[i], s.retained + Kept(s.ring, data)) {
        HoldsLonger(s.readers[i], s.retained, Kept(s.ring, data));
      }
    case Fill(i, cap) =>
      if i < |s.readers| {
        HoldsAfterFill(s, i, cap);
      }
    case Consume(i, amount) =>
      if i < |s.readers| {
        HoldsAfterConsume(s.readers[i], amount, s.retained);
      }
  }

  lemma {:induction false} EveryRunHoldsStream(s: System, es: seq<Event>)
    requires Inv(s) && AllHoldStream(s)
    ensures Inv(RunAll(s, es)) && AllHoldStream(RunAll(s, es))
    decreases |es|
  {
    hide Next, AllHoldStream;
    if es != [] {
      StepKeepsInv(s, es[0]);
      StepHoldsStream(s, es[0]);
      EveryRunHoldsStream(Next(s, es[0]), es[1..]);
    }
  }

  /** What a poll returns, in every run: data is never empty and is the stream's own bytes right
      before the reader's new offset; without data the reader has everything, and the end is
      reported exactly when the stream is known to be over. */
  lemma PollReturnsStream(limit: nat, n: nat, es: seq<Event>, i: nat, cap: nat, terminated: bool)
    requires i < n && limit > 0 && cap > 0
    ensures var s := Next(RunAll(Init(limit, n), es), Fill(i, cap));
            var r := s.readers[i];
            match Polled(r, terminated)
            case Ready(data) =>
              data != [] && |data| <= r.offset <= |s.retained| && data == s.retained[r.offset - |data|..r.offset]
            case EndOfStream => terminated && r.offset == |s.retained|
            case Pending => !terminated && r.offset == |s.retained|
  {
    var s0 := RunAll(Init(limit, n), es);
    InitInv(limit, n);
    EveryRunHoldsStream(Init(limit, n), es);
    StepHoldsStream(s0, Fill(i, cap));
    var s := Next(s0, Fill(i, cap));
    assert HoldsStream(s.readers[i], s.retained);
    if s0.readers[i].pending == [] {
      FillTakesStream(s0, i, cap);
    }
  }

  /** A partly consumed poll: the next one hands out exactly the rest, whatever the writer did in
      between. */
  lemma RestComesNext(ring: Ring, r: Reader, k: nat, cap: nat, terminated: bool)
    requires k < |r.pending|
    ensures Polled(r, terminated) == Ready(r.pending)
    ensures Polled(Filled(ring, Consumed(r, k), cap), terminated) == Ready(r.pending[k..])
    ensures Consumed(r, k).taken == r.taken + r.pending[..k]
  {
  }

  /** Consuming in two steps is consuming at once. */
  lemma ConsumeTwice(r: Reader, a: nat, b: nat)
    ensures Consumed(Consumed(r, a), b) == Consumed(r, a + b)
  {
    var n, m := Min(a, |r.pending|), Min(a + b, |r.pending|);
    TwoCuts(r.taken, r.pending, n, m);
  }

  lemma TwoCuts<T>(taken: seq<T>, s: seq<T>, n: nat, m: nat)
    requires n <= m <= |s|
    ensures s[n..][m - n..] == s[m..] && taken + s[..n] + s[n..][..m - n] == taken + s[..m]
  {
  }

  ghost predicate AnySkipped(log: seq<Segment>) {
    exists k :: 0 <= k < |log| && log[k].Skipped?
  }

  /** The buffered asynchronous reader. `log` and `taken` are its transcript. */
  class LogReader {
    const buffer: SharedLogBuffer
    var offset: nat
    var warnedSkip: bool
    var buf: seq<Byte>
    var pos: nat
    var wait: WakeProtocol.Wait
    ghost var log: seq<Segment>
    ghost var taken: seq<Byte>

    ghost predicate Valid()
      reads this
    {
      pos <= |buf| && (warnedSkip <==> AnySkipped(log))
    }

    ghost function Value(): Reader
      reads this
      requires Valid()
    {
      Reader(offset, log, buf[pos..], taken)
    }

    constructor (buffer: SharedLogBuffer)
      ensures Valid() && Value() == Reader(0, [], [], []) && this.buffer == buffer && wait.NoWait?
    {
      this.buffer := buffer;
      offset, warnedSkip, buf, pos, wait, log, taken := 0, false, [], 0, WakeProtocol.NoWait, [], [];
    }

    /** Registers for a notification; a registration that was notified is replaced. */
    method Register()
      modifies `wait
      ensures wait == WakeProtocol.Waiting(false)
    {
      while wait != WakeProtocol.Waiting(false)
        decreases if wait == WakeProtocol.Waiting(true) then 2 else if wait.NoWait? then 1 else 0
      {
        if wait.NoWait? {
          wait := WakeProtocol.Waiting(false);
        }
        if wait.notified {
          wait := WakeProtocol.NoWait;
        }
      }
    }

    /** One look at the shared buffer. */
    method Refill()
      requires Valid() && buffer.Valid() && pos == |buf|
      modifies `offset, `warnedSkip, `buf, `pos, `log
      ensures Valid() && pos == 0 && Value() == Noted(old(Value()), ReadSpec(buffer.Value(), old(offset), READ_CHUNK))
    {
      hide ReadSpec, AnySkipped;
      assert buf[pos..] == [];
      ghost var was, o := Value(), ReadSpec(buffer.Value(), offset, READ_CHUNK);
      var space := new Byte[READ_CHUNK](_ => 0);
      var n, next, skipped := buffer.ReadAt(offset, space);
      var bytes := space[..n];
      assert o == ReadOutcome(bytes, next, skipped);
      WarnedIff(log, Noted(was, o).log, skipped);
      log := Noted(was, o).log;
      buf, pos, offset := bytes, 0, next;
      if skipped && !warnedSkip {
        warnedSkip := true;
      }
      assert buf[0..] == bytes;
    }

    /** One poll: bytes left over from the last copy, or else one look at the shared buffer after
        registering for a notification. `terminated` is what the end flag says right after that
        look. Only a pending poll stays registered. */
    method PollFill(terminated: bool) returns (r: PollOutcome)
      requires Valid() && buffer.Valid()
      modifies this
      ensures Valid() && Value() == Filled(buffer.Value(), old(Value()), 8192)
      ensures r == Polled(Value(), terminated) && wait == WaitAfter(old(Value()), old(wait), r)
    {
      hide ReadSpec, Noted, AnySkipped;
      if pos < |buf| {
        return Ready(buf[pos..]);
      }
      assert buf[pos..] == [];
      Register();
      Refill();
      if |buf| > 0 {
        wait := WakeProtocol.NoWait;
        return Ready(buf[pos..]);
      }
      if terminated {
        wait := WakeProtocol.NoWait;
        return EndOfStream;
      }
      r := Pending;
    }

    method Consume(amount: nat)
      requires Valid()
      modifies this
      ensures Valid() && Value() == Consumed(old(Value()), amount) && wait == old(wait)
      ensures var had := old(buf[pos..]);
              var n := if amount < |had| then amount else |had|;
              buf[pos..] == had[n..] && taken == old(taken) + had[..n] && offset == old(offset) && log == old(log)
    {
      ghost var pending := buf[pos..];
      var next := if pos + amount < |buf| then pos + amount else |buf|;
      taken := taken + pending[..next - pos];
      assert buf[next..] == pending[next - pos..];
      pos := next;
    }
  }

  /** The warning flag follows the transcript: it is up exactly when something was skipped. */
  lemma WarnedIff(log: seq<Segment>, log': seq<Segment>, skipped: bool)
    requires log <= log'
    requires skipped ==> |log| < |log'| && log'[|log|].Skipped?
    requires forall k :: (if skipped then |log| + 1 else |log|) <= k < |log'| ==> log'[k].Data?
    ensures AnySkipped(log') <==> skipped || AnySkipped(log)
  {
    if k :| 0 <= k < |log| && log[k].Skipped? {
      assert log'[k].Skipped?;
    }
  }
}
