/** Demultiplexing of the Docker log / exec stream: frames of an 8-byte header (stream type,
    three reserved bytes, big-endian payload length) followed by the payload. */
module FrameDemux {
  import opened Bytes
  import opened LogBuffer

  const FRAME_HEADER_LEN: nat := 8
  const STDOUT: Byte := 1
  const STDERR: Byte := 2

  /** The value of the incremental demuxer. */
  datatype Demux = Demux(inPayload: bool, header: seq<Byte>, headerPos: nat, streamType: Byte, payloadRemaining: nat)
  {
    ghost predicate Valid() {
      && |header| == FRAME_HEADER_LEN
      && if inPayload then
           headerPos == FRAME_HEADER_LEN && payloadRemaining > 0
         else
           headerPos < FRAME_HEADER_LEN && payloadRemaining == 0 && streamType == 0
    }

    /** Between two frames: no header byte seen, no payload owed. */
    ghost predicate AtBoundary() {
      Valid() && !inPayload && headerPos == 0
    }

    /** Whether the next byte is delivered to stream `k`. */
    ghost predicate Emits(k: Byte) {
      inPayload && streamType == k
    }
  }

  const START: Demux := Demux(false, Zeros(FRAME_HEADER_LEN), 0, 0, 0)

  /** A big-endian 32-bit number. */
  function FromBigEndian32(b0: int, b1: int, b2: int, b3: int): int {
    b0 * 0x100_0000 + b1 * 0x1_0000 + b2 * 0x100 + b3
  }

  function PayloadLen(h: seq<Byte>): nat
    requires |h| == FRAME_HEADER_LEN
  {
    FromBigEndian32(h[4], h[5], h[6], h[7])
  }

  /** The demuxer once a whole header has been read. */
  function AfterHeader(h: seq<Byte>): (d: Demux)
    requires |h| == FRAME_HEADER_LEN
    ensures d.Valid()
  {
    if PayloadLen(h) == 0 then Demux(false, h, 0, 0, 0)
    else Demux(true, h, FRAME_HEADER_LEN, h[0], PayloadLen(h))
  }

  /** The specification: one byte at a time. */
  ghost function Step(d: Demux, b: Byte): (d': Demux)
    requires d.Valid()
    ensures d'.Valid()
  {
    if d.inPayload then
      if d.payloadRemaining == 1 then Demux(false, d.header, 0, 0, 0)
      else d.(payloadRemaining := d.payloadRemaining - 1)
    else
      var h := d.header[d.headerPos := b];
      if d.headerPos + 1 == FRAME_HEADER_LEN then AfterHeader(h)
      else d.(header := h, headerPos := d.headerPos + 1)
  }

  ghost function Run(d: Demux, data: seq<Byte>): (d': Demux)
    requires d.Valid()
    ensures d'.Valid()
    decreases |data|
  {
    if data == [] then d else Run(Step(d, data[0]), data[1..])
  }

  /** The bytes of `data` delivered to stream `k`. */
  ghost function Out(d: Demux, data: seq<Byte>, k: Byte): (o: seq<Byte>)
    requires d.Valid()
    ensures |o| <= |data|
    decreases |data|
  {
    if data == [] then []
    else (if d.Emits(k) then [data[0]] else []) + Out(Step(d, data[0]), data[1..], k)
  }

  /** Cutting the input anywhere changes neither the final demuxer nor any stream. */
  lemma {:induction false} RunAppend(d: Demux, a: seq<Byte>, b: seq<Byte>, k: Byte)
    requires d.Valid()
    ensures Run(d, a + b) == Run(Run(d, a), b)
    ensures Out(d, a + b, k) == Out(d, a, k) + Out(Run(d, a), b, k)
    decreases |a|
  {
    hide Step;
    if a == [] {
      assert a + b == b;
    } else {
      assert (a + b)[0] == a[0] && (a + b)[1..] == a[1..] + b;
      RunAppend(Step(d, a[0]), a[1..], b, k);
    }
  }

  lemma PatchFirst<T>(h: seq<T>, t: seq<T>, at: nat)
    requires t != [] && at + |t| <= |h|
    ensures h[..at] + t + h[at + |t|..] == h[at := t[0]][..at + 1] + t[1..] + h[at := t[0]][at + |t|..]
    ensures |t| == 1 ==> h[..at] + t + h[at + |t|..] == h[at := t[0]]
  {
  }

  /** Several header bytes taken in one copy. */
  lemma {:induction false} RunHeader(d: Demux, t: seq<Byte>, k: Byte)
    requires d.Valid() && !d.inPayload && d.headerPos + |t| <= FRAME_HEADER_LEN
    ensures Out(d, t, k) == []
    ensures var h := d.header[..d.headerPos] + t + d.header[d.headerPos + |t|..];
            Run(d, t) == if d.headerPos + |t| == FRAME_HEADER_LEN then AfterHeader(h)
                         else d.(header := h, headerPos := d.headerPos + |t|)
    decreases |t|
  {
    hide Step, AfterHeader;
    if t == [] {
      assert d.header[..d.headerPos] + t + d.header[d.headerPos..] == d.header;
    } else {
      HeaderByte(d, t[0]);
      PatchFirst(d.header, t, d.headerPos);
      if d.headerPos + 1 < FRAME_HEADER_LEN {
        RunHeader(Step(d, t[0]), t[1..], k);
      } else {
        assert t[1..] == [];
      }
    }
  }

  lemma HeaderByte(d: Demux, b: Byte)
    requires d.Valid() && !d.inPayload
    ensures var h := d.header[d.headerPos := b];
            Step(d, b) == if d.headerPos + 1 == FRAME_HEADER_LEN then AfterHeader(h)
                          else d.(header := h, headerPos := d.headerPos + 1)
  {
  }

  /** Several payload bytes taken in one slice. */
  lemma {:induction false} RunPayload(d: Demux, t: seq<Byte>, k: Byte)
    requires d.Valid() && d.inPayload && |t| <= d.payloadRemaining
    ensures Out(d, t, k) == if d.streamType == k then t else []
    ensures Run(d, t) == if |t| == d.payloadRemaining then Demux(false, d.header, 0, 0, 0)
                         else d.(payloadRemaining := d.payloadRemaining - |t|)
    decreases |t|
  {
    if |t| > 1 {
      RunPayload(Step(d, t[0]), t[1..], k);
    }
  }

  /** How much one buffer can still take before it refuses. */
  datatype Room = Unbounded | Left(n: nat)

  ghost function RoomOf(r: Ring): Room
    requires r.Valid()
  {
    if r.strict then Left(r.limit - |r.buf|) else Unbounded
  }

  ghost predicate Fits(room: Room, n: nat) {
    room.Left? ==> n <= room.n
  }

  ghost function Less(room: Room, n: nat): Room
    requires Fits(room, n)
  {
    if room.Left? then Left(room.n - n) else Unbounded
  }

  /** The stream of the first byte that does not fit, or 0 when everything fits. */
  ghost function Offender(d: Demux, data: seq<Byte>, o: Room, e: Room): Byte
    requires d.Valid()
    decreases |data|
  {
    if data == [] then 0
    else if d.Emits(STDOUT) then
      if o == Left(0) then STDOUT else Offender(Step(d, data[0]), data[1..], Less(o, 1), e)
    else if d.Emits(STDERR) then
      if e == Left(0) then STDERR else Offender(Step(d, data[0]), data[1..], o, Less(e, 1))
    else Offender(Step(d, data[0]), data[1..], o, e)
  }

  /** There is an offender exactly when one of the two streams is longer than its room. */
  lemma {:induction false} OffenderIff(d: Demux, data: seq<Byte>, o: Room, e: Room)
    requires d.Valid()
    ensures Offender(d, data, o, e) == 0 <==>
            Fits(o, |Out(d, data, STDOUT)|) && Fits(e, |Out(d, data, STDERR)|)
    decreases |data|
  {
    hide Step;
    if data != [] {
      var d' := Step(d, data[0]);
      if d.Emits(STDOUT) {
        if o != Left(0) { OffenderIff(d', data[1..], Less(o, 1), e); }
      } else if d.Emits(STDERR) {
        if e != Left(0) { OffenderIff(d', data[1..], o, Less(e, 1)); }
      } else {
        OffenderIff(d', data[1..], o, e);
      }
    }
  }

  lemma NothingOut(d: Demux, k: Byte)
    requires d.Valid()
    ensures Out(d, [], k) == [] && Run(d, []) == d
  {
  }

  lemma FirstOut(d: Demux, a: seq<Byte>, k: Byte)
    requires d.Valid() && a != []
    ensures |Out(d, a, k)| == (if d.Emits(k) then 1 else 0) + |Out(Step(d, a[0]), a[1..], k)|
    ensures Run(d, a) == Run(Step(d, a[0]), a[1..])
  {
    hide Step;
  }

  /** The offender of a whole stream is the offender of the first chunk that has one. */
  lemma {:induction false} OffenderAppend(d: Demux, a: seq<Byte>, b: seq<Byte>, o: Room, e: Room)
    requires d.Valid()
    ensures Offender(d, a, o, e) != 0 ==> Offender(d, a + b, o, e) == Offender(d, a, o, e)
    ensures Offender(d, a, o, e) == 0 ==>
              && Fits(o, |Out(d, a, STDOUT)|) && Fits(e, |Out(d, a, STDERR)|)
              && Offender(d, a + b, o, e)
                 == Offender(Run(d, a), b, Less(o, |Out(d, a, STDOUT)|), Less(e, |Out(d, a, STDERR)|))
    decreases |a|
  {
    hide Step, Run, Out;
    OffenderIff(d, a, o, e);
    if a == [] {
      assert a + b == b;
      NothingOut(d, STDOUT);
      NothingOut(d, STDERR);
    } else {
      assert (a + b)[0] == a[0] && (a + b)[1..] == a[1..] + b;
      var d' := Step(d, a[0]);
      FirstOut(d, a, STDOUT);
      FirstOut(d, a, STDERR);
      if d.Emits(STDOUT) {
        if o != Left(0) { OffenderAppend(d', a[1..], b, Less(o, 1), e); }
      } else if d.Emits(STDERR) {
        if e != Left(0) { OffenderAppend(d', a[1..], b, o, Less(e, 1)); }
      } else {
        OffenderAppend(d', a[1..], b, o, e);
      }
    }
  }

  lemma PatchStep<T>(h: seq<T>, bytes: seq<T>, at: nat, i: nat)
    requires at + |bytes| <= |h| && i < |bytes|
    ensures (h[..at] + bytes[..i] + h[at + i..])[at + i := bytes[i]] == h[..at] + bytes[..i + 1] + h[at + i + 1..]
  {
  }

  /** The offender is the stream whose byte is the first that does not fit: everything before it
      fits both streams, and with it that stream is too long for its room. */
  lemma {:induction false} OffenderIsFirst(d: Demux, data: seq<Byte>, o: Room, e: Room) returns (n: nat)
    requires d.Valid() && Offender(d, data, o, e) != 0
    ensures n < |data|
    ensures Fits(o, |Out(d, data[..n], STDOUT)|) && Fits(e, |Out(d, data[..n], STDERR)|)
    ensures var k := Offender(d, data, o, e);
            || (k == STDOUT && !Fits(o, |Out(d, data[..n + 1], STDOUT)|))
            || (k == STDERR && !Fits(e, |Out(d, data[..n + 1], STDERR)|))
    decreases |data|
  {
    hide Step, Run, Out;
    var first, rest := [data[0]], data[1..];
    var d' := Step(d, data[0]);
    OffenderUnfold(d, data, o, e);
    NothingOut(d, STDOUT);
    NothingOut(d, STDERR);
    OneOut(d, data, STDOUT);
    OneOut(d, data, STDERR);
    if (d.Emits(STDOUT) && o == Left(0)) || (!d.Emits(STDOUT) && d.Emits(STDERR) && e == Left(0)) {
      n := 0;
      assert data[..0] == [] && data[..1] == first;
    } else {
      var o' := if d.Emits(STDOUT) then Less(o, 1) else o;
      var e' := if !d.Emits(STDOUT) && d.Emits(STDERR) then Less(e, 1) else e;
      var m := OffenderIsFirst(d', rest, o', e');
      n := m + 1;
      FrontOut(d, data, m, STDOUT);
      FrontOut(d, data, m, STDERR);
      FrontOut(d, data, m + 1, STDOUT);
      FrontOut(d, data, m + 1, STDERR);
    }
  }

  lemma OffenderUnfold(d: Demux, data: seq<Byte>, o: Room, e: Room)
    requires d.Valid() && data != []
    ensures Offender(d, data, o, e)
         == if d.Emits(STDOUT) && o == Left(0) then STDOUT
            else if !d.Emits(STDOUT) && d.Emits(STDERR) && e == Left(0) then STDERR
            else Offender(Step(d, data[0]), data[1..],
                          if d.Emits(STDOUT) then Less(o, 1) else o,
                          if !d.Emits(STDOUT) && d.Emits(STDERR) then Less(e, 1) else e)
  {
    hide Step;
  }

  lemma OneOut(d: Demux, data: seq<Byte>, k: Byte)
    requires d.Valid() && data != []
    ensures |Out(d, [data[0]], k)| == if d.Emits(k) then 1 else 0
  {
    FirstOut(d, [data[0]], k);
    NothingOut(Step(d, data[0]), k);
  }

  lemma FrontOut(d: Demux, data: seq<Byte>, m: nat, k: Byte)
    requires d.Valid() && m < |data|
    ensures |Out(d, data[..m + 1], k)| == (if d.Emits(k) then 1 else 0) + |Out(Step(d, data[0]), data[1..][..m], k)|
  {
    assert data[..m + 1][0] == data[0] && data[..m + 1][1..] == data[1..][..m];
    FirstOut(d, data[..m + 1], k);
  }

  datatype FeedResult = Fed(wroteOut: bool, wroteErr: bool) | Overflow(stream: Byte, limit: nat)

  class FrameDemuxer {
    var inPayload: bool
    const header: array<Byte>
    var headerPos: nat
    var streamType: Byte
    var payloadRemaining: nat

    ghost predicate Valid()
      reads this, header
    {
      Value().Valid()
    }

    ghost function Value(): Demux
      reads this, header
    {
      Demux(inPayload, header[..], headerPos, streamType, payloadRemaining)
    }

    constructor ()
      ensures Valid() && Value() == START && fresh(header)
    {
      header := new Byte[FRAME_HEADER_LEN](_ => 0);
      inPayload, headerPos, streamType, payloadRemaining := false, 0, 0, 0;
    }

    method ResetHeader()
      modifies this
      ensures Value() == Demux(false, old(header[..]), 0, 0, 0)
    {
      inPayload, headerPos, streamType, payloadRemaining := false, 0, 0, 0;
    }

    /** Copies `bytes` into the header at the current position. */
    method CopyHeader(bytes: seq<Byte>)
      requires headerPos + |bytes| <= header.Length == FRAME_HEADER_LEN
      modifies header
      ensures header[..] == old(header[..])[..headerPos] + bytes + old(header[..])[headerPos + |bytes|..]
    {
      ghost var h := header[..];
      for i := 0 to |bytes|
        invariant header[..] == h[..headerPos] + bytes[..i] + h[headerPos + i..]
      {
        ghost var before := header[..];
        header[headerPos + i] := bytes[i];
        assert header[..] == before[headerPos + i := bytes[i]];
        PatchStep(h, bytes, headerPos, i);
      }
      assert bytes[..|bytes|] == bytes;
    }

    /** Takes header bytes from the front of `data`. */
    method TakeHeader(data: seq<Byte>) returns (take: nat)
      requires Valid() && !inPayload && data != []
      modifies this, header
      ensures Valid() && 0 < take <= |data|
      ensures Value() == Run(old(Value()), data[..take])
      ensures forall k: Byte :: Out(old(Value()), data[..take], k) == []
    {
      var need := FRAME_HEADER_LEN - headerPos;
      take := if need < |data| then need else |data|;
      forall k: Byte ensures Out(Value(), data[..take], k) == [] {
        RunHeader(Value(), data[..take], k);
      }
      RunHeader(Value(), data[..take], 0);
      CopyHeader(data[..take]);
      headerPos := headerPos + take;
      if headerPos == FRAME_HEADER_LEN {
        streamType := header[0];
        payloadRemaining := FromBigEndian32(header[4], header[5], header[6], header[7]);
        inPayload := true;
        if payloadRemaining == 0 {
          ResetHeader();
        }
      }
    }

    /** Takes payload bytes from the front of `data` into the buffer of the frame's stream. */
    method TakePayload(data: seq<Byte>, stdout: SharedLogBuffer, stderr: SharedLogBuffer) returns (take: nat, ok: bool)
      requires Valid() && inPayload && data != [] && stdout.Valid() && stderr.Valid() && stdout != stderr
      modifies this, stdout, stderr
      ensures Valid() && stdout.Valid() && stderr.Valid() && 0 < take <= |data| && take <= old(payloadRemaining)
      ensures ok <==> && Accepts(old(stdout.Value()), Out(old(Value()), data[..take], STDOUT))
                      && Accepts(old(stderr.Value()), Out(old(Value()), data[..take], STDERR))
      ensures ok ==> && Value() == Run(old(Value()), data[..take])
                     && stdout.Value() == Appended(old(stdout.Value()), Out(old(Value()), data[..take], STDOUT))
                     && stderr.Value() == Appended(old(stderr.Value()), Out(old(Value()), data[..take], STDERR))
      ensures !ok ==> streamType == old(streamType)
    {
      take := if payloadRemaining < |data| then payloadRemaining else |data|;
      var chunk := data[..take];
      RunPayload(Value(), chunk, STDOUT);
      RunPayload(Value(), chunk, STDERR);
      AppendNothing(stdout.Value());
      AppendNothing(stderr.Value());
      ok := true;
      if streamType == STDOUT {
        ok := stdout.Append(chunk);
      } else if streamType == STDERR {
        ok := stderr.Append(chunk);
      }
      if !ok {
        return;
      }
      payloadRemaining := payloadRemaining - take;
      if payloadRemaining == 0 {
        ResetHeader();
      }
    }

    /** One turn of the feeding loop: a slice of header, or a slice of payload. */
    method FeedSlice(data: seq<Byte>, stdout: SharedLogBuffer, stderr: SharedLogBuffer)
      returns (take: nat, ok: bool, kind: Byte, wroteOut: bool, wroteErr: bool)
      requires Valid() && data != [] && stdout.Valid() && stderr.Valid() && stdout != stderr
      modifies this, header, stdout, stderr
      ensures Valid() && stdout.Valid() && stderr.Valid() && 0 < take <= |data|
      ensures Slice(old(Value()), old(stdout.Value()), old(stderr.Value()), data[..take], ok, kind, wroteOut, wroteErr)
      ensures ok ==> && Value() == Run(old(Value()), data[..take])
                     && stdout.Value() == Appended(old(stdout.Value()), Out(old(Value()), data[..take], STDOUT))
                     && stderr.Value() == Appended(old(stderr.Value()), Out(old(Value()), data[..take], STDERR))
    {
      ok, kind, wroteOut, wroteErr := true, streamType, false, false;
      if !inPayload {
        take := TakeHeader(data);
        AppendNothing(stdout.Value());
        AppendNothing(stderr.Value());
      } else {
        ghost var d := Value();
        take, ok := TakePayload(data, stdout, stderr);
        RunPayload(d, data[..take], STDOUT);
        RunPayload(d, data[..take], STDERR);
        wroteOut, wroteErr := kind == STDOUT, kind == STDERR;
      }
    }

    method Feed(input: seq<Byte>, stdout: SharedLogBuffer, stderr: SharedLogBuffer) returns (r: FeedResult)
      requires Valid() && stdout.Valid() && stderr.Valid() && stdout != stderr
      modifies this, header, stdout, stderr
      ensures Valid() && stdout.Valid() && stderr.Valid()
      ensures r == FeedReport(old(Value()), old(stdout.Value()), old(stderr.Value()), input)
      ensures r.Fed? ==> Progress(old(Value()), old(stdout.Value()), old(stderr.Value()), input,
                                  Value(), stdout.Value(), stderr.Value(), |input|)
    {
      ghost var d0, o0, e0 := Value(), stdout.Value(), stderr.Value();
      var data := input;
      var wroteOut, wroteErr := false, false;
      FeedStarts(d0, o0, e0, input);
      while data != []
        invariant Valid() && stdout.Valid() && stderr.Valid()
        invariant Feeding(d0, o0, e0, input, data, Value(), stdout.Value(), stderr.Value(), wroteOut, wroteErr)
        decreases |data|
      {
        ghost var d, o, e := Value(), stdout.Value(), stderr.Value();
        var take, ok, kind, out, err := FeedSlice(data, stdout, stderr);
        if !ok {
          FeedRefused(d0, o0, e0, input, data, take, d, o, e, kind, wroteOut, wroteErr, out, err);
          return Overflow(kind, if kind == STDOUT then stdout.limit else stderr.limit);
        }
        FeedAdvances(d0, o0, e0, input, data, take, d, o, e, kind, wroteOut, wroteErr, out, err);
        wroteOut, wroteErr := wroteOut || out, wroteErr || err;
        data := data[take..];
      }
      FeedEnds(d0, o0, e0, input, Value(), stdout.Value(), stderr.Value(), wroteOut, wroteErr);
      r := Fed(wroteOut, wroteErr);
    }
  }

  /** The loop invariant of `Feed`: some prefix of the input is done and `data` is left. */
  ghost predicate Feeding(d0: Demux, o0: Ring, e0: Ring, input: seq<Byte>, data: seq<Byte>,
                          d: Demux, o: Ring, e: Ring, wroteOut: bool, wroteErr: bool)
    requires d0.Valid() && o0.Valid() && e0.Valid()
  {
    exists done: seq<Byte> ::
      && input == done + data
      && Progress(d0, o0, e0, done, d, o, e, |input|)
      && Fed(wroteOut, wroteErr) == FeedReport(d0, o0, e0, done)
  }

  /** What a feed reports: the offending stream if there is one, else which streams grew. */
  ghost function FeedReport(d: Demux, o: Ring, e: Ring, input: seq<Byte>): FeedResult
    requires d.Valid() && o.Valid() && e.Valid()
  {
    var offender := Offender(d, input, RoomOf(o), RoomOf(e));
    if offender != 0 then Overflow(offender, if offender == STDOUT then o.limit else e.limit)
    else Fed(Out(d, input, STDOUT) != [], Out(d, input, STDERR) != [])
  }

  /** What one slice reports: success when both buffers accept, and which stream was written. */
  ghost predicate Slice(d: Demux, o: Ring, e: Ring, t: seq<Byte>, ok: bool, kind: Byte, wroteOut: bool, wroteErr: bool)
    requires d.Valid()
  {
    && (ok <==> Accepts(o, Out(d, t, STDOUT)) && Accepts(e, Out(d, t, STDERR)))
    && (!ok ==> d.inPayload && kind == d.streamType && |t| <= d.payloadRemaining)
    && (wroteOut <==> Out(d, t, STDOUT) != [])
    && (wroteErr <==> Out(d, t, STDERR) != [])
  }

  lemma AppendNothing(r: Ring)
    requires r.Valid()
    ensures Appended(r, []) == r
  {
    assert Kept(r, []) == [] && r.buf + [] == r.buf;
  }

  /** Where feeding stands after the bytes `done`, fed at most `n` at a time: everything so far
      fitted, the demuxer and both buffers are those of the byte-level specification. */
  ghost predicate Progress(d0: Demux, o0: Ring, e0: Ring, done: seq<Byte>, d: Demux, o: Ring, e: Ring, n: nat)
    requires d0.Valid() && o0.Valid() && e0.Valid()
  {
    && d == Run(d0, done)
    && Received(o0, o, Out(d0, done, STDOUT), n)
    && Received(e0, e, Out(d0, done, STDERR), n)
  }

  lemma FeedStarts(d: Demux, o: Ring, e: Ring, input: seq<Byte>)
    requires d.Valid() && o.Valid() && e.Valid()
    ensures Feeding(d, o, e, input, input, d, o, e, false, false)
  {
    assert input == [] + input && o.buf + [] == o.buf && e.buf + [] == e.buf;
    assert Progress(d, o, e, [], d, o, e, |input|);
  }

  lemma FeedEnds(d0: Demux, o0: Ring, e0: Ring, input: seq<Byte>, d: Demux, o: Ring, e: Ring,
                 wroteOut: bool, wroteErr: bool)
    requires d0.Valid() && o0.Valid() && e0.Valid()
    requires Feeding(d0, o0, e0, input, [], d, o, e, wroteOut, wroteErr)
    ensures Progress(d0, o0, e0, input, d, o, e, |input|)
    ensures Fed(wroteOut, wroteErr) == FeedReport(d0, o0, e0, input)
  {
    var done :| input == done + [] && Progress(d0, o0, e0, done, d, o, e, |input|)
                && Fed(wroteOut, wroteErr) == FeedReport(d0, o0, e0, done);
    assert input == done;
  }

  lemma ProgressAdvances(d0: Demux, o0: Ring, e0: Ring, done: seq<Byte>, d: Demux, o: Ring, e: Ring,
                         t: seq<Byte>, n: nat)
    requires d0.Valid() && o0.Valid() && e0.Valid() && Progress(d0, o0, e0, done, d, o, e, n) && |t| <= n
    requires Accepts(o, Out(d, t, STDOUT)) && Accepts(e, Out(d, t, STDERR))
    ensures Progress(d0, o0, e0, done + t, Run(d, t),
                     Appended(o, Out(d, t, STDOUT)), Appended(e, Out(d, t, STDERR)), n)
  {
    RunAppend(d0, done, t, STDOUT);
    RunAppend(d0, done, t, STDERR);
    ReceivedMore(o0, o, Out(d0, done, STDOUT), Out(d, t, STDOUT), n);
    ReceivedMore(e0, e, Out(d0, done, STDERR), Out(d, t, STDERR), n);
  }

  lemma ReportAdvances(d0: Demux, o0: Ring, e0: Ring, done: seq<Byte>, t: seq<Byte>)
    requires d0.Valid() && o0.Valid() && e0.Valid()
    requires FeedReport(d0, o0, e0, done).Fed?
    requires Fits(RoomOf(o0), |Out(d0, done + t, STDOUT)|) && Fits(RoomOf(e0), |Out(d0, done + t, STDERR)|)
    ensures var d, before := Run(d0, done), FeedReport(d0, o0, e0, done);
            FeedReport(d0, o0, e0, done + t)
            == Fed(before.wroteOut || Out(d, t, STDOUT) != [], before.wroteErr || Out(d, t, STDERR) != [])
  {
    RunAppend(d0, done, t, STDOUT);
    RunAppend(d0, done, t, STDERR);
    OffenderIff(d0, done + t, RoomOf(o0), RoomOf(e0));
  }

  lemma FeedAdvances(d0: Demux, o0: Ring, e0: Ring, input: seq<Byte>, data: seq<Byte>, take: nat,
                     d: Demux, o: Ring, e: Ring, kind: Byte, wroteOut: bool, wroteErr: bool, out: bool, err: bool)
    requires d0.Valid() && o0.Valid() && e0.Valid() && take <= |data|
    requires Feeding(d0, o0, e0, input, data, d, o, e, wroteOut, wroteErr)
    requires Slice(d, o, e, data[..take], true, kind, out, err)
    ensures Feeding(d0, o0, e0, input, data[take..], Run(d, data[..take]),
                    Appended(o, Out(d, data[..take], STDOUT)), Appended(e, Out(d, data[..take], STDERR)),
                    wroteOut || out, wroteErr || err)
  {
    hide Run, Out, Offender;
    var done :| input == done + data && Progress(d0, o0, e0, done, d, o, e, |input|)
                && Fed(wroteOut, wroteErr) == FeedReport(d0, o0, e0, done);
    MoveOver(done, data, take);
    ProgressAdvances(d0, o0, e0, done, d, o, e, data[..take], |input|);
    ReportAdvances(d0, o0, e0, done, data[..take]);
  }

  /** When a slice is refused, the byte-level specification names the stream of that slice. */
  lemma FeedRefused(d0: Demux, o0: Ring, e0: Ring, input: seq<Byte>, data: seq<Byte>, take: nat,
                    d: Demux, o: Ring, e: Ring, kind: Byte, wroteOut: bool, wroteErr: bool, out: bool, err: bool)
    requires d0.Valid() && o0.Valid() && e0.Valid() && take <= |data|
    requires Feeding(d0, o0, e0, input, data, d, o, e, wroteOut, wroteErr)
    requires Slice(d, o, e, data[..take], false, kind, out, err)
    ensures FeedReport(d0, o0, e0, input) == Overflow(kind, if kind == STDOUT then o0.limit else e0.limit)
  {
    var t, rest := data[..take], data[take..];
    var done :| input == done + data && Progress(d0, o0, e0, done, d, o, e, |input|)
                && Fed(wroteOut, wroteErr) == FeedReport(d0, o0, e0, done);
    MoveOver(done, data, take);
    RefusalMeansNoRoom(o0, o, Out(d0, done, STDOUT), Out(d, t, STDOUT), |input|);
    RefusalMeansNoRoom(e0, e, Out(d0, done, STDERR), Out(d, t, STDERR), |input|);
    OffenderAppend(d0, done, t + rest, RoomOf(o0), RoomOf(e0));
    RefusedPayload(d, t, rest, Less(RoomOf(o0), |Out(d0, done, STDOUT)|), Less(RoomOf(e0), |Out(d0, done, STDERR)|));
  }

  lemma RefusedPayload(d: Demux, t: seq<Byte>, rest: seq<Byte>, o: Room, e: Room)
    requires d.Valid() && d.inPayload && |t| <= d.payloadRemaining
    requires !Fits(o, |Out(d, t, STDOUT)|) || !Fits(e, |Out(d, t, STDERR)|)
    ensures Offender(d, t + rest, o, e) == d.streamType != 0
  {
    OffenderAppend(d, t, rest, o, e);
    OffenderIff(d, t, o, e);
    OffenderIsStream(d, t, o, e);
  }

  /** Buffer `r'` is buffer `r` after receiving `bytes` in feeds of at most `n` bytes: the newest
      bytes are kept, and offsets are exact when no feed is longer than the limit. */
  ghost predicate Received(r: Ring, r': Ring, bytes: seq<Byte>, n: nat)
    requires r.Valid()
  {
    && r'.Valid() && r'.limit == r.limit && r'.strict == r.strict
    && Fits(RoomOf(r), |bytes|)
    && r'.buf == LastN(r.buf + bytes, r.limit)
    && r'.Tail() <= r.Tail() + |bytes|
    && (n <= r.limit ==> r'.Tail() == r.Tail() + |bytes|)
  }

  lemma ReceivedMore(r: Ring, r1: Ring, a: seq<Byte>, b: seq<Byte>, n: nat)
    requires r.Valid() && Received(r, r1, a, n) && |b| <= n && Accepts(r1, b)
    ensures Received(r, Appended(r1, b), a + b, n)
  {
    hide LastN;
    Assoc(r.buf, a, b);
    LastNOfAppend(r.buf + a, b, r.limit);
    ContentsAfterAppend(r1, b);
    TailAfterAppend(r1, b);
    hide Appended;
  }

  lemma TailAfterAppend(r: Ring, b: seq<Byte>)
    requires r.Valid() && Accepts(r, b)
    ensures Appended(r, b).Tail() <= r.Tail() + |b|
    ensures |b| <= r.limit ==> Appended(r, b).Tail() == r.Tail() + |b|
    ensures r.strict ==> |r.buf| + |b| <= r.limit || b == []
  {
    TailCountsEveryByte(r, b);
  }

  lemma RefusalMeansNoRoom(r: Ring, r1: Ring, a: seq<Byte>, b: seq<Byte>, n: nat)
    requires r.Valid() && Received(r, r1, a, n)
    ensures !Accepts(r1, b) ==> !Fits(Less(RoomOf(r), |a|), |b|)
  {
  }

  lemma {:induction false} OffenderIsStream(d: Demux, chunk: seq<Byte>, o: Room, e: Room)
    requires d.Valid() && d.inPayload && |chunk| <= d.payloadRemaining
    ensures Offender(d, chunk, o, e) in {0, d.streamType}
    decreases |chunk|
  {
    if |chunk| > 1 {
      OffenderIsStream(Step(d, chunk[0]), chunk[1..], if d.streamType == STDOUT && o != Left(0) then Less(o, 1) else o,
                       if d.streamType == STDERR && e != Left(0) then Less(e, 1) else e);
    } else if |chunk| == 1 {
      assert chunk[1..] == [];
    }
  }

  /* ---- The batch form and what both forms mean ---- */

  /** One frame as the daemon writes it. */
  datatype Frame = Frame(kind: Byte, payload: seq<Byte>)

  function BigEndian32(n: nat): (s: seq<Byte>)
    requires n < 0x1_0000_0000
    ensures |s| == 4 && FromBigEndian32(s[0], s[1], s[2], s[3]) == n
  {
    var n1 := n / 0x100;
    var n2 := n1 / 0x100;
    [n2 / 0x100, n2 % 0x100, n1 % 0x100, n % 0x100]
  }

  function FrameHeader(kind: Byte, n: nat): (h: seq<Byte>)
    requires n < 0x1_0000_0000
    ensures |h| == FRAME_HEADER_LEN && h[0] == kind && PayloadLen(h) == n
  {
    var len := BigEndian32(n);
    [kind, 0, 0, 0, len[0], len[1], len[2], len[3]]
  }

  ghost predicate Sendable(frames: seq<Frame>) {
    forall i :: 0 <= i < |frames| ==> |frames[i].payload| < 0x1_0000_0000
  }

  ghost function EncodeFrames(frames: seq<Frame>): seq<Byte>
    requires Sendable(frames)
  {
    if frames == [] then []
    else FrameHeader(frames[0].kind, |frames[0].payload|) + frames[0].payload + EncodeFrames(frames[1..])
  }

  ghost function Payloads(frames: seq<Frame>, k: Byte): seq<Byte> {
    if frames == [] then []
    else (if frames[0].kind == k then frames[0].payload else []) + Payloads(frames[1..], k)
  }

  /** A frame boundary followed by a frame of which only `part` has arrived. */
  lemma OneFrame(d: Demux, h: seq<Byte>, part: seq<Byte>, k: Byte)
    requires d.AtBoundary() && |h| == FRAME_HEADER_LEN && |part| <= PayloadLen(h)
    ensures Out(d, h + part, k) == if h[0] == k then part else []
    ensures |part| == PayloadLen(h) ==> Run(d, h + part).AtBoundary()
  {
    RunHeader(d, h, k);
    assert d.header[..0] + h + d.header[FRAME_HEADER_LEN..] == h;
    RunAppend(d, h, part, k);
    if PayloadLen(h) > 0 {
      RunPayload(AfterHeader(h), part, k);
    }
  }

  /** One frame in the bytes of the protocol: the stream type, three bytes that mean nothing, and
      the length in big-endian order. Type 1 goes to standard output, type 2 to standard error,
      and anything else nowhere. */
  lemma FrameInBytes(d: Demux, kind: Byte, x: Byte, y: Byte, z: Byte, b3: Byte, b2: Byte, b1: Byte, b0: Byte,
                     part: seq<Byte>)
    requires d.AtBoundary() && |part| <= b3 * 16777216 + b2 * 65536 + b1 * 256 + b0
    ensures var data := [kind, x, y, z, b3, b2, b1, b0] + part;
            && Out(d, data, STDOUT) == (if kind == 1 then part else [])
            && Out(d, data, STDERR) == (if kind == 2 then part else [])
            && (|part| == b3 * 16777216 + b2 * 65536 + b1 * 256 + b0 ==> Run(d, data).AtBoundary())
  {
    var h := [kind, x, y, z, b3, b2, b1, b0];
    hide Run, Out;
    OneFrame(d, h, part, STDOUT);
    OneFrame(d, h, part, STDERR);
  }

  /** Demultiplexing undoes framing, for any frames and with the last frame cut anywhere. */
  lemma {:induction false} DemuxUndoesFraming(d: Demux, frames: seq<Frame>, kind: Byte, n: nat, part: seq<Byte>,
                                              k: Byte)
    requires d.AtBoundary() && Sendable(frames) && n < 0x1_0000_0000 && |part| <= n
    ensures Out(d, EncodeFrames(frames) + FrameHeader(kind, n) + part, k)
         == Payloads(frames, k) + if kind == k then part else []
    decreases |frames|
  {
    hide Run, Out, FrameHeader, PayloadLen;
    var h := FrameHeader(kind, n);
    if frames == [] {
      assert EncodeFrames(frames) + h == h;
      OneFrame(d, h, part, k);
    } else {
      var f, tail := frames[0], EncodeFrames(frames[1..]) + h + part;
      var first := FrameHeader(f.kind, |f.payload|) + f.payload;
      Assoc(first, EncodeFrames(frames[1..]), h);
      Assoc(first, EncodeFrames(frames[1..]) + h, part);
      OneFrame(d, FrameHeader(f.kind, |f.payload|), f.payload, k);
      RunAppend(d, first, tail, k);
      DemuxUndoesFraming(Run(d, first), frames[1..], kind, n, part, k);
      Assoc(Out(d, first, k), Payloads(frames[1..], k), if kind == k then part else []);
    }
  }

  /** A header cut short delivers nothing. */
  lemma PartialHeaderIsSilent(d: Demux, h: seq<Byte>, k: Byte)
    requires d.AtBoundary() && |h| < FRAME_HEADER_LEN
    ensures Out(d, h, k) == []
  {
    RunHeader(d, h, k);
  }

  /** One turn of the batch loop: the frame at `pos` is consumed up to `end`. */
  lemma BatchStep(d: Demux, data: seq<Byte>, pos: nat, end: nat) returns (d': Demux)
    requires d.AtBoundary() && pos + FRAME_HEADER_LEN <= end <= |data|
    requires end - pos - FRAME_HEADER_LEN <= PayloadLen(data[pos..pos + FRAME_HEADER_LEN])
    requires end < |data| ==> end - pos - FRAME_HEADER_LEN == PayloadLen(data[pos..pos + FRAME_HEADER_LEN])
    ensures d'.Valid() && (d'.AtBoundary() || end == |data|)
    ensures forall k: Byte ::
              Out(d, data[pos..], k)
              == (if data[pos] == k then data[pos + FRAME_HEADER_LEN..end] else []) + Out(d', data[end..], k)
  {
    var h, chunk := data[pos..pos + FRAME_HEADER_LEN], data[pos + FRAME_HEADER_LEN..end];
    assert data[pos..] == (h + chunk) + data[end..];
    d' := Run(d, h + chunk);
    forall k: Byte
      ensures Out(d, data[pos..], k) == (if data[pos] == k then chunk else []) + Out(d', data[end..], k)
    {
      OneFrame(d, h, chunk, k);
      RunAppend(d, h + chunk, data[end..], k);
    }
    OneFrame(d, h, chunk, 0);
  }

  /** `out` and what is still to come from `pos` on make up stream `k`. */
  ghost predicate BatchAt(data: seq<Byte>, pos: nat, d: Demux, out: seq<Byte>, k: Byte)
    requires d.Valid() && pos <= |data|
  {
    Out(START, data, k) == out + Out(d, data[pos..], k)
  }

  lemma BatchTurn(d: Demux, data: seq<Byte>, pos: nat, end: nat, d': Demux, out: seq<Byte>, k: Byte)
    requires d.Valid() && d'.Valid() && pos + FRAME_HEADER_LEN <= end <= |data| && BatchAt(data, pos, d, out, k)
    requires Out(d, data[pos..], k)
          == (if data[pos] == k then data[pos + FRAME_HEADER_LEN..end] else []) + Out(d', data[end..], k)
    ensures BatchAt(data, end, d', if data[pos] == k then out + data[pos + FRAME_HEADER_LEN..end] else out, k)
  {
    hide Out;
    if data[pos] == k {
      Assoc(out, data[pos + FRAME_HEADER_LEN..end], Out(d', data[end..], k));
    } else {
      Assoc(out, [], Out(d', data[end..], k));
    }
  }

  lemma BatchBegins(data: seq<Byte>, k: Byte)
    ensures BatchAt(data, 0, START, [], k)
  {
    assert data[0..] == data;
  }

  lemma BatchEnds(data: seq<Byte>, pos: nat, d: Demux, out: seq<Byte>, k: Byte)
    requires d.Valid() && pos <= |data| && BatchAt(data, pos, d, out, k)
    requires pos == |data| || (d.AtBoundary() && |data| < pos + FRAME_HEADER_LEN)
    ensures out == Out(START, data, k)
  {
    if pos == |data| {
      assert data[pos..] == [];
    } else {
      PartialHeaderIsSilent(d, data[pos..], k);
    }
  }

  /** The batch form used for exec output agrees with the incremental form on every input. */
  method DemuxExecStream(data: seq<Byte>) returns (stdout: seq<Byte>, stderr: seq<Byte>)
    ensures stdout == Out(START, data, STDOUT)
    ensures stderr == Out(START, data, STDERR)
  {
    hide Run, Out, BatchAt;
    stdout, stderr := [], [];
    var pos := 0;
    ghost var d := START;
    BatchBegins(data, STDOUT);
    BatchBegins(data, STDERR);
    while pos + FRAME_HEADER_LEN <= |data|
      invariant pos <= |data|
      invariant d.AtBoundary() || pos == |data|
      invariant d.Valid()
      invariant BatchAt(data, pos, d, stdout, STDOUT) && BatchAt(data, pos, d, stderr, STDERR)
      decreases |data| - pos
    {
      ghost var pos0, d0, stdout0, stderr0 := pos, d, stdout, stderr;
      var streamType := data[pos];
      var payloadLen := FromBigEndian32(data[pos + 4], data[pos + 5], data[pos + 6], data[pos + 7]);
      pos := pos + FRAME_HEADER_LEN;
      var end := if pos + payloadLen < |data| then pos + payloadLen else |data|;
      var chunk := data[pos..end];
      if streamType == STDOUT {
        stdout := stdout + chunk;
      } else if streamType == STDERR {
        stderr := stderr + chunk;
      }
      d := BatchStep(d, data, pos0, end);
      BatchTurn(d0, data, pos0, end, d, stdout0, STDOUT);
      BatchTurn(d0, data, pos0, end, d, stderr0, STDERR);
      pos := end;
    }
    BatchEnds(data, pos, d, stdout, STDOUT);
    BatchEnds(data, pos, d, stderr, STDERR);
  }
}
