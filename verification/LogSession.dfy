/** The two log sessions built on the demuxer: the follow session, which keeps the newest bytes
    of each stream, and the one-shot fetch, which returns every byte or an error. The HTTP body
    arrives as an arbitrary sequence of decoded chunks. */
module LogSession {
  import opened Bytes
  import opened LogBuffer
  import opened FrameDemux

  lemma ReceivedCompose(r: Ring, r1: Ring, r2: Ring, a: seq<Byte>, b: seq<Byte>, n: nat)
    requires r.Valid() && r1.Valid() && Received(r, r1, a, n) && Received(r1, r2, b, n)
    ensures Received(r, r2, a + b, n)
  {
    hide LastN;
    assert r.buf + a + b == r.buf + (a + b);
    LastNOfAppend(r.buf + a, b, r.limit);
  }

  lemma ProgressCompose(d0: Demux, o0: Ring, e0: Ring, a: seq<Byte>, d1: Demux, o1: Ring, e1: Ring,
                        b: seq<Byte>, d2: Demux, o2: Ring, e2: Ring, n: nat)
    requires d0.Valid() && o0.Valid() && e0.Valid() && Progress(d0, o0, e0, a, d1, o1, e1, n)
    requires Progress(d1, o1, e1, b, d2, o2, e2, n)
    ensures Progress(d0, o0, e0, a + b, d2, o2, e2, n)
  {
    hide Run, Out, LastN;
    RunAppend(d0, a, b, STDOUT);
    RunAppend(d0, a, b, STDERR);
    ReceivedCompose(o0, o1, o2, Out(d0, a, STDOUT), Out(d1, b, STDOUT), n);
    ReceivedCompose(e0, e1, e2, Out(d0, a, STDERR), Out(d1, b, STDERR), n);
  }

  /** A chunk that overflows makes the whole input overflow, on the same stream. */
  lemma OverflowPersists(d0: Demux, o0: Ring, e0: Ring, a: seq<Byte>, d: Demux, o: Ring, e: Ring,
                         chunk: seq<Byte>, rest: seq<Byte>, n: nat)
    requires d0.Valid() && o0.Valid() && e0.Valid() && Progress(d0, o0, e0, a, d, o, e, n)
    requires FeedReport(d, o, e, chunk).Overflow?
    ensures FeedReport(d0, o0, e0, a + (chunk + rest)) == FeedReport(d, o, e, chunk)
  {
    OffenderIff(d0, a, RoomOf(o0), RoomOf(e0));
    OffenderAppend(d0, a, chunk + rest, RoomOf(o0), RoomOf(e0));
    OffenderAppend(d, chunk, rest, RoomOf(o), RoomOf(e));
    RoomAfter(o0, o, Out(d0, a, STDOUT), n);
    RoomAfter(e0, e, Out(d0, a, STDERR), n);
  }

  lemma RoomAfter(r: Ring, r1: Ring, a: seq<Byte>, n: nat)
    requires r.Valid() && Received(r, r1, a, n)
    ensures RoomOf(r1) == Less(RoomOf(r), |a|)
  {
  }

  lemma ConcatSplit(chunks: seq<seq<Byte>>, i: nat)
    requires i < |chunks|
    ensures Concat(chunks[..i + 1]) == Concat(chunks[..i]) + chunks[i]
    ensures Concat(chunks) == Concat(chunks[..i]) + (chunks[i] + Concat(chunks[i + 1..]))
  {
    hide Concat;
    CutAround(chunks, i);
    ConcatSnoc(chunks[..i], chunks[i]);
    ConcatAppend(chunks[..i + 1], chunks[i + 1..]);
    Assoc(Concat(chunks[..i]), chunks[i], Concat(chunks[i + 1..]));
  }

  lemma NothingFed(d: Demux, o: Ring, e: Ring, n: nat)
    requires d.Valid() && o.Valid() && e.Valid()
    ensures Progress(d, o, e, [], d, o, e, n)
  {
    assert o.buf + [] == o.buf && e.buf + [] == e.buf;
  }

  lemma ChunkFed(d0: Demux, o0: Ring, e0: Ring, chunks: seq<seq<Byte>>, i: nat, d: Demux, o: Ring, e: Ring,
                 d': Demux, o': Ring, e': Ring, n: nat)
    requires d0.Valid() && o0.Valid() && e0.Valid() && i < |chunks| && |chunks[i]| <= n
    requires Progress(d0, o0, e0, Concat(chunks[..i]), d, o, e, n)
    requires Progress(d, o, e, chunks[i], d', o', e', |chunks[i]|)
    ensures Progress(d0, o0, e0, Concat(chunks[..i + 1]), d', o', e', n)
  {
    hide Run, Out, Concat;
    ConcatSplit(chunks, i);
    ProgressCompose(d0, o0, e0, Concat(chunks[..i]), d, o, e, chunks[i], d', o', e', n);
  }

  lemma ChunkOverflows(d0: Demux, o0: Ring, e0: Ring, chunks: seq<seq<Byte>>, i: nat, d: Demux, o: Ring, e: Ring,
                       n: nat)
    requires d0.Valid() && o0.Valid() && e0.Valid() && i < |chunks|
    requires Progress(d0, o0, e0, Concat(chunks[..i]), d, o, e, n)
    requires FeedReport(d, o, e, chunks[i]).Overflow?
    ensures Offender(d0, Concat(chunks), RoomOf(o0), RoomOf(e0)) == FeedReport(d, o, e, chunks[i]).stream
  {
    ConcatSplit(chunks, i);
    OverflowPersists(d0, o0, e0, Concat(chunks[..i]), d, o, e, chunks[i], Concat(chunks[i + 1..]), n);
  }

  /** Feeds every chunk in turn, stopping at the first overflow. Whatever the chunking, the
      outcome is that of the whole byte string. */
  method FeedChunks(demuxer: FrameDemuxer, chunks: seq<seq<Byte>>, stdout: SharedLogBuffer, stderr: SharedLogBuffer,
                    ghost longest: nat) returns (overflow: Byte)
    requires demuxer.Valid() && stdout.Valid() && stderr.Valid() && stdout != stderr
    requires forall i :: 0 <= i < |chunks| ==> |chunks[i]| <= longest
    modifies demuxer, demuxer.header, stdout, stderr
    ensures demuxer.Valid() && stdout.Valid() && stderr.Valid()
    ensures overflow
         == Offender(old(demuxer.Value()), Concat(chunks), RoomOf(old(stdout.Value())), RoomOf(old(stderr.Value())))
    ensures overflow == 0 ==>
              Progress(old(demuxer.Value()), old(stdout.Value()), old(stderr.Value()), Concat(chunks),
                       demuxer.Value(), stdout.Value(), stderr.Value(), longest)
  {
    ghost var d0, o0, e0 := demuxer.Value(), stdout.Value(), stderr.Value();
    assert chunks[..0] == [];
    NothingFed(d0, o0, e0, longest);
    for i := 0 to |chunks|
      invariant demuxer.Valid() && stdout.Valid() && stderr.Valid()
      invariant Progress(d0, o0, e0, Concat(chunks[..i]), demuxer.Value(), stdout.Value(), stderr.Value(), longest)
    {
      ghost var d, o, e := demuxer.Value(), stdout.Value(), stderr.Value();
      var r := demuxer.Feed(chunks[i], stdout, stderr);
      if r.Overflow? {
        ChunkOverflows(d0, o0, e0, chunks, i, d, o, e, longest);
        return r.stream;
      }
      ChunkFed(d0, o0, e0, chunks, i, d, o, e, demuxer.Value(), stdout.Value(), stderr.Value(), longest);
    }
    assert chunks[..|chunks|] == chunks;
    OffenderIff(d0, Concat(chunks), RoomOf(o0), RoomOf(e0));
    overflow := 0;
  }

  /** Copies the whole contents out through a fixed-size window. */
  method DrainBuffer(buffer: SharedLogBuffer) returns (out: seq<Byte>)
    requires buffer.Valid()
    ensures out == buffer.buf
  {
    out := [];
    var chunk := new Byte[READ_CHUNK](_ => 0);
    var offset := buffer.head;
    while true
      invariant buffer.head <= offset <= buffer.Value().Tail()
      invariant out == buffer.buf[..offset - buffer.head]
      decreases buffer.Value().Tail() - offset
    {
      var n, next, skipped := buffer.ReadAt(offset, chunk);
      if n == 0 {
        return;
      }
      out := out + chunk[..n];
      offset := next;
    }
  }

  datatype Fetched = Fetched(stdout: seq<Byte>, stderr: seq<Byte>) | TooLong(stream: Byte)

  /** The one-shot fetch: all bytes of both streams, or an error naming the stream whose
      byte first exceeded the limit. Neither depends on the chunking. */
  method FetchLogsOneshot(chunks: seq<seq<Byte>>, limit: nat) returns (r: Fetched)
    ensures r == var offender := Offender(START, Concat(chunks), Left(limit), Left(limit));
                 if offender != 0 then TooLong(offender)
                 else Fetched(Out(START, Concat(chunks), STDOUT), Out(START, Concat(chunks), STDERR))
    ensures r.Fetched? <==> && |Out(START, Concat(chunks), STDOUT)| <= limit
                            && |Out(START, Concat(chunks), STDERR)| <= limit
  {
    var demuxer := new FrameDemuxer();
    var stdout := new SharedLogBuffer(limit, true);
    var stderr := new SharedLogBuffer(limit, true);
    var overflow := FeedChunks(demuxer, chunks, stdout, stderr, |Concat(chunks)| + Longest(chunks));
    OffenderIff(START, Concat(chunks), Left(limit), Left(limit));
    if overflow != 0 {
      return TooLong(overflow);
    }
    var out := DrainBuffer(stdout);
    var err := DrainBuffer(stderr);
    r := Fetched(out, err);
  }

  ghost function Longest(chunks: seq<seq<Byte>>): (n: nat)
    ensures forall i :: 0 <= i < |chunks| ==> |chunks[i]| <= n
  {
    if chunks == [] then 0
    else
      var n := Longest(chunks[1..]);
      assert forall i :: 1 <= i < |chunks| ==> chunks[i] == chunks[1..][i - 1];
      if |chunks[0]| < n then n else |chunks[0]|
  }

  /** The follow session: same frames in any two cuts, same demuxer and same buffer contents;
      with chunks no longer than the limit, also the same absolute offsets. */
  lemma ChunkingIsInvisible(d0: Demux, o0: Ring, e0: Ring, a: seq<seq<Byte>>, b: seq<seq<Byte>>,
                            da: Demux, oa: Ring, ea: Ring, db: Demux, ob: Ring, eb: Ring)
    requires d0.Valid() && o0.Valid() && e0.Valid() && Concat(a) == Concat(b)
    requires Progress(d0, o0, e0, Concat(a), da, oa, ea, Longest(a))
    requires Progress(d0, o0, e0, Concat(b), db, ob, eb, Longest(b))
    ensures da == db && oa.buf == ob.buf && ea.buf == eb.buf
    ensures Longest(a) <= o0.limit && Longest(b) <= o0.limit ==> oa == ob
    ensures Longest(a) <= e0.limit && Longest(b) <= e0.limit ==> ea == eb
  {
  }

  /** Without that bound offsets do depend on the cut: two bytes into a one-byte ring. */
  lemma OffsetsNeedShortChunks()
    ensures var r := NewRing(1, false);
            Appended(r, [7, 7]).head != Appended(Appended(r, [7]), [7]).head
  {
    var r := NewRing(1, false);
    var one := [7];
    var r1 := Appended(r, one);
    assert r.buf + one == one && |LastN(one, 1)| == 1;
    assert r1.Tail() == 1 && |r1.buf| == 1;
    assert |Kept(r, [7, 7])| == 1;
  }

  /** While nothing overflows, the streaming contents are the batch contents. */
  lemma FollowEqualsBatch(input: seq<Byte>, limit: nat, d: Demux, o: Ring, e: Ring, n: nat)
    requires Progress(START, NewRing(limit, false), NewRing(limit, false), input, d, o, e, n)
    ensures o.buf == LastN(Out(START, input, STDOUT), limit)
    ensures |Out(START, input, STDOUT)| <= limit ==> o.buf == Out(START, input, STDOUT)
    ensures |Out(START, input, STDERR)| <= limit ==> e.buf == Out(START, input, STDERR)
  {
    assert [] + Out(START, input, STDOUT) == Out(START, input, STDOUT);
    assert [] + Out(START, input, STDERR) == Out(START, input, STDERR);
  }
}
