/** Bounded line splitting of a log stream for delivery to consumers. */
module LineReader {
  import opened Bytes

  datatype LineRead =
    | Line(bytes: seq<Byte>)
    | Truncated(bytes: seq<Byte>)
    | Final(bytes: seq<Byte>)
    | Closed
    | Failed

  /** Position of the first line feed, or the length when there is none. */
  function FirstLf(s: seq<Byte>): (p: nat)
    ensures p <= |s| && (p < |s| ==> s[p] == LF) && LF !in s[..p]
  {
    if s == [] || s[0] == LF then 0
    else
      assert forall i :: 0 <= i <= |s| - 1 ==> s[..i + 1] == [s[0]] + s[1..][..i];
      1 + FirstLf(s[1..])
  }

  lemma FirstLfIs(s: seq<Byte>, p: nat)
    requires p <= |s| && (p < |s| ==> s[p] == LF) && LF !in s[..p]
    ensures FirstLf(s) == p
  {
  }

  function StripCr(s: seq<Byte>): seq<Byte> {
    if s != [] && s[|s| - 1] == CR then s[..|s| - 1] else s
  }

  /** The chunk-free specification of one read: the value and how many bytes it consumes.
      `broken` says that the stream ends in a read error instead of an end of file. */
  function ReadSpec(s: seq<Byte>, limit: nat, broken: bool): (r: (LineRead, nat))
    ensures r.1 <= |s|
  {
    var p := FirstLf(s);
    if p < |s| then
      (if p <= limit then Line(StripCr(s[..p])) else Truncated(s[..limit]), p + 1)
    else
      (if broken then Failed
       else if |s| > limit then Truncated(s[..limit])
       else if s == [] then Closed
       else Final(StripCr(s)), |s|)
  }

  /* ---- The specification by example of every shape of input ---- */

  lemma FirstLfOf(x: seq<Byte>, rest: seq<Byte>)
    requires 10 !in x
    ensures FirstLf(x + [10] + rest) == |x| && FirstLf(x) == |x|
    ensures (x + [10] + rest)[..|x|] == x && |x| < |x + [10] + rest|
  {
    LineInFront(x, 10, rest);
    assert x[..|x|] == x;
    FirstLfIs(x + [10] + rest, |x|);
    FirstLfIs(x, |x|);
  }

  lemma LineInFront<T>(x: seq<T>, lf: T, rest: seq<T>)
    ensures (x + [lf] + rest)[..|x|] == x && (x + [lf] + rest)[|x|] == lf
    ensures (x + [lf] + rest)[|x| + 1..] == rest
    ensures forall n :: 0 <= n <= |x| ==> (x + [lf] + rest)[..n] == x[..n]
  {
  }

  /** One trailing carriage return goes, and nothing else. */
  lemma OneCrGoes(x: seq<Byte>)
    ensures (x == [] || x[|x| - 1] != 13) ==> StripCr(x) == x
    ensures StripCr(x + [13]) == x
  {
  }

  /** A terminated line within the limit arrives without its line end, be that a line feed or a
      carriage return and a line feed; a longer one arrives as its first `limit` bytes. The whole
      line is consumed. */
  lemma TerminatedLine(x: seq<Byte>, rest: seq<Byte>, limit: nat, broken: bool)
    requires 10 !in x
    ensures |x| <= limit && (x == [] || x[|x| - 1] != 13) ==>
              ReadSpec(x + [10] + rest, limit, broken) == (Line(x), |x| + 1)
    ensures |x| + 1 <= limit ==> ReadSpec(x + [13] + [10] + rest, limit, broken) == (Line(x), |x| + 2)
    ensures |x| > limit ==> ReadSpec(x + [10] + rest, limit, broken) == (Truncated(x[..limit]), |x| + 1)
  {
    hide FirstLf, StripCr;
    FirstLfOf(x, rest);
    FirstLfOf(x + [13], rest);
    OneCrGoes(x);
    LineInFront(x, 10, rest);
  }

  /** What follows the last line feed: the same at the end of the input, nothing when there is
      nothing, and an error when the stream broke. */
  lemma UnterminatedLine(x: seq<Byte>, limit: nat)
    requires 10 !in x
    ensures x != [] && |x| <= limit && x[|x| - 1] != 13 ==> ReadSpec(x, limit, false) == (Final(x), |x|)
    ensures |x| + 1 <= limit ==> ReadSpec(x + [13], limit, false) == (Final(x), |x| + 1)
    ensures |x| > limit ==> ReadSpec(x, limit, false) == (Truncated(x[..limit]), |x|)
    ensures ReadSpec([], limit, false) == (Closed, 0)
    ensures ReadSpec(x, limit, true) == (Failed, |x|)
  {
    hide FirstLf, StripCr;
    FirstLfOf(x, []);
    FirstLfOf(x + [13], []);
    FirstLfOf([], []);
    OneCrGoes(x);
  }

  /** A buffered reader over any chunking of its input: each refill yields the next nonempty
      piece, an end of file, or a read error. */
  class ChunkedReader {
    var chunks: seq<seq<Byte>>
    const broken: bool

    constructor (chunks: seq<seq<Byte>>, broken: bool)
      requires forall i :: 0 <= i < |chunks| ==> chunks[i] != []
      ensures Valid() && this.chunks == chunks && this.broken == broken
    {
      this.chunks, this.broken := chunks, broken;
    }

    ghost predicate Valid()
      reads this
    {
      forall i :: 0 <= i < |chunks| ==> chunks[i] != []
    }

    ghost function Rest(): seq<Byte>
      reads this
    {
      Concat(chunks)
    }

    method FillBuf() returns (ok: bool, buf: seq<Byte>)
      requires Valid()
      ensures ok <==> chunks != [] || !broken
      ensures if chunks == [] then buf == [] && Rest() == [] else buf == chunks[0] && buf != [] && buf <= Rest()
    {
      if |chunks| > 0 {
        return true, chunks[0];
      }
      return !broken, [];
    }

    method Consume(n: nat)
      requires Valid()
      requires n <= if chunks == [] then 0 else |chunks[0]|
      modifies this
      ensures Valid()
      ensures n <= |old(Rest())| && Rest() == old(Rest())[n..]
    {
      if |chunks| > 0 {
        assert (chunks[0] + Concat(chunks[1..]))[n..] == chunks[0][n..] + Concat(chunks[1..]);
        if n == |chunks[0]| {
          chunks := chunks[1..];
        } else {
          ghost var tail := chunks[1..];
          chunks := [chunks[0][n..]] + chunks[1..];
          assert chunks[1..] == tail;
        }
      }
    }
  }

  predicate NoLf(s: seq<Byte>) {
    LF !in s
  }

  /** Where a read of `all` stands after `done`: everything so far is in `line`, or the line is
      known to be too long, `line` is its first `limit` bytes and the rest is being dropped. */
  ghost predicate Reading(all: seq<Byte>, done: seq<Byte>, line: seq<Byte>, cut: bool, limit: nat) {
    && NoLf(done)
    && if cut then |line| == limit <= |done| && line <= all && limit < |all| && all[limit] != LF
       else line == done && |line| <= limit
  }

  ghost predicate Pending(all: seq<Byte>, data: seq<Byte>, line: seq<Byte>, cut: bool, limit: nat) {
    exists done: seq<Byte> :: all == done + data && Reading(all, done, line, cut, limit)
  }

  lemma NothingRead(all: seq<Byte>, limit: nat)
    ensures Pending(all, all, [], false, limit)
  {
    assert all == [] + all && Reading(all, [], [], false, limit);
  }

  /** A newline at `pos` of the data in hand decides the read. */
  lemma NewlineDecides(all: seq<Byte>, data: seq<Byte>, line: seq<Byte>, cut: bool, limit: nat, broken: bool, pos: nat)
    requires Pending(all, data, line, cut, limit)
    requires pos < |data| && data[pos] == LF && NoLf(data[..pos])
    ensures var r := ReadSpec(all, limit, broken);
            && r.0 == (if cut then Truncated(line)
                       else if |line| + pos > limit && limit >= |line| then Truncated(line + data[..limit - |line|])
                       else Line(StripCr(line + data[..pos])))
            && data[pos + 1..] == all[r.1..]
  {
    hide StripCr, FirstLf, ReadSpec, NoLf, Reading;
    var done :| all == done + data && Reading(all, done, line, cut, limit);
    ReadingMeans(all, done, line, cut, limit);
    FirstLfAcross(all, done, data, pos);
    SpecAtNewline(all, limit, broken, |done| + pos);
    if cut {
      assert all[limit] != all[|done| + pos];
    } else if |done| + pos > limit {
      HeadAcross(all, line, data, limit);
    }
  }

  lemma HeadAcross<T>(all: seq<T>, line: seq<T>, data: seq<T>, limit: nat)
    requires all == line + data && |line| <= limit <= |all|
    ensures all[..limit] == line + data[..limit - |line|]
  {
  }

  lemma ReadingMeans(all: seq<Byte>, done: seq<Byte>, line: seq<Byte>, cut: bool, limit: nat)
    requires Reading(all, done, line, cut, limit)
    ensures NoLf(done)
    ensures if cut then limit <= |done| && limit < |all| && all[..limit] == line && all[limit] != LF
            else line == done && |line| <= limit
  {
  }

  lemma SpecAtNewline(all: seq<Byte>, limit: nat, broken: bool, p: nat)
    requires p < |all| && FirstLf(all) == p
    ensures ReadSpec(all, limit, broken)
         == (if p <= limit then Line(StripCr(all[..p])) else Truncated(all[..limit]), p + 1)
  {
    hide FirstLf, StripCr;
  }

  lemma TakeAcross<T>(all: seq<T>, done: seq<T>, data: seq<T>, n: nat)
    requires all == done + data && n <= |data|
    ensures all[..|done| + n] == done + data[..n] && all[|done| + n..] == data[n..]
  {
  }

  lemma FirstLfAcross(all: seq<Byte>, done: seq<Byte>, data: seq<Byte>, pos: nat)
    requires all == done + data && NoLf(done)
    requires pos < |data| && data[pos] == LF && NoLf(data[..pos])
    ensures FirstLf(all) == |done| + pos && all[|done| + pos] == LF
    ensures all[..|done| + pos] == done + data[..pos] && data[pos + 1..] == all[|done| + pos + 1..]
  {
    TakeAcross(all, done, data, pos);
    TakeAcross(all, done, data, pos + 1);
    FirstLfIs(all, |done| + pos);
  }

  /** The end of the input decides the read. */
  lemma EndDecides(all: seq<Byte>, line: seq<Byte>, cut: bool, limit: nat, broken: bool)
    requires Pending(all, [], line, cut, limit)
    ensures ReadSpec(all, limit, broken)
         == (if broken then Failed
             else if cut then Truncated(line)
             else if line == [] then Closed else Final(StripCr(line)), |all|)
  {
    var done :| all == done + [] && Reading(all, done, line, cut, limit);
    assert all == done && all[..|all|] == all;
    FirstLfIs(all, |all|);
    assert cut ==> all[..limit] == line;
  }

  /** A piece without a newline is dropped when the line is already cut, accumulated when it
      still fits, and otherwise taken up to the limit. */
  lemma PieceAdvances(all: seq<Byte>, data: seq<Byte>, line: seq<Byte>, cut: bool, limit: nat, n: nat, m: nat)
    requires Pending(all, data, line, cut, limit) && |line| <= limit
    requires 0 < n <= |data| && NoLf(data[..n])
    requires m == if cut || |line| + n <= limit then n else limit - |line|
    ensures if cut then Pending(all, data[m..], line, true, limit)
            else Pending(all, data[m..], line + data[..m], m < n, limit)
  {
    var done :| all == done + data && Reading(all, done, line, cut, limit);
    MoveOver(done, data, m);
    var next := done + data[..m];
    assert NoLf(data[..m]) by {
      assert forall i :: 0 <= i < m ==> data[..m][i] == data[..n][i];
    }
    assert NoLf(next);
    if !cut && m < n {
      assert all[limit] == data[m] == data[..n][m];
    }
    assert Reading(all, next, if cut then line else line + data[..m], cut || m < n, limit);
  }

  /** One bounded line. The value and the bytes consumed are those of the chunk-free
      specification, whatever the refills look like; the accumulator never exceeds `limit`. */
  method ReadLineLimited(reader: ChunkedReader, limit: nat) returns (r: LineRead)
    requires reader.Valid()
    modifies reader
    ensures reader.Valid()
    ensures r == ReadSpec(old(reader.Rest()), limit, reader.broken).0
    ensures reader.Rest() == old(reader.Rest())[ReadSpec(old(reader.Rest()), limit, reader.broken).1..]
  {
    hide Pending, ReadSpec, FirstLf, Concat, StripCr;
    var line: seq<Byte> := [];
    var truncated := false;
    ghost var all := reader.Rest();
    NothingRead(all, limit);
    while true
      invariant reader.Valid() && |line| <= limit
      invariant Pending(all, reader.Rest(), line, truncated, limit)
      decreases |reader.Rest()|, !truncated
    {
      var ok, buf := reader.FillBuf();
      ghost var data := reader.Rest();
      if !ok {
        EndDecides(all, line, truncated, limit, true);
        return Failed;
      }
      if |buf| == 0 {
        EndDecides(all, line, truncated, limit, false);
        if truncated {
          return Truncated(line);
        }
        if |line| == 0 {
          return Closed;
        }
        return Final(StripCr(line));
      }
      var pos := FirstLf(buf);
      PrefixOfPrefix(data, buf, pos);
      if pos < |buf| {
        NewlineDecides(all, data, line, truncated, limit, reader.broken, pos);
        if truncated {
          r := Truncated(line);
        } else if |line| + pos > limit {
          var headLen := limit - |line|;
          PrefixOfPrefix(data, buf, headLen);
          r := Truncated(line + buf[..headLen]);
        } else {
          r := Line(StripCr(line + buf[..pos]));
        }
        reader.Consume(pos + 1);
        return;
      }
      if truncated {
        PieceAdvances(all, data, line, truncated, limit, |buf|, |buf|);
        reader.Consume(|buf|);
      } else if |line| + |buf| > limit {
        var headLen := limit - |line|;
        PieceAdvances(all, data, line, truncated, limit, |buf|, headLen);
        PrefixOfPrefix(data, buf, headLen);
        reader.Consume(headLen);
        line, truncated := line + buf[..headLen], true;
      } else {
        PieceAdvances(all, data, line, truncated, limit, |buf|, |buf|);
        reader.Consume(|buf|);
        line := line + buf;
      }
    }
  }

  lemma PrefixOfPrefix(data: seq<Byte>, buf: seq<Byte>, n: nat)
    requires buf <= data && n <= |buf|
    ensures data[..n] == buf[..n] && buf[..|buf|] == buf
  {
  }

  /* ---- Delivery of a whole stream ---- */

  const MAX_LINE_LENGTH: nat := 8 * 1024 * 1024

  /** The reference: the stream cut at its line feeds, and what follows the last one. */
  datatype Split = Split(lines: seq<seq<Byte>>, tail: seq<Byte>)

  function SplitLf(s: seq<Byte>): Split
    decreases |s|
  {
    var p := FirstLf(s);
    if p == |s| then Split([], s)
    else
      var rest := SplitLf(s[p + 1..]);
      Split([s[..p]] + rest.lines, rest.tail)
  }

  function JoinLf(lines: seq<seq<Byte>>, tail: seq<Byte>): seq<Byte> {
    if lines == [] then tail else lines[0] + [LF] + JoinLf(lines[1..], tail)
  }

  ghost predicate AllNoLf(lines: seq<seq<Byte>>) {
    forall i :: 0 <= i < |lines| ==> NoLf(lines[i])
  }

  lemma SplitAtFirst(s: seq<Byte>)
    requires FirstLf(s) < |s|
    ensures var p := FirstLf(s);
            var rest := SplitLf(s[p + 1..]);
            SplitLf(s) == Split([s[..p]] + rest.lines, rest.tail)
  {
    hide FirstLf;
  }

  lemma CutAtFirst(s: seq<Byte>)
    requires FirstLf(s) < |s|
    ensures var p := FirstLf(s); s == s[..p] + [LF] + s[p + 1..] && NoLf(s[..p])
  {
    hide FirstLf;
    CutAround(s, FirstLf(s));
  }

  lemma JoinCons(line: seq<Byte>, lines: seq<seq<Byte>>, tail: seq<Byte>)
    ensures JoinLf([line] + lines, tail) == line + [LF] + JoinLf(lines, tail)
    ensures NoLf(line) && AllNoLf(lines) ==> AllNoLf([line] + lines)
  {
    assert ([line] + lines)[1..] == lines;
  }

  /** The reference cut loses nothing and leaves no line feed inside a line. */
  lemma {:induction false} SplitIsLossless(s: seq<Byte>)
    ensures JoinLf(SplitLf(s).lines, SplitLf(s).tail) == s
    ensures NoLf(SplitLf(s).tail) && AllNoLf(SplitLf(s).lines)
    decreases |s|
  {
    hide JoinLf, SplitLf, NoLf, AllNoLf;
    var p := FirstLf(s);
    if p == |s| {
      SplitNowhere(s);
    } else {
      var rest := SplitLf(s[p + 1..]);
      SplitIsLossless(s[p + 1..]);
      SplitAtFirst(s);
      CutAtFirst(s);
      JoinCons(s[..p], rest.lines, rest.tail);
    }
  }

  lemma SplitNowhere(s: seq<Byte>)
    requires FirstLf(s) == |s|
    ensures SplitLf(s) == Split([], s) && NoLf(s) && JoinLf([], s) == s && AllNoLf([])
  {
    assert s[..|s|] == s;
  }

  /** What a consumer gets for one line: the line without its carriage return, or the first
      `limit` bytes as they are when the line is longer. */
  function FrameOf(line: seq<Byte>, limit: nat): (f: seq<Byte>)
    ensures |f| <= limit
  {
    if |line| <= limit then StripCr(line) else line[..limit]
  }

  function FramesOf(lines: seq<seq<Byte>>, limit: nat): seq<seq<Byte>> {
    if lines == [] then [] else [FrameOf(lines[0], limit)] + FramesOf(lines[1..], limit)
  }

  /** One frame per line, and one for an unterminated last line unless the stream broke. */
  function FramesOfStream(s: seq<Byte>, limit: nat, broken: bool): seq<seq<Byte>> {
    FramesOf(SplitLf(s).lines, limit) + LastFrame(SplitLf(s).tail, limit, broken)
  }

  function LastFrame(tail: seq<Byte>, limit: nat, broken: bool): seq<seq<Byte>> {
    if tail == [] || broken then [] else [FrameOf(tail, limit)]
  }

  lemma FramesCons(s: seq<Byte>, limit: nat, broken: bool)
    requires FirstLf(s) < |s|
    ensures var p := FirstLf(s);
            FramesOfStream(s, limit, broken) == [FrameOf(s[..p], limit)] + FramesOfStream(s[p + 1..], limit, broken)
  {
    hide FirstLf, FrameOf, FramesOf, SplitLf;
    var p, rest := FirstLf(s), SplitLf(s[FirstLf(s) + 1..]);
    SplitAtFirst(s);
    FirstFrame(s[..p], rest.lines, limit);
    Assoc([FrameOf(s[..p], limit)], FramesOf(rest.lines, limit), LastFrame(rest.tail, limit, broken));
  }

  lemma FirstFrame(line: seq<Byte>, lines: seq<seq<Byte>>, limit: nat)
    ensures FramesOf([line] + lines, limit) == [FrameOf(line, limit)] + FramesOf(lines, limit)
  {
    assert ([line] + lines)[1..] == lines;
  }

  /** Reading one line takes the first frame off the stream, or finds there is none. */
  lemma ReadTakesFirstFrame(s: seq<Byte>, limit: nat, broken: bool)
    ensures var r := ReadSpec(s, limit, broken);
            if r.0.Closed? || r.0.Failed? then
              FramesOfStream(s, limit, broken) == []
            else
              && r.1 > 0
              && FramesOfStream(s, limit, broken) == [r.0.bytes] + FramesOfStream(s[r.1..], limit, broken)
  {
    hide FramesOfStream, FirstLf, StripCr;
    var p := FirstLf(s);
    if p < |s| {
      FramesCons(s, limit, broken);
      assert p > limit ==> s[..p][..limit] == s[..limit];
    } else {
      OnlyLastFrame(s, limit, broken);
      assert s[|s|..] == [];
    }
  }

  lemma OnlyLastFrame(s: seq<Byte>, limit: nat, broken: bool)
    requires FirstLf(s) == |s|
    ensures FramesOfStream(s, limit, broken) == LastFrame(s, limit, broken)
    ensures FramesOfStream([], limit, broken) == []
  {
    SplitNowhere(s);
    assert SplitLf([]) == Split([], []);
  }

  /** A frame is the line without one carriage return, or the first `limit` bytes of it. */
  lemma FrameIs(x: seq<Byte>, limit: nat)
    ensures |x| <= limit && (x == [] || x[|x| - 1] != 13) ==> FrameOf(x, limit) == x
    ensures |x| + 1 <= limit ==> FrameOf(x + [13], limit) == x
    ensures |x| > limit ==> FrameOf(x, limit) == x[..limit]
  {
    OneCrGoes(x);
  }

  /** The frames of a stream given line by line: one for each line and one for a nonempty rest. */
  lemma {:induction false} FramesOfLines(lines: seq<seq<Byte>>, tail: seq<Byte>, limit: nat, broken: bool)
    requires (forall i :: 0 <= i < |lines| ==> 10 !in lines[i]) && 10 !in tail
    ensures var frames := FramesOfStream(JoinLf(lines, tail), limit, broken);
            && |frames| == |lines| + (if tail == [] || broken then 0 else 1)
            && (forall i :: 0 <= i < |lines| ==> frames[i] == FrameOf(lines[i], limit))
            && (tail != [] && !broken ==> frames[|lines|] == FrameOf(tail, limit))
    decreases |lines|
  {
    hide FrameOf, FirstLf, FramesOfStream;
    if lines == [] {
      FirstLfOf(tail, []);
      OnlyLastFrame(tail, limit, broken);
    } else {
      var rest := JoinLf(lines[1..], tail);
      FramesOfLines(lines[1..], tail, limit, broken);
      FirstLfOf(lines[0], rest);
      LineInFront(lines[0], 10, rest);
      FramesCons(lines[0] + [10] + rest, limit, broken);
    }
  }

  /** Delivers the stream to `n` consumers, line by line, until it closes or breaks. */
  method DeliverLines(reader: ChunkedReader, n: nat) returns (received: seq<seq<seq<Byte>>>, ok: bool)
    requires reader.Valid()
    modifies reader
    ensures ok <==> !reader.broken
    ensures |received| == n
    ensures forall c :: 0 <= c < n ==>
              received[c] == FramesOfStream(old(reader.Rest()), 8388608, reader.broken)
  {
    hide FramesOfStream;
    received := seq(n, _ => []);
    ghost var all := reader.Rest();
    ghost var sent: seq<seq<Byte>> := [];
    assert [] + FramesOfStream(all, MAX_LINE_LENGTH, reader.broken)
        == FramesOfStream(all, MAX_LINE_LENGTH, reader.broken);
    while true
      invariant reader.Valid() && |received| == n
      invariant FramesOfStream(all, MAX_LINE_LENGTH, reader.broken)
             == sent + FramesOfStream(reader.Rest(), MAX_LINE_LENGTH, reader.broken)
      invariant forall c :: 0 <= c < n ==> received[c] == sent
      decreases |reader.Rest()|
    {
      ghost var rest := reader.Rest();
      ReadTakesFirstFrame(rest, MAX_LINE_LENGTH, reader.broken);
      var r := ReadLineLimited(reader, MAX_LINE_LENGTH);
      if r.Closed? || r.Failed? {
        return received, r.Closed?;
      }
      received := Accept(received, r.bytes);
      ghost var later := FramesOfStream(reader.Rest(), MAX_LINE_LENGTH, reader.broken);
      assert FramesOfStream(rest, MAX_LINE_LENGTH, reader.broken) == [r.bytes] + later;
      assert sent + ([r.bytes] + later) == (sent + [r.bytes]) + later;
      sent := sent + [r.bytes];
    }
  }

  /** Hands one frame to every consumer. */
  method Accept(received: seq<seq<seq<Byte>>>, frame: seq<Byte>) returns (r: seq<seq<seq<Byte>>>)
    ensures |r| == |received|
    ensures forall c :: 0 <= c < |r| ==> r[c] == received[c] + [frame]
  {
    r := received;
    for c := 0 to |received|
      invariant |r| == |received|
      invariant forall k :: 0 <= k < |r| ==> r[k] == if k < c then received[k] + [frame] else received[k]
    {
      r := r[c := r[c] + [frame]];
    }
  }
}
