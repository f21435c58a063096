/** Waiting for a message to appear in the logs a given number of times. */
module LogWait {
  import opened Bytes

  const USIZE_MAX: nat := 0xFFFF_FFFF_FFFF_FFFF
  const MAX_COLLECTED_LOG_BYTES: nat := 1024 * 1024
  const DRAIN_GRACE: nat := 2000  // milliseconds

  predicate EndsWith(s: seq<Byte>, p: seq<Byte>) {
    |p| <= |s| && s[|s| - |p|..] == p
  }

  /** How often `p` occurs in `s`, overlaps included: once per position where an occurrence ends. */
  function Occurrences(p: seq<Byte>, s: seq<Byte>): nat {
    if s == [] then 0
    else Occurrences(p, s[..|s| - 1]) + if EndsWith(s, p) then 1 else 0
  }

  predicate StandsAt(p: seq<Byte>, s: seq<Byte>, i: nat) {
    i + |p| <= |s| && s[i..i + |p|] == p
  }

  ghost function Positions(p: seq<Byte>, s: seq<Byte>): set<nat> {
    set i: nat | i <= |s| && StandsAt(p, s, i)
  }

  /** The count is the number of positions at which the pattern stands. */
  lemma {:induction false} OccurrencesCountPositions(p: seq<Byte>, s: seq<Byte>)
    requires p != []
    ensures Occurrences(p, s) == |Positions(p, s)|
    decreases |s|
  {
    if s != [] {
      var t := s[..|s| - 1];
      OccurrencesCountPositions(p, t);
      PositionsGrow(p, s);
    }
  }

  lemma SliceOfFront<T>(s: seq<T>, n: nat, i: nat, k: nat)
    requires i + k <= n <= |s|
    ensures s[..n][i..i + k] == s[i..i + k]
  {
  }

  lemma PositionsGrow(p: seq<Byte>, s: seq<Byte>)
    requires p != [] && s != []
    ensures var t := s[..|s| - 1];
            |Positions(p, s)| == |Positions(p, t)| + if EndsWith(s, p) then 1 else 0
  {
    var t, last := s[..|s| - 1], |s| - |p|;
    forall i: nat ensures StandsAt(p, t, i) <==> StandsAt(p, s, i) && i != last {
      if i + |p| <= |t| {
        SliceOfFront(s, |t|, i, |p|);
      }
    }
    assert last >= 0 ==> (EndsWith(s, p) <==> StandsAt(p, s, last));
    hide StandsAt;
    if EndsWith(s, p) {
      assert Positions(p, s) == Positions(p, t) + {last};
    } else {
      assert Positions(p, s) == Positions(p, t);
    }
  }

  lemma {:induction false} TooShortToOccur(p: seq<Byte>, s: seq<Byte>)
    requires |s| < |p|
    ensures Occurrences(p, s) == 0
    decreases |s|
  {
    if s != [] {
      TooShortToOccur(p, s[..|s| - 1]);
    }
  }

  /** Matching across a cut needs only the last `|p| - 1` bytes before it. */
  lemma {:induction false} OccurrencesAcross(p: seq<Byte>, a: seq<Byte>, b: seq<Byte>)
    requires p != []
    ensures Occurrences(p, a + b) == Occurrences(p, a) + Occurrences(p, LastN(a, |p| - 1) + b)
    decreases |b|
  {
    hide EndsWith, LastN;
    var carry := LastN(a, |p| - 1);
    if b == [] {
      assert a + b == a && carry + b == carry;
      TooShortToOccur(p, carry);
    } else {
      var b', x := b[..|b| - 1], b[|b| - 1];
      OccurrencesAcross(p, a, b');
      assert b == b' + [x] && a + b == (a + b') + [x] && carry + b == (carry + b') + [x];
      OccurrencesSnoc(p, a + b', x);
      OccurrencesSnoc(p, carry + b', x);
      SameEnding(p, a, b);
    }
  }

  lemma OccurrencesSnoc(p: seq<Byte>, s: seq<Byte>, x: Byte)
    ensures Occurrences(p, s + [x]) == Occurrences(p, s) + if EndsWith(s + [x], p) then 1 else 0
  {
    assert (s + [x])[..|s|] == s;
  }

  lemma SameEnding(p: seq<Byte>, a: seq<Byte>, b: seq<Byte>)
    requires p != [] && b != []
    ensures EndsWith(a + b, p) <==> EndsWith(LastN(a, |p| - 1) + b, p)
  {
    var carry := LastN(a, |p| - 1);
    if |a| > |p| - 1 {
      var front := a[..|a| - (|p| - 1)];
      assert a + b == front + (carry + b);
      assert (front + (carry + b))[|a + b| - |p|..] == (carry + b)[|carry + b| - |p|..];
    }
  }

  /** What a feed has to know: the count and the carry after `seen + chunk` follow from the
      carry before it. */
  lemma FeedKeepsCount(p: seq<Byte>, seen: seq<Byte>, chunk: seq<Byte>, buf: seq<Byte>)
    requires p != []
    requires buf == LastN(seen, |p| - 1) + chunk
    ensures Occurrences(p, seen + chunk) == Occurrences(p, seen) + Occurrences(p, buf)
    ensures LastN(seen + chunk, |p| - 1) == buf[|buf| - (if |p| - 1 < |buf| then |p| - 1 else |buf|)..]
    ensures |buf| < |p| ==> Occurrences(p, buf) == 0 && LastN(seen + chunk, |p| - 1) == buf
  {
    hide Occurrences;
    var keep := |p| - 1;
    OccurrencesAcross(p, seen, chunk);
    LastNOfAppend(seen, chunk, keep);
    assert LastN(seen + chunk, keep) == LastN(buf, keep);
    if |buf| < |p| {
      TooShortToOccur(p, buf);
    }
  }

  class StreamMatcher {
    const pattern: seq<Byte>
    var carry: seq<Byte>
    var count: nat
    ghost var seen: seq<Byte>

    ghost predicate Valid()
      reads this
    {
      pattern != [] ==> carry == LastN(seen, |pattern| - 1) && count == Occurrences(pattern, seen)
    }

    constructor (pattern: seq<Byte>)
      ensures Valid() && this.pattern == pattern && seen == []
    {
      this.pattern, carry, count, seen := pattern, [], 0, [];
    }

    /** Takes one chunk and returns the occurrences in everything seen so far. */
    method Feed(chunk: seq<Byte>) returns (n: nat)
      requires Valid()
      modifies this
      ensures Valid() && seen == (if pattern == [] then old(seen) else old(seen) + chunk)
      ensures n == if pattern == [] then USIZE_MAX else Occurrences(pattern, seen)
    {
      hide Occurrences, LastN;
      if |pattern| == 0 {
        return USIZE_MAX;
      }
      var buf := carry + chunk;
      FeedKeepsCount(pattern, seen, chunk, buf);
      if |buf| >= |pattern| {
        var found := CountWindows(buf);
        count := count + found;
        carry := buf[|buf| - (if |pattern| - 1 < |buf| then |pattern| - 1 else |buf|)..];
      } else {
        carry := buf;
      }
      seen := seen + chunk;
      n := count;
    }

    /** Counts the windows of `buf` that equal the pattern. */
    method CountWindows(buf: seq<Byte>) returns (found: nat)
      requires 0 < |pattern| <= |buf|
      ensures found == Occurrences(pattern, buf)
    {
      hide Occurrences;
      found := 0;
      TooShortToOccur(pattern, buf[..|pattern| - 1]);
      for i := 0 to |buf| - |pattern| + 1
        invariant found == Occurrences(pattern, buf[..i + |pattern| - 1])
      {
        var next := buf[..i + |pattern|];
        assert next == buf[..i + |pattern| - 1] + [buf[i + |pattern| - 1]];
        OccurrencesSnoc(pattern, buf[..i + |pattern| - 1], buf[i + |pattern| - 1]);
        assert next[|next| - |pattern|..] == buf[i..i + |pattern|];
        if buf[i..i + |pattern|] == pattern {
          found := found + 1;
        }
      }
      assert buf[..|buf|] == buf;
    }
  }

  /** The diagnostic buffer: the most recent bytes of all streams in delivery order. */
  class CollectedLogs {
    var buf: seq<Byte>
    ghost var pushed: seq<Byte>

    ghost predicate Valid()
      reads this
    {
      buf == LastN(pushed, MAX_COLLECTED_LOG_BYTES)
    }

    constructor ()
      ensures Valid() && pushed == []
    {
      buf, pushed := [], [];
    }

    method Push(bytes: seq<Byte>)
      requires Valid()
      modifies this
      ensures Valid() && pushed == old(pushed) + bytes
    {
      ghost var all := pushed + bytes;
      if |bytes| == 0 {
        assert all == pushed;
        return;
      }
      var keep := if |bytes| > MAX_COLLECTED_LOG_BYTES then bytes[|bytes| - MAX_COLLECTED_LOG_BYTES..] else bytes;
      assert keep == LastN(bytes, MAX_COLLECTED_LOG_BYTES);
      LastNOfAppend(pushed, bytes, MAX_COLLECTED_LOG_BYTES);
      LastNOfAppend(buf, bytes, MAX_COLLECTED_LOG_BYTES);
      buf := buf + keep;
      ghost var full := buf;
      while |buf| > MAX_COLLECTED_LOG_BYTES
        invariant LastN(buf, MAX_COLLECTED_LOG_BYTES) == LastN(full, MAX_COLLECTED_LOG_BYTES)
      {
        LastNDropFirst(buf, MAX_COLLECTED_LOG_BYTES);
        buf := buf[1..];
      }
      pushed := all;
    }
  }

  /* ---- The waiting loop ---- */

  /** One timed read of one log reader: bytes (none at a momentary end), a timeout, or an error. */
  datatype ReadResult = Got(bytes: seq<Byte>) | Elapsed | Broken

  /** One pass over all readers, whether the container or its log stream is over when asked, and
      the clock at that moment. */
  datatype Pass = Pass(results: seq<ReadResult>, over: bool, now: nat)

  datatype Outcome = Ready | IoError | EndOfStream(collected: seq<Byte>) | StillWaiting

  function BytesOf(r: ReadResult): seq<Byte> {
    if r.Got? then r.bytes else []
  }

  /** Everything reader `i` delivered. */
  ghost function Delivered(passes: seq<Pass>, i: nat): seq<Byte>
    requires forall k :: 0 <= k < |passes| ==> i < |passes[k].results|
  {
    if passes == [] then []
    else Delivered(passes[..|passes| - 1], i) + BytesOf(passes[|passes| - 1].results[i])
  }

  ghost function PassBytes(results: seq<ReadResult>): seq<Byte> {
    if results == [] then [] else PassBytes(results[..|results| - 1]) + BytesOf(results[|results| - 1])
  }

  /** Everything delivered, in delivery order. */
  ghost function AllDelivered(passes: seq<Pass>): seq<Byte> {
    if passes == [] then [] else AllDelivered(passes[..|passes| - 1]) + PassBytes(passes[|passes| - 1].results)
  }

  ghost predicate Shaped(passes: seq<Pass>, n: nat) {
    forall k :: 0 <= k < |passes| ==> |passes[k].results| == n
  }

  /** Occurrences summed over the first `m` readers. */
  ghost function Total(message: seq<Byte>, passes: seq<Pass>, n: nat, m: nat): nat
    requires Shaped(passes, n) && m <= n
  {
    if m == 0 then 0
    else Total(message, passes, n, m - 1) + Occurrences(message, Delivered(passes, m - 1))
  }

  ghost predicate Idle(p: Pass) {
    forall i :: 0 <= i < |p.results| ==> BytesOf(p.results[i]) == []
  }

  /** Pass `k` is idle and sees the container over, and the first pass of which that was true is
      at least the grace period ago. Passes in between may have brought bytes. */
  ghost predicate Drained(passes: seq<Pass>, k: nat)
    requires k < |passes|
  {
    && Idle(passes[k]) && passes[k].over
    && exists j :: 0 <= j <= k && FirstOver(passes, j) && passes[j].now + DRAIN_GRACE <= passes[k].now
  }

  ghost predicate FirstOver(passes: seq<Pass>, j: nat)
    requires j < |passes|
  {
    Idle(passes[j]) && passes[j].over && forall i :: 0 <= i < j ==> !(Idle(passes[i]) && passes[i].over)
  }

  /** What pass `k` decides; `StillWaiting` means that it decides nothing. */
  ghost function Verdict(message: seq<Byte>, times: nat, n: nat, passes: seq<Pass>, k: nat): Outcome
    requires Shaped(passes, n) && k < |passes|
  {
    if Broken in passes[k].results then IoError
    else if Total(message, passes[..k + 1], n, n) >= times then Ready
    else if Drained(passes, k) then EndOfStream(LastN(AllDelivered(passes[..k + 1]), MAX_COLLECTED_LOG_BYTES))
    else StillWaiting
  }

  /** Every place at which the message stands: the reader and the position in what it delivered. */
  ghost function Matches(message: seq<Byte>, passes: seq<Pass>, n: nat, m: nat): set<(nat, nat)>
    requires Shaped(passes, n) && m <= n
  {
    set i: nat, p: nat | i < m && p <= |Delivered(passes, i)| && StandsAt(message, Delivered(passes, i), p) :: (i, p)
  }

  ghost function AtReader(i: nat, s: set<nat>): set<(nat, nat)> {
    set p | p in s :: (i, p)
  }

  lemma {:induction false} AtReaderSize(i: nat, s: set<nat>)
    ensures |AtReader(i, s)| == |s|
    decreases |s|
  {
    if p :| p in s {
      AtReaderSize(i, s - {p});
      assert AtReader(i, s) == AtReader(i, s - {p}) + {(i, p)};
    } else {
      assert AtReader(i, s) == {};
    }
  }

  lemma MatchesOfLast(message: seq<Byte>, passes: seq<Pass>, n: nat, m: nat)
    requires Shaped(passes, n) && 0 < m <= n
    ensures var before, last := Matches(message, passes, n, m - 1), Positions(message, Delivered(passes, m - 1));
            Matches(message, passes, n, m) == before + AtReader(m - 1, last) && before !! AtReader(m - 1, last)
  {
    hide Delivered, StandsAt;
  }

  /** The total is the number of places at which the message stands, over all readers. */
  lemma {:induction false} TotalCountsMatches(message: seq<Byte>, passes: seq<Pass>, n: nat, m: nat)
    requires message != [] && Shaped(passes, n) && m <= n
    ensures Total(message, passes, n, m) == |Matches(message, passes, n, m)|
    decreases m
  {
    hide Delivered, StandsAt, Occurrences;
    if m == 0 {
      assert Matches(message, passes, n, 0) == {};
    } else {
      hide Matches, AtReader, Positions;
      var last := Positions(message, Delivered(passes, m - 1));
      TotalCountsMatches(message, passes, n, m - 1);
      OccurrencesCountPositions(message, Delivered(passes, m - 1));
      AtReaderSize(m - 1, last);
      MatchesOfLast(message, passes, n, m);
    }
  }

  /** The container is over and no read brought bytes. */
  ghost predicate QuietEnd(p: Pass) {
    p.over && forall i :: 0 <= i < |p.results| && p.results[i].Got? ==> p.results[i].bytes == []
  }

  ghost predicate FirstQuietEnd(passes: seq<Pass>, j: nat)
    requires j < |passes|
  {
    QuietEnd(passes[j]) && forall i :: 0 <= i < j ==> !QuietEnd(passes[i])
  }

  lemma QuietEndIs(p: Pass)
    ensures QuietEnd(p) <==> Idle(p) && p.over
  {
    assert forall i :: 0 <= i < |p.results| ==> (BytesOf(p.results[i]) == [] <==>
                                                 (p.results[i].Got? ==> p.results[i].bytes == []));
  }

  lemma FirstQuietEndIs(passes: seq<Pass>, j: nat)
    requires j < |passes|
    ensures FirstQuietEnd(passes, j) <==> FirstOver(passes, j)
  {
    hide QuietEnd, Idle;
    forall i | 0 <= i <= j ensures QuietEnd(passes[i]) <==> Idle(passes[i]) && passes[i].over {
      QuietEndIs(passes[i]);
    }
  }

  /** What a pass decides: a read error first, then enough places at which the message stands, then
      the end of the stream two seconds after the container was first seen over without progress,
      with the last mebibyte of what was delivered. */
  lemma VerdictIs(message: seq<Byte>, times: nat, n: nat, passes: seq<Pass>, k: nat)
    requires message != [] && Shaped(passes, n) && k < |passes|
    ensures var v, broken := Verdict(message, times, n, passes, k), Broken in passes[k].results;
            var enough := |Matches(message, passes[..k + 1], n, n)| >= times;
            var all := AllDelivered(passes[..k + 1]);
            && (v.IoError? <==> broken)
            && (v.Ready? <==> !broken && enough)
            && (v.EndOfStream? <==>
                  && !broken && !enough && QuietEnd(passes[k])
                  && exists j :: 0 <= j <= k && FirstQuietEnd(passes, j) && passes[j].now + 2000 <= passes[k].now)
            && (v.EndOfStream? ==> v.collected == if |all| <= 1048576 then all else all[|all| - 1048576..])
  {
    TotalCountsMatches(message, passes[..k + 1], n, n);
    DrainedIs(passes, k);
    hide Total, Matches, Drained, QuietEnd, FirstQuietEnd, AllDelivered;
  }

  lemma DrainedIs(passes: seq<Pass>, k: nat)
    requires k < |passes|
    ensures Drained(passes, k) <==>
              QuietEnd(passes[k])
              && exists j :: 0 <= j <= k && FirstQuietEnd(passes, j) && passes[j].now + 2000 <= passes[k].now
  {
    QuietEndIs(passes[k]);
    forall j | 0 <= j <= k ensures FirstQuietEnd(passes, j) <==> FirstOver(passes, j) {
      FirstQuietEndIs(passes, j);
    }
    hide Idle, FirstOver, QuietEnd, FirstQuietEnd;
  }

  /** What is delivered: the bytes of each successful read, in order, and nothing for the others. */
  lemma DeliveredIs(passes: seq<Pass>, pass: Pass, n: nat, i: nat)
    requires Shaped(passes, n) && |pass.results| == n && i < n
    ensures Delivered([], i) == [] && AllDelivered([]) == [] && PassBytes([]) == []
    ensures Delivered(passes + [pass], i)
         == Delivered(passes, i) + if pass.results[i].Got? then pass.results[i].bytes else []
    ensures AllDelivered(passes + [pass]) == AllDelivered(passes) + PassBytes(pass.results)
    ensures PassBytes(pass.results[..i + 1])
         == PassBytes(pass.results[..i]) + if pass.results[i].Got? then pass.results[i].bytes else []
  {
    DeliveredSnoc(passes, pass, n, i);
    AllDeliveredSnoc(passes, pass);
    PassBytesSnoc(pass.results, i);
  }

  function SaturatingAdd(a: nat, b: nat): nat {
    if a + b > USIZE_MAX then USIZE_MAX else a + b
  }

  function Capped(a: nat): nat {
    if a > USIZE_MAX then USIZE_MAX else a
  }

  /** The matchers are distinct, all look for `message`, and have seen exactly `seens`. */
  ghost predicate Hold(matchers: seq<StreamMatcher>, message: seq<Byte>, seens: seq<seq<Byte>>)
    reads matchers
  {
    && |seens| == |matchers|
    && (forall i, j :: 0 <= i < j < |matchers| ==> matchers[i] != matchers[j])
    && forall i :: 0 <= i < |matchers| ==>
         matchers[i].Valid() && matchers[i].pattern == message && matchers[i].seen == seens[i]
  }

  ghost function EachDelivered(passes: seq<Pass>, n: nat): (d: seq<seq<Byte>>)
    requires Shaped(passes, n)
    ensures |d| == n && forall i :: 0 <= i < n ==> d[i] == Delivered(passes, i)
  {
    seq(n, i requires 0 <= i < n => Delivered(passes, i))
  }

  /** In the middle of a pass the first `i` readers have already delivered their part of it. */
  ghost function Midway(passes: seq<Pass>, pass: Pass, n: nat, i: nat): (d: seq<seq<Byte>>)
    requires Shaped(passes, n) && |pass.results| == n && i <= n
    ensures |d| == n
  {
    EachDelivered(passes + [pass], n)[..i] + EachDelivered(passes, n)[i..]
  }

  lemma MidwayStep(passes: seq<Pass>, pass: Pass, n: nat, i: nat)
    requires Shaped(passes, n) && |pass.results| == n && i < n
    ensures var d := Midway(passes, pass, n, i);
            && Midway(passes, pass, n, i + 1) == d[i := d[i] + BytesOf(pass.results[i])]
            && d[i] + BytesOf(pass.results[i]) == Delivered(passes + [pass], i)
  {
    hide Delivered;
    DeliveredSnoc(passes, pass, n, i);
  }

  lemma MidwayEnds(passes: seq<Pass>, pass: Pass, n: nat)
    requires Shaped(passes, n) && |pass.results| == n
    ensures Midway(passes, pass, n, 0) == EachDelivered(passes, n)
    ensures Midway(passes, pass, n, n) == EachDelivered(passes + [pass], n)
  {
    hide Delivered;
  }

  /** Feeds what one reader returned, if anything, to its matcher and to the diagnostics. */
  method OneRead(matcher: StreamMatcher, collected: CollectedLogs, read: ReadResult)
    returns (count: nat, progressed: bool)
    requires matcher.Valid() && matcher.pattern != [] && collected.Valid() && read != Broken
    modifies matcher, collected
    ensures matcher.Valid() && matcher.seen == old(matcher.seen) + BytesOf(read)
    ensures collected.Valid() && collected.pushed == old(collected.pushed) + BytesOf(read)
    ensures count == Occurrences(matcher.pattern, matcher.seen)
    ensures progressed <==> BytesOf(read) != []
  {
    if read.Got? && |read.bytes| > 0 {
      progressed := true;
      collected.Push(read.bytes);
      count := matcher.Feed(read.bytes);
    } else {
      progressed := false;
      assert collected.pushed + [] == collected.pushed;
      count := matcher.Feed([]);
    }
  }

  lemma DeliveredSnoc(passes: seq<Pass>, pass: Pass, n: nat, i: nat)
    requires Shaped(passes, n) && |pass.results| == n && i < n
    ensures Delivered(passes + [pass], i) == Delivered(passes, i) + BytesOf(pass.results[i])
  {
    assert (passes + [pass])[..|passes|] == passes;
  }

  lemma PassBytesSnoc(results: seq<ReadResult>, i: nat)
    requires i < |results|
    ensures PassBytes(results[..i + 1]) == PassBytes(results[..i]) + BytesOf(results[i])
  {
    assert results[..i + 1][..i] == results[..i];
  }

  lemma AllDeliveredSnoc(passes: seq<Pass>, pass: Pass)
    ensures AllDelivered(passes + [pass]) == AllDelivered(passes) + PassBytes(pass.results)
  {
    assert (passes + [pass])[..|passes|] == passes;
  }

  lemma {:induction false} IdleMeansNoBytes(results: seq<ReadResult>)
    ensures PassBytes(results) == [] <==> forall i :: 0 <= i < |results| ==> BytesOf(results[i]) == []
  {
    if results != [] {
      var front, last := results[..|results| - 1], results[|results| - 1];
      IdleMeansNoBytes(front);
      assert results == front + [last];
      assert (forall i :: 0 <= i < |results| ==> BytesOf(results[i]) == []) <==>
             (forall i :: 0 <= i < |front| ==> BytesOf(front[i]) == []) && BytesOf(last) == [];
    }
  }

  /** Feeds reader `i` of a set of matchers; the others are not touched. */
  method FeedReader(matchers: seq<StreamMatcher>, i: nat, collected: CollectedLogs, message: seq<Byte>,
                    read: ReadResult, ghost seens: seq<seq<Byte>>)
    returns (count: nat, progressed: bool)
    requires i < |matchers| && message != [] && collected.Valid() && read != Broken
    requires Hold(matchers, message, seens)
    modifies matchers, collected
    ensures Hold(matchers, message, seens[i := seens[i] + BytesOf(read)])
    ensures collected.Valid() && collected.pushed == old(collected.pushed) + BytesOf(read)
    ensures count == Occurrences(message, seens[i] + BytesOf(read))
    ensures progressed <==> BytesOf(read) != []
  {
    hide Occurrences, LastN;
    count, progressed := OneRead(matchers[i], collected, read);
  }

  /** The first `i` readers of a pass have been read: what `OnePass` has computed by then. */
  ghost predicate PassSoFar(message: seq<Byte>, passes: seq<Pass>, pass: Pass, n: nat, i: nat,
                            total: nat, progressed: bool, pushed: seq<Byte>)
    requires Shaped(passes, n) && |pass.results| == n && i <= n
  {
    && Broken !in pass.results[..i]
    && total == Capped(Total(message, passes + [pass], n, i))
    && (progressed <==> PassBytes(pass.results[..i]) != [])
    && pushed == AllDelivered(passes) + PassBytes(pass.results[..i])
  }

  lemma PassBegins(message: seq<Byte>, passes: seq<Pass>, pass: Pass, n: nat)
    requires Shaped(passes, n) && |pass.results| == n
    ensures PassSoFar(message, passes, pass, n, 0, 0, false, AllDelivered(passes))
  {
    NoResults(pass.results);
    hide AllDelivered;
    assert AllDelivered(passes) + [] == AllDelivered(passes);
  }

  lemma PassGoesOn(message: seq<Byte>, passes: seq<Pass>, pass: Pass, n: nat, i: nat, total: nat, progressed: bool,
                   pushed: seq<Byte>, count: nat)
    requires Shaped(passes, n) && |pass.results| == n && i < n && pass.results[i] != Broken
    requires PassSoFar(message, passes, pass, n, i, total, progressed, pushed)
    requires count == Occurrences(message, Delivered(passes + [pass], i))
    ensures var bytes := BytesOf(pass.results[i]);
            PassSoFar(message, passes, pass, n, i + 1,
                      SaturatingAdd(total, count), progressed || bytes != [], pushed + bytes)
  {
    hide Occurrences, Delivered, AllDelivered, PassBytes;
    PassBytesSnoc(pass.results, i);
    CutAround(pass.results, i);
    Assoc(AllDelivered(passes), PassBytes(pass.results[..i]), BytesOf(pass.results[i]));
  }

  lemma PassEnds(message: seq<Byte>, passes: seq<Pass>, pass: Pass, n: nat, total: nat, progressed: bool,
                 pushed: seq<Byte>)
    requires Shaped(passes, n) && |pass.results| == n
    requires PassSoFar(message, passes, pass, n, n, total, progressed, pushed)
    ensures Broken !in pass.results && total == Capped(Total(message, passes + [pass], n, n))
    ensures (progressed <==> !Idle(pass)) && pushed == AllDelivered(passes + [pass])
  {
    hide Total, Occurrences, AllDelivered, PassBytes;
    assert pass.results[..n] == pass.results;
    AllDeliveredSnoc(passes, pass);
    IdleMeansNoBytes(pass.results);
  }

  /** One pass over all readers. */
  method OnePass(matchers: seq<StreamMatcher>, collected: CollectedLogs, message: seq<Byte>, pass: Pass,
                 ghost passes: seq<Pass>, ghost n: nat)
    returns (ok: bool, total: nat, progressed: bool)
    requires message != [] && |matchers| == n == |pass.results| && Shaped(passes, n) && collected.Valid()
    requires Hold(matchers, message, EachDelivered(passes, n))
    requires collected.pushed == AllDelivered(passes)
    modifies matchers, collected
    ensures ok <==> Broken !in pass.results
    ensures ok ==> && collected.Valid() && collected.pushed == AllDelivered(passes + [pass])
                   && Hold(matchers, message, EachDelivered(passes + [pass], n))
                   && total == Capped(Total(message, passes + [pass], n, n))
                   && (progressed <==> !Idle(pass))
  {
    hide Hold, Midway, EachDelivered, Occurrences, Delivered, AllDelivered, Total, Idle, PassSoFar, LastN;
    total, progressed := 0, false;
    MidwayEnds(passes, pass, n);
    PassBegins(message, passes, pass, n);
    for i := 0 to |matchers|
      invariant Hold(matchers, message, Midway(passes, pass, n, i)) && collected.Valid()
      invariant PassSoFar(message, passes, pass, n, i, total, progressed, collected.pushed)
    {
      var read := pass.results[i];
      if read == Broken {
        return false, total, progressed;
      }
      MidwayStep(passes, pass, n, i);
      ghost var pushed := collected.pushed;
      var count, some := FeedReader(matchers, i, collected, message, read, Midway(passes, pass, n, i));
      PassGoesOn(message, passes, pass, n, i, total, progressed, pushed, count);
      progressed := progressed || some;
      total := SaturatingAdd(total, count);
    }
    PassEnds(message, passes, pass, n, total, progressed, collected.pushed);
    ok := true;
  }

  lemma NoResults(results: seq<ReadResult>)
    ensures PassBytes(results[..0]) == []
  {
  }

  /** The first pass that decides anything is pass `k`, and `o` is what it decides; with no such
      pass `k` is the number of passes. */
  ghost predicate DecidedAt(message: seq<Byte>, times: nat, n: nat, script: seq<Pass>, k: nat, o: Outcome)
    requires Shaped(script, n)
  {
    && k <= |script|
    && (forall j :: 0 <= j < k ==> Verdict(message, times, n, script, j) == StillWaiting)
    && o == (if k < |script| then Verdict(message, times, n, script, k) else StillWaiting)
    && (k < |script| ==> o != StillWaiting)
  }

  /** The wait loop over any script of passes. It stops at the first pass that decides anything
      and returns what that pass decides. */
  method WaitUntilReady(message: seq<Byte>, times: nat, n: nat, script: seq<Pass>) returns (o: Outcome)
    requires times < 0x1_0000_0000_0000_0000 && Shaped(script, n)
    ensures message == [] ==> o == Ready
    ensures message != [] ==> exists k: nat :: DecidedAt(message, times, n, script, k, o)
  {
    if |message| == 0 {
      return Ready;
    }
    hide Hold, EachDelivered, Occurrences, Delivered, AllDelivered, PassBytes, LastN, Total, Verdict, OverSince, Idle;
    var matchers := NewMatchers(message, n);
    var collected := new CollectedLogs();
    var exitedAt: nat, exited := 0, false;
    NothingYet(message, times, n, script);
    for k := 0 to |script|
      invariant |matchers| == n && fresh(matchers) && fresh(collected)
      invariant collected.Valid() && collected.pushed == AllDelivered(script[..k])
      invariant Hold(matchers, message, EachDelivered(script[..k], n))
      invariant Undecided(message, times, n, script, k) && OverSince(script, k, exited, exitedAt)
    {
      var pass := script[k];
      var ok, total, progressed := OnePass(matchers, collected, message, pass, script[..k], n);
      ghost var was := exited;
      if !progressed && pass.over && !exited {
        exited, exitedAt := true, pass.now;
      }
      PassDecides(message, times, n, script, k, ok, total, progressed, was, exited, exitedAt);
      if !ok {
        return IoError;
      }
      if total >= times {
        return Ready;
      }
      if !progressed && pass.over && pass.now >= exitedAt + DRAIN_GRACE {
        return EndOfStream(collected.buf);
      }
    }
    assert DecidedAt(message, times, n, script, |script|, StillWaiting);
    o := StillWaiting;
  }

  ghost predicate Undecided(message: seq<Byte>, times: nat, n: nat, script: seq<Pass>, k: nat)
    requires Shaped(script, n) && k <= |script|
  {
    forall j :: 0 <= j < k ==> Verdict(message, times, n, script, j) == StillWaiting
  }

  lemma NothingYet(message: seq<Byte>, times: nat, n: nat, script: seq<Pass>)
    requires Shaped(script, n)
    ensures Undecided(message, times, n, script, 0) && OverSince(script, 0, false, 0)
    ensures AllDelivered(script[..0]) == [] && EachDelivered(script[..0], n) == EachDelivered([], n)
  {
  }

  /** What the loop computes from one pass is what that pass decides. */
  lemma PassDecides(message: seq<Byte>, times: nat, n: nat, script: seq<Pass>, k: nat,
                    ok: bool, total: nat, progressed: bool, was: bool, exited: bool, at: nat)
    requires times <= USIZE_MAX && Shaped(script, n) && k < |script|
    requires Undecided(message, times, n, script, k)
    requires ok <==> Broken !in script[k].results
    requires ok ==> && total == Capped(Total(message, script[..k] + [script[k]], n, n))
                    && (progressed <==> !Idle(script[k]))
    requires ok ==> var idleOver := !progressed && script[k].over;
             if was then exited && OverSince(script, k, true, at)
             else OverSince(script, k, false, 0) && exited == idleOver && (exited ==> at == script[k].now)
    ensures script[..k + 1] == script[..k] + [script[k]]
    ensures var o := if !ok then IoError
                     else if total >= times then Ready
                     else if !progressed && script[k].over && script[k].now >= at + DRAIN_GRACE then
                       EndOfStream(LastN(AllDelivered(script[..k + 1]), MAX_COLLECTED_LOG_BYTES))
                     else StillWaiting;
            if o == StillWaiting then
              Undecided(message, times, n, script, k + 1) && OverSince(script, k + 1, exited, at)
            else DecidedAt(message, times, n, script, k, o)
  {
    hide Occurrences, Delivered, AllDelivered, PassBytes, LastN, Total, Idle;
    assert script[..k + 1] == script[..k] + [script[k]];
    if ok {
      OverSinceStep(script, k, was, exited, at);
    }
  }

  /** What the loop remembers: whether some earlier pass was idle and over, and when the first
      such pass was. */
  ghost predicate OverSince(passes: seq<Pass>, k: nat, exited: bool, at: nat)
    requires k <= |passes|
  {
    if exited then exists j :: 0 <= j < k && FirstOver(passes, j) && passes[j].now == at
    else forall j :: 0 <= j < k ==> !(Idle(passes[j]) && passes[j].over)
  }

  lemma OverSinceStep(passes: seq<Pass>, k: nat, was: bool, exited: bool, at: nat)
    requires k < |passes|
    requires var idleOver := Idle(passes[k]) && passes[k].over;
             if was then exited && OverSince(passes, k, true, at)
             else OverSince(passes, k, false, 0) && exited == idleOver && (exited ==> at == passes[k].now)
    ensures OverSince(passes, k + 1, exited, at)
    ensures Drained(passes, k) <==> Idle(passes[k]) && passes[k].over && passes[k].now >= at + DRAIN_GRACE
  {
    if exited && !was {
      assert FirstOver(passes, k);
    }
  }

  method NewMatchers(message: seq<Byte>, n: nat) returns (matchers: seq<StreamMatcher>)
    requires message != []
    ensures |matchers| == n && fresh(matchers) && Hold(matchers, message, EachDelivered([], n))
  {
    matchers := [];
    for i := 0 to n
      invariant |matchers| == i && fresh(matchers)
      invariant Hold(matchers, message, EachDelivered([], i))
    {
      var m := new StreamMatcher(message);
      matchers := matchers + [m];
    }
  }
}
