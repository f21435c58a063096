/** The per-stream shared log buffer: a drop-oldest ring with absolute offsets, or,
    in strict mode, a bounded buffer that refuses what does not fit. */
module LogBuffer {
  import opened Bytes

  /** The most that one read takes out of a buffer. */
  const READ_CHUNK: nat := 8192

  /** The value of a buffer. `head` is the absolute offset of `buf[0]`. */
  datatype Ring = Ring(buf: seq<Byte>, head: nat, limit: nat, strict: bool)
  {
    ghost predicate Valid() {
      |buf| <= limit
    }

    function Tail(): nat {
      head + |buf|
    }
  }

  function NewRing(limit: nat, strict: bool): (r: Ring)
    ensures r.Valid() && r.Tail() == 0
  {
    Ring([], 0, limit, strict)
  }

  /** What an append is refused for: only strict buffers refuse, and only when `d` does not fit. */
  predicate Accepts(r: Ring, d: seq<Byte>) {
    d == [] || !r.strict || |r.buf| + |d| <= r.limit
  }

  /** The part of one append that ever enters the ring. */
  function Kept(r: Ring, d: seq<Byte>): seq<Byte> {
    if r.strict then d else LastN(d, r.limit)
  }

  /** The ring after an append: the most recent `limit` bytes, with `head` moved by the
      number of bytes that left the ring. */
  function Appended(r: Ring, d: seq<Byte>): (r': Ring)
    requires r.Valid()
    ensures r'.Valid() && r'.limit == r.limit && r'.strict == r.strict
    ensures Accepts(r, d) ==> r'.Tail() == r.Tail() + |Kept(r, d)|
    ensures !Accepts(r, d) ==> r' == r
  {
    if !Accepts(r, d) then r
    else
      var all := r.buf + Kept(r, d);
      var buf := LastN(all, r.limit);
      Ring(buf, r.head + (|all| - |buf|), r.limit, r.strict)
  }

  datatype ReadOutcome = ReadOutcome(bytes: seq<Byte>, next: nat, skipped: bool)

  /** What a reader at absolute offset `offset` with room for `cap` bytes gets. */
  function ReadSpec(r: Ring, offset: nat, cap: nat): (o: ReadOutcome)
    ensures offset + |o.bytes| <= o.next && |o.bytes| <= cap
    ensures o.skipped <==> offset < r.head
  {
    var from := if offset < r.head then r.head else offset;
    var avail := if from < r.Tail() then r.Tail() - from else 0;
    var n := if avail < cap then avail else cap;
    ReadOutcome(if n == 0 then [] else r.buf[from - r.head..from - r.head + n], from + n, offset < r.head)
  }

  /** Contents never depend on how the input was cut into appends: the ring always holds the
      last `limit` bytes of everything it accepted, oversized appends included. */
  lemma ContentsAfterAppend(r: Ring, d: seq<Byte>)
    requires r.Valid() && Accepts(r, d)
    ensures Appended(r, d).buf == LastN(r.buf + d, r.limit)
  {
    if !r.strict {
      LastNOfAppend(r.buf, d, r.limit);
    }
  }

  /** Both modes in full. In strict mode what does not fit is refused and changes nothing, and what
      fits is added. Otherwise the front of a too long append is dropped, then the oldest bytes
      are, and the head moves by the number of bytes that left the ring. */
  lemma AppendIs(r: Ring, d: seq<Byte>)
    requires r.Valid()
    ensures var r' := Appended(r, d);
            && r'.limit == r.limit && r'.strict == r.strict
            && (r.strict ==> (Accepts(r, d) <==> d == [] || |r.buf| + |d| <= r.limit))
            && (r.strict ==> r' == if Accepts(r, d) then r.(buf := r.buf + d) else r)
            && (!r.strict ==>
                  && Accepts(r, d)
                  && (|d| <= r.limit ==>
                        var all := r.buf + d;
                        if |all| <= r.limit then r'.buf == all && r'.head == r.head
                        else r'.buf == all[|all| - r.limit..] && r'.head == r.head + (|all| - r.limit))
                  && (|d| > r.limit ==> r'.buf == d[|d| - r.limit..] && r'.head == r.head + |r.buf|))
  {
    if !r.strict && |d| > r.limit {
      var kept := d[|d| - r.limit..];
      assert LastN(r.buf + kept, r.limit) == kept;
    }
  }

  /** A read in full: from the offset, or from the oldest byte if that was dropped, as much as there
      is and fits. */
  lemma ReadIs(r: Ring, offset: nat, cap: nat)
    requires r.Valid()
    ensures var o := ReadSpec(r, offset, cap);
            && (o.skipped <==> offset < r.head)
            && var from := if offset < r.head then r.head else offset;
               if from >= r.Tail() || cap == 0 then o.bytes == [] && o.next == from
               else if r.Tail() - from <= cap then o.bytes == r.buf[from - r.head..] && o.next == r.Tail()
               else o.bytes == r.buf[from - r.head..][..cap] && o.next == from + cap
  {
  }

  /** Absolute offsets, on the other hand, count every appended byte exactly when no single
      append is longer than the limit. */
  lemma TailCountsEveryByte(r: Ring, d: seq<Byte>)
    requires r.Valid() && Accepts(r, d)
    ensures Appended(r, d).Tail() == r.Tail() + |d| <==> |d| <= r.limit
  {
  }

  class SharedLogBuffer {
    var buf: seq<Byte>
    var head: nat
    const limit: nat
    const strict: bool

    ghost predicate Valid()
      reads this
    {
      Value().Valid()
    }

    ghost function Value(): Ring
      reads this
    {
      Ring(buf, head, limit, strict)
    }

    constructor (limit: nat, strict: bool)
      ensures Valid() && Value() == NewRing(limit, strict)
    {
      buf, head := [], 0;
      this.limit, this.strict := limit, strict;
    }

    method Append(data: seq<Byte>) returns (ok: bool)
      requires Valid()
      modifies this
      ensures Valid()
      ensures ok <==> Accepts(old(Value()), data)
      ensures Value() == Appended(old(Value()), data)
    {
      if |data| == 0 {
        assert buf + [] == buf;
        return true;
      }
      if strict {
        if |data| > limit || |buf| + |data| > limit {
          return false;
        }
        buf := buf + data;
        return true;
      }
      var keep := if |data| > limit then data[|data| - limit..] else data;
      buf := buf + keep;
      ghost var all, head0 := buf, head;
      while |buf| > limit
        invariant LastN(buf, limit) == LastN(all, limit)
        invariant head + |buf| == head0 + |all|
      {
        LastNDropFirst(buf, limit);
        buf, head := buf[1..], head + 1;
      }
      return true;
    }

    /** Copies what is readable from `readerOffset` into the front of `out`. */
    method ReadAt(readerOffset: nat, out: array<Byte>) returns (n: nat, next: nat, skipped: bool)
      requires Valid()
      modifies out
      ensures n <= out.Length
      ensures ReadOutcome(out[..n], next, skipped) == ReadSpec(Value(), readerOffset, out.Length)
      ensures out[n..] == old(out[..])[n..]
    {
      var tail := head + |buf|;
      var offset;
      if readerOffset < head {
        offset, skipped := head, true;
      } else {
        offset, skipped := readerOffset, false;
      }
      if offset >= tail || out.Length == 0 {
        return 0, offset, skipped;
      }
      var start := offset - head;
      n := if |buf| - start < out.Length then |buf| - start else out.Length;
      CopyOut(buf[start..start + n], out);
      next := offset + n;
    }

    static method CopyOut(bytes: seq<Byte>, out: array<Byte>)
      requires |bytes| <= out.Length
      modifies out
      ensures out[..] == bytes + old(out[..])[|bytes|..]
    {
      ghost var before := out[..];
      for i := 0 to |bytes|
        invariant forall k :: 0 <= k < i ==> out[k] == bytes[k]
        invariant forall k :: i <= k < out.Length ==> out[k] == before[k]
      {
        out[i] := bytes[i];
      }
    }
  }
}
