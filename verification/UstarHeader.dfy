/** One ustar header block: how it is laid out and what a reader of the format finds in it. */
module UstarHeader {
  import opened Bytes
  import opened UstarField
  import opened UstarPath

  const NAME_OFF: nat := 0
  const NAME_LEN: nat := 100
  const MODE_OFF: nat := 100
  const UID_OFF: nat := 108
  const GID_OFF: nat := 116
  const SIZE_OFF: nat := 124
  const SIZE_LEN: nat := 12
  const MTIME_OFF: nat := 136
  const TYPEFLAG_OFF: nat := 156
  const MAGIC_OFF: nat := 257
  const VERSION_OFF: nat := 263
  const PREFIX_OFF: nat := 345

  const TYPEFLAG_REGULAR: Byte := 48
  const TYPEFLAG_DIRECTORY: Byte := 53
  const MAGIC: seq<Byte> := [117, 115, 116, 97, 114, 0]  // "ustar" NUL
  const VERSION: seq<Byte> := [48, 48]                   // "00"
  const BLANK_CHKSUM: seq<Byte> := [32, 32, 32, 32, 32, 32, 32, 32]

  const OCTAL_7DIGIT_MAX: nat := 0x1F_FFFF
  const OCTAL_11DIGIT_MAX: nat := 0x1_FFFF_FFFF
  const U32_MAX: nat := 0xFFFF_FFFF
  const U64_MAX: nat := 0xFFFF_FFFF_FFFF_FFFF

  /** What a header says about its entry. */
  datatype Meta = Meta(path: seq<Byte>, typeflag: Byte, size: nat, mode: nat, uid: nat, gid: nat)
  {
    ghost predicate Storable() {
      && SplitOf(path).Split?
      && size <= OCTAL_11DIGIT_MAX && uid <= OCTAL_7DIGIT_MAX && gid <= OCTAL_7DIGIT_MAX
    }
  }

  lemma OctalLimits()
    ensures Pow8(7) == OCTAL_7DIGIT_MAX + 1 && Pow8(11) == OCTAL_11DIGIT_MAX + 1
    ensures Pow8(4) == 4096 && Pow8(4) < Pow8(7)
  {
    assert Pow8(1) == 8 && Pow8(2) == 64 && Pow8(3) == 512 && Pow8(4) == 4096 && Pow8(5) == 32768;
    assert Pow8(6) == 0x4_0000 && Pow8(7) == 0x20_0000 && Pow8(8) == 0x100_0000 && Pow8(9) == 0x800_0000;
    assert Pow8(10) == 0x4000_0000 && Pow8(11) == 0x2_0000_0000;
  }

  /* ---- Laying parts into a block ---- */

  datatype Part = Part(off: nat, bytes: seq<Byte>)
  {
    function End(): nat {
      off + |bytes|
    }
  }

  predicate Fit(n: nat, parts: seq<Part>) {
    forall k :: 0 <= k < |parts| ==> parts[k].End() <= n
  }

  function Lay(block: seq<Byte>, parts: seq<Part>): (r: seq<Byte>)
    requires Fit(|block|, parts)
    ensures |r| == |block|
  {
    if parts == [] then block
    else
      var last := parts[|parts| - 1];
      Splice(Lay(block, parts[..|parts| - 1]), last.off, last.bytes)
  }

  lemma LaySnoc(block: seq<Byte>, parts: seq<Part>, part: Part)
    requires Fit(|block|, parts) && part.End() <= |block|
    ensures Fit(|block|, parts + [part])
    ensures Lay(block, parts + [part]) == Splice(Lay(block, parts), part.off, part.bytes)
  {
    assert (parts + [part])[..|parts|] == parts;
  }

  predicate Apart(part: Part, at: nat, len: nat) {
    at + len <= part.off || part.End() <= at
  }

  /** A region no part touches keeps what was there. */
  lemma {:induction false} LayElsewhere(block: seq<Byte>, parts: seq<Part>, at: nat, len: nat)
    requires Fit(|block|, parts) && at + len <= |block|
    requires forall k :: 0 <= k < |parts| ==> Apart(parts[k], at, len)
    ensures Field(Lay(block, parts), at, len) == Field(block, at, len)
    decreases |parts|
  {
    hide Field, Splice;
    if parts != [] {
      var front, last := parts[..|parts| - 1], parts[|parts| - 1];
      LayElsewhere(block, front, at, len);
      SpliceElsewhere(Lay(block, front), last.off, last.bytes, at, len);
    }
  }

  /** A part that no later part touches reads back. */
  lemma {:induction false} LayHere(block: seq<Byte>, parts: seq<Part>, k: nat)
    requires Fit(|block|, parts) && k < |parts|
    requires forall j :: k < j < |parts| ==> Apart(parts[j], parts[k].off, |parts[k].bytes|)
    ensures Field(Lay(block, parts), parts[k].off, |parts[k].bytes|) == parts[k].bytes
    decreases |parts|
  {
    hide Field, Splice;
    var front, last := parts[..|parts| - 1], parts[|parts| - 1];
    if k == |parts| - 1 {
      SpliceHere(Lay(block, front), last.off, last.bytes);
    } else {
      LayHere(block, front, k);
      SpliceElsewhere(Lay(block, front), last.off, last.bytes, parts[k].off, |parts[k].bytes|);
    }
  }

  /* ---- The header ---- */

  function NumberField(v: nat, digits: nat): (f: seq<Byte>)
    ensures |f| == digits + 1
  {
    Octal(v, digits) + [NUL]
  }

  /** Everything but the checksum, in the order it is written. */
  ghost function HeaderParts(m: Meta): (p: seq<Part>)
    requires m.Storable()
    ensures |p| == 10 && Fit(BLOCK_SIZE, p)
  {
    var s := SplitOf(m.path);
    SplitIsBest(m.path, s.name, s.prefix);
    [
      Part(NAME_OFF, s.name),
      Part(PREFIX_OFF, s.prefix),
      Part(MODE_OFF, NumberField(m.mode % 4096, 7)),
      Part(UID_OFF, NumberField(m.uid, 7)),
      Part(GID_OFF, NumberField(m.gid, 7)),
      Part(SIZE_OFF, NumberField(m.size, 11)),
      Part(MTIME_OFF, NumberField(0, 11)),
      Part(TYPEFLAG_OFF, [m.typeflag]),
      Part(MAGIC_OFF, MAGIC),
      Part(VERSION_OFF, VERSION)
    ]
  }

  /** The header with its checksum field blanked out, which is what the checksum sums. */
  ghost function Summed(m: Meta): (h: seq<Byte>)
    requires m.Storable()
    ensures |h| == BLOCK_SIZE
  {
    Splice(Lay(Zeros(BLOCK_SIZE), HeaderParts(m)), CHKSUM_OFF, BLANK_CHKSUM)
  }

  ghost function HeaderBlock(m: Meta): (h: seq<Byte>)
    requires m.Storable()
    ensures |h| == BLOCK_SIZE
  {
    Splice(Summed(m), CHKSUM_OFF, ChksumField(Sum(Summed(m))))
  }

  /* ---- The format's reader ---- */

  function UpToNul(f: seq<Byte>): seq<Byte> {
    if f == [] || f[0] == NUL then [] else [f[0]] + UpToNul(f[1..])
  }

  lemma {:induction false} UpToNulStops(s: seq<Byte>, rest: seq<Byte>)
    requires NUL !in s && (rest == [] || rest[0] == NUL)
    ensures UpToNul(s + rest) == s
  {
    if s == [] {
      assert s + rest == rest;
    } else {
      assert (s + rest)[0] == s[0] && (s + rest)[1..] == s[1..] + rest;
      UpToNulStops(s[1..], rest);
    }
  }

  function ChecksumOk(h: seq<Byte>): bool
    requires |h| == BLOCK_SIZE
  {
    ParseFrom(0, Field(h, CHKSUM_OFF, CHKSUM_LEN), U32_MAX) == Number(Sum(Splice(h, CHKSUM_OFF, BLANK_CHKSUM)))
  }

  datatype HeaderRead = Header(meta: Meta) | BadHeader

  /** A header as the "ustar Interchange Format" defines it. */
  function ReadHeader(h: seq<Byte>): HeaderRead
    requires |h| == BLOCK_SIZE
  {
    var mode := ParseFrom(0, Field(h, MODE_OFF, 8), U64_MAX);
    var uid := ParseFrom(0, Field(h, UID_OFF, 8), U64_MAX);
    var gid := ParseFrom(0, Field(h, GID_OFF, 8), U64_MAX);
    var size := ParseFrom(0, Field(h, SIZE_OFF, SIZE_LEN), U64_MAX);
    if !ChecksumOk(h) || Field(h, MAGIC_OFF, 6) != MAGIC || Field(h, VERSION_OFF, 2) != VERSION then BadHeader
    else if mode.Malformed? || uid.Malformed? || gid.Malformed? || size.Malformed? then BadHeader
    else
      Header(Meta(Rejoin(UpToNul(Field(h, NAME_OFF, NAME_LEN)), UpToNul(Field(h, PREFIX_OFF, PREFIX_LEN))),
                  h[TYPEFLAG_OFF], size.value, mode.value, uid.value, gid.value))
  }

  /** Outside the checksum field the finished header is what was laid out. */
  lemma HeaderField(m: Meta, at: nat, len: nat)
    requires m.Storable() && at + len <= BLOCK_SIZE
    requires at + len <= CHKSUM_OFF || CHKSUM_OFF + CHKSUM_LEN <= at
    ensures Field(HeaderBlock(m), at, len) == Field(Lay(Zeros(BLOCK_SIZE), HeaderParts(m)), at, len)
  {
    hide Field, Splice, Lay, Sum;
    SpliceElsewhere(Lay(Zeros(BLOCK_SIZE), HeaderParts(m)), CHKSUM_OFF, BLANK_CHKSUM, at, len);
    SpliceElsewhere(Summed(m), CHKSUM_OFF, ChksumField(Sum(Summed(m))), at, len);
  }

  lemma HeaderPart(m: Meta, k: nat)
    requires m.Storable() && k < 10
    ensures var p := HeaderParts(m)[k]; Field(HeaderBlock(m), p.off, |p.bytes|) == p.bytes
  {
    hide Field, Splice, Lay, HeaderBlock, Octal, SplitOf;
    var s := SplitOf(m.path);
    SplitIsBest(m.path, s.name, s.prefix);
    var p := HeaderParts(m)[k];
    LayHere(Zeros(BLOCK_SIZE), HeaderParts(m), k);
    HeaderField(m, p.off, |p.bytes|);
  }

  lemma HeaderGap(m: Meta, at: nat, len: nat)
    requires m.Storable() && at + len <= BLOCK_SIZE
    requires at + len <= CHKSUM_OFF || CHKSUM_OFF + CHKSUM_LEN <= at
    requires forall k :: 0 <= k < 10 ==> Apart(HeaderParts(m)[k], at, len)
    ensures Field(HeaderBlock(m), at, len) == Zeros(len)
  {
    HeaderField(m, at, len);
    LayElsewhere(Zeros(BLOCK_SIZE), HeaderParts(m), at, len);
  }

  lemma NameReadsBack(m: Meta)
    requires m.Storable()
    ensures UpToNul(Field(HeaderBlock(m), NAME_OFF, NAME_LEN)) == SplitOf(m.path).name
  {
    hide HeaderBlock, SplitOf, UpToNul, Octal;
    var s, h := SplitOf(m.path), HeaderBlock(m);
    SplitIsBest(m.path, s.name, s.prefix);
    HeaderPart(m, 0);
    HeaderGap(m, |s.name|, NAME_LEN - |s.name|);
    assert Field(h, NAME_OFF, NAME_LEN) == Field(h, NAME_OFF, |s.name|) + Field(h, |s.name|, NAME_LEN - |s.name|);
    UpToNulStops(s.name, Zeros(NAME_LEN - |s.name|));
  }

  lemma PrefixReadsBack(m: Meta)
    requires m.Storable()
    ensures UpToNul(Field(HeaderBlock(m), PREFIX_OFF, PREFIX_LEN)) == SplitOf(m.path).prefix
  {
    hide HeaderBlock, SplitOf, UpToNul, Octal;
    var s, h := SplitOf(m.path), HeaderBlock(m);
    SplitIsBest(m.path, s.name, s.prefix);
    HeaderPart(m, 1);
    var n := |s.prefix|;
    HeaderGap(m, PREFIX_OFF + n, PREFIX_LEN - n);
    assert Field(h, PREFIX_OFF, PREFIX_LEN) == Field(h, PREFIX_OFF, n) + Field(h, PREFIX_OFF + n, PREFIX_LEN - n);
    UpToNulStops(s.prefix, Zeros(PREFIX_LEN - n));
  }

  lemma NumbersReadBack(m: Meta)
    requires m.Storable()
    ensures var h := HeaderBlock(m);
            && ParseFrom(0, Field(h, MODE_OFF, 8), U64_MAX) == Number(m.mode % 4096)
            && ParseFrom(0, Field(h, UID_OFF, 8), U64_MAX) == Number(m.uid)
            && ParseFrom(0, Field(h, GID_OFF, 8), U64_MAX) == Number(m.gid)
            && ParseFrom(0, Field(h, SIZE_OFF, SIZE_LEN), U64_MAX) == Number(m.size)
  {
    hide HeaderBlock, ParseFrom, Octal, Field;
    OctalLimits();
    HeaderPart(m, 2);
    HeaderPart(m, 3);
    HeaderPart(m, 4);
    HeaderPart(m, 5);
    NumberFieldRoundTrip(m.mode % 4096, 7, [NUL], U64_MAX);
    NumberFieldRoundTrip(m.uid, 7, [NUL], U64_MAX);
    NumberFieldRoundTrip(m.gid, 7, [NUL], U64_MAX);
    NumberFieldRoundTrip(m.size, 11, [NUL], U64_MAX);
  }

  lemma ChecksumReadsBack(m: Meta)
    requires m.Storable()
    ensures ChecksumOk(HeaderBlock(m))
    ensures Field(HeaderBlock(m), CHKSUM_OFF, CHKSUM_LEN) == ChksumField(Sum(Summed(m)))
    ensures Splice(HeaderBlock(m), CHKSUM_OFF, BLANK_CHKSUM) == Summed(m)
  {
    var raw, s := Lay(Zeros(BLOCK_SIZE), HeaderParts(m)), Summed(m);
    var f := ChksumField(Sum(s));
    hide Lay, Sum, Splice, ChksumField, Field, ParseFrom;
    SpliceHere(s, CHKSUM_OFF, f);
    SpliceTwice(raw, CHKSUM_OFF, BLANK_CHKSUM, f);
    SpliceTwice(s, CHKSUM_OFF, f, BLANK_CHKSUM);
    SpliceTwice(raw, CHKSUM_OFF, BLANK_CHKSUM, BLANK_CHKSUM);
    ChecksumFits(s);
  }

  /** A header reads back as what it was built from, mode reduced to its permission bits. */
  lemma HeaderReadsBack(m: Meta)
    requires m.Storable()
    ensures ReadHeader(HeaderBlock(m)) == Header(m.(mode := m.mode % 4096))
  {
    var s, h := SplitOf(m.path), HeaderBlock(m);
    hide HeaderBlock, ParseFrom, UpToNul, Sum, Splice, ChecksumOk;
    SplitIsBest(m.path, s.name, s.prefix);
    NameReadsBack(m);
    PrefixReadsBack(m);
    NumbersReadBack(m);
    ChecksumReadsBack(m);
    HeaderPart(m, 7);
    HeaderPart(m, 8);
    HeaderPart(m, 9);
    assert Field(h, TYPEFLAG_OFF, 1)[0] == h[TYPEFLAG_OFF];
  }

  /* ---- The layout, byte by byte ---- */

  /** `s` and as many zeros as it takes to fill `n` bytes. */
  function Padded(s: seq<Byte>, n: nat): seq<Byte>
    requires |s| <= n
  {
    s + Zeros(n - |s|)
  }

  lemma NameLayout(m: Meta)
    requires m.Storable()
    ensures var s := SplitOf(m.path);
            |s.name| <= 99 && HeaderBlock(m)[0..100] == Padded(s.name, 100)
  {
    hide HeaderBlock, SplitOf, Octal;
    var s, h := SplitOf(m.path), HeaderBlock(m);
    SplitIsBest(m.path, s.name, s.prefix);
    HeaderPart(m, 0);
    HeaderGap(m, |s.name|, 100 - |s.name|);
    CutAt(h, 0, |s.name|, 100);
  }

  lemma PrefixLayout(m: Meta)
    requires m.Storable()
    ensures var s := SplitOf(m.path);
            |s.prefix| <= 155 && HeaderBlock(m)[345..500] == Padded(s.prefix, 155)
  {
    hide HeaderBlock, SplitOf, Octal;
    var s, h := SplitOf(m.path), HeaderBlock(m);
    SplitIsBest(m.path, s.name, s.prefix);
    HeaderPart(m, 1);
    HeaderGap(m, 345 + |s.prefix|, 155 - |s.prefix|);
    CutAt(h, 345, 345 + |s.prefix|, 500);
  }

  lemma CutAt<T>(h: seq<T>, from: nat, mid: nat, to: nat)
    requires from <= mid <= to <= |h|
    ensures h[from..to] == h[from..mid] + h[mid..to]
  {
  }

  /** The header in the bytes of the format: name, mode, user and group, size, a modification time
      of zero, the checksum, the type, the magic and the version, the prefix, and zeros wherever
      nothing is said. */
  lemma HeaderLayout(m: Meta)
    requires m.Storable()
    ensures var h, s := HeaderBlock(m), SplitOf(m.path);
            && |h| == 512
            && |s.name| <= 99 && h[0..100] == Padded(s.name, 100)
            && h[100..108] == Octal(m.mode % 4096, 7) + [0]
            && h[108..116] == Octal(m.uid, 7) + [0]
            && h[116..124] == Octal(m.gid, 7) + [0]
            && h[124..136] == Octal(m.size, 11) + [0]
            && h[136..148] == [48, 48, 48, 48, 48, 48, 48, 48, 48, 48, 48, 0]
            && h[156] == m.typeflag
            && h[157..257] == Zeros(100)
            && h[257..263] == [117, 115, 116, 97, 114, 0]
            && h[263..265] == [48, 48]
            && h[265..345] == Zeros(80)
            && |s.prefix| <= 155 && h[345..500] == Padded(s.prefix, 155)
            && h[500..512] == Zeros(12)
  {
    NameLayout(m);
    PrefixLayout(m);
    NumbersLayout(m);
    FixedLayout(m);
    hide HeaderBlock, SplitOf, Octal;
    SplitIsBest(m.path, SplitOf(m.path).name, SplitOf(m.path).prefix);
    HeaderGap(m, 157, 100);
    HeaderGap(m, 265, 80);
    HeaderGap(m, 500, 12);
  }

  lemma NumbersLayout(m: Meta)
    requires m.Storable()
    ensures var h := HeaderBlock(m);
            && h[100..108] == Octal(m.mode % 4096, 7) + [0]
            && h[108..116] == Octal(m.uid, 7) + [0]
            && h[116..124] == Octal(m.gid, 7) + [0]
            && h[124..136] == Octal(m.size, 11) + [0]
  {
    hide HeaderBlock, SplitOf, Octal;
    HeaderPart(m, 2);
    HeaderPart(m, 3);
    HeaderPart(m, 4);
    HeaderPart(m, 5);
  }

  lemma FixedLayout(m: Meta)
    requires m.Storable()
    ensures var h := HeaderBlock(m);
            && h[136..148] == [48, 48, 48, 48, 48, 48, 48, 48, 48, 48, 48, 0]
            && h[156] == m.typeflag
            && h[257..263] == [117, 115, 116, 97, 114, 0]
            && h[263..265] == [48, 48]
  {
    hide HeaderBlock, SplitOf;
    ZeroTime();
    hide Octal;
    HeaderPart(m, 6);
    HeaderPart(m, 7);
    HeaderPart(m, 8);
    HeaderPart(m, 9);
    assert Field(HeaderBlock(m), 156, 1)[0] == HeaderBlock(m)[156];
  }

  lemma ZeroTime()
    ensures Octal(0, 11) == [48, 48, 48, 48, 48, 48, 48, 48, 48, 48, 48]
  {
    assert Octal(0, 4) == [48, 48, 48, 48];
    assert Octal(0, 8) == [48, 48, 48, 48, 48, 48, 48, 48];
  }

  /** The checksum: the sum of all bytes of the header with its own field taken as spaces, in six
      octal digits, a NUL and a space. */
  lemma ChecksumLayout(m: Meta)
    requires m.Storable()
    ensures var h := HeaderBlock(m);
            var spaces: seq<Byte> := [32, 32, 32, 32, 32, 32, 32, 32];
            h[148..156] == Octal(Sum(h[..148] + spaces + h[156..]), 6) + [0, 32]
  {
    ChecksumReadsBack(m);
    hide HeaderBlock, Sum, Summed;
  }
}
