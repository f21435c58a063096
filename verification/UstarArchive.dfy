/** Building a ustar archive and reading it back as the format prescribes. */
module UstarArchive {
  import opened Bytes
  import opened UstarField
  import opened UstarPath
  import opened UstarHeader

  const LIMIT: nat := 64 * 1024 * 1024

  datatype Entry = Entry(path: seq<Byte>, isDir: bool, data: seq<Byte>, mode: nat, uid: nat, gid: nat)
  {
    function Meta(): Meta {
      UstarHeader.Meta(path, if isDir then TYPEFLAG_DIRECTORY else TYPEFLAG_REGULAR, |data|, mode, uid, gid)
    }

    /** What the archive can hold; a directory has no data. */
    ghost predicate Storable() {
      Meta().Storable() && (isDir ==> data == [])
    }

    /** What of the entry survives: the mode loses everything but its permission bits. */
    function Stored(): Entry {
      this.(mode := mode % 4096)
    }
  }

  function Pad(n: nat): (p: nat)
    ensures p < BLOCK_SIZE && (n + p) % BLOCK_SIZE == 0
  {
    (BLOCK_SIZE - n % BLOCK_SIZE) % BLOCK_SIZE
  }

  ghost function Encode(e: Entry): (b: seq<Byte>)
    requires e.Storable()
    ensures |b| == BLOCK_SIZE + |e.data| + Pad(|e.data|)
  {
    HeaderBlock(e.Meta()) + e.data + Zeros(Pad(|e.data|))
  }

  ghost predicate AllStorable(es: seq<Entry>) {
    forall k :: 0 <= k < |es| ==> es[k].Storable()
  }

  ghost function EncodeAll(es: seq<Entry>): seq<Byte>
    requires AllStorable(es)
  {
    if es == [] then [] else Encode(es[0]) + EncodeAll(es[1..])
  }

  lemma BlocksAdd(a: nat, b: nat)
    requires a % BLOCK_SIZE == 0 && b % BLOCK_SIZE == 0
    ensures (a + b) % BLOCK_SIZE == 0
  {
    var m := InBlocks(a);
    var n := InBlocks(b);
    BlocksAre(a + b, m + n);
  }

  lemma InBlocks(a: nat) returns (n: nat)
    requires a % BLOCK_SIZE == 0
    ensures a == BLOCK_SIZE * n
  {
    n := a / BLOCK_SIZE;
  }

  lemma BlocksAre(a: nat, n: nat)
    requires a == BLOCK_SIZE * n
    ensures a % BLOCK_SIZE == 0
  {
  }

  lemma {:induction false} WholeBlocks(es: seq<Entry>)
    requires AllStorable(es)
    ensures |EncodeAll(es)| % BLOCK_SIZE == 0
    decreases |es|
  {
    hide Encode, Pad;
    if es != [] {
      WholeBlocks(es[1..]);
      var n := |es[0].data|;
      assert (n + Pad(n)) % BLOCK_SIZE == 0;
      BlocksAdd(BLOCK_SIZE, n + Pad(n));
      BlocksAdd(|Encode(es[0])|, |EncodeAll(es[1..])|);
    }
  }

  lemma {:induction false} EncodeAllSnoc(es: seq<Entry>, e: Entry)
    requires AllStorable(es) && e.Storable()
    ensures AllStorable(es + [e]) && EncodeAll(es + [e]) == EncodeAll(es) + Encode(e)
    decreases |es|
  {
    hide Encode;
    if es == [] {
      assert es + [e] == [e] && [e][1..] == [];
      assert EncodeAll([e]) == Encode(e) + EncodeAll([]);
    } else {
      assert (es + [e])[0] == es[0] && (es + [e])[1..] == es[1..] + [e];
      EncodeAllSnoc(es[1..], e);
    }
  }

  ghost function Archive(es: seq<Entry>): seq<Byte>
    requires AllStorable(es)
  {
    EncodeAll(es) + Zeros(2 * BLOCK_SIZE)
  }

  /* ---- Reading as the format prescribes ---- */

  datatype Listing = Entries(es: seq<Entry>) | BadArchive

  predicate ZeroBlock(b: seq<Byte>) {
    forall i :: 0 <= i < |b| ==> b[i] == 0
  }

  /** Entries up to the end marker of two zero blocks. */
  ghost function ReadArchive(b: seq<Byte>): Listing
    decreases |b|
  {
    if |b| < 2 * BLOCK_SIZE then BadArchive
    else if ZeroBlock(b[..BLOCK_SIZE]) then
      if ZeroBlock(b[BLOCK_SIZE..2 * BLOCK_SIZE]) then Entries([]) else BadArchive
    else
      var h := ReadHeader(b[..BLOCK_SIZE]);
      if h.BadHeader? || (h.meta.typeflag != TYPEFLAG_DIRECTORY && h.meta.typeflag != TYPEFLAG_REGULAR) then BadArchive
      else
        var m := h.meta;
        var end := BLOCK_SIZE + m.size;
        if |b| < end + Pad(m.size) then BadArchive
        else
          var rest := ReadArchive(b[end + Pad(m.size)..]);
          if rest.BadArchive? then BadArchive
          else
            var e := Entry(m.path, m.typeflag == TYPEFLAG_DIRECTORY, b[BLOCK_SIZE..end], m.mode, m.uid, m.gid);
            Entries([e] + rest.es)
  }

  function AllStored(es: seq<Entry>): (s: seq<Entry>)
    ensures |s| == |es| && forall k :: 0 <= k < |es| ==> s[k] == es[k].Stored()
  {
    if es == [] then [] else [es[0].Stored()] + AllStored(es[1..])
  }

  lemma HeaderIsNotZero(e: Entry)
    requires e.Storable()
    ensures !ZeroBlock(HeaderBlock(e.Meta()))
  {
    var m := e.Meta();
    var s, h := SplitOf(m.path), HeaderBlock(m);
    hide HeaderBlock, SplitOf;
    SplitIsBest(m.path, s.name, s.prefix);
    HeaderPart(m, 0);
    assert Field(h, NAME_OFF, |s.name|)[0] == h[0] == s.name[0];
  }

  /** One entry in front of anything reads as that entry in front of what the rest reads as. */
  lemma ReadOne(e: Entry, tail: seq<Byte>)
    requires e.Storable() && |tail| >= 2 * BLOCK_SIZE
    ensures ReadArchive(Encode(e) + tail)
         == if ReadArchive(tail).BadArchive? then BadArchive else Entries([e.Stored()] + ReadArchive(tail).es)
  {
    var b, h := Encode(e) + tail, HeaderBlock(e.Meta());
    var end := BLOCK_SIZE + |e.data|;
    OneEntryBytes(e, tail);
    HeaderReadsBack(e.Meta());
    HeaderIsNotZero(e);
    hide HeaderBlock, ReadHeader, Encode, ZeroBlock;
    assert ReadHeader(b[..BLOCK_SIZE]) == Header(e.Meta().(mode := e.mode % 4096));
  }

  lemma OneEntryBytes(e: Entry, tail: seq<Byte>)
    requires e.Storable()
    ensures var b, end := Encode(e) + tail, BLOCK_SIZE + |e.data|;
            && b[..BLOCK_SIZE] == HeaderBlock(e.Meta())
            && b[BLOCK_SIZE..end] == e.data
            && b[end + Pad(|e.data|)..] == tail
  {
    hide HeaderBlock;
  }

  /** The round trip: whatever was built reads back, entry by entry and in order. */
  lemma {:induction false} ArchiveReadsBack(es: seq<Entry>)
    requires AllStorable(es)
    ensures ReadArchive(Archive(es)) == Entries(AllStored(es))
    decreases |es|
  {
    hide Encode, ReadHeader;
    var end := Zeros(2 * BLOCK_SIZE);
    if es == [] {
      assert Archive(es) == end;
    } else {
      ArchiveReadsBack(es[1..]);
      assert Archive(es) == Encode(es[0]) + Archive(es[1..]);
      ReadOne(es[0], Archive(es[1..]));
    }
  }

  /** One entry in the bytes of the format: a header with the type of the entry, the size and the
      permission bits, then the data, filled up with zeros to whole blocks of 512 bytes. */
  lemma EntryLayout(e: Entry)
    requires e.Storable()
    ensures var b, n := Encode(e), |e.data|;
            && |b| % 512 == 0 && 512 + n <= |b| < 1024 + n
            && b[..512] == HeaderBlock(e.Meta())
            && b[100..108] == Octal(e.mode % 4096, 7) + [0]
            && b[108..116] == Octal(e.uid, 7) + [0]
            && b[116..124] == Octal(e.gid, 7) + [0]
            && b[124..136] == Octal(n, 11) + [0]
            && b[156] == (if e.isDir then 53 else 48)
            && b[512..512 + n] == e.data
            && b[512 + n..] == Zeros(|b| - 512 - n)
  {
    var m := e.Meta();
    HeaderLayout(m);
    hide HeaderBlock, SplitOf, Octal;
    BlocksAdd(512, |e.data| + Pad(|e.data|));
    ThreeParts(HeaderBlock(m), e.data, Zeros(Pad(|e.data|)));
    assert forall i, j :: 0 <= i <= j <= 512 ==> Encode(e)[i..j] == HeaderBlock(m)[i..j];
  }

  lemma ThreeParts<T>(h: seq<T>, data: seq<T>, pad: seq<T>)
    ensures var b := h + data + pad;
            && b[..|h|] == h && b[|h|..|h| + |data|] == data && b[|h| + |data|..] == pad
            && forall i, j :: 0 <= i <= j <= |h| ==> b[i..j] == h[i..j]
  {
  }

  /** What reading back changes about an entry: the mode keeps its twelve permission bits. */
  lemma StoredIs(e: Entry)
    ensures e.Stored() == Entry(e.path, e.isDir, e.data, e.mode % 4096, e.uid, e.gid)
  {
  }

  /** The archive ends in 1024 zero bytes behind the entries, one after the other. */
  lemma {:induction false} ArchiveLayout(es: seq<Entry>)
    requires AllStorable(es)
    ensures |Archive(es)| % 512 == 0 && |Archive(es)| >= 1024
    ensures es == [] ==> Archive(es) == Zeros(1024)
    ensures es != [] ==> Archive(es) == Encode(es[0]) + Archive(es[1..])
  {
    hide Encode;
    WholeBlocks(es);
    BlocksAdd(|EncodeAll(es)|, 1024);
    if es == [] {
      assert Archive(es) == Zeros(1024);
    } else {
      Assoc(Encode(es[0]), EncodeAll(es[1..]), Zeros(2 * BLOCK_SIZE));
    }
  }

  /* ---- The builder ---- */

  datatype BuildResult =
    | Built
    | UidTooLarge | GidTooLarge | SizeTooLarge | BadPath(why: SplitResult)
    | MissingSlash | UnexpectedSlash
    | TooBig

  /** What the header writer refuses, in the order it looks. */
  function HeaderRefusal(m: Meta): BuildResult {
    if m.uid > OCTAL_7DIGIT_MAX then UidTooLarge
    else if m.gid > OCTAL_7DIGIT_MAX then GidTooLarge
    else if m.size > OCTAL_11DIGIT_MAX then SizeTooLarge
    else if !SplitOf(m.path).Split? then BadPath(SplitOf(m.path))
    else Built
  }

  /** Each refusal of a header has its own reason: numbers that need more than seven or eleven octal
      digits, in this order, and then a path that cannot be split. */
  lemma HeaderRefusals(m: Meta)
    ensures var r := HeaderRefusal(m);
            && (r.UidTooLarge? <==> m.uid >= 2097152)
            && (r.GidTooLarge? <==> m.uid < 2097152 && m.gid >= 2097152)
            && (r.SizeTooLarge? <==> m.uid < 2097152 && m.gid < 2097152 && m.size >= 8589934592)
            && (r.BadPath? <==> m.uid < 2097152 && m.gid < 2097152 && m.size < 8589934592 && !SplitOf(m.path).Split?)
            && (r.BadPath? ==> r.why == SplitOf(m.path))
            && !r.MissingSlash? && !r.UnexpectedSlash? && !r.TooBig?
  {
    hide SplitOf;
  }

  predicate EndsWithSlash(path: seq<Byte>) {
    path != [] && path[|path| - 1] == SLASH
  }

  lemma EncodeDirectory(e: Entry)
    requires e.Storable() && e.isDir
    ensures Encode(e) == HeaderBlock(e.Meta())
  {
    hide HeaderBlock;
  }

  lemma EncodeFile(before: seq<Byte>, e: Entry)
    requires e.Storable()
    ensures before + HeaderBlock(e.Meta()) + e.data + Zeros(Pad(|e.data|)) == before + Encode(e)
  {
    hide HeaderBlock;
  }

  class UstarBuilder {
    var buf: seq<Byte>
    ghost var entries: seq<Entry>

    /** At every moment the buffer is a well-formed archive without its trailer. */
    ghost predicate Valid()
      reads this
    {
      AllStorable(entries) && buf == EncodeAll(entries)
    }

    constructor ()
      ensures Valid() && entries == []
    {
      buf, entries := [], [];
    }

    method AppendHeader(m: Meta) returns (r: BuildResult)
      modifies `buf
      ensures r == HeaderRefusal(m)
      ensures r.Built? ==> m.Storable() && buf == old(buf) + HeaderBlock(m)
      ensures !r.Built? ==> buf == old(buf)
    {
      if m.uid > OCTAL_7DIGIT_MAX {
        return UidTooLarge;
      }
      if m.gid > OCTAL_7DIGIT_MAX {
        return GidTooLarge;
      }
      if m.size > OCTAL_11DIGIT_MAX {
        return SizeTooLarge;
      }
      var s := SplitUstarPath(m.path);
      if !s.Split? {
        return BadPath(s);
      }
      var header := BuildHeader(m, s.name, s.prefix);
      buf := buf + header;
      r := Built;
    }

    /** Adds a directory entry. The size limit is looked at after the write, so a refusal for
        size leaves the entry in the buffer. */
    method AppendDirectory(path: seq<Byte>, mode: nat, uid: nat, gid: nat) returns (r: BuildResult)
      requires Valid()
      modifies this
      ensures Valid()
      ensures var e := Entry(path, true, [], mode, uid, gid);
              var refusal := if EndsWithSlash(path) then HeaderRefusal(e.Meta()) else MissingSlash;
              && r == (if refusal.Built? && |buf| > LIMIT then TooBig else refusal)
              && entries == (if refusal.Built? then old(entries) + [e] else old(entries))
    {
      if !EndsWithSlash(path) {
        return MissingSlash;
      }
      hide Encode, EncodeAll, HeaderBlock, SplitOf;
      ghost var e := Entry(path, true, [], mode, uid, gid);
      r := AppendHeader(UstarHeader.Meta(path, TYPEFLAG_DIRECTORY, 0, mode, uid, gid));
      if !r.Built? {
        return;
      }
      EncodeAllSnoc(entries, e);
      EncodeDirectory(e);
      entries := entries + [e];
      if |buf| > LIMIT {
        r := TooBig;
      }
    }

    /** Adds a file entry. The size limit is looked at before anything is written. */
    method AppendFile(path: seq<Byte>, data: seq<Byte>, mode: nat, uid: nat, gid: nat) returns (r: BuildResult)
      requires Valid()
      modifies this
      ensures Valid()
      ensures var e := Entry(path, false, data, mode, uid, gid);
              && r == (if EndsWithSlash(path) then UnexpectedSlash
                       else if |old(buf)| + BLOCK_SIZE + |data| + Pad(|data|) > LIMIT then TooBig
                       else HeaderRefusal(e.Meta()))
              && entries == (if r.Built? then old(entries) + [e] else old(entries))
      ensures r.Built? ==> |buf| <= LIMIT
    {
      if EndsWithSlash(path) {
        return UnexpectedSlash;
      }
      var pad := (BLOCK_SIZE - |data| % BLOCK_SIZE) % BLOCK_SIZE;
      var projected := |buf| + BLOCK_SIZE + |data| + pad;
      if projected > LIMIT {
        return TooBig;
      }
      hide Encode, EncodeAll, HeaderBlock, SplitOf;
      ghost var e, before := Entry(path, false, data, mode, uid, gid), buf;
      r := AppendHeader(UstarHeader.Meta(path, TYPEFLAG_REGULAR, |data|, mode, uid, gid));
      if !r.Built? {
        return;
      }
      buf := buf + data;
      buf := buf + Zeros(pad);
      EncodeAllSnoc(entries, e);
      EncodeFile(before, e);
      entries := entries + [e];
    }

    /** Ends the archive. What comes out is whole blocks, within the limit, ends in two zero
        blocks, and reads back as everything appended. */
    method Finish() returns (ok: bool, archive: seq<Byte>)
      requires Valid()
      modifies this
      ensures ok <==> |old(buf)| + 1024 <= 67108864
      ensures ok ==> AllStorable(old(entries)) && archive == Archive(old(entries))
      ensures ok ==> ReadArchive(archive) == Entries(AllStored(old(entries)))
      ensures ok ==> |archive| % BLOCK_SIZE == 0 && |archive| <= LIMIT
      ensures ok ==> |archive| >= 2 * BLOCK_SIZE && archive[|archive| - 2 * BLOCK_SIZE..] == Zeros(2 * BLOCK_SIZE)
    {
      hide Encode, ReadArchive, EncodeAll;
      ArchiveReadsBack(entries);
      WholeBlocks(entries);
      BlocksAdd(|buf|, 2 * BLOCK_SIZE);
      buf := buf + Zeros(2 * BLOCK_SIZE);
      if |buf| > LIMIT {
        return false, [];
      }
      return true, buf;
    }
  }

  /** Writes one header block in place, field by field, and returns it. */
  method BuildHeader(m: Meta, name: seq<Byte>, prefix: seq<Byte>) returns (h: seq<Byte>)
    requires m.Storable() && SplitOf(m.path) == Split(name, prefix)
    ensures h == HeaderBlock(m)
  {
    hide Lay, Splice, Octal, SplitOf, Sum, Zeros, HeaderParts;
    var header := new Byte[BLOCK_SIZE](_ => 0);
    assert header[..] == Zeros(BLOCK_SIZE);
    WriteOwner(header, m, name, prefix);
    WriteRest(header, m);
    WriteField(header, CHKSUM_OFF, BLANK_CHKSUM);
    var sum := SumBytes(header[..]);
    WriteChksum(header, CHKSUM_OFF, sum);
    h := header[..];
  }

  method WriteOwner(header: array<Byte>, m: Meta, name: seq<Byte>, prefix: seq<Byte>)
    requires m.Storable() && SplitOf(m.path) == Split(name, prefix) && header[..] == Zeros(BLOCK_SIZE)
    modifies header
    ensures header[..] == Lay(Zeros(BLOCK_SIZE), HeaderParts(m)[..5])
  {
    hide Lay, Splice, Octal, SplitOf, Zeros;
    SplitIsBest(m.path, name, prefix);
    ghost var zeros, parts := Zeros(BLOCK_SIZE), HeaderParts(m);
    NothingLaid(zeros);
    WriteField(header, NAME_OFF, name);
    LayMore(zeros, parts, 0);
    WriteField(header, PREFIX_OFF, prefix);
    LayMore(zeros, parts, 1);
    WriteOctal(header, MODE_OFF, m.mode % 4096, 7);
    LayMore(zeros, parts, 2);
    WriteOctal(header, UID_OFF, m.uid, 7);
    LayMore(zeros, parts, 3);
    WriteOctal(header, GID_OFF, m.gid, 7);
    LayMore(zeros, parts, 4);
  }

  method WriteRest(header: array<Byte>, m: Meta)
    requires m.Storable() && header.Length == BLOCK_SIZE
    requires header[..] == Lay(Zeros(BLOCK_SIZE), HeaderParts(m)[..5])
    modifies header
    ensures header[..] == Lay(Zeros(BLOCK_SIZE), HeaderParts(m))
  {
    hide Lay, Splice, Octal, SplitOf, Zeros;
    ghost var zeros, parts := Zeros(BLOCK_SIZE), HeaderParts(m);
    WriteOctal(header, SIZE_OFF, m.size, 11);
    LayMore(zeros, parts, 5);
    WriteOctal(header, MTIME_OFF, 0, 11);
    LayMore(zeros, parts, 6);
    WriteField(header, TYPEFLAG_OFF, [m.typeflag]);
    LayMore(zeros, parts, 7);
    WriteField(header, MAGIC_OFF, MAGIC);
    LayMore(zeros, parts, 8);
    WriteField(header, VERSION_OFF, VERSION);
    LayMore(zeros, parts, 9);
    assert parts[..10] == parts;
  }

  lemma NothingLaid(block: seq<Byte>)
    ensures Lay(block, []) == block
  {
  }

  lemma LayMore(block: seq<Byte>, parts: seq<Part>, k: nat)
    requires Fit(|block|, parts) && k < |parts|
    ensures Lay(block, parts[..k + 1]) == Splice(Lay(block, parts[..k]), parts[k].off, parts[k].bytes)
  {
    hide Lay, Splice;
    assert parts[..k + 1] == parts[..k] + [parts[k]];
    LaySnoc(block, parts[..k], parts[k]);
  }
}
