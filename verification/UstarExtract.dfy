/** Taking the first regular file out of an archive, and what header corruption it notices. */
module UstarExtract {
  import opened Bytes
  import opened UstarField
  import opened UstarPath
  import opened UstarHeader
  import opened UstarArchive

  datatype Extracted =
    | File(data: seq<Byte>)
    | Gzip
    | TruncatedHeader
    | EmptyArchive
    | IsDirectory
    | Unsupported(typeflag: Byte)
    | BadChecksum
    | BadSize
    | TruncatedData

  predicate LooksLikeGzip(b: seq<Byte>) {
    |b| >= 2 && b[0] == 0x1f && b[1] == 0x8b
  }

  predicate IsFileFlag(t: Byte) {
    t == NUL || t == TYPEFLAG_REGULAR
  }

  function FirstFile(bytes: seq<Byte>): Extracted {
    if LooksLikeGzip(bytes) then Gzip
    else if |bytes| < BLOCK_SIZE then TruncatedHeader
    else
      var h := bytes[..BLOCK_SIZE];
      if ZeroBlock(h) then EmptyArchive
      else if h[TYPEFLAG_OFF] == TYPEFLAG_DIRECTORY then IsDirectory
      else if !IsFileFlag(h[TYPEFLAG_OFF]) then Unsupported(h[TYPEFLAG_OFF])
      else if !ChecksumOk(h) then BadChecksum
      else
        var size := ParseFrom(0, Field(h, SIZE_OFF, SIZE_LEN), U64_MAX);
        if size.Malformed? then BadSize
        else if |bytes| < BLOCK_SIZE + size.value then TruncatedData
        else File(bytes[BLOCK_SIZE..BLOCK_SIZE + size.value])
  }

  method ParseFirstRegularFile(bytes: seq<Byte>) returns (r: Extracted)
    ensures r == FirstFile(bytes)
  {
    hide ParseFrom, Sum, Splice;
    if |bytes| >= 2 && bytes[0] == 0x1f && bytes[1] == 0x8b {
      return Gzip;
    }
    if |bytes| < BLOCK_SIZE {
      return TruncatedHeader;
    }
    var header := bytes[..BLOCK_SIZE];
    if forall i :: 0 <= i < |header| ==> header[i] == 0 {
      return EmptyArchive;
    }
    var flag := header[TYPEFLAG_OFF];
    if flag == TYPEFLAG_DIRECTORY {
      return IsDirectory;
    }
    if flag != NUL && flag != TYPEFLAG_REGULAR {
      return Unsupported(flag);
    }
    var stored := ParseOctal(Field(header, CHKSUM_OFF, CHKSUM_LEN), U32_MAX);
    var sumHeader := new Byte[BLOCK_SIZE](i requires 0 <= i < BLOCK_SIZE => header[i]);
    assert sumHeader[..] == header;
    WriteField(sumHeader, CHKSUM_OFF, BLANK_CHKSUM);
    var computed := SumBytes(sumHeader[..]);
    if stored.Malformed? || stored.value != computed {
      return BadChecksum;
    }
    var size := ParseOctal(Field(header, SIZE_OFF, SIZE_LEN), U64_MAX);
    if size.Malformed? {
      return BadSize;
    }
    var dataEnd := BLOCK_SIZE + size.value;
    if |bytes| < dataEnd {
      return TruncatedData;
    }
    r := File(bytes[BLOCK_SIZE..dataEnd]);
  }

  /** The sum the checksum is compared with: the header with its checksum taken as spaces. */
  function BlankedSum(bytes: seq<Byte>): nat
    requires |bytes| >= 512
  {
    var spaces: seq<Byte> := [32, 32, 32, 32, 32, 32, 32, 32];
    Sum(bytes[..148] + spaces + bytes[156..512])
  }

  ghost predicate StartsLikeGzip(bytes: seq<Byte>) {
    |bytes| >= 2 && bytes[0] == 31 && bytes[1] == 139
  }

  ghost predicate AllZero(bytes: seq<Byte>) {
    |bytes| >= 512 && forall i :: 0 <= i < 512 ==> bytes[i] == 0
  }

  /** The first 512 bytes are a header of a regular file, and not all zeros. */
  ghost predicate FileHeader(bytes: seq<Byte>) {
    |bytes| >= 512 && !StartsLikeGzip(bytes) && !AllZero(bytes) && (bytes[156] == 0 || bytes[156] == 48)
  }

  ghost predicate SoundHeader(bytes: seq<Byte>) {
    FileHeader(bytes) && ParseFrom(0, bytes[148..156], 0xFFFF_FFFF) == Number(BlankedSum(bytes))
  }

  /** Every answer has its own reason, and a file is exactly the bytes the size field promises,
      right behind the header. */
  lemma AnswersAre(bytes: seq<Byte>)
    ensures var r := FirstFile(bytes);
            && (r.Gzip? <==> StartsLikeGzip(bytes))
            && (r.TruncatedHeader? <==> !StartsLikeGzip(bytes) && |bytes| < 512)
            && (r.EmptyArchive? <==> AllZero(bytes))
            && (r.IsDirectory? <==> !StartsLikeGzip(bytes) && |bytes| >= 512 && bytes[156] == 53)
            && (r.BadChecksum? <==> FileHeader(bytes) && !SoundHeader(bytes))
            && (r.Unsupported? ==> r.typeflag == bytes[156])
            && (SoundHeader(bytes) ==>
                  match ParseFrom(0, bytes[124..136], 0xFFFF_FFFF_FFFF_FFFF)
                  case Malformed => r == BadSize
                  case Number(n) => r == if |bytes| < 512 + n then TruncatedData else File(bytes[512..512 + n]))
            && (r.File? || r.TruncatedData? || r.BadSize? ==> SoundHeader(bytes))
  {
    hide ParseFrom, Sum, Splice;
    if |bytes| >= 512 {
      var h := bytes[..512];
      assert h[..148] == bytes[..148] && h[156..] == bytes[156..512];
      BlankedIs(h);
      assert Field(h, 148, 8) == bytes[148..156] && Field(h, 124, 12) == bytes[124..136];
    }
  }

  lemma BlankedIs(h: seq<Byte>)
    requires |h| == 512
    ensures Splice(h, CHKSUM_OFF, BLANK_CHKSUM) == h[..148] + [32, 32, 32, 32, 32, 32, 32, 32] + h[156..]
  {
  }

  /** An archive cut off inside its first file: below the header the header is missing, below the
      last data byte the data is, and from there on the file is there in full. */
  lemma CutFile(e: Entry, n: nat)
    requires e.Storable() && !e.isDir && n <= |Encode(e)|
    ensures StartsLikeGzip(SplitOf(e.path).name) ==>
              FirstFile(Encode(e)[..n]) == if n < 2 then TruncatedHeader else Gzip
    ensures !StartsLikeGzip(SplitOf(e.path).name) ==>
              FirstFile(Encode(e)[..n])
              == if n < 512 then TruncatedHeader else if n < 512 + |e.data| then TruncatedData else File(e.data)
  {
    var b, m := Encode(e), e.Meta();
    HeaderStarts(m);
    HeaderFacts(e);
    EntryLayout(e);
    hide HeaderBlock, SplitOf, ParseFrom, ChecksumOk, Encode, ZeroBlock, Octal;
    CutTwice(b, n, 512, |e.data|);
    assert LooksLikeGzip(b) <==> LooksLikeGzip(b[..512]);
  }

  lemma CutTwice<T>(b: seq<T>, n: nat, m: nat, d: nat)
    requires n <= |b|
    ensures m <= n ==> b[..n][..m] == b[..m]
    ensures m + d <= n ==> b[..n][m..m + d] == b[m..m + d]
    ensures forall i :: 0 <= i < n ==> b[..n][i] == b[i]
  {
  }

  /** The first entry of any built archive: a file comes back byte for byte, a directory and an
      empty archive are named as such. Only a name that starts like gzip data is mistaken. */
  lemma FirstOfArchive(es: seq<Entry>)
    requires AllStorable(es)
    ensures FirstFile(Archive(es))
         == if es == [] then EmptyArchive
            else if LooksLikeGzip(SplitOf(es[0].path).name) then Gzip
            else if es[0].isDir then IsDirectory
            else File(es[0].data)
  {
    if es == [] {
      assert Archive(es) == Zeros(2 * BLOCK_SIZE);
    } else {
      var rest := Archive(es[1..]);
      assert Archive(es) == Encode(es[0]) + rest by {
        hide Encode;
      }
      FirstOfEntry(es[0], rest);
    }
  }

  lemma FirstOfEntry(e: Entry, tail: seq<Byte>)
    requires e.Storable()
    ensures FirstFile(Encode(e) + tail)
         == if LooksLikeGzip(SplitOf(e.path).name) then Gzip else if e.isDir then IsDirectory else File(e.data)
  {
    var m := e.Meta();
    OneEntryBytes(e, tail);
    HeaderStarts(m);
    HeaderFacts(e);
    hide HeaderBlock, SplitOf, ParseFrom, ChecksumOk, Encode, ZeroBlock, Field;
    assert LooksLikeGzip(Encode(e) + tail) <==> LooksLikeGzip((Encode(e) + tail)[..BLOCK_SIZE]);
  }

  lemma HeaderFacts(e: Entry)
    requires e.Storable()
    ensures var h := HeaderBlock(e.Meta());
            && !ZeroBlock(h) && ChecksumOk(h) && h[TYPEFLAG_OFF] == e.Meta().typeflag
            && ParseFrom(0, Field(h, SIZE_OFF, SIZE_LEN), U64_MAX) == Number(|e.data|)
  {
    var m := e.Meta();
    HeaderIsNotZero(e);
    ChecksumReadsBack(m);
    NumbersReadBack(m);
    HeaderPart(m, 7);
    assert Field(HeaderBlock(m), TYPEFLAG_OFF, 1)[0] == HeaderBlock(m)[TYPEFLAG_OFF] by {
      hide HeaderBlock;
    }
  }

  lemma NameInFront(m: Meta)
    requires m.Storable()
    ensures SplitOf(m.path).name <= HeaderBlock(m) && SplitOf(m.path).name != []
    ensures SplitOf(m.path).name[0] != NUL
  {
    var name, h := SplitOf(m.path).name, HeaderBlock(m);
    hide HeaderBlock, SplitOf;
    SplitIsBest(m.path, name, SplitOf(m.path).prefix);
    HeaderPart(m, 0);
    assert name == Field(h, NAME_OFF, |name|) == h[..|name|];
  }

  /** The header looks like gzip data exactly when the name field does. */
  lemma HeaderStarts(m: Meta)
    requires m.Storable()
    ensures LooksLikeGzip(HeaderBlock(m)) <==> LooksLikeGzip(SplitOf(m.path).name)
  {
    var name, h := SplitOf(m.path).name, HeaderBlock(m);
    hide HeaderBlock, SplitOf;
    SplitIsBest(m.path, name, SplitOf(m.path).prefix);
    NameInFront(m);
    if |name| < 2 {
      HeaderGap(m, 1, 1);
      assert h[1] == Field(h, 1, 1)[0];
    }
  }

  /* ---- Corrupted headers ---- */

  predicate IsDigit(b: Byte) {
    DIGIT_ZERO <= b <= DIGIT_ZERO + 7
  }

  predicate Digits(ds: seq<Byte>) {
    forall i :: 0 <= i < |ds| ==> IsDigit(ds[i])
  }

  function Value(v: nat, ds: seq<Byte>): nat
    requires Digits(ds)
    decreases |ds|
  {
    if ds == [] then v else Value(v * 8 + (ds[0] - DIGIT_ZERO), ds[1..])
  }

  lemma {:induction false} ValueSnoc(v: nat, ds: seq<Byte>, d: Byte)
    requires Digits(ds) && IsDigit(d)
    ensures Value(v, ds + [d]) == Value(v, ds) * 8 + (d - DIGIT_ZERO)
    decreases |ds|
  {
    if ds == [] {
      assert [d][1..] == [];
      assert ds + [d] == [d];
    } else {
      assert (ds + [d])[0] == ds[0] && (ds + [d])[1..] == ds[1..] + [d];
      ValueSnoc(v * 8 + (ds[0] - DIGIT_ZERO), ds[1..], d);
    }
  }

  /** Different digits, different value. */
  lemma {:induction false} ValueIsInjective(a: seq<Byte>, b: seq<Byte>)
    requires Digits(a) && Digits(b) && |a| == |b| && Value(0, a) == Value(0, b)
    ensures a == b
    decreases |a|
  {
    if a != [] {
      var n := |a| - 1;
      assert a == a[..n] + [a[n]] && b == b[..n] + [b[n]];
      ValueSnoc(0, a[..n], a[n]);
      ValueSnoc(0, b[..n], b[n]);
      ValueIsInjective(a[..n], b[..n]);
    }
  }

  lemma DifferentDigits(a: seq<Byte>, b: seq<Byte>, j: nat)
    requires Digits(a) && Digits(b) && |a| == |b| && j < |a| && a[j] != b[j]
    ensures Value(0, a) != Value(0, b)
  {
    if Value(0, a) == Value(0, b) {
      ValueIsInjective(a, b);
    }
  }

  /** Every further digit multiplies the value by at least eight. */
  lemma {:induction false} ValueGrows(v: nat, ds: seq<Byte>)
    requires Digits(ds)
    ensures Value(v, ds) >= if ds == [] then v else 8 * v
    decreases |ds|
  {
    if ds != [] {
      ValueGrows(v * 8 + (ds[0] - DIGIT_ZERO), ds[1..]);
    }
  }

  lemma {:induction false} ValueConcat(v: nat, a: seq<Byte>, b: seq<Byte>)
    requires Digits(a) && Digits(b)
    ensures Value(v, a + b) == Value(Value(v, a), b)
    decreases |a|
  {
    if a == [] {
      assert a + b == b;
    } else {
      assert (a + b)[0] == a[0] && (a + b)[1..] == a[1..] + b;
      ValueConcat(v * 8 + (a[0] - DIGIT_ZERO), a[1..], b);
    }
  }

  /** What a field of digits followed by something parses to. */
  lemma {:induction false} ParseIsValue(v: nat, ds: seq<Byte>, rest: seq<Byte>, max: nat)
    requires Digits(ds) && rest != [] && !IsDigit(rest[0])
    ensures ParseFrom(v, ds + rest, max) == Malformed
         || (Ends(rest[0]) && ParseFrom(v, ds + rest, max) == Number(Value(v, ds)))
    decreases |ds|
  {
    if ds == [] {
      assert ds + rest == rest;
    } else {
      assert (ds + rest)[0] == ds[0] && (ds + rest)[1..] == ds[1..] + rest;
      var next: nat := v * 8 + (ds[0] - DIGIT_ZERO);
      if next <= max {
        ParseIsValue(next, ds[1..], rest, max);
      }
    }
  }

  /** The single-byte changes of a checksum field that leave its value alone. */
  predicate Invisible(j: nat, b: Byte) {
    j == 7 || (j == 6 && b == SPACE)
  }

  lemma ChksumFieldValue(sum: nat)
    requires sum < Pow8(6)
    ensures Digits(Octal(sum, 6)) && Value(0, Octal(sum, 6)) == sum
  {
    assert Pow8(1) == 8 && Pow8(2) == 64 && Pow8(3) == 512 && Pow8(4) == 4096 && Pow8(5) == 32768;
    NumberFieldRoundTrip(sum, 6, [NUL], U32_MAX);
    ParseIsValue(0, Octal(sum, 6), [NUL], U32_MAX);
  }

  /** A changed checksum field still reads as the sum exactly when the change is one of those. */
  lemma ChangedChksumField(sum: nat, j: nat, b: Byte)
    requires 0 < sum < Pow8(6) && j < CHKSUM_LEN && b != ChksumField(sum)[j]
    ensures ParseFrom(0, ChksumField(sum)[j := b], U32_MAX) == Number(sum) <==> Invisible(j, b)
  {
    var ds, f := Octal(sum, 6), ChksumField(sum)[j := b];
    assert Pow8(1) == 8 && Pow8(2) == 64 && Pow8(3) == 512 && Pow8(4) == 4096 && Pow8(5) == 32768;
    ChksumFieldValue(sum);
    hide Value, ParseFrom, Octal, Pow8;
    if j == 7 {
      assert f == ds + [NUL, b];
      NumberFieldRoundTrip(sum, 6, [NUL, b], U32_MAX);
    } else if j == 6 && b == SPACE {
      assert f == ds + [SPACE, SPACE];
      NumberFieldRoundTrip(sum, 6, [SPACE, SPACE], U32_MAX);
    } else if IsDigit(b) {
      var changed := if j == 6 then ds + [b] else ds[j := b];
      var rest := if j == 6 then [SPACE] else [NUL, SPACE];
      assert f == changed + rest;
      ParseIsValue(0, changed, rest, U32_MAX);
      if j == 6 {
        ValueSnoc(0, ds, b);
      } else {
        DifferentDigits(changed, ds, j);
      }
    } else {
      CutChksumField(sum, j, b);
    }
  }

  lemma DigitsOfPart(ds: seq<Byte>, j: nat)
    requires Digits(ds) && j <= |ds|
    ensures Digits(ds[..j]) && Digits(ds[j..])
  {
  }

  lemma CutChksumField(sum: nat, j: nat, b: Byte)
    requires 0 < sum < Pow8(6) && j < 7 && !IsDigit(b) && !(j == 6 && Ends(b))
    ensures ParseFrom(0, ChksumField(sum)[j := b], U32_MAX) != Number(sum)
  {
    var ds, f := Octal(sum, 6), ChksumField(sum)[j := b];
    ChksumFieldValue(sum);
    hide Value, ParseFrom, Octal, Pow8;
    var front, back := ds[..j], ds[j..];
    assert f == front + f[j..] && ds == front + back;
    DigitsOfPart(ds, j);
    ParseIsValue(0, front, f[j..], U32_MAX);
    ValueConcat(0, front, back);
    ValueGrows(Value(0, front), back);
  }

  /** The checksum of a header in which byte `i` was changed to `b`. */
  lemma DamagedChecksum(m: Meta, i: nat, b: Byte)
    requires m.Storable() && i < BLOCK_SIZE && b != HeaderBlock(m)[i]
    ensures ChecksumOk(HeaderBlock(m)[i := b])
       <==> CHKSUM_OFF <= i < CHKSUM_OFF + CHKSUM_LEN && Invisible(i - CHKSUM_OFF, b)
  {
    var h, d := HeaderBlock(m), HeaderBlock(m)[i := b];
    ChecksumReadsBack(m);
    SumIsPositive(m);
    ChecksumFits(Summed(m));
    hide HeaderBlock, Summed, Sum, ParseFrom, ChksumField, Pow8;
    var blanked := Splice(d, CHKSUM_OFF, BLANK_CHKSUM);
    if CHKSUM_OFF <= i < CHKSUM_OFF + CHKSUM_LEN {
      assert blanked == Summed(m);
      assert Field(d, CHKSUM_OFF, CHKSUM_LEN) == Field(h, CHKSUM_OFF, CHKSUM_LEN)[i - CHKSUM_OFF := b];
      ChangedChksumField(Sum(Summed(m)), i - CHKSUM_OFF, b);
    } else {
      assert Field(d, CHKSUM_OFF, CHKSUM_LEN) == Field(h, CHKSUM_OFF, CHKSUM_LEN);
      assert Summed(m)[i] == h[i] && blanked == Summed(m)[i := b];
      SumUpdate(Summed(m), i, b);
    }
  }

  lemma SumIsPositive(m: Meta)
    requires m.Storable()
    ensures Sum(Summed(m)) > 0
  {
    ChecksumReadsBack(m);
    hide HeaderBlock, SplitOf, Sum, Summed;
    NameInFront(m);
    assert HeaderBlock(m)[0] == Summed(m)[0];
    SumAtLeast(Summed(m), 0);
  }

  /** Changing any single byte of a file's header makes extraction fail, except the last byte of
      the checksum field and the replacement of the NUL before it by a space; in those two cases
      the file comes out as if nothing had happened. */
  lemma CorruptionIsNoticed(e: Entry, tail: seq<Byte>, i: nat, b: Byte)
    requires e.Storable() && !e.isDir && i < BLOCK_SIZE && b != HeaderBlock(e.Meta())[i]
    ensures var h := HeaderBlock(e.Meta());
            var invisible := CHKSUM_OFF <= i < CHKSUM_OFF + CHKSUM_LEN && Invisible(i - CHKSUM_OFF, b);
            && (!invisible ==> !FirstFile(h[i := b] + e.data + tail).File?)
            && (invisible ==> FirstFile(h[i := b] + e.data + tail) == FirstFile(h + e.data + tail))
  {
    hide HeaderBlock, ChecksumOk, ParseFrom, FirstFile, ZeroBlock;
    var h, d := HeaderBlock(e.Meta()), HeaderBlock(e.Meta())[i := b];
    DamagedChecksum(e.Meta(), i, b);
    HeaderFacts(e);
    var good, bad := h + e.data + tail, d + e.data + tail;
    BlockInFront(h, e.data, tail);
    BlockInFront(d, e.data, tail);
    if CHKSUM_OFF <= i < CHKSUM_OFF + CHKSUM_LEN && Invisible(i - CHKSUM_OFF, b) {
      assert bad == good[i := b];
      SameExtraction(good, bad, i, b);
    } else {
      NoFileWithoutChecksum(bad);
    }
  }

  lemma BlockInFront(h: seq<Byte>, data: seq<Byte>, tail: seq<Byte>)
    requires |h| == BLOCK_SIZE
    ensures |h + data + tail| >= BLOCK_SIZE && (h + data + tail)[..BLOCK_SIZE] == h
    ensures (h + data + tail)[TYPEFLAG_OFF] == h[TYPEFLAG_OFF]
  {
  }

  lemma NoFileWithoutChecksum(bytes: seq<Byte>)
    requires |bytes| >= BLOCK_SIZE && !ChecksumOk(bytes[..BLOCK_SIZE])
    ensures !FirstFile(bytes).File?
  {
  }

  /** The checksum field is not looked at by anything but the checksum test. */
  lemma SameExtraction(good: seq<Byte>, bad: seq<Byte>, i: nat, b: Byte)
    requires BLOCK_SIZE <= |good| && CHKSUM_OFF <= i < CHKSUM_OFF + CHKSUM_LEN && bad == good[i := b]
    requires ChecksumOk(good[..BLOCK_SIZE]) && ChecksumOk(bad[..BLOCK_SIZE])
    requires !ZeroBlock(good[..BLOCK_SIZE]) && good[TYPEFLAG_OFF] != NUL
    ensures FirstFile(bad) == FirstFile(good)
  {
    hide ChecksumOk, ParseFrom;
    var h, d := good[..BLOCK_SIZE], bad[..BLOCK_SIZE];
    assert Field(d, SIZE_OFF, SIZE_LEN) == Field(h, SIZE_OFF, SIZE_LEN);
    assert d[TYPEFLAG_OFF] == h[TYPEFLAG_OFF] != NUL;
    var size := ParseFrom(0, Field(h, SIZE_OFF, SIZE_LEN), U64_MAX);
    if size.Number? && BLOCK_SIZE + size.value <= |good| {
      assert good[BLOCK_SIZE..BLOCK_SIZE + size.value] == bad[BLOCK_SIZE..BLOCK_SIZE + size.value];
    }
  }
}
