/** Fields of a ustar header: octal numbers, the checksum, and in-place writes into a block. */
module UstarField {
  import opened Bytes

  const BLOCK_SIZE: nat := 512
  const CHKSUM_OFF: nat := 148
  const CHKSUM_LEN: nat := 8

  function Pow8(n: nat): (p: nat)
    ensures p > 0
  {
    if n == 0 then 1 else 8 * Pow8(n - 1)
  }

  function OctalDigit(v: nat): (b: Byte)
    ensures DIGIT_ZERO <= b <= DIGIT_ZERO + 7
  {
    var d := v % 8;
    DIGIT_ZERO + d
  }

  /** The last `digits` octal digits of `v`. */
  function Octal(v: nat, digits: nat): (s: seq<Byte>)
    ensures |s| == digits
    ensures forall i :: 0 <= i < digits ==> DIGIT_ZERO <= s[i] <= DIGIT_ZERO + 7
  {
    if digits == 0 then [] else Octal(v / 8, digits - 1) + [OctalDigit(v)]
  }

  datatype Parsed = Number(value: nat) | Malformed

  predicate Ends(b: Byte) {
    b == NUL || b == SPACE
  }

  /** Reading octal digits up to a NUL, a space or the end of the field; `max` is the largest
      value the accumulator can hold. */
  function ParseFrom(value: nat, field: seq<Byte>, max: nat): Parsed
    decreases |field|
  {
    if field == [] || Ends(field[0]) then Number(value)
    else if !(DIGIT_ZERO <= field[0] <= DIGIT_ZERO + 7) then Malformed
    else
      var next := value * 8 + (field[0] - DIGIT_ZERO);
      if next > max then Malformed else ParseFrom(next, field[1..], max)
  }

  method ParseOctal(field: seq<Byte>, max: nat) returns (r: Parsed)
    ensures r == ParseFrom(0, field, max)
  {
    var value: nat := 0;
    assert field[0..] == field;
    for i := 0 to |field|
      invariant ParseFrom(0, field, max) == ParseFrom(value, field[i..], max)
    {
      var b := field[i];
      if Ends(b) {
        return Number(value);
      }
      if !(DIGIT_ZERO <= b <= DIGIT_ZERO + 7) || value * 8 + (b - DIGIT_ZERO) > max {
        return Malformed;
      }
      value := value * 8 + (b - DIGIT_ZERO);
    }
    r := Number(value);
  }

  /** Digits written are digits read back, whatever follows them. */
  lemma {:induction false} ParseOctalDigits(v: nat, digits: nat, rest: seq<Byte>, max: nat)
    requires v < Pow8(digits) && v <= max
    ensures ParseFrom(0, Octal(v, digits) + rest, max) == ParseFrom(v, rest, max)
    decreases digits
  {
    if digits == 0 {
      assert Octal(v, digits) + rest == rest;
    } else {
      var d := [OctalDigit(v)];
      assert Octal(v, digits) + rest == Octal(v / 8, digits - 1) + (d + rest);
      ParseOctalDigits(v / 8, digits - 1, d + rest, max);
      assert (d + rest)[0] == OctalDigit(v) && (d + rest)[1..] == rest;
      assert v / 8 * 8 + (OctalDigit(v) - DIGIT_ZERO) == v;
    }
  }

  /** A number field: digits and a terminator read back as the number. */
  lemma NumberFieldRoundTrip(v: nat, digits: nat, end: seq<Byte>, max: nat)
    requires v < Pow8(digits) && v <= max && (end == [] || Ends(end[0]))
    ensures ParseFrom(0, Octal(v, digits) + end, max) == Number(v)
  {
    ParseOctalDigits(v, digits, end, max);
  }

  /** The characters `0` to `7`. */
  predicate OctalChar(b: Byte) {
    48 <= b <= 55
  }

  function OctalValue(ds: seq<Byte>): nat
    requires forall i :: 0 <= i < |ds| ==> OctalChar(ds[i])
  {
    if ds == [] then 0
    else
      assert OctalChar(ds[|ds| - 1]);
      8 * OctalValue(ds[..|ds| - 1]) + (ds[|ds| - 1] - 48)
  }

  lemma {:induction false} OctalValueGrows(ds: seq<Byte>, k: nat)
    requires k <= |ds| && forall i :: 0 <= i < |ds| ==> OctalChar(ds[i])
    ensures OctalValue(ds[..k]) <= OctalValue(ds)
    decreases |ds|
  {
    if k < |ds| {
      OctalValueGrows(ds[..|ds| - 1], k);
      assert ds[..|ds| - 1][..k] == ds[..k];
    } else {
      assert ds[..k] == ds;
    }
  }

  function ParsedAs(field: seq<Byte>, k: nat, max: nat): Parsed
    requires k <= |field| && forall i :: 0 <= i < k ==> OctalChar(field[i])
  {
    var v := OctalValue(field[..k]);
    if (k == |field| || field[k] == 0 || field[k] == 32) && v <= max then Number(v) else Malformed
  }

  /** What every field parses to: with `k` the number of octal digits in front, the value of these
      digits when a NUL, a space or the end of the field follows and the value is not too large,
      and an error otherwise. */
  lemma ParseIs(field: seq<Byte>, k: nat, max: nat)
    requires k <= |field| && (forall i :: 0 <= i < k ==> OctalChar(field[i])) && (k < |field| ==> !OctalChar(field[k]))
    ensures ParseFrom(0, field, max) == ParsedAs(field, k, max)
  {
    assert field[0..] == field && field[..0] == [];
    ParseIsFrom(field, 0, k, max);
  }

  lemma {:induction false} ParseIsFrom(field: seq<Byte>, i: nat, k: nat, max: nat)
    requires i <= k <= |field| && (forall j :: 0 <= j < k ==> OctalChar(field[j]))
    requires k < |field| ==> !OctalChar(field[k])
    requires OctalValue(field[..i]) <= max
    ensures ParseFrom(OctalValue(field[..i]), field[i..], max) == ParsedAs(field, k, max)
    decreases k - i
  {
    if i < k {
      assert field[..i + 1][..i] == field[..i] && field[i..][1..] == field[i + 1..];
      assert OctalValue(field[..i + 1]) == 8 * OctalValue(field[..i]) + (field[i] - 48);
      OctalValueGrows(field[..k], i + 1);
      assert field[..k][..i + 1] == field[..i + 1];
      if OctalValue(field[..i + 1]) <= max {
        ParseIsFrom(field, i + 1, k, max);
      }
    }
  }

  /** The digits that are written are octal characters, and stand for the number. */
  lemma OctalIs(v: nat, digits: nat)
    requires v < Pow8(digits)
    ensures |Octal(v, digits)| == digits
    ensures forall i :: 0 <= i < digits ==> OctalChar(Octal(v, digits)[i])
    ensures OctalValue(Octal(v, digits)) == v
  {
    var ds := Octal(v, digits);
    NumberFieldRoundTrip(v, digits, [], v);
    assert ds + [] == ds && ds[..digits] == ds;
    ParseIs(ds, digits, v);
  }

  /** `s` with `part` written over it at `off`. */
  function Splice(s: seq<Byte>, off: nat, part: seq<Byte>): (r: seq<Byte>)
    requires off + |part| <= |s|
    ensures |r| == |s|
    ensures forall i :: 0 <= i < |s| ==> r[i] == if off <= i < off + |part| then part[i - off] else s[i]
  {
    s[..off] + part + s[off + |part|..]
  }

  /** The field of length `len` at `off`. */
  function Field(s: seq<Byte>, off: nat, len: nat): seq<Byte>
    requires off + len <= |s|
  {
    s[off..off + len]
  }

  lemma SpliceHere(s: seq<Byte>, off: nat, part: seq<Byte>)
    requires off + |part| <= |s|
    ensures Field(Splice(s, off, part), off, |part|) == part
  {
  }

  lemma SpliceElsewhere(s: seq<Byte>, off: nat, part: seq<Byte>, at: nat, len: nat)
    requires off + |part| <= |s| && at + len <= |s|
    requires at + len <= off || off + |part| <= at
    ensures Field(Splice(s, off, part), at, len) == Field(s, at, len)
  {
  }

  lemma SpliceTwice(s: seq<Byte>, off: nat, a: seq<Byte>, b: seq<Byte>)
    requires off + |a| <= |s| && |a| == |b|
    ensures Splice(Splice(s, off, a), off, b) == Splice(s, off, b)
  {
  }

  /** Writes `part` into the block at `off`. */
  method WriteField(block: array<Byte>, off: nat, part: seq<Byte>)
    requires off + |part| <= block.Length
    modifies block
    ensures block[..] == Splice(old(block[..]), off, part)
  {
    for i := 0 to |part|
      invariant forall k :: 0 <= k < block.Length ==>
                  block[k] == if off <= k < off + i then part[k - off] else old(block[..])[k]
    {
      block[off + i] := part[i];
    }
  }

  /** Writes `digits` octal digits of `value`, from the last one backwards, and a NUL. */
  method WriteOctal(block: array<Byte>, off: nat, value: nat, digits: nat)
    requires off + digits + 1 <= block.Length
    modifies block
    ensures block[..] == Splice(old(block[..]), off, Octal(value, digits) + [NUL])
  {
    WriteDigits(block, off, value, digits);
    block[off + digits] := NUL;
  }

  method WriteDigits(block: array<Byte>, off: nat, value: nat, digits: nat)
    requires off + digits <= block.Length
    modifies block
    ensures block[..] == Splice(old(block[..]), off, Octal(value, digits))
  {
    hide Octal;
    ghost var all := Octal(value, digits);
    var v, i := value, digits;
    while i > 0
      invariant 0 <= i <= digits && all[..i] == Octal(v, i)
      invariant forall k :: 0 <= k < block.Length ==>
                  block[k] == if off + i <= k < off + digits then all[k - off] else old(block[..])[k]
    {
      OctalLast(all, v, i);
      i := i - 1;
      block[off + i] := OctalDigit(v);
      v := v / 8;
    }
  }

  lemma OctalLast(all: seq<Byte>, v: nat, i: nat)
    requires 0 < i <= |all| && all[..i] == Octal(v, i)
    ensures all[i - 1] == OctalDigit(v) && all[..i - 1] == Octal(v / 8, i - 1)
  {
    assert all[..i][i - 1] == all[i - 1] && all[..i][..i - 1] == all[..i - 1];
  }

  /** Writes the checksum field: six octal digits, a NUL and a space. */
  method WriteChksum(block: array<Byte>, off: nat, sum: nat)
    requires off + CHKSUM_LEN <= block.Length
    modifies block
    ensures block[..] == Splice(old(block[..]), off, ChksumField(sum))
  {
    WriteDigits(block, off, sum, 6);
    block[off + 6] := NUL;
    block[off + 7] := SPACE;
  }

  function ChksumField(sum: nat): (f: seq<Byte>)
    ensures |f| == CHKSUM_LEN
  {
    Octal(sum, 6) + [NUL, SPACE]
  }

  /* ---- Byte sums ---- */

  function Sum(s: seq<Byte>): nat {
    if s == [] then 0 else Sum(s[..|s| - 1]) + s[|s| - 1]
  }

  method SumBytes(s: seq<Byte>) returns (sum: nat)
    ensures sum == Sum(s)
  {
    sum := 0;
    for i := 0 to |s|
      invariant sum == Sum(s[..i])
    {
      assert s[..i + 1][..i] == s[..i];
      sum := sum + s[i];
    }
    assert s[..|s|] == s;
  }

  lemma {:induction false} SumBound(s: seq<Byte>)
    ensures Sum(s) <= 255 * |s|
  {
    if s != [] {
      SumBound(s[..|s| - 1]);
    }
  }

  lemma {:induction false} SumAtLeast(s: seq<Byte>, i: nat)
    requires i < |s|
    ensures Sum(s) >= s[i]
  {
    if i < |s| - 1 {
      SumAtLeast(s[..|s| - 1], i);
    }
  }

  /** Changing one byte changes the sum by exactly the difference. */
  lemma {:induction false} SumUpdate(s: seq<Byte>, i: nat, b: Byte)
    requires i < |s|
    ensures Sum(s[i := b]) == Sum(s) - s[i] + b
  {
    var t := s[i := b];
    if i == |s| - 1 {
      assert t[..|t| - 1] == s[..|s| - 1];
    } else {
      assert t[..|t| - 1] == s[..|s| - 1][i := b];
      SumUpdate(s[..|s| - 1], i, b);
    }
  }

  /** A header's byte sum always fits the six digits of its field. */
  lemma ChecksumFits(header: seq<Byte>)
    requires |header| == BLOCK_SIZE
    ensures Sum(header) < Pow8(6)
    ensures ParseFrom(0, ChksumField(Sum(header)), 0xFFFF_FFFF) == Number(Sum(header))
  {
    SumBound(header);
    assert Pow8(1) == 8 && Pow8(2) == 64 && Pow8(3) == 512 && Pow8(4) == 4096 && Pow8(5) == 32768;
    assert Pow8(6) == 262144;
    NumberFieldRoundTrip(Sum(header), 6, [NUL, SPACE], 0xFFFF_FFFF);
  }
}
