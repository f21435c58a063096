/** Percent-encoding of path segments and query values. */
module PercentText {
  import opened Bytes

  /** The unreserved characters of section 2.3 of RFC 3986. */
  predicate Unreserved(b: Byte) {
    'A' as int <= b <= 'Z' as int || 'a' as int <= b <= 'z' as int || '0' as int <= b <= '9' as int
    || b == '-' as int || b == '_' as int || b == '.' as int || b == '~' as int
  }

  const HEX: string := "0123456789ABCDEF"

  predicate HexDigit(c: char) {
    '0' <= c <= '9' || 'A' <= c <= 'F'
  }

  function HexValue(c: char): (v: nat)
    requires HexDigit(c)
    ensures v < 16 && HEX[v] == c
  {
    if c <= '9' then c as int - '0' as int else c as int - 'A' as int + 10
  }

  function EncodeByte(b: Byte): string {
    if Unreserved(b) then [b as char] else ['%', HEX[b / 16], HEX[b % 16]]
  }

  function Encoded(s: seq<Byte>): string {
    if s == [] then [] else Encoded(s[..|s| - 1]) + EncodeByte(s[|s| - 1])
  }

  method PercentEncode(s: seq<Byte>) returns (out: string)
    ensures out == Encoded(s)
  {
    out := [];
    for i := 0 to |s|
      invariant out == Encoded(s[..i])
    {
      assert s[..i + 1][..i] == s[..i];
      var b := s[i];
      if Unreserved(b) {
        out := out + [b as char];
      } else {
        var high, low := b / 16, b % 16;
        out := out + ['%'];
        out := out + [HEX[high]];
        out := out + [HEX[low]];
      }
      assert out == Encoded(s[..i]) + EncodeByte(b);
    }
    assert s[..|s|] == s;
  }

  datatype Decoded = Octets(bytes: seq<Byte>) | Malformed

  /** Decoding by section 2.1 of RFC 3986: a percent sign and two hexadecimal digits stand for an
      octet, an unreserved character for itself, and nothing else may occur. */
  function Decode(t: string): Decoded {
    if t == [] then Octets([])
    else if t[0] == '%' then
      if |t| < 3 || !HexDigit(t[1]) || !HexDigit(t[2]) then Malformed
      else
        var rest := Decode(t[3..]);
        if rest.Malformed? then Malformed else Octets([HexValue(t[1]) * 16 + HexValue(t[2])] + rest.bytes)
    else if t[0] as int < 128 && Unreserved(t[0] as int) then
      var rest := Decode(t[1..]);
      if rest.Malformed? then Malformed else Octets([t[0] as int] + rest.bytes)
    else Malformed
  }

  lemma DecodeOne(b: Byte, rest: string)
    ensures Decode(EncodeByte(b) + rest)
         == if Decode(rest).Malformed? then Malformed else Octets([b] + Decode(rest).bytes)
  {
    if Unreserved(b) {
      DecodePlain(b, rest);
    } else {
      HexRoundTrip(b / 16);
      HexRoundTrip(b % 16);
      DecodeTriplet(HEX[b / 16], HEX[b % 16], rest);
      assert EncodeByte(b) == ['%', HEX[b / 16], HEX[b % 16]];
    }
  }

  lemma DecodePlain(b: Byte, rest: string)
    requires Unreserved(b)
    ensures Decode([b as char] + rest)
         == if Decode(rest).Malformed? then Malformed else Octets([b] + Decode(rest).bytes)
  {
    assert ([b as char] + rest)[1..] == rest;
  }

  lemma DecodeTriplet(high: char, low: char, rest: string)
    requires HexDigit(high) && HexDigit(low)
    ensures Decode(['%', high, low] + rest)
         == if Decode(rest).Malformed? then Malformed
            else Octets([HexValue(high) * 16 + HexValue(low)] + Decode(rest).bytes)
  {
    assert (['%', high, low] + rest)[3..] == rest;
  }

  lemma HexRoundTrip(v: nat)
    requires v < 16
    ensures HexDigit(HEX[v]) && HexValue(HEX[v]) == v
  {
  }

  lemma {:induction false} DecodeUndoesEncodeInFront(s: seq<Byte>, rest: string)
    requires Decode(rest).Octets?
    ensures Decode(Encoded(s) + rest) == Octets(s + Decode(rest).bytes)
    decreases |s|
  {
    hide EncodeByte, Decode;
    if s == [] {
      assert Encoded(s) + rest == rest && s + Decode(rest).bytes == Decode(rest).bytes;
    } else {
      var front, b := s[..|s| - 1], s[|s| - 1];
      DecodeOne(b, rest);
      DecodeUndoesEncodeInFront(front, EncodeByte(b) + rest);
      assert Encoded(s) + rest == Encoded(front) + (EncodeByte(b) + rest);
      assert front + ([b] + Decode(rest).bytes) == s + Decode(rest).bytes;
    }
  }

  /** The hexadecimal digit of section 2.1 of RFC 3986, in upper case as it recommends. */
  predicate IsUpperHex(c: char, v: int) {
    if v < 10 then c as int == 48 + v else c as int == 55 + v
  }

  /** Every byte in the ranges of the standard is itself, and every other one a percent sign and
      two hexadecimal digits. */
  lemma EncodedByteIs(b: Byte)
    ensures var e := EncodeByte(b);
            if 65 <= b <= 90 || 97 <= b <= 122 || 48 <= b <= 57 || b == 45 || b == 46 || b == 95 || b == 126 then
              |e| == 1 && e[0] as int == b
            else
              |e| == 3 && e[0] as int == 37 && IsUpperHex(e[1], b / 16) && IsUpperHex(e[2], b % 16)
  {
    UpperHexIs(b / 16);
    UpperHexIs(b % 16);
  }

  lemma UpperHexIs(v: nat)
    requires v < 16
    ensures IsUpperHex(HEX[v], v)
  {
  }

  /** The encoding of a byte string is that of its bytes, one after the other. */
  lemma {:induction false} EncodedAppend(s: seq<Byte>, t: seq<Byte>)
    ensures Encoded(s + t) == Encoded(s) + Encoded(t)
    decreases |t|
  {
    hide EncodeByte;
    if t == [] {
      assert s + t == s;
    } else {
      var front, b := t[..|t| - 1], t[|t| - 1];
      EncodedAppend(s, front);
      assert (s + t)[..|s + t| - 1] == s + front && (s + t)[|s + t| - 1] == b;
      Assoc(Encoded(s), Encoded(front), EncodeByte(b));
    }
  }

  /** Every byte string survives; so in particular no two encode alike. */
  lemma DecodeUndoesEncode(s: seq<Byte>)
    ensures Decode(Encoded(s)) == Octets(s)
  {
    DecodeUndoesEncodeInFront(s, []);
    assert Encoded(s) + [] == Encoded(s) && s + [] == s;
  }
}
