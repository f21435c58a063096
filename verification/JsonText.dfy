/** Writing JSON strings, arrays of strings and objects of strings, and reading them back by the
    grammar of RFC 8259. */
module JsonText {
  import opened Bytes

  predicate Control(c: char) {
    c as int < 0x20
  }

  const LOWER_HEX: string := "0123456789abcdef"

  /** `\u00XX` for a control character. */
  function UnicodeEscape(c: char): string
    requires Control(c)
  {
    ['\\', 'u', '0', '0', LOWER_HEX[c as int / 16], LOWER_HEX[c as int % 16]]
  }

  const BACKSPACE: char := 8 as char
  const FORM_FEED: char := 12 as char

  function EscapeChar(c: char): string {
    if c == '"' then "\\\""
    else if c == '\\' then "\\\\"
    else if c == BACKSPACE then "\\b"
    else if c == FORM_FEED then "\\f"
    else if c == '\n' then "\\n"
    else if c == '\r' then "\\r"
    else if c == '\t' then "\\t"
    else if Control(c) then UnicodeEscape(c)
    else [c]
  }

  function EscapedValue(s: string): string {
    if s == [] then [] else EscapedValue(s[..|s| - 1]) + EscapeChar(s[|s| - 1])
  }

  function Escaped(s: string): string {
    "\"" + EscapedValue(s) + "\""
  }

  method EscapeJsonValue(s: string) returns (escaped: string)
    ensures escaped == EscapedValue(s)
  {
    escaped := [];
    for i := 0 to |s|
      invariant escaped == EscapedValue(s[..i])
    {
      assert s[..i + 1][..i] == s[..i];
      var c := s[i];
      if c == '"' {
        escaped := escaped + "\\\"";
      } else if c == '\\' {
        escaped := escaped + "\\\\";
      } else if c == BACKSPACE {
        escaped := escaped + "\\b";
      } else if c == FORM_FEED {
        escaped := escaped + "\\f";
      } else if c == '\n' {
        escaped := escaped + "\\n";
      } else if c == '\r' {
        escaped := escaped + "\\r";
      } else if c == '\t' {
        escaped := escaped + "\\t";
      } else if Control(c) {
        escaped := escaped + UnicodeEscape(c);
      } else {
        escaped := escaped + [c];
      }
    }
    assert s[..|s|] == s;
  }

  method EscapeJson(s: string) returns (escaped: string)
    ensures escaped == Escaped(s)
  {
    var value := EscapeJsonValue(s);
    escaped := "\"";
    escaped := escaped + value;
    escaped := escaped + "\"";
  }

  /* ---- Reading a string: section 7 ---- */

  datatype StringRead = Read(value: string, rest: string) | BadString

  function HexDigitValue(c: char): int {
    if '0' <= c <= '9' then c as int - '0' as int
    else if 'a' <= c <= 'f' then c as int - 'a' as int + 10
    else if 'A' <= c <= 'F' then c as int - 'A' as int + 10
    else -1
  }

  /** The code unit in the four hexadecimal digits at the front, or -1. */
  function CodeUnit(t: string): (u: int)
    ensures -1 <= u <= 0xFFFF
  {
    if |t| < 4 then -1
    else
      var a, b, c, d := HexDigitValue(t[0]), HexDigitValue(t[1]), HexDigitValue(t[2]), HexDigitValue(t[3]);
      if a < 0 || b < 0 || c < 0 || d < 0 then -1 else a * 4096 + b * 256 + c * 16 + d
  }

  predicate HighSurrogate(u: int) {
    0xD800 <= u <= 0xDBFF
  }

  predicate LowSurrogate(u: int) {
    0xDC00 <= u <= 0xDFFF
  }

  function SimpleEscape(c: char): string {
    match c
    case '"' => "\""
    case '\\' => "\\"
    case '/' => "/"
    case 'b' => [BACKSPACE]
    case 'f' => [FORM_FEED]
    case 'n' => "\n"
    case 'r' => "\r"
    case 't' => "\t"
    case _ => []
  }

  function Prefixed(c: char, r: StringRead): StringRead {
    if r.BadString? then BadString else Read([c] + r.value, r.rest)
  }

  /** The characters up to the closing quotation mark. */
  function ReadChars(t: string): StringRead {
    if t == [] then BadString
    else if t[0] == '"' then Read([], t[1..])
    else if Control(t[0]) then BadString
    else if t[0] != '\\' then Prefixed(t[0], ReadChars(t[1..]))
    else if |t| < 2 then BadString
    else if t[1] == 'u' then
      var u := CodeUnit(t[2..]);
      if u < 0 || LowSurrogate(u) then BadString
      else if !HighSurrogate(u) then Prefixed(u as char, ReadChars(t[6..]))
      else if |t| < 12 || t[6] != '\\' || t[7] != 'u' || !LowSurrogate(CodeUnit(t[8..])) then BadString
      else
        var low := CodeUnit(t[8..]);
        Prefixed((0x1_0000 + (u - 0xD800) * 0x400 + (low - 0xDC00)) as char, ReadChars(t[12..]))
    else if SimpleEscape(t[1]) == [] then BadString
    else Prefixed(SimpleEscape(t[1])[0], ReadChars(t[2..]))
  }

  function ReadString(t: string): StringRead {
    if t == [] || t[0] != '"' then BadString else ReadChars(t[1..])
  }

  lemma ReadOneChar(c: char, rest: string)
    ensures ReadChars(EscapeChar(c) + rest) == Prefixed(c, ReadChars(rest))
  {
    EscapeShape(c);
    var e := EscapeChar(c);
    hide EscapeChar, ReadChars;
    if |e| == 1 {
      ReadPlain(c, rest);
    } else if |e| == 2 {
      assert e == ['\\', e[1]];
      ReadSimpleEscape(c, e[1], rest);
    } else {
      UnicodeEscapeReadsBack(c, rest);
    }
  }

  /** A character stands for itself, or is a two-character escape, or a unicode escape. */
  lemma EscapeShape(c: char)
    ensures var e := EscapeChar(c);
            || (e == [c] && c != '"' && c != '\\' && !Control(c))
            || (|e| == 2 && e[0] == '\\' && e[1] != 'u' && SimpleEscape(e[1]) == [c])
            || (|e| == 6 && Control(c) && e == UnicodeEscape(c))
  {
  }

  lemma ReadPlain(c: char, rest: string)
    requires c != '"' && c != '\\' && !Control(c)
    ensures ReadChars([c] + rest) == Prefixed(c, ReadChars(rest))
  {
    var t := [c] + rest;
    assert t[0] == c && t[1..] == rest;
  }

  lemma ReadSimpleEscape(c: char, code: char, rest: string)
    requires code != 'u' && SimpleEscape(code) == [c]
    ensures ReadChars(['\\', code] + rest) == Prefixed(c, ReadChars(rest))
  {
    var t := ['\\', code] + rest;
    assert t[0] == '\\' && t[1] == code && t[2..] == rest;
  }

  lemma UnicodeEscapeReadsBack(c: char, rest: string)
    requires Control(c)
    ensures ReadChars(UnicodeEscape(c) + rest) == Prefixed(c, ReadChars(rest))
  {
    var t := UnicodeEscape(c) + rest;
    assert t[0] == '\\' && t[1] == 'u' && t[6..] == rest;
    var h := t[2..];
    assert h[0] == '0' && h[1] == '0' && h[2] == LOWER_HEX[c as int / 16] && h[3] == LOWER_HEX[c as int % 16];
    HexDigitReadsBack(c as int / 16);
    HexDigitReadsBack(c as int % 16);
    assert CodeUnit(h) == c as int;
  }

  lemma HexDigitReadsBack(v: int)
    requires 0 <= v < 16
    ensures HexDigitValue(LOWER_HEX[v]) == v
  {
  }

  lemma PrefixedIs(c: char, r: StringRead)
    ensures Prefixed(c, r) == if r.BadString? then BadString else Read([c] + r.value, r.rest)
  {
  }

  lemma {:induction false} ReadCharsUndoesEscape(s: string, rest: string)
    ensures ReadChars(EscapedValue(s) + rest)
         == if ReadChars(rest).BadString? then BadString else Read(s + ReadChars(rest).value, ReadChars(rest).rest)
    decreases |s|
  {
    hide EscapeChar, ReadChars, Prefixed;
    if s == [] {
      assert EscapedValue(s) + rest == rest;
      if ReadChars(rest).Read? {
        assert s + ReadChars(rest).value == ReadChars(rest).value;
      }
    } else {
      var front, c := s[..|s| - 1], s[|s| - 1];
      ReadCharsUndoesEscape(front, EscapeChar(c) + rest);
      ReadOneChar(c, rest);
      PrefixedIs(c, ReadChars(rest));
      assert EscapedValue(s) + rest == EscapedValue(front) + (EscapeChar(c) + rest);
      if ReadChars(rest).Read? {
        assert front + ([c] + ReadChars(rest).value) == s + ReadChars(rest).value;
      }
    }
  }

  /** An escaped string reads back as itself and the reader stops right behind it, whatever
      follows: no raw quotation mark or control character got in. */
  lemma StringRoundTrip(s: string, rest: string)
    ensures ReadString(Escaped(s) + rest) == Read(s, rest)
  {
    var t := Escaped(s) + rest;
    assert t[0] == '"' && t[1..] == EscapedValue(s) + ("\"" + rest);
    ReadCharsUndoesEscape(s, "\"" + rest);
    assert ("\"" + rest)[0] == '"' && ("\"" + rest)[1..] == rest;
    assert s + [] == s;
  }

  /* ---- Arrays and objects of strings: sections 4 and 5 ---- */

  predicate Whitespace(c: char) {
    c == ' ' || c == '\t' || c == '\n' || c == '\r'
  }

  function SkipWs(t: string): (r: string)
    ensures |r| <= |t|
  {
    if t != [] && Whitespace(t[0]) then SkipWs(t[1..]) else t
  }

  /** How the members of an array or an object are written. */
  datatype Shape = ArrayShape | ObjectShape

  /** An array item is a string; an object member is a name and a string. */
  datatype Member = Member(name: string, value: string)

  function Open(sh: Shape): char {
    if sh.ArrayShape? then '[' else '{'
  }

  function Close(sh: Shape): char {
    if sh.ArrayShape? then ']' else '}'
  }

  function MemberText(sh: Shape, m: Member): string {
    if sh.ArrayShape? then Escaped(m.value) else Escaped(m.name) + ":" + Escaped(m.value)
  }

  function MembersText(sh: Shape, ms: seq<Member>): string {
    if ms == [] then []
    else if |ms| == 1 then MemberText(sh, ms[0])
    else MemberText(sh, ms[0]) + "," + MembersText(sh, ms[1..])
  }

  function Json(sh: Shape, ms: seq<Member>): string {
    [Open(sh)] + MembersText(sh, ms) + [Close(sh)]
  }

  datatype MemberRead = MemberRead(member: Member, rest: string) | BadMember
  datatype MembersRead = MembersRead(members: seq<Member>, rest: string) | BadMembers

  function ReadMember(sh: Shape, t: string): (r: MemberRead)
    ensures r.MemberRead? ==> |r.rest| < |t|
  {
    var first := ReadString(SkipWs(t));
    ReadShortens(SkipWs(t));
    if first.BadString? then BadMember
    else if sh.ArrayShape? then MemberRead(Member("", first.value), first.rest)
    else
      var colon := SkipWs(first.rest);
      if colon == [] || colon[0] != ':' then BadMember
      else
        var second := ReadString(SkipWs(colon[1..]));
        ReadShortens(SkipWs(colon[1..]));
        if second.BadString? then BadMember else MemberRead(Member(first.value, second.value), second.rest)
  }

  /** One or more members up to the closing bracket. */
  function ReadMembers(sh: Shape, t: string): MembersRead
    decreases |t|
  {
    var m := ReadMember(sh, t);
    if m.BadMember? then BadMembers
    else
      var next := SkipWs(m.rest);
      if next == [] then BadMembers
      else if next[0] == Close(sh) then MembersRead([m.member], next[1..])
      else if next[0] != ',' then BadMembers
      else
        var more := ReadMembers(sh, next[1..]);
        if more.BadMembers? then BadMembers else MembersRead([m.member] + more.members, more.rest)
  }

  function ReadJson(sh: Shape, t: string): MembersRead {
    var start := SkipWs(t);
    if start == [] || start[0] != Open(sh) then BadMembers
    else
      var first := SkipWs(start[1..]);
      if first != [] && first[0] == Close(sh) then MembersRead([], first[1..]) else ReadMembers(sh, start[1..])
  }

  lemma {:induction false} ReadCharsShortens(t: string)
    ensures ReadChars(t).Read? ==> |ReadChars(t).rest| < |t|
    decreases |t|
  {
    if t != [] && t[0] != '"' && !Control(t[0]) {
      if t[0] != '\\' {
        ReadCharsShortens(t[1..]);
      } else if |t| >= 2 {
        if t[1] == 'u' {
          if |t| >= 6 { ReadCharsShortens(t[6..]); }
          if |t| >= 12 { ReadCharsShortens(t[12..]); }
        } else {
          ReadCharsShortens(t[2..]);
        }
      }
    }
  }

  lemma ReadShortens(t: string)
    ensures ReadString(t).Read? ==> |ReadString(t).rest| < |t|
  {
    if t != [] {
      ReadCharsShortens(t[1..]);
    }
  }

  /** Arrays have no names. */
  predicate Fits(sh: Shape, ms: seq<Member>) {
    sh.ArrayShape? ==> forall i :: 0 <= i < |ms| ==> ms[i].name == ""
  }

  lemma MemberReadsBack(sh: Shape, m: Member, rest: string)
    requires sh.ArrayShape? ==> m.name == ""
    ensures ReadMember(sh, MemberText(sh, m) + rest) == MemberRead(m, rest)
  {
    var t := MemberText(sh, m) + rest;
    hide ReadString, EscapedValue;
    assert t[0] == '"';
    if sh.ArrayShape? {
      StringRoundTrip(m.value, rest);
    } else {
      var after := ":" + (Escaped(m.value) + rest);
      assert t == Escaped(m.name) + after;
      StringRoundTrip(m.name, after);
      assert after[0] == ':' && after[1..] == Escaped(m.value) + rest;
      StringRoundTrip(m.value, rest);
    }
  }

  lemma {:induction false} MembersReadBack(sh: Shape, ms: seq<Member>, rest: string)
    requires ms != [] && Fits(sh, ms)
    ensures ReadMembers(sh, MembersText(sh, ms) + [Close(sh)] + rest) == MembersRead(ms, rest)
    decreases |ms|
  {
    hide ReadMember, MemberText, ReadMembers;
    var first := MemberText(sh, ms[0]);
    if |ms| == 1 {
      Assoc(first, [Close(sh)], rest);
      MemberReadsBack(sh, ms[0], [Close(sh)] + rest);
      LastMember(sh, first + ([Close(sh)] + rest), ms[0], rest);
      assert ms == [ms[0]];
    } else {
      var more := MembersText(sh, ms[1..]) + [Close(sh)] + rest;
      CommaBetween(first, MembersText(sh, ms[1..]), [Close(sh)], rest);
      MemberReadsBack(sh, ms[0], "," + more);
      MembersReadBack(sh, ms[1..], rest);
      MoreMembers(sh, first + ("," + more), ms[0], more);
      assert ms == [ms[0]] + ms[1..];
    }
  }

  lemma CommaBetween(first: string, more: string, close: string, rest: string)
    ensures ((first + ",") + more) + close + rest == first + ("," + (more + close + rest))
  {
  }

  lemma LastMember(sh: Shape, t: string, m: Member, rest: string)
    requires ReadMember(sh, t) == MemberRead(m, [Close(sh)] + rest)
    ensures ReadMembers(sh, t) == MembersRead([m], rest)
  {
    var tail := [Close(sh)] + rest;
    assert tail[0] == Close(sh) && tail[1..] == rest;
    hide ReadMember;
  }

  lemma MoreMembers(sh: Shape, t: string, m: Member, more: string)
    requires ReadMember(sh, t) == MemberRead(m, "," + more)
    ensures var r := ReadMembers(sh, more);
            ReadMembers(sh, t) == if r.BadMembers? then BadMembers else MembersRead([m] + r.members, r.rest)
  {
    var tail := "," + more;
    assert tail[0] == ',' && tail[1..] == more;
    hide ReadMember;
  }

  /** Arrays and objects read back as exactly their members, in order. */
  lemma JsonRoundTrip(sh: Shape, ms: seq<Member>, rest: string)
    requires Fits(sh, ms)
    ensures ReadJson(sh, Json(sh, ms) + rest) == MembersRead(ms, rest)
  {
    var t := Json(sh, ms) + rest;
    var body := MembersText(sh, ms) + [Close(sh)] + rest;
    hide ReadMembers, MembersText, MemberText;
    NoMembers(sh);
    assert t[0] == Open(sh) && t[1..] == body && SkipWs(t) == t;
    if ms == [] {
      assert body == [Close(sh)] + rest && body[0] == Close(sh) && body[1..] == rest;
      assert SkipWs(body) == body && ReadJson(sh, t) == MembersRead([], body[1..]);
    } else {
      FirstIsQuote(sh, ms);
      assert body[0] == '"';
      MembersReadBack(sh, ms, rest);
    }
  }

  lemma FirstIsQuote(sh: Shape, ms: seq<Member>)
    requires ms != []
    ensures MembersText(sh, ms) != [] && MembersText(sh, ms)[0] == '"'
  {
    assert MemberText(sh, ms[0])[0] == '"';
  }

  /* ---- The writers ---- */

  lemma {:induction false} MembersTextSnoc(sh: Shape, ms: seq<Member>, m: Member)
    ensures MembersText(sh, ms + [m]) == MembersText(sh, ms) + (if ms == [] then "" else ",") + MemberText(sh, m)
    decreases |ms|
  {
    hide MemberText;
    if |ms| == 0 {
      assert ms + [m] == [m];
    } else {
      assert (ms + [m])[0] == ms[0] && (ms + [m])[1..] == ms[1..] + [m];
      MembersTextSnoc(sh, ms[1..], m);
      if |ms| == 1 {
        assert ms[1..] == [];
      }
    }
  }

  method JsonArray(items: seq<string>) returns (json: string)
    ensures json == Json(ArrayShape, seq(|items|, i requires 0 <= i < |items| => Member("", items[i])))
  {
    hide MembersText, EscapedValue, Escaped;
    ghost var ms := seq(|items|, i requires 0 <= i < |items| => Member("", items[i]));
    json := "[";
    NoMembers(ArrayShape);
    for i := 0 to |items|
      invariant json == "[" + MembersText(ArrayShape, ms[..i])
    {
      MembersTextSnoc(ArrayShape, ms[..i], ms[i]);
      assert ms[..i + 1] == ms[..i] + [ms[i]];
      if i > 0 {
        json := json + ",";
      }
      var item := EscapeJson(items[i]);
      json := json + item;
    }
    assert ms[..|ms|] == ms;
    json := json + "]";
  }

  method JsonObject(entries: seq<Member>) returns (json: string)
    ensures json == Json(ObjectShape, entries)
  {
    hide MembersText, EscapedValue, Escaped;
    json := "{";
    NoMembers(ObjectShape);
    for i := 0 to |entries|
      invariant json == "{" + MembersText(ObjectShape, entries[..i])
    {
      MembersTextSnoc(ObjectShape, entries[..i], entries[i]);
      assert entries[..i + 1] == entries[..i] + [entries[i]];
      if i > 0 {
        json := json + ",";
      }
      var name := EscapeJson(entries[i].name);
      var value := EscapeJson(entries[i].value);
      json := json + name;
      json := json + ":";
      json := json + value;
    }
    assert entries[..|entries|] == entries;
    json := json + "}";
  }

  lemma NoMembers(sh: Shape)
    ensures MembersText(sh, []) == []
  {
  }

  /* ---- The text, character by character ---- */

  predicate IsLowerHex(c: char, v: int) {
    if v < 10 then c as int == 48 + v else c as int == 87 + v
  }

  /** What each character becomes: a quotation mark and a backslash get a backslash in front, five
      control characters their letter, the others a unicode escape, and the rest stays. */
  lemma EscapeCharIs(c: char)
    ensures var e, n := EscapeChar(c), c as int;
            && (n == 34 || n == 92 ==> e == [92 as char, c])
            && (n == 8 ==> e == [92 as char, 98 as char])
            && (n == 9 ==> e == [92 as char, 116 as char])
            && (n == 10 ==> e == [92 as char, 110 as char])
            && (n == 12 ==> e == [92 as char, 102 as char])
            && (n == 13 ==> e == [92 as char, 114 as char])
            && (n < 32 && n != 8 && n != 9 && n != 10 && n != 12 && n != 13 ==>
                  && |e| == 6 && e[..4] == [92 as char, 117 as char, 48 as char, 48 as char]
                  && IsLowerHex(e[4], n / 16) && IsLowerHex(e[5], n % 16))
            && (n >= 32 && n != 34 && n != 92 ==> e == [c])
  {
    if c as int < 32 {
      LowerHexIs(c as int / 16);
      LowerHexIs(c as int % 16);
    }
  }

  lemma LowerHexIs(v: nat)
    requires v < 16
    ensures IsLowerHex(LOWER_HEX[v], v)
  {
  }

  /** The two-character escapes as section 7 of RFC 8259 lists them. */
  lemma SimpleEscapesAre(c: char)
    ensures var r, n := SimpleEscape(c), c as int;
            && (n == 34 || n == 92 || n == 47 ==> r == [c])
            && (n == 98 ==> r == [8 as char])
            && (n == 102 ==> r == [12 as char])
            && (n == 110 ==> r == [10 as char])
            && (n == 114 ==> r == [13 as char])
            && (n == 116 ==> r == [9 as char])
            && (n != 34 && n != 92 && n != 47 && n != 98 && n != 102 && n != 110 && n != 114 && n != 116 ==> r == [])
  {
  }

  /** A hexadecimal digit is worth what it is in either case. */
  lemma HexDigitsAre(c: char)
    ensures var v, n := HexDigitValue(c), c as int;
            && (48 <= n <= 57 ==> v == n - 48)
            && (65 <= n <= 70 ==> v == n - 55)
            && (97 <= n <= 102 ==> v == n - 87)
            && (n < 48 || 57 < n < 65 || 70 < n < 97 || 102 < n ==> v == -1)
  {
  }

  /** A string is its escaped characters in quotation marks, in order. */
  lemma {:induction false} EscapedIs(s: string, t: string)
    ensures EscapedValue([]) == [] && Escaped(s) == [34 as char] + EscapedValue(s) + [34 as char]
    ensures EscapedValue(s + t) == EscapedValue(s) + EscapedValue(t)
    decreases |t|
  {
    hide EscapeChar;
    if t == [] {
      assert s + t == s;
    } else {
      var front, c := t[..|t| - 1], t[|t| - 1];
      EscapedIs(s, front);
      assert (s + t)[..|s + t| - 1] == s + front && (s + t)[|s + t| - 1] == c;
      Assoc(EscapedValue(s), EscapedValue(front), EscapeChar(c));
    }
  }

  /** Arrays and objects: brackets or braces around the members, commas between them, and in an
      object the name, a colon and the value. */
  lemma JsonIs(ms: seq<Member>, m: Member)
    ensures Json(ArrayShape, []) == "[]" && Json(ObjectShape, []) == "{}"
    ensures Json(ArrayShape, ms + [m])
         == "[" + (MembersText(ArrayShape, ms) + (if ms == [] then "" else ",") + Escaped(m.value)) + "]"
    ensures Json(ObjectShape, ms + [m])
         == "{" + (MembersText(ObjectShape, ms) + (if ms == [] then "" else ",")
                   + (Escaped(m.name) + ":" + Escaped(m.value))) + "}"
  {
    MembersTextSnoc(ArrayShape, ms, m);
    MembersTextSnoc(ObjectShape, ms, m);
    hide MembersText, Escaped;
    NoMembers(ArrayShape);
    NoMembers(ObjectShape);
  }
}
