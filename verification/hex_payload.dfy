/** The USB probe script's `hex_string_to_byte_array` (test1/test1.py):
    split a text on whitespace, read every token as a base-16 integer and
    collect the values as bytes. Python's `str.split()`, `int(t, 16)` and
    `bytearray` are modelled as far as the script relies on them. */
module HexPayload {
  import opened Wrappers
  import opened IntMath
  import Display

  // ---------------------------------------------------------------------
  // Whitespace splitting (`str.split()` with no separator)
  // ---------------------------------------------------------------------

  /** The characters below 256 that `str.split()` treats as whitespace. */
  predicate IsSpace(c: char) {
    || c == ' ' || c == '\t' || c == '\n' || c == '\r' || c == '\U{0b}' || c == '\U{0c}'
    || c == '\U{1c}' || c == '\U{1d}' || c == '\U{1e}' || c == '\U{1f}' || c == '\U{85}' || c == '\U{a0}'
  }

  /** A token as `split()` yields it: not empty, no whitespace. */
  predicate IsToken(t: string) {
    |t| > 0 && forall i :: 0 <= i < |t| ==> !IsSpace(t[i])
  }

  /** The length of the run of non-space characters `s` starts with. */
  function TokenLength(s: string): (n: nat)
    ensures n <= |s|
    ensures forall i :: 0 <= i < n ==> !IsSpace(s[i])
    ensures n < |s| ==> IsSpace(s[n])
  {
    if |s| == 0 || IsSpace(s[0]) then 0 else 1 + TokenLength(s[1..])
  }

  /** `s.split()`: the maximal runs of non-space characters, in order. */
  function Split(s: string): seq<string>
    decreases |s|
  {
    if |s| == 0 then []
    else if IsSpace(s[0]) then Split(s[1..])
    else
      var n := TokenLength(s);
      [s[..n]] + Split(s[n..])
  }

  lemma {:induction false} TokenLengthAppend(a: string, sep: char, b: string)
    requires IsSpace(sep)
    ensures TokenLength(a + [sep] + b) == TokenLength(a)
    ensures TokenLength(a) <= |a|
  {
    if |a| > 0 && !IsSpace(a[0]) {
      assert (a + [sep] + b)[1..] == a[1..] + [sep] + b;
      TokenLengthAppend(a[1..], sep, b);
    }
  }

  /** Whitespace between two texts separates their tokens: splitting the
      joined text splits each part. */
  lemma {:induction false} SplitAppend(a: string, sep: char, b: string)
    requires IsSpace(sep)
    ensures Split(a + [sep] + b) == Split(a) + Split(b)
    decreases |a|
  {
    var s := a + [sep] + b;
    if |a| == 0 {
      assert s[1..] == b;
    } else if IsSpace(a[0]) {
      assert s[1..] == a[1..] + [sep] + b;
      SplitAppend(a[1..], sep, b);
    } else {
      var n := TokenLength(a);
      TokenLengthAppend(a, sep, b);
      assert s[..n] == a[..n];
      assert s[n..] == a[n..] + [sep] + b;
      SplitAppend(a[n..], sep, b);
    }
  }

  /** A single token splits into itself. */
  lemma TokenSplitsToItself(t: string)
    requires IsToken(t)
    ensures Split(t) == [t]
  {
    TokenLengthWhole(t);
    assert t[..|t|] == t;
    assert t[|t|..] == [];
  }

  lemma {:induction false} TokenLengthWhole(t: string)
    requires forall i :: 0 <= i < |t| ==> !IsSpace(t[i])
    ensures TokenLength(t) == |t|
  {
    if |t| > 0 {
      TokenLengthWhole(t[1..]);
    }
  }

  /** Tokens joined by single spaces. */
  function JoinTokens(ts: seq<string>): (s: string)
  {
    if |ts| == 0 then "" else if |ts| == 1 then ts[0] else ts[0] + " " + JoinTokens(ts[1..])
  }

  /** Joining tokens with spaces and splitting gives the tokens back. */
  lemma {:induction false} SplitJoinTokens(ts: seq<string>)
    requires forall i :: 0 <= i < |ts| ==> IsToken(ts[i])
    ensures Split(JoinTokens(ts)) == ts
  {
    if |ts| == 1 {
      TokenSplitsToItself(ts[0]);
    } else if |ts| > 1 {
      SplitJoinTokens(ts[1..]);
      SplitAppend(ts[0], ' ', JoinTokens(ts[1..]));
      TokenSplitsToItself(ts[0]);
      assert [ts[0]] + ts[1..] == ts;
    }
  }

  // ---------------------------------------------------------------------
  // Base-16 integers (`int(t, 16)`)
  // ---------------------------------------------------------------------

  function HexDigit(c: char): (r: Option<nat>)
    ensures r.Some? ==> r.value < 16
  {
    if '0' <= c <= '9' then Some(c as int - '0' as int)
    else if 'a' <= c <= 'f' then Some(c as int - 'a' as int + 10)
    else if 'A' <= c <= 'F' then Some(c as int - 'A' as int + 10)
    else None
  }

  predicate IsHexDigit(c: char) {
    HexDigit(c).Some?
  }

  /** The digit part Python accepts: hex digits with single underscores
      between them. */
  predicate ValidDigits(body: string) {
    |body| > 0 && IsHexDigit(body[0]) && DigitsAfterFirst(body[1..])
  }

  /** What may follow a digit: nothing, a digit, or one underscore and a
      digit, and so on. */
  predicate DigitsAfterFirst(s: string)
    decreases |s|
  {
    || |s| == 0
    || (IsHexDigit(s[0]) && DigitsAfterFirst(s[1..]))
    || (|s| >= 2 && s[0] == '_' && IsHexDigit(s[1]) && DigitsAfterFirst(s[2..]))
  }

  /** The value of the digits, underscores skipped. */
  function DigitsValue(body: string): (v: nat)
  {
    if |body| == 0 then 0
    else
      var last := body[|body| - 1];
      var front := DigitsValue(body[..|body| - 1]);
      if last == '_' then front else front * 16 + HexDigit(last).GetOr(0)
  }

  predicate HasHexPrefix(t: string) {
    |t| >= 2 && t[0] == '0' && (t[1] == 'x' || t[1] == 'X')
  }

  /** The token without its sign, if it has one. */
  function Unsigned(t: string): string
  {
    if |t| > 0 && (t[0] == '-' || t[0] == '+') then t[1..] else t
  }

  /** The digit part after an optional `0x`/`0X` prefix, which may be
      followed by one underscore. */
  function DigitPart(u: string): string
  {
    if !HasHexPrefix(u) then u
    else if |u| > 2 && u[2] == '_' then u[3..]
    else u[2..]
  }

  /** `int(t, 16)` on a token: an optional sign, an optional prefix, then
      the digits; None where Python raises `ValueError`. */
  function ParseInt16(t: string): Option<int>
  {
    var body := DigitPart(Unsigned(t));
    if !ValidDigits(body) then None
    else if |t| > 0 && t[0] == '-' then Some(0 - DigitsValue(body))
    else Some(DigitsValue(body))
  }

  /** The two `ValueError`s the script can raise: from `int` and from
      `bytearray`. */
  datatype ParseError = InvalidLiteral | ByteOutOfRange

  /** One token as a byte: `bytearray` refuses values outside 0..255. */
  function ParseByte(t: string): Result<Byte, ParseError>
  {
    var v := ParseInt16(t);
    if v.None? then Failure(InvalidLiteral)
    else if 0 <= v.value < 256 then Success(v.value)
    else Failure(ByteOutOfRange)
  }

  /** The bytes of the parts one after another, failing at the first
      part that fails. */
  function ReadAll<T>(parts: seq<T>, read: T -> Result<seq<Byte>, ParseError>): Result<seq<Byte>, ParseError>
  {
    if |parts| == 0 then Success([])
    else
      var head := read(parts[0]);
      if head.Failure? then Failure(head.error)
      else
        var tail := ReadAll(parts[1..], read);
        if tail.Failure? then tail else Success(head.value + tail.value)
  }

  lemma ReadAllCons<T>(part: T, rest: seq<T>, read: T -> Result<seq<Byte>, ParseError>)
    requires read(part).Success? && ReadAll(rest, read).Success?
    ensures ReadAll([part] + rest, read) == Success(read(part).value + ReadAll(rest, read).value)
  {
    assert ([part] + rest)[0] == part;
    assert ([part] + rest)[1..] == rest;
  }

  /** Reading two runs of parts one after the other reads each. */
  lemma {:induction false} ReadAllAppend<T>(a: seq<T>, b: seq<T>, read: T -> Result<seq<Byte>, ParseError>)
    requires ReadAll(a, read).Success? && ReadAll(b, read).Success?
    ensures ReadAll(a + b, read) == Success(ReadAll(a, read).value + ReadAll(b, read).value)
  {
    if |a| == 0 {
      assert a + b == b;
      assert ReadAll(a, read).value + ReadAll(b, read).value == ReadAll(b, read).value;
    } else {
      var h := read(a[0]).value;
      var rest := ReadAll(a[1..], read).value;
      ReadAllAppend(a[1..], b, read);
      assert a + b == [a[0]] + (a[1..] + b);
      ReadAllCons(a[0], a[1..] + b, read);
      assert h + (rest + ReadAll(b, read).value) == (h + rest) + ReadAll(b, read).value;
    }
  }

  /** A token's byte as a one-byte run. */
  function TokenByte(t: string): (r: Result<seq<Byte>, ParseError>)
  {
    var b := ParseByte(t);
    if b.Failure? then Failure(b.error) else Success([b.value])
  }

  /** The tokens as bytes, failing at the first bad token. */
  function ParseTokens(ts: seq<string>): Result<seq<Byte>, ParseError>
  {
    ReadAll(ts, TokenByte)
  }

  /** `hex_string_to_byte_array`. */
  function HexToBytes(s: string): Result<seq<Byte>, ParseError>
  {
    ParseTokens(Split(s))
  }

  /** The tokens read as bytes exactly when every token does, and then
      give each token's byte in order. */
  lemma {:induction false} ParseTokensEach(ts: seq<string>, bytes: seq<Byte>)
    ensures ParseTokens(ts) == Success(bytes) <==>
              |ts| == |bytes| && forall i :: 0 <= i < |ts| ==> ParseByte(ts[i]) == Success(bytes[i])
  {
    if |ts| > 0 {
      if |bytes| > 0 {
        ParseTokensEach(ts[1..], bytes[1..]);
        assert bytes == [bytes[0]] + bytes[1..];
        if |ts| == |bytes| && forall i :: 0 <= i < |ts| ==> ParseByte(ts[i]) == Success(bytes[i]) {
          forall i | 0 <= i < |ts[1..]|
            ensures ParseByte(ts[1..][i]) == Success(bytes[1..][i])
          {
            assert ts[1..][i] == ts[i + 1];
          }
          assert ParseByte(ts[0]) == Success(bytes[0]);
        }
      } else {
        if ParseTokens(ts).Success? {
          assert |TokenByte(ts[0]).value| == 1;
        }
      }
    }
  }

  // ---------------------------------------------------------------------
  // Dumping bytes as hex, the inverse
  // ---------------------------------------------------------------------

  function HexChar(d: nat): (c: char)
    requires d < 16
    ensures HexDigit(c) == Some(d)
  {
    if d < 10 then ('0' as int + d) as char else ('a' as int + d - 10) as char
  }

  /** A byte as two lower-case hex digits, the way the payload is written. */
  function HexText(b: Byte): (t: string)
    ensures IsToken(t) && |t| == 2
  {
    [HexChar(b / 16), HexChar(b % 16)]
  }

  /** Every byte's two-digit text parses back to the byte. */
  lemma ParseHexText(b: Byte)
    ensures ParseByte(HexText(b)) == Success(b)
  {
    var t := HexText(b);
    assert Unsigned(t) == t && DigitPart(t) == t;
    assert DigitsAfterFirst(t[1..]) by {
      assert t[1..][1..] == [];
    }
    assert t[..1][..0] == [];
    assert DigitsValue(t[..1]) == b / 16;
    assert DigitsValue(t) == (b / 16) * 16 + b % 16;
  }

  /** Each byte's two-digit text, in order. */
  function HexTexts(bytes: seq<Byte>): (ts: seq<string>)
    ensures |ts| == |bytes|
    ensures forall i :: 0 <= i < |bytes| ==> ts[i] == HexText(bytes[i])
  {
    seq(|bytes|, i requires 0 <= i < |bytes| => HexText(bytes[i]))
  }

  /** Bytes as the payload writes them: two hex digits each, one space
      apart. */
  function Dump(bytes: seq<Byte>): string
  {
    JoinTokens(HexTexts(bytes))
  }

  /** Dumping bytes and reading the dump back gives the bytes, also with a
      trailing space as some of the payload's lines have. */
  lemma DumpRoundTrip(bytes: seq<Byte>)
    ensures HexToBytes(Dump(bytes)) == Success(bytes)
    ensures HexToBytes(Dump(bytes) + " ") == Success(bytes)
  {
    var ts := HexTexts(bytes);
    SplitJoinTokens(ts);
    forall i | 0 <= i < |ts|
      ensures ParseByte(ts[i]) == Success(bytes[i])
    {
      ParseHexText(bytes[i]);
    }
    ParseTokensEach(ts, bytes);
    SplitAppend(Dump(bytes), ' ', "");
    assert Dump(bytes) + [' '] + "" == Dump(bytes) + " ";
    assert Split(Dump(bytes)) + Split("") == ts;
  }

  /** Every character of an accepted digit part is a hex digit or an
      underscore. */
  lemma {:induction false} DigitsAfterFirstChars(s: string)
    requires DigitsAfterFirst(s)
    ensures forall i :: 0 <= i < |s| ==> IsHexDigit(s[i]) || s[i] == '_'
    decreases |s|
  {
    if |s| > 0 {
      if IsHexDigit(s[0]) && DigitsAfterFirst(s[1..]) {
        DigitsAfterFirstChars(s[1..]);
        assert forall i :: 1 <= i < |s| ==> s[i] == s[1..][i - 1];
      } else {
        DigitsAfterFirstChars(s[2..]);
        assert forall i :: 2 <= i < |s| ==> s[i] == s[2..][i - 2];
      }
    }
  }

  lemma ValidDigitsChars(body: string)
    requires ValidDigits(body)
    ensures forall i :: 0 <= i < |body| ==> IsHexDigit(body[i]) || body[i] == '_'
  {
    DigitsAfterFirstChars(body[1..]);
    assert forall i :: 1 <= i < |body| ==> body[i] == body[1..][i - 1];
  }

  /** A token whose digit part is empty, or holds a character that is
      neither a hex digit nor an underscore, is not a base-16 literal. */
  lemma RejectsNonHex(t: string)
    ensures |DigitPart(Unsigned(t))| == 0 ==> ParseByte(t) == Failure(InvalidLiteral)
    ensures (exists i :: 0 <= i < |DigitPart(Unsigned(t))|
                         && !IsHexDigit(DigitPart(Unsigned(t))[i]) && DigitPart(Unsigned(t))[i] != '_')
            ==> ParseByte(t) == Failure(InvalidLiteral)
  {
    var body := DigitPart(Unsigned(t));
    if ValidDigits(body) {
      ValidDigitsChars(body);
    }
  }

  /** Digits without underscores, the first one not zero, are worth at
      least 16 to the power of their count less one; so three or more are
      worth 256 or more. */
  lemma {:induction false} LeadingDigitValue(body: string)
    requires |body| >= 1 && forall i :: 0 <= i < |body| ==> IsHexDigit(body[i])
    requires IsHexDigit(body[0]) && HexDigit(body[0]).value > 0
    ensures DigitsValue(body) >= 1
    ensures |body| >= 2 ==> DigitsValue(body) >= 16
    ensures |body| >= 3 ==> DigitsValue(body) >= 256
    decreases |body|
  {
    var n := |body|;
    if n > 1 {
      var front := body[..n - 1];
      assert front[0] == body[0];
      assert forall i :: 0 <= i < |front| ==> front[i] == body[i];
      LeadingDigitValue(front);
      assert body[n - 1] != '_';
      assert DigitsValue(body) >= DigitsValue(front) * 16;
    }
  }

  /** A value above 255 is refused as out of range, whatever its
      spelling; in particular a non-negative token of three or more digits
      without underscores, the first not zero. */
  lemma RejectsWideValue(t: string)
    ensures ParseInt16(t).Some? && ParseInt16(t).value > 255 ==> ParseByte(t) == Failure(ByteOutOfRange)
    ensures var body := DigitPart(Unsigned(t));
            && !(|t| > 0 && t[0] == '-')
            && |body| >= 3 && (forall i :: 0 <= i < |body| ==> IsHexDigit(body[i]))
            && IsHexDigit(body[0]) && HexDigit(body[0]).value > 0
            ==> ParseByte(t) == Failure(ByteOutOfRange)
  {
    var body := DigitPart(Unsigned(t));
    if |body| >= 3 && (forall i :: 0 <= i < |body| ==> IsHexDigit(body[i])) && IsHexDigit(body[0]) && HexDigit(body[0]).value > 0 {
      LeadingDigitValue(body);
      assert DigitsAfterFirst(body[1..]) by {
        AllDigitsAfterFirst(body[1..]);
        assert forall i :: 0 <= i < |body[1..]| ==> body[1..][i] == body[i + 1];
      }
    }
  }

  /** Digits alone always form an accepted digit part. */
  lemma {:induction false} AllDigitsAfterFirst(s: string)
    requires forall i :: 0 <= i < |s| ==> IsHexDigit(s[i])
    ensures DigitsAfterFirst(s)
    decreases |s|
  {
    if |s| > 0 {
      assert forall i :: 0 <= i < |s[1..]| ==> s[1..][i] == s[i + 1];
      AllDigitsAfterFirst(s[1..]);
    }
  }

  /** A minus sign in front of a non-zero literal gives a negative value,
      which is refused as out of range; minus zero is zero and accepted. */
  lemma RejectsNegative(t: string)
    requires |t| > 0 && t[0] == '-'
    ensures ParseInt16(t).Some? && DigitsValue(DigitPart(t[1..])) > 0 ==> ParseByte(t) == Failure(ByteOutOfRange)
    ensures ParseInt16(t).Some? && DigitsValue(DigitPart(t[1..])) == 0 ==> ParseByte(t) == Success(0)
  {
  }

  /** The digit part of an accepted literal is its own unsigned,
      unprefixed form. */
  lemma PlainDigits(body: string)
    requires ValidDigits(body)
    ensures Unsigned(body) == body && DigitPart(body) == body
  {
    ValidDigitsChars(body);
  }

  /** A `0x`, `0X`, `0x_` or `0X_` prefix in front of an accepted digit
      part reads the same value as the digits alone. */
  lemma AcceptsPrefix(body: string)
    requires ValidDigits(body)
    ensures ParseInt16(body) == Some(DigitsValue(body))
    ensures ParseByte("0x" + body) == ParseByte(body) && ParseByte("0X" + body) == ParseByte(body)
    ensures ParseByte("0x_" + body) == ParseByte(body) && ParseByte("0X_" + body) == ParseByte(body)
  {
    PlainDigits(body);
    assert ("0x" + body)[2..] == body && ("0X" + body)[2..] == body;
    assert ("0x_" + body)[3..] == body && ("0X_" + body)[3..] == body;
  }

  /** Accepted digit parts run on: joined directly or through one
      underscore they are accepted again. */
  lemma {:induction false} DigitsAfterFirstAppend(x: string, y: string)
    requires DigitsAfterFirst(x) && DigitsAfterFirst(y)
    ensures DigitsAfterFirst(x + y)
    decreases |x|
  {
    if |x| > 0 {
      if IsHexDigit(x[0]) && DigitsAfterFirst(x[1..]) {
        DigitsAfterFirstAppend(x[1..], y);
        assert (x + y)[0] == x[0];
        assert (x + y)[1..] == x[1..] + y;
      } else {
        DigitsAfterFirstAppend(x[2..], y);
        assert (x + y)[0] == x[0] && (x + y)[1] == x[1];
        assert (x + y)[2..] == x[2..] + y;
      }
    } else {
      assert x + y == y;
    }
  }

  /** Taking out one underscore does not change the value. */
  lemma {:induction false} UnderscoreValue(a: string, b: string)
    ensures DigitsValue(a + "_" + b) == DigitsValue(a + b)
    decreases |b|
  {
    if |b| == 0 {
      assert (a + "_" + b)[..|a + "_" + b| - 1] == a;
      assert a + b == a;
    } else {
      var n := |b|;
      UnderscoreValue(a, b[..n - 1]);
      assert (a + "_" + b)[..|a + "_" + b| - 1] == a + "_" + b[..n - 1];
      assert (a + b)[..|a + b| - 1] == a + b[..n - 1];
    }
  }

  /** An underscore between two accepted digit parts is accepted, and
      reads like the digits run together. */
  lemma UnderscoreJoin(a: string, b: string)
    requires ValidDigits(a) && ValidDigits(b)
    ensures ValidDigits(a + b) && ValidDigits(a + "_" + b)
    ensures DigitsValue(a + "_" + b) == DigitsValue(a + b)
  {
    assert DigitsAfterFirst(b) by {
      assert b[1..] == b[1..];
    }
    var ub := "_" + b;
    assert DigitsAfterFirst(ub) by {
      assert ub[0] == '_' && ub[1] == b[0] && ub[2..] == b[1..];
    }
    DigitsAfterFirstAppend(a[1..], b);
    DigitsAfterFirstAppend(a[1..], ub);
    assert (a + b)[0] == a[0] && (a + b)[1..] == a[1..] + b;
    assert a + "_" + b == a + ub;
    assert (a + ub)[0] == a[0] && (a + ub)[1..] == a[1..] + ub;
    UnderscoreValue(a, b);
  }

  /** A plus sign in front reads like no sign, and an underscore between
      two accepted digit parts reads like the digits run together. */
  lemma AcceptsSignAndUnderscore(u: string, a: string, b: string)
    requires !(|u| > 0 && (u[0] == '-' || u[0] == '+'))
    requires ValidDigits(a) && ValidDigits(b)
    ensures ParseByte("+" + u) == ParseByte(u)
    ensures ParseByte(a + "_" + b) == ParseByte(a + b)
  {
    assert ("+" + u)[1..] == u;
    UnderscoreJoin(a, b);
    PlainDigits(a + b);
    PlainDigits(a + "_" + b);
  }

  // ---------------------------------------------------------------------
  // The embedded payload (test1/test1.py:18-65)
  // ---------------------------------------------------------------------

  /** Lines joined by line breaks. */
  function JoinLines(lines: seq<string>): string
  {
    if |lines| == 0 then "" else if |lines| == 1 then lines[0] else lines[0] + "\n" + JoinLines(lines[1..])
  }

  /** The literal's lines, each written as its tokens one space apart,
      with the trailing space where the literal has one. */
  const HeaderLine := JoinTokens(["84", "00", "00", "60", "00", "00", "00", "00"])
  const GeometryLine := JoinTokens(["a0", "00", "80", "00", "01", "e0", "00", "ff"]) + " "
  const FirstBlockLine := JoinTokens(["02", "00", "00", "00", "00", "00", "00", "10"]) + " "
  const NextBlockLine := JoinTokens(["02", "00", "00", "e0", "00", "00", "00", "10"]) + " "
  const WhiteLine := JoinTokens(["00", "00", "ff", "ff", "ff", "ff", "ff", "ff"]) + " "
  const WhiteTailLine := JoinTokens(["ff", "ff", "ff", "ff", "ff", "ff", "00", "00"]) + " "
  const FooterLine := JoinTokens(["02", "00", "00", "00", "03", "00", "00", "00", "40", "00", "00", "00"])

  /** One block: its command line and eight lines of pixel data, then a
      blank line. */
  function Block(first: bool): seq<string>
  {
    [if first then FirstBlockLine else NextBlockLine]
    + [WhiteLine, WhiteTailLine, WhiteLine, WhiteTailLine, WhiteLine, WhiteTailLine, WhiteLine, WhiteTailLine]
    + [""]
  }

  /** The literal's lines: it opens and closes with a line break. */
  function PayloadLines(): seq<string>
  {
    ["", HeaderLine, GeometryLine, ""] + Block(true) + Block(false) + Block(false) + Block(false) + [FooterLine, "", ""]
  }

  function PayloadText(): string
  {
    JoinLines(PayloadLines())
  }

  const HeaderBytes: seq<Byte> := [0x84, 0, 0, 0x60, 0, 0, 0, 0]
  const GeometryBytes: seq<Byte> := [0xa0, 0, 0x80, 0, 1, 0xe0, 0, 0xff]
  const WhiteBytes: seq<Byte> := [0, 0, 255, 255, 255, 255, 255, 255]
  const WhiteTailBytes: seq<Byte> := [255, 255, 255, 255, 255, 255, 0, 0]

  function CommandBytes(first: bool): seq<Byte>
  {
    [2, 0, 0, if first then 0 else 0xe0, 0, 0, 0, 0x10]
  }

  function BlockBytes(first: bool): seq<Byte>
  {
    CommandBytes(first)
    + WhiteBytes + WhiteTailBytes + WhiteBytes + WhiteTailBytes
    + WhiteBytes + WhiteTailBytes + WhiteBytes + WhiteTailBytes
  }

  /** What the script sends: header, four blocks, footer. */
  function PayloadBytes(): (r: seq<Byte>)
    ensures |r| == 316
  {
    HeaderBytes + GeometryBytes
    + BlockBytes(true) + BlockBytes(false) + BlockBytes(false) + BlockBytes(false)
    + Display.Footer
  }

  lemma HeaderLineBytes()
    ensures HexToBytes(HeaderLine) == Success(HeaderBytes)
  {
    assert HexText(0x84) == "84" && HexText(0) == "00" && HexText(0x60) == "60";
    assert HexTexts(HeaderBytes) == ["84", "00", "00", "60", "00", "00", "00", "00"];
    DumpRoundTrip(HeaderBytes);
  }

  lemma GeometryLineBytes()
    ensures HexToBytes(GeometryLine) == Success(GeometryBytes)
  {
    assert HexText(0xa0) == "a0" && HexText(0) == "00" && HexText(0x80) == "80";
    assert HexText(1) == "01" && HexText(0xe0) == "e0" && HexText(0xff) == "ff";
    assert HexTexts(GeometryBytes) == ["a0", "00", "80", "00", "01", "e0", "00", "ff"];
    DumpRoundTrip(GeometryBytes);
  }

  lemma BlockLineBytes(first: bool)
    ensures HexToBytes(if first then FirstBlockLine else NextBlockLine) == Success(CommandBytes(first))
  {
    assert HexText(2) == "02" && HexText(0) == "00" && HexText(0xe0) == "e0" && HexText(0x10) == "10";
    if first {
      assert HexTexts(CommandBytes(first)) == ["02", "00", "00", "00", "00", "00", "00", "10"];
    } else {
      assert HexTexts(CommandBytes(first)) == ["02", "00", "00", "e0", "00", "00", "00", "10"];
    }
    DumpRoundTrip(CommandBytes(first));
  }

  lemma WhiteLinesBytes()
    ensures HexToBytes(WhiteLine) == Success(WhiteBytes)
    ensures HexToBytes(WhiteTailLine) == Success(WhiteTailBytes)
  {
    assert HexText(0) == "00" && HexText(0xff) == "ff";
    assert HexTexts(WhiteBytes) == ["00", "00", "ff", "ff", "ff", "ff", "ff", "ff"];
    assert HexTexts(WhiteTailBytes) == ["ff", "ff", "ff", "ff", "ff", "ff", "00", "00"];
    DumpRoundTrip(WhiteBytes);
    DumpRoundTrip(WhiteTailBytes);
  }

  lemma FooterLineBytes()
    ensures HexToBytes(FooterLine) == Success(Display.Footer)
  {
    assert HexText(2) == "02" && HexText(0) == "00" && HexText(3) == "03" && HexText(0x40) == "40";
    assert HexTexts(Display.Footer) == ["02", "00", "00", "00", "03", "00", "00", "00", "40", "00", "00", "00"];
    DumpRoundTrip(Display.Footer);
  }

  /** The bytes of each line, one line after another. */
  function LinesBytes(lines: seq<string>): Result<seq<Byte>, ParseError>
  {
    ReadAll(lines, HexToBytes)
  }

  /** Line breaks separate tokens: the bytes of lines joined by line
      breaks are the lines' bytes one after another. */
  lemma {:induction false} HexToBytesLines(lines: seq<string>)
    requires LinesBytes(lines).Success?
    ensures HexToBytes(JoinLines(lines)) == LinesBytes(lines)
  {
    if |lines| == 1 {
      assert LinesBytes(lines[1..]) == Success([]);
      assert HexToBytes(lines[0]).value + [] == HexToBytes(lines[0]).value;
    } else if |lines| > 1 {
      HexToBytesLines(lines[1..]);
      SplitAppend(lines[0], '\n', JoinLines(lines[1..]));
      ReadAllAppend(Split(lines[0]), Split(JoinLines(lines[1..])), TokenByte);
    }
  }

  lemma EmptyLineBytes()
    ensures HexToBytes("") == Success([])
  {
  }

  /** A block's lines give the command's bytes and then the pixel data,
      whatever the lines' texts, given what each line reads as. */
  lemma BlockOf<T>(command: T, white: T, tail: T, blank: T, read: T -> Result<seq<Byte>, ParseError>,
                   cb: seq<Byte>, wb: seq<Byte>, tb: seq<Byte>)
    requires read(command) == Success(cb) && read(blank) == Success([])
    requires read(white) == Success(wb) && read(tail) == Success(tb)
    ensures ReadAll([command] + [white, tail, white, tail, white, tail, white, tail] + [blank], read)
            == Success(cb + wb + tb + wb + tb + wb + tb + wb + tb)
  {
    var e: seq<T> := [blank];
    assert ReadAll(e, read) == Success([]) by {
      ReadAllCons(blank, [], read);
      assert [blank] + [] == e;
    }
    var c: seq<T> := [command];
    assert ReadAll(c, read) == Success(cb) by {
      assert c[1..] == [];
      assert cb + [] == cb;
    }
    var p: seq<T> := [white, tail];
    assert ReadAll(p, read) == Success(wb + tb) by {
      assert p[1..] == [tail];
      assert p[1..][1..] == [];
      assert tb + [] == tb;
    }
    ReadAllAppend(p, p, read);
    var q := p + p;
    ReadAllAppend(q, q, read);
    var r := q + q;
    ReadAllAppend(c, r, read);
    ReadAllAppend(c + r, e, read);
    assert [command] + [white, tail, white, tail, white, tail, white, tail] + [blank] == c + r + e;
    assert cb + ((wb + tb) + (wb + tb) + ((wb + tb) + (wb + tb))) + []
           == cb + wb + tb + wb + tb + wb + tb + wb + tb;
  }

  /** The payload's layout read line by line: opening, four blocks,
      closing, whatever the lines' texts. */
  lemma PayloadOf<T>(blank: T, header: T, geometry: T, footer: T, first: seq<T>, next: seq<T>,
                     read: T -> Result<seq<Byte>, ParseError>,
                     hb: seq<Byte>, gb: seq<Byte>, fb: seq<Byte>, firstBytes: seq<Byte>, nextBytes: seq<Byte>)
    requires read(blank) == Success([]) && read(header) == Success(hb) && read(geometry) == Success(gb)
    requires read(footer) == Success(fb)
    requires ReadAll(first, read) == Success(firstBytes) && ReadAll(next, read) == Success(nextBytes)
    ensures ReadAll([blank, header, geometry, blank] + first + next + next + next + [footer, blank, blank], read)
            == Success(hb + gb + firstBytes + nextBytes + nextBytes + nextBytes + fb)
  {
    var opening := [blank, header, geometry, blank];
    var closing := [footer, blank, blank];
    assert ReadAll(opening, read) == Success(hb + gb) by {
      assert ReadAll([blank], read) == Success([]) by {
        ReadAllCons(blank, [], read);
        assert [blank] + [] == [blank];
        assert read(blank).value + ReadAll([], read).value == [];
      }
      ReadAllCons(geometry, [blank], read);
      ReadAllCons(header, [geometry, blank], read);
      ReadAllCons(blank, [header, geometry, blank], read);
      assert [blank] + [header, geometry, blank] == opening;
      assert [] + (hb + (gb + [])) == hb + gb;
    }
    assert ReadAll(closing, read) == Success(fb) by {
      ReadAllCons(blank, [], read);
      assert [blank] + [] == [blank];
      ReadAllCons(blank, [blank], read);
      ReadAllCons(footer, [blank, blank], read);
      assert [footer] + [blank, blank] == closing;
      assert fb + ([] + ([] + [])) == fb;
    }
    ReadAllAppend(opening, first, read);
    ReadAllAppend(opening + first, next, read);
    ReadAllAppend(opening + first + next, next, read);
    ReadAllAppend(opening + first + next + next, next, read);
    ReadAllAppend(opening + first + next + next + next, closing, read);
  }

  lemma BlockBytesOk(first: bool)
    ensures LinesBytes(Block(first)) == Success(BlockBytes(first))
  {
    BlockLineBytes(first);
    WhiteLinesBytes();
    EmptyLineBytes();
    BlockOf(if first then FirstBlockLine else NextBlockLine, WhiteLine, WhiteTailLine, "", HexToBytes,
            CommandBytes(first), WhiteBytes, WhiteTailBytes);
  }

  /** The payload's lines, read one by one, give the packet's bytes. */
  lemma PayloadLinesBytes()
    ensures LinesBytes(PayloadLines()) == Success(PayloadBytes())
  {
    HeaderLineBytes();
    GeometryLineBytes();
    FooterLineBytes();
    BlockBytesOk(true);
    BlockBytesOk(false);
    EmptyLineBytes();
    PayloadOf("", HeaderLine, GeometryLine, FooterLine, Block(true), Block(false), HexToBytes,
              HeaderBytes, GeometryBytes, Display.Footer, BlockBytes(true), BlockBytes(false));
  }

  /** The payload text decodes to the 316 bytes of one display packet:
      the `84 00 00 60` header, four blocks, and the footer the host also
      ends its pixel packets with. */
  lemma PayloadDecodes()
    ensures HexToBytes(PayloadText()) == Success(PayloadBytes())
  {
    PayloadLinesBytes();
    HexToBytesLines(PayloadLines());
  }

  lemma PayloadShape()
    ensures |PayloadBytes()| == 316
    ensures PayloadBytes()[..8] == [0x84, 0, 0, 0x60, 0, 0, 0, 0]
    ensures PayloadBytes()[304..] == Display.Footer
  {
  }
}
