/** Conversion between UTF-8 byte strings, UTF-16 `std::wstring`s and
    Unicode scalar values (app/source/utils.cpp). Invalid input becomes
    U+FFFD. `wchar_t` is 32 bits wide on the target platform, so a wide
    unit is any 32-bit value; the decoder inspects only its bits 10..15
    to spot a surrogate, exactly as the C++ masks with 0xfc00. Where the
    C++ ORs a lead pattern with bits that cannot overlap it, the model
    adds. */
module TextEncoding {
  import opened IntMath

  /** A `char32_t` (and a 32-bit `wchar_t`). */
  type U32 = x: int | 0 <= x < 0x1_0000_0000

  const Replacement: U32 := 0xFFFD

  predicate IsScalarValue(c: int) { 0 <= c <= 0x10FFFF && !(0xD800 <= c <= 0xDFFF) }

  /** The guard that opens both encoders: surrogates and values beyond
      U+10FFFF are replaced (the C++ `c < 0` test is vacuous for the
      unsigned `char32_t`). */
  function Sanitize(c: U32): (r: U32)
    ensures IsScalarValue(r)
    ensures IsScalarValue(c) ==> r == c
    ensures !IsScalarValue(c) ==> r == Replacement
  {
    if (0xD800 <= c <= 0xDFFF) || c >= 0x110000 then Replacement else c
  }

  // ---------------------------------------------------------------------
  // UTF-8

  /** `(b & 0xc0) == 0x80`. */
  predicate IsContinuation(b: Byte) { b / 64 == 2 }

  /** The octet layout of section 3 of RFC 3629: the length is fixed by
      the range of the value, the first octet carries the length marker,
      every other octet is 10xxxxxx, and the x bits, concatenated, spell
      the value. */
  predicate Rfc3629Form(c: int, r: seq<Byte>)
  {
    if 0 <= c <= 0x7F then r == [c]
    else if 0x80 <= c <= 0x7FF then
      && |r| == 2 && 0xC0 <= r[0] <= 0xDF && IsContinuation(r[1])
      && (r[0] as int - 0xC0) * 64 + r[1] % 64 == c
    else if 0x800 <= c <= 0xFFFF then
      && |r| == 3 && 0xE0 <= r[0] <= 0xEF && IsContinuation(r[1]) && IsContinuation(r[2])
      && ((r[0] as int - 0xE0) * 64 + r[1] % 64) * 64 + r[2] % 64 == c
    else if 0x10000 <= c <= 0x10FFFF then
      && |r| == 4 && 0xF0 <= r[0] <= 0xF7
      && IsContinuation(r[1]) && IsContinuation(r[2]) && IsContinuation(r[3])
      && (((r[0] as int - 0xF0) * 64 + r[1] % 64) * 64 + r[2] % 64) * 64 + r[3] % 64 == c
    else false
  }

  /** `u32u8single`: append the UTF-8 form of one value. */
  function EncodeUtf8(c: U32): (r: seq<Byte>)
    ensures 1 <= |r| <= 4
    ensures !IsScalarValue(c) ==> r == [0xEF, 0xBF, 0xBD]
  {
    var c := Sanitize(c);
    if c <= 0x7F then [c]
    else if c <= 0x7FF then [0xC0 + c / 64, 0x80 + c % 64]
    else if c <= 0xFFFF then [0xE0 + c / 4096, 0x80 + (c / 64) % 64, 0x80 + c % 64]
    else [0xF0 + c / 0x40000, 0x80 + (c / 4096) % 64, 0x80 + (c / 64) % 64, 0x80 + c % 64]
  }

  /** Splitting a value into 6-bit groups: `hi` is everything above the
      lowest group. */
  lemma SixBits(c: nat)
    ensures c == (c / 64) * 64 + c % 64
    ensures c / 4096 == (c / 64) / 64 && c / 0x40000 == (c / 4096) / 64
    ensures (c / 64) == (c / 4096) * 64 + (c / 64) % 64
    ensures (c / 4096) == (c / 0x40000) * 64 + (c / 4096) % 64
  {
  }

  /** The encoder produces the layout of RFC 3629 for the value it was
      given, or for U+FFFD when that value is not a scalar value. */
  lemma EncodeUtf8FollowsRfc3629(c: U32)
    ensures Rfc3629Form(Sanitize(c), EncodeUtf8(c))
  {
    var v := Sanitize(c);
    SixBits(v);
  }

  /** Upper bound on the accumulator of `u8u32single` with `remaining`
      continuation bytes still to read, so the result stays below 2^21. */
  function AccBound(remaining: nat): nat
  {
    if remaining == 0 then 0x200000
    else if remaining == 1 then 0x8000
    else if remaining == 2 then 0x200
    else 8
  }

  /** The continuation loop of `u8u32single`, starting at `pos`. Returns
      the value and the number of bytes consumed in total. The byte that
      ends the loop with an error is consumed too. */
  function Continuations(s: seq<Byte>, pos: nat, remaining: nat, acc: nat): (r: (U32, nat))
    requires 1 <= pos <= |s|
    requires remaining <= 3 && acc < AccBound(remaining)
    ensures pos <= r.1 <= |s| && r.1 <= pos + remaining
    decreases remaining
  {
    if remaining == 0 then
      (if 0xD800 <= acc <= 0xDFFF then Replacement else acc, pos)
    else if pos == |s| then (Replacement, pos)
    else if !IsContinuation(s[pos]) then (Replacement, pos + 1)
    else Continuations(s, pos + 1, remaining - 1, acc * 64 + s[pos] % 64)
  }

  /** `u8u32single` on a non-empty view: the decoded value and how many
      bytes were removed from the front of the view. */
  function DecodeUtf8Step(s: seq<Byte>): (r: (U32, nat))
    requires |s| > 0
    ensures 1 <= r.1 <= |s| && r.1 <= 4
  {
    var c1 := s[0];
    if IsContinuation(c1) then (Replacement, 1)
    else if c1 < 0x80 then (c1, 1)
    else if c1 / 32 == 6 then Continuations(s, 1, 1, c1 % 32)
    else if c1 / 16 == 14 then Continuations(s, 1, 2, c1 % 16)
    else if c1 / 8 == 30 then Continuations(s, 1, 3, c1 % 8)
    else (Replacement, 1)
  }

  /** The length of the sequence a lead byte announces: 2, 3 or 4. */
  function LeadLength(c1: Byte): (n: nat)
    requires 0xC0 <= c1 <= 0xF7
    ensures 2 <= n <= 4
    ensures n == 2 <==> c1 <= 0xDF
    ensures n == 4 <==> c1 >= 0xF0
  {
    if c1 <= 0xDF then 2 else if c1 <= 0xEF then 3 else 4
  }

  /** Every byte from `from` up to, not including, `stop` is present and is
      a continuation byte. */
  predicate ContinuationRun(s: seq<Byte>, from: nat, stop: nat)
  {
    forall i :: from <= i < stop ==> i < |s| && IsContinuation(s[i])
  }

  /** The continuation loop stops with the replacement character at the
      first byte that is missing or is not a continuation byte, having
      consumed everything up to and including a bad byte. */
  lemma {:induction false} ContinuationsStop(s: seq<Byte>, pos: nat, remaining: nat, acc: nat, stop: nat)
    requires 1 <= pos <= |s|
    requires remaining <= 3 && acc < AccBound(remaining)
    requires pos <= stop < pos + remaining
    requires ContinuationRun(s, pos, stop)
    requires stop >= |s| || !IsContinuation(s[stop])
    ensures Continuations(s, pos, remaining, acc) == (Replacement, if stop >= |s| then |s| else stop + 1)
    decreases remaining
  {
    if pos < |s| && IsContinuation(s[pos]) {
      assert pos < stop;
      forall i | pos + 1 <= i < stop
        ensures i < |s| && IsContinuation(s[i])
      {
        assert pos <= i < stop;
      }
      ContinuationsStop(s, pos + 1, remaining - 1, acc * 64 + s[pos] % 64, stop);
    }
  }

  /** The error cases of one UTF-8 decoding step: a stray continuation
      byte or an invalid lead byte costs one byte; for a lead byte of a 2-,
      3- or 4-byte sequence, the first byte that is missing or is not a
      continuation byte ends the step with the replacement character; a
      3-byte sequence that decodes into the surrogate range is replaced
      too. */
  lemma DecodeUtf8StepErrors(s: seq<Byte>)
    requires |s| > 0
    ensures IsContinuation(s[0]) ==> DecodeUtf8Step(s) == (Replacement, 1)
    ensures s[0] >= 0xF8 ==> DecodeUtf8Step(s) == (Replacement, 1)
    ensures 0xC0 <= s[0] <= 0xF7 ==>
              forall stop :: 1 <= stop < LeadLength(s[0])
                             && ContinuationRun(s, 1, stop)
                             && (stop >= |s| || !IsContinuation(s[stop]))
                             ==> DecodeUtf8Step(s) == (Replacement, if stop >= |s| then |s| else stop + 1)
    ensures 0xE0 <= s[0] <= 0xEF && |s| >= 3 && IsContinuation(s[1]) && IsContinuation(s[2])
            && 0xD800 <= ((s[0] as int - 0xE0) * 64 + s[1] % 64) * 64 + s[2] % 64 <= 0xDFFF
            ==> DecodeUtf8Step(s) == (Replacement, 3)
  {
    if 0xC0 <= s[0] <= 0xF7 {
      var c1 := s[0];
      forall stop | 1 <= stop < LeadLength(c1)
                    && ContinuationRun(s, 1, stop)
                    && (stop >= |s| || !IsContinuation(s[stop]))
        ensures DecodeUtf8Step(s) == (Replacement, if stop >= |s| then |s| else stop + 1)
      {
        if c1 <= 0xDF {
          ContinuationsStop(s, 1, 1, c1 % 32, stop);
        } else if c1 <= 0xEF {
          ContinuationsStop(s, 1, 2, c1 % 16, stop);
        } else {
          ContinuationsStop(s, 1, 3, c1 % 8, stop);
        }
      }
    }
  }

  /** Decoding starts over at the next value of an encoded sequence. */
  lemma DecodeEncodedUtf8(c: U32, rest: seq<Byte>)
    requires IsScalarValue(c)
    ensures var e := EncodeUtf8(c);
      |e + rest| > 0 && DecodeUtf8Step(e + rest) == (c, |e|)
  {
    if c <= 0x7F {
    } else if c <= 0x7FF {
      assert EncodeUtf8(c) == [0xC0 + c / 64, 0x80 + c % 64];
      DecodeTwo(c, rest);
    } else if c <= 0xFFFF {
      assert EncodeUtf8(c) == [0xE0 + c / 4096, 0x80 + (c / 64) % 64, 0x80 + c % 64];
      DecodeThree(c, rest);
    } else {
      assert EncodeUtf8(c) == [0xF0 + c / 0x40000, 0x80 + (c / 4096) % 64, 0x80 + (c / 64) % 64, 0x80 + c % 64];
      DecodeFour(c, rest);
    }
  }

  lemma DecodeTwo(c: U32, rest: seq<Byte>)
    requires 0x80 <= c <= 0x7FF
    ensures DecodeUtf8Step([0xC0 + c / 64, 0x80 + c % 64] + rest) == (c, 2)
  {
    var s := [0xC0 + c / 64, 0x80 + c % 64] + rest;
    SixBits(c);
    assert s[0] / 32 == 6 && s[0] % 32 == c / 64;
    assert Continuations(s, 2, 0, c) == (c, 2);
    assert Continuations(s, 1, 1, c / 64) == Continuations(s, 2, 0, c);
  }

  lemma DecodeThree(c: U32, rest: seq<Byte>)
    requires 0x800 <= c <= 0xFFFF && !(0xD800 <= c <= 0xDFFF)
    ensures DecodeUtf8Step([0xE0 + c / 4096, 0x80 + (c / 64) % 64, 0x80 + c % 64] + rest) == (c, 3)
  {
    var s := [0xE0 + c / 4096, 0x80 + (c / 64) % 64, 0x80 + c % 64] + rest;
    SixBits(c);
    assert s[0] / 16 == 14 && s[0] % 16 == c / 4096;
    assert Continuations(s, 3, 0, c) == (c, 3);
    assert Continuations(s, 2, 1, c / 64) == Continuations(s, 3, 0, c);
    assert Continuations(s, 1, 2, c / 4096) == Continuations(s, 2, 1, c / 64);
  }

  lemma DecodeFour(c: U32, rest: seq<Byte>)
    requires 0x10000 <= c <= 0x10FFFF
    ensures DecodeUtf8Step([0xF0 + c / 0x40000, 0x80 + (c / 4096) % 64, 0x80 + (c / 64) % 64, 0x80 + c % 64] + rest) == (c, 4)
  {
    var s := [0xF0 + c / 0x40000, 0x80 + (c / 4096) % 64, 0x80 + (c / 64) % 64, 0x80 + c % 64] + rest;
    SixBits(c);
    assert s[0] / 8 == 30 && s[0] % 8 == c / 0x40000;
    assert Continuations(s, 4, 0, c) == (c, 4);
    assert Continuations(s, 3, 1, c / 64) == Continuations(s, 4, 0, c);
    assert Continuations(s, 2, 2, c / 4096) == Continuations(s, 3, 1, c / 64);
    assert Continuations(s, 1, 3, c / 0x40000) == Continuations(s, 2, 2, c / 4096);
  }

  /** Overlong forms and values past U+10FFFF are not rejected, which is
      why only encode-then-decode round-trips. */
  lemma Utf8DecoderIsLenient()
    ensures DecodeUtf8Step([0xC0, 0x80]) == (0, 2)
    ensures DecodeUtf8Step([0xF4, 0x90, 0x80, 0x80]) == (0x110000, 4)
  {
    assert Continuations([0xC0, 0x80], 2, 0, 0) == (0, 2);
    assert Continuations([0xF4, 0x90, 0x80, 0x80], 4, 0, 0x110000) == (0x110000, 4);
  }

  /** Whole-string decoding: repeat `u8u32single` until the view is empty. */
  function DecodeUtf8(s: seq<Byte>): (r: seq<U32>)
    ensures |r| <= |s|
    decreases |s|
  {
    if |s| == 0 then []
    else
      var step := DecodeUtf8Step(s);
      [step.0] + DecodeUtf8(s[step.1..])
  }

  function EncodeUtf8All(cs: seq<U32>): (r: seq<Byte>)
    ensures |r| <= 4 * |cs|
  {
    if |cs| == 0 then [] else EncodeUtf8(cs[0]) + EncodeUtf8All(cs[1..])
  }

  predicate AllScalar(cs: seq<U32>) { forall i :: 0 <= i < |cs| ==> IsScalarValue(cs[i]) }

  /** Decoding the UTF-8 encoding of scalar values gives them back. */
  lemma {:induction false} Utf8RoundTrip(cs: seq<U32>)
    requires AllScalar(cs)
    ensures DecodeUtf8(EncodeUtf8All(cs)) == cs
  {
    if |cs| > 0 {
      var e := EncodeUtf8(cs[0]);
      var rest := EncodeUtf8All(cs[1..]);
      DecodeEncodedUtf8(cs[0], rest);
      assert (e + rest)[|e|..] == rest;
      Utf8RoundTrip(cs[1..]);
      assert [cs[0]] + cs[1..] == cs;
    }
  }

  // ---------------------------------------------------------------------
  // UTF-16

  /** `(u & 0xfc00) == 0xd800` and `== 0xdc00` for a 32-bit unit. */
  predicate IsLeadUnit(u: U32) { (u / 1024) % 64 == 0x36 }
  predicate IsTrailUnit(u: U32) { (u / 1024) % 64 == 0x37 }

  /** `u32wsingle`: one unit up to U+FFFF, otherwise the surrogate pair of
      section 2.1 of RFC 2781. */
  function EncodeUtf16(c: U32): (r: seq<U32>)
    ensures Sanitize(c) <= 0xFFFF ==> r == [Sanitize(c)]
    ensures Sanitize(c) > 0xFFFF ==>
      && |r| == 2 && 0xD800 <= r[0] <= 0xDBFF && 0xDC00 <= r[1] <= 0xDFFF
      && (r[0] - 0xD800) * 1024 + (r[1] - 0xDC00) + 0x10000 == Sanitize(c)
  {
    var c := Sanitize(c);
    if c <= 0xFFFF then [c]
    else
      var v := c - 0x10000;
      [0xD800 + v / 1024, 0xDC00 + v % 1024]
  }

  /** `wu32single` on a non-empty view: the decoded value and how many
      units were removed from the front of the view (the unit after a
      lead surrogate is removed even when it is not a trail). */
  function DecodeUtf16Step(w: seq<U32>): (r: (U32, nat))
    requires |w| > 0
    ensures 1 <= r.1 <= |w| && r.1 <= 2
  {
    var c1 := w[0];
    if IsLeadUnit(c1) then
      if |w| == 1 then (Replacement, 1)
      else
        var c2 := w[1];
        if c2 >= 0x10000 then (Replacement, 2)
        else if !IsTrailUnit(c2) then (Replacement, 2)
        else ((c1 % 1024) * 1024 + c2 % 1024 + 0x10000, 2)
    else if IsTrailUnit(c1) then (Replacement, 1)
    else (c1, 1)
  }

  /** For 16-bit units, one decoding step follows section 2.2 of RFC
      2781: a pair combines, a stray or unmatched surrogate gives U+FFFD,
      and every result is a scalar value. */
  lemma DecodeUtf16StepSpec(w: seq<U32>)
    requires |w| > 0 && w[0] <= 0xFFFF
    ensures 0xDC00 <= w[0] <= 0xDFFF ==> DecodeUtf16Step(w) == (Replacement, 1)
    ensures 0xD800 <= w[0] <= 0xDBFF && |w| == 1 ==> DecodeUtf16Step(w) == (Replacement, 1)
    ensures 0xD800 <= w[0] <= 0xDBFF && |w| > 1 && !(0xDC00 <= w[1] <= 0xDFFF)
            ==> DecodeUtf16Step(w) == (Replacement, 2)
    ensures 0xD800 <= w[0] <= 0xDBFF && |w| > 1 && 0xDC00 <= w[1] <= 0xDFFF
            ==> DecodeUtf16Step(w) == ((w[0] - 0xD800) * 1024 + (w[1] - 0xDC00) + 0x10000, 2)
    ensures !(0xD800 <= w[0] <= 0xDFFF) ==> DecodeUtf16Step(w) == (w[0], 1)
    ensures (|w| > 1 && w[1] <= 0xFFFF) || |w| == 1 ==> IsScalarValue(DecodeUtf16Step(w).0)
  {
  }

  lemma DecodeEncodedUtf16(c: U32, rest: seq<U32>)
    requires IsScalarValue(c)
    ensures var e := EncodeUtf16(c);
      |e + rest| > 0 && DecodeUtf16Step(e + rest) == (c, |e|)
  {
    var e := EncodeUtf16(c);
    if c > 0xFFFF {
      var v := c - 0x10000;
      assert (e + rest)[0] == 0xD800 + v / 1024 && (e + rest)[1] == 0xDC00 + v % 1024;
    }
  }

  function DecodeUtf16(w: seq<U32>): (r: seq<U32>)
    ensures |r| <= |w|
    decreases |w|
  {
    if |w| == 0 then []
    else
      var step := DecodeUtf16Step(w);
      [step.0] + DecodeUtf16(w[step.1..])
  }

  function EncodeUtf16All(cs: seq<U32>): (r: seq<U32>)
    ensures |r| <= 2 * |cs|
  {
    if |cs| == 0 then [] else EncodeUtf16(cs[0]) + EncodeUtf16All(cs[1..])
  }

  /** Decoding the UTF-16 encoding of scalar values gives them back. */
  lemma {:induction false} Utf16RoundTrip(cs: seq<U32>)
    requires AllScalar(cs)
    ensures DecodeUtf16(EncodeUtf16All(cs)) == cs
  {
    if |cs| > 0 {
      var e := EncodeUtf16(cs[0]);
      var rest := EncodeUtf16All(cs[1..]);
      DecodeEncodedUtf16(cs[0], rest);
      assert (e + rest)[|e|..] == rest;
      Utf16RoundTrip(cs[1..]);
      assert [cs[0]] + cs[1..] == cs;
    }
  }

  // ---------------------------------------------------------------------
  // Whole-string conversions (utils::wu8 and utils::u8w)

  /** Converting a non-empty view: the first decoded value, then the rest. */
  lemma Utf16ToUtf8Step(view: seq<U32>)
    requires |view| > 0
    ensures var step := DecodeUtf16Step(view);
      EncodeUtf8All(DecodeUtf16(view)) == EncodeUtf8(step.0) + EncodeUtf8All(DecodeUtf16(view[step.1..]))
  {
    var step := DecodeUtf16Step(view);
    var ds := DecodeUtf16(view);
    assert ds == [step.0] + DecodeUtf16(view[step.1..]);
    assert ds[0] == step.0 && ds[1..] == DecodeUtf16(view[step.1..]);
  }

  lemma Utf8ToUtf16Step(view: seq<Byte>)
    requires |view| > 0
    ensures var step := DecodeUtf8Step(view);
      EncodeUtf16All(DecodeUtf8(view)) == EncodeUtf16(step.0) + EncodeUtf16All(DecodeUtf8(view[step.1..]))
  {
    var step := DecodeUtf8Step(view);
    var ds := DecodeUtf8(view);
    assert ds == [step.0] + DecodeUtf8(view[step.1..]);
    assert ds[0] == step.0 && ds[1..] == DecodeUtf8(view[step.1..]);
  }

  /** `utils::wu8`: each iteration removes at least one unit from the view,
      so the loop ends on every input. */
  method Wu8(utf16: seq<U32>) returns (result: seq<Byte>)
    ensures result == EncodeUtf8All(DecodeUtf16(utf16))
  {
    result := [];
    var view := utf16;
    while |view| > 0
      invariant result + EncodeUtf8All(DecodeUtf16(view)) == EncodeUtf8All(DecodeUtf16(utf16))
      decreases |view|
    {
      var step := DecodeUtf16Step(view);
      Utf16ToUtf8Step(view);
      result := result + EncodeUtf8(step.0);
      view := view[step.1..];
    }
  }

  /** `utils::u8w`: each iteration removes at least one byte from the view. */
  method U8w(utf8: seq<Byte>) returns (result: seq<U32>)
    ensures result == EncodeUtf16All(DecodeUtf8(utf8))
  {
    result := [];
    var view := utf8;
    while |view| > 0
      invariant result + EncodeUtf16All(DecodeUtf8(view)) == EncodeUtf16All(DecodeUtf8(utf8))
      decreases |view|
    {
      var step := DecodeUtf8Step(view);
      Utf8ToUtf16Step(view);
      result := result + EncodeUtf16(step.0);
      view := view[step.1..];
    }
  }

  /** Converting well-formed UTF-16 to UTF-8 and back restores it. */
  lemma TranscodeRoundTrip(cs: seq<U32>)
    requires AllScalar(cs)
    ensures EncodeUtf16All(DecodeUtf8(EncodeUtf8All(DecodeUtf16(EncodeUtf16All(cs)))))
            == EncodeUtf16All(cs)
  {
    Utf16RoundTrip(cs);
    Utf8RoundTrip(cs);
  }
}
