/**
 * Python's `str.encode("utf-8")` with the default strict error handler.
 * A Python string is a sequence of code points that may contain lone
 * surrogates; those cannot be encoded and the call raises
 * UnicodeEncodeError at the first of them.
 */
module Utf8 {
  import opened Wrappers
  import opened HexCodec

  type CodePoint = x: int | 0 <= x < 0x11_0000

  predicate IsSurrogate(c: CodePoint) {
    0xD800 <= c <= 0xDFFF
  }

  predicate IsContinuation(b: byte) {
    0x80 <= b < 0xC0
  }

  /** The shortest UTF-8 form of one encodable code point. */
  function EncodeChar(c: CodePoint): (bs: seq<byte>)
    requires !IsSurrogate(c)
    ensures 1 <= |bs| <= 4
    ensures |bs| == 1 <==> c < 0x80
  {
    if c < 0x80 then [c as byte]
    else if c < 0x800 then [(0xC0 + c / 64) as byte, (0x80 + c % 64) as byte]
    else if c < 0x1_0000 then
      [(0xE0 + c / 4096) as byte, (0x80 + (c / 64) % 64) as byte, (0x80 + c % 64) as byte]
    else
      [(0xF0 + c / 262144) as byte, (0x80 + (c / 4096) % 64) as byte,
       (0x80 + (c / 64) % 64) as byte, (0x80 + c % 64) as byte]
  }

  /**
   * `text.encode("utf-8")`: the concatenated encodings, or the index of the
   * first lone surrogate, where Python raises UnicodeEncodeError.
   */
  function Encode(text: seq<CodePoint>): (r: Result<seq<byte>, nat>)
    ensures r.Failure? <==> exists i :: 0 <= i < |text| && IsSurrogate(text[i])
    ensures r.Failure? ==> r.error < |text| && IsSurrogate(text[r.error])
    ensures r.Failure? ==> forall j :: 0 <= j < r.error ==> !IsSurrogate(text[j])
    ensures r.Success? ==> |text| <= |r.value| <= 4 * |text|
  {
    if text == [] then Success([])
    else if IsSurrogate(text[0]) then Failure(0)
    else
      match Encode(text[1..])
      case Success(rest) => Success(EncodeChar(text[0]) + rest)
      case Failure(i) => Failure(i + 1)
  }

  /**
   * Strict decoding of the first character of `bs`: the code point and the
   * number of bytes it occupies. Overlong forms, surrogates and values past
   * U+10FFFF are rejected.
   */
  function DecodeChar(bs: seq<byte>): (r: Option<(CodePoint, nat)>)
    ensures r.Some? ==> 1 <= r.value.1 <= |bs| && r.value.1 <= 4
    ensures r.Some? ==> !IsSurrogate(r.value.0)
  {
    if |bs| == 0 then None
    else
      var b0 := bs[0] as int;
      if b0 < 0x80 then Some((b0, 1))
      else if 0xC2 <= b0 < 0xE0 && |bs| >= 2 && IsContinuation(bs[1]) then
        Some(((b0 - 0xC0) * 64 + (bs[1] as int - 0x80), 2))
      else if 0xE0 <= b0 < 0xF0 && |bs| >= 3 && IsContinuation(bs[1]) && IsContinuation(bs[2]) then
        var c := (b0 - 0xE0) * 4096 + (bs[1] as int - 0x80) * 64 + (bs[2] as int - 0x80);
        if 0x800 <= c && !(0xD800 <= c <= 0xDFFF) then Some((c, 3)) else None
      else if 0xF0 <= b0 < 0xF5 && |bs| >= 4 && IsContinuation(bs[1]) && IsContinuation(bs[2])
              && IsContinuation(bs[3]) then
        var c := (b0 - 0xF0) * 262144 + (bs[1] as int - 0x80) * 4096
                 + (bs[2] as int - 0x80) * 64 + (bs[3] as int - 0x80);
        if 0x1_0000 <= c < 0x11_0000 then Some((c, 4)) else None
      else None
  }

  /** Strict UTF-8 decoding of a whole byte string, the reference inverse of `Encode`. */
  function Decode(bs: seq<byte>): (r: Option<seq<CodePoint>>)
    ensures r.Some? ==> forall i :: 0 <= i < |r.value| ==> !IsSurrogate(r.value[i])
    decreases |bs|
  {
    if bs == [] then Some([])
    else
      var (c, n) :- DecodeChar(bs);
      var rest :- Decode(bs[n..]);
      Some([c] + rest)
  }

  lemma DecodeEncodeChar3(c: CodePoint, rest: seq<byte>)
    requires 0x800 <= c < 0x1_0000 && !IsSurrogate(c)
    ensures DecodeChar(EncodeChar(c) + rest) == Some((c, 3))
  {
    var q := c / 64;
    assert c == q * 64 + c % 64;
    assert q == (c / 4096) * 64 + q % 64;
  }

  lemma DecodeEncodeChar4(c: CodePoint, rest: seq<byte>)
    requires 0x1_0000 <= c
    ensures DecodeChar(EncodeChar(c) + rest) == Some((c, 4))
  {
    var q := c / 64;
    var p := c / 4096;
    assert c == q * 64 + c % 64;
    assert q == p * 64 + q % 64;
    assert q / 64 == p;
    assert p == (c / 262144) * 64 + p % 64;
  }

  /** The first character decoded from an encoding is the encoded one. */
  lemma DecodeEncodeChar(c: CodePoint, rest: seq<byte>)
    requires !IsSurrogate(c)
    ensures DecodeChar(EncodeChar(c) + rest) == Some((c, |EncodeChar(c)|))
  {
    if 0x800 <= c < 0x1_0000 {
      DecodeEncodeChar3(c, rest);
    } else if 0x1_0000 <= c {
      DecodeEncodeChar4(c, rest);
    }
  }

  /** Decoding undoes encoding for every encodable text. */
  lemma {:induction false} DecodeEncode(text: seq<CodePoint>)
    requires Encode(text).Success?
    ensures Decode(Encode(text).value) == Some(text)
  {
    if text != [] {
      var head := EncodeChar(text[0]);
      var rest := Encode(text[1..]).value;
      DecodeEncodeChar(text[0], rest);
      assert (head + rest)[|head|..] == rest;
      DecodeEncode(text[1..]);
      assert text == [text[0]] + text[1..];
    }
  }

  /** Distinct encodable texts have distinct UTF-8 bytes. */
  lemma EncodeInjective(a: seq<CodePoint>, b: seq<CodePoint>)
    requires Encode(a).Success? && Encode(b).Success?
    ensures Encode(a) == Encode(b) <==> a == b
  {
    if Encode(a) == Encode(b) {
      DecodeEncode(a);
      DecodeEncode(b);
    }
  }
}
