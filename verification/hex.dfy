/**
 * Bytes and their hexadecimal text form: Python's `bytes.hex()` (always
 * lower-case, two digits per byte) and `bytes.fromhex()` (either case).
 */
module HexCodec {
  import opened Wrappers

  newtype byte = x: int | 0 <= x < 256

  const LowerDigits: string := "0123456789abcdef"

  predicate IsLowerHexDigit(c: char) {
    ('0' <= c <= '9') || ('a' <= c <= 'f')
  }

  predicate IsHexDigit(c: char) {
    IsLowerHexDigit(c) || ('A' <= c <= 'F')
  }

  /** Every character of `s` is a lower-case hexadecimal digit. */
  predicate IsLowerHex(s: string) {
    forall i :: 0 <= i < |s| ==> IsLowerHexDigit(s[i])
  }

  /** The value of one hexadecimal digit of either case. */
  function DigitValue(c: char): (v: Option<nat>)
    ensures v.Some? <==> IsHexDigit(c)
    ensures v.Some? ==> v.value < 16
  {
    if '0' <= c <= '9' then Some(c as int - '0' as int)
    else if 'a' <= c <= 'f' then Some(c as int - 'a' as int + 10)
    else if 'A' <= c <= 'F' then Some(c as int - 'A' as int + 10)
    else None
  }

  /** The lower-case digit for a nibble; reading it back gives the nibble. */
  function Digit(n: nat): (c: char)
    requires n < 16
    ensures IsLowerHexDigit(c)
    ensures DigitValue(c) == Some(n)
  {
    LowerDigits[n]
  }

  /** Two lower-case digits, high nibble first. */
  function ByteHex(b: byte): string {
    [Digit(b as nat / 16), Digit(b as nat % 16)]
  }

  /** `bytes.hex()`: two lower-case digits per byte, in order. */
  function Hex(bs: seq<byte>): (s: string)
    ensures |s| == 2 * |bs|
    ensures IsLowerHex(s)
  {
    if bs == [] then [] else ByteHex(bs[0]) + Hex(bs[1..])
  }

  /**
   * `bytes.fromhex()` on text without whitespace: `None` (Python's
   * ValueError) for an odd length or a non-hexadecimal character.
   */
  function FromHex(s: string): (r: Option<seq<byte>>)
    ensures r.Some? ==> 2 * |r.value| == |s|
  {
    if |s| == 0 then Some([])
    else if |s| == 1 then None
    else
      var hi :- DigitValue(s[0]);
      var lo :- DigitValue(s[1]);
      var rest :- FromHex(s[2..]);
      Some([(hi * 16 + lo) as byte] + rest)
  }

  /** `bytes.fromhex` accepts exactly the even-length strings of hexadecimal digits. */
  lemma {:induction false} FromHexDefined(s: string)
    ensures FromHex(s).Some? <==> |s| % 2 == 0 && forall i :: 0 <= i < |s| ==> IsHexDigit(s[i])
    decreases |s|
  {
    if |s| >= 2 {
      FromHexDefined(s[2..]);
      if FromHex(s).Some? {
        forall i | 0 <= i < |s|
          ensures IsHexDigit(s[i])
        {
          if i >= 2 {
            assert s[i] == s[2..][i - 2];
          }
        }
      } else if forall i :: 0 <= i < |s| ==> IsHexDigit(s[i]) {
        assert forall i :: 0 <= i < |s[2..]| ==> s[2..][i] == s[i + 2];
      }
    }
  }

  /** Decoding the hex text of any bytes gives those bytes back. */
  lemma {:induction false} FromHexOfHex(bs: seq<byte>)
    ensures FromHex(Hex(bs)) == Some(bs)
  {
    if bs != [] {
      var s := Hex(bs);
      assert s == ByteHex(bs[0]) + Hex(bs[1..]);
      assert s[2..] == Hex(bs[1..]);
      FromHexOfHex(bs[1..]);
      var b := bs[0] as nat;
      assert (b / 16) * 16 + b % 16 == b;
      assert bs == [bs[0]] + bs[1..];
    }
  }

  /** A lower-case digit pair is the hex of the byte it reads as. */
  lemma ByteHexOfDigits(c0: char, c1: char)
    requires IsLowerHexDigit(c0) && IsLowerHexDigit(c1)
    ensures ByteHex((DigitValue(c0).value * 16 + DigitValue(c1).value) as byte) == [c0, c1]
  {
    var hi, lo := DigitValue(c0).value, DigitValue(c1).value;
    var b := hi * 16 + lo;
    assert b / 16 == hi && b % 16 == lo;
  }

  /** Conversely, lower-case hex text is the hex of the bytes it decodes to. */
  lemma {:induction false} HexOfFromHex(s: string)
    requires IsLowerHex(s)
    requires FromHex(s).Some?
    ensures Hex(FromHex(s).value) == s
    decreases |s|
  {
    if |s| >= 2 {
      var tail := s[2..];
      assert IsLowerHex(tail) by {
        assert forall i :: 0 <= i < |tail| ==> tail[i] == s[i + 2];
      }
      HexOfFromHex(tail);
      ByteHexOfDigits(s[0], s[1]);
      var b := (DigitValue(s[0]).value * 16 + DigitValue(s[1]).value) as byte;
      var rest := FromHex(tail).value;
      assert FromHex(s).value == [b] + rest;
      assert Hex([b] + rest) == ByteHex(b) + Hex(rest) by {
        assert ([b] + rest)[0] == b && ([b] + rest)[1..] == rest;
      }
      assert s == [s[0], s[1]] + tail;
    }
  }

  /** Hex text determines its bytes: `bytes.hex` is injective. */
  lemma HexInjective(a: seq<byte>, b: seq<byte>)
    ensures Hex(a) == Hex(b) <==> a == b
  {
    if Hex(a) == Hex(b) {
      FromHexOfHex(a);
      FromHexOfHex(b);
    }
  }
}
