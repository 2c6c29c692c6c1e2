/**
 * The evidence payload: the version tag `NOTARY_V1|` followed by the 32-byte
 * SHA-256 digest of the document's UTF-8 bytes, carried in the transaction's
 * data field as `0x` plus its lower-case hex.
 */
module Payload {
  import opened Wrappers
  import opened HexCodec
  import Utf8

  /** A SHA-256 digest: exactly 32 bytes. */
  type Digest = s: seq<byte> | |s| == 32 witness seq(32, _ => 0 as byte)

  /** The hash function is a parameter; only its output length is relied on. */
  type Hasher = seq<byte> -> Digest

  /** Bytes of an ASCII string, as a Python `b"..."` literal. */
  function Ascii(s: string): (bs: seq<byte>)
    requires forall i :: 0 <= i < |s| ==> s[i] < 128 as char
    ensures |bs| == |s|
    ensures forall i :: 0 <= i < |s| ==> bs[i] as int == s[i] as int
  {
    seq(|s|, i requires 0 <= i < |s| => s[i] as int as byte)
  }

  const TagText: string := "NOTARY_V1|"

  /** The format version marker that opens every payload. */
  const Tag: seq<byte> := Ascii(TagText)

  /** The envelope: tag, then digest. */
  function EncodePayload(d: Digest): (p: seq<byte>)
    ensures |p| == |Tag| + 32 == 42
    ensures p[..|Tag|] == Tag && p[|Tag|..] == d
  {
    Tag + d
  }

  /** Reading an envelope back: it must be 42 bytes opening with the tag. */
  function DecodePayload(p: seq<byte>): (r: Option<Digest>)
    ensures r.Some? ==> |p| == 42 && p[..|Tag|] == Tag
  {
    if |p| == |Tag| + 32 && p[..|Tag|] == Tag then Some(p[|Tag|..]) else None
  }

  /** An envelope decodes to a digest exactly when it is that digest's encoding. */
  lemma PayloadRoundTrip(p: seq<byte>, d: Digest)
    ensures DecodePayload(p) == Some(d) <==> p == EncodePayload(d)
  {
    if p == EncodePayload(d) {
      assert p[..|Tag|] == Tag && p[|Tag|..] == d;
    }
    if DecodePayload(p) == Some(d) {
      assert p == p[..|Tag|] + p[|Tag|..];
    }
  }

  /** `bytes.fromhex(h.hexdigest())`: the detour through hex text returns the digest itself. */
  function DigestViaHexdigest(d: Digest): (r: seq<byte>)
    ensures r == d
  {
    FromHexOfHex(d);
    FromHex(Hex(d)).value
  }

  /** The data field for a digest: `0x` and the lower-case hex of the envelope. */
  function DataHex(d: Digest): (s: string)
    ensures |s| == 2 + 2 * 42 == 86
    ensures s[..2] == "0x"
    ensures IsLowerHex(s[2..])
  {
    "0x" + Hex(EncodePayload(d))
  }

  /**
   * Lines 26 to 31 of the notary skill: encode the text, hash it, take the
   * hex digest back to bytes, prefix the tag and hex the result. Fails with
   * the position of the first lone surrogate, where `encode` raises.
   */
  function EvidenceHex(text: seq<Utf8.CodePoint>, sha256: Hasher): (r: Result<string, nat>)
    ensures r.Success? <==> Utf8.Encode(text).Success?
    ensures r.Failure? ==> r == Failure(Utf8.Encode(text).error)
    ensures r.Success? ==> r.value == DataHex(sha256(Utf8.Encode(text).value))
  {
    var bytes :- Utf8.Encode(text);
    var payload := Tag + DigestViaHexdigest(sha256(bytes));
    Success("0x" + Hex(payload))
  }

  /** How an independent verifier reads a data field back: strip `0x`, un-hex, strip the tag. */
  function DecodeDataHex(s: string): (r: Option<Digest>)
  {
    if |s| >= 2 && s[..2] == "0x" then
      var p :- FromHex(s[2..]);
      DecodePayload(p)
    else None
  }

  /** Round trip: the digest is recovered exactly from the data field. */
  lemma DataHexRoundTrip(d: Digest)
    ensures DecodeDataHex(DataHex(d)) == Some(d)
  {
    var s := DataHex(d);
    assert s[2..] == Hex(EncodePayload(d));
    FromHexOfHex(EncodePayload(d));
    PayloadRoundTrip(EncodePayload(d), d);
  }

  /**
   * Conversely, a data field in lower-case hex that decodes to `d` is exactly
   * the one the notary writes for `d`.
   */
  lemma DataHexCanonical(s: string, d: Digest)
    requires |s| >= 2 && IsLowerHex(s[2..])
    ensures DecodeDataHex(s) == Some(d) <==> s == DataHex(d)
  {
    if s == DataHex(d) {
      DataHexRoundTrip(d);
    }
    if DecodeDataHex(s) == Some(d) {
      var p := FromHex(s[2..]).value;
      HexOfFromHex(s[2..]);
      PayloadRoundTrip(p, d);
      assert s == s[..2] + s[2..];
    }
  }

  /**
   * Two texts yield the same data field exactly when their UTF-8 bytes have
   * the same digest; in particular identical texts yield identical fields.
   */
  lemma EvidenceHexDeterminedByDigest(t1: seq<Utf8.CodePoint>, t2: seq<Utf8.CodePoint>, sha256: Hasher)
    requires Utf8.Encode(t1).Success? && Utf8.Encode(t2).Success?
    ensures EvidenceHex(t1, sha256) == EvidenceHex(t2, sha256)
        <==> sha256(Utf8.Encode(t1).value) == sha256(Utf8.Encode(t2).value)
  {
    var d1, d2 := sha256(Utf8.Encode(t1).value), sha256(Utf8.Encode(t2).value);
    if DataHex(d1) == DataHex(d2) {
      DataHexRoundTrip(d1);
      DataHexRoundTrip(d2);
    }
  }

  /** The field written for a text carries the digest of that text's UTF-8 bytes. */
  lemma EvidenceHexRecoversDigest(text: seq<Utf8.CodePoint>, sha256: Hasher)
    requires Utf8.Encode(text).Success?
    ensures DecodeDataHex(EvidenceHex(text, sha256).value) == Some(sha256(Utf8.Encode(text).value))
  {
    DataHexRoundTrip(sha256(Utf8.Encode(text).value));
  }
}
