# Evidence anchoring (notary) model

A Dafny model of `notarize_document` in `skills/notary_skill.py`, the routine
that anchors a text on the Sepolia test network. It hashes the text's UTF-8
bytes with SHA-256 and wraps the 32-byte digest in the envelope
`NOTARY_V1|` + digest. It writes the envelope as `0x` + lower-case hex into
the data field of a zero-value transaction from the configured account to
itself. It then signs and broadcasts the transaction and reports a block
explorer link or a failure string.

Modules, leaf first:

- `Wrappers` (`wrappers.dfy`): `Option` and `Result`.
- `HexCodec` (`hex.dfy`): bytes, `bytes.hex()` and `bytes.fromhex()`, with both round trips.
- `Utf8` (`utf8.dfy`): `str.encode("utf-8")` under the strict error handler. A Python string
  may hold lone surrogates, so text is a sequence of code points and encoding can fail.
  A strict decoder serves as its reference inverse.
- `Payload` (`payload.dfy`): the tag, the envelope and the data field. Also the decoding an
  independent verifier performs, and the round-trip laws.
- `Gas` (`gas.dfy`): the 1.5× margin and the 50000 fallback.
- `Notary` (`notary.dfy`): the pipeline. The environment, the RPC node and `eth_account`
  are oracle inputs: `Env`, `Network` (URL to `Node`) and `Wallet`. Each node or wallet
  query either answers or raises; an exception is represented by its message `str(e)`.
  `Notarize` returns the outcome (`Raise`, `ErrStr` or `OkStr`) together with the trace of
  the calls it made. Properties about order ("nothing is signed after a connectivity
  failure") are stated over that trace.

Behaviour of the code worth knowing:

- Fingerprinting can fail: `text.encode("utf-8")` at line 26 raises UnicodeEncodeError
  on a lone surrogate. That happens before the settings are checked, so such a text raises
  even when the settings are missing (`Notary.UnencodableTextRaisesFirst`).
- Failures of `Account.from_key` and of the nonce, gas-price and chain-id lookups are not
  caught and propagate unchanged; the first of them to fail wins
  (`Notary.RaisesExactly`, `Notary.LookupErrorPropagates`).
- The chain id is queried when the transaction dictionary is built. That is after gas
  estimation, and the trace records it in that order.

## Model

| member | source | states |
|---|---|---|
| HexCodec.Hex | skills/notary_skill.py:31 | `bytes.hex()` yields two lower-case hexadecimal digits per byte |
| HexCodec.FromHex | skills/notary_skill.py:30 | a successful `bytes.fromhex()` yields half as many bytes as there are digits |
| HexCodec.FromHexDefined | skills/notary_skill.py:30 | `bytes.fromhex()` succeeds exactly on even-length strings of hexadecimal digits |
| HexCodec.FromHexOfHex | skills/notary_skill.py:26-30 | un-hexing the hex text of any bytes gives those bytes back |
| HexCodec.HexOfFromHex | skills/notary_skill.py:30-31 | lower-case hex text is the hex of the bytes it decodes to |
| HexCodec.HexInjective | skills/notary_skill.py:31 | two byte strings have the same hex text if and only if they are equal |
| Utf8.Encode | skills/notary_skill.py:26 | encoding fails exactly when the text holds a lone surrogate, and it reports the first one; otherwise it yields 1 to 4 bytes per code point |
| Utf8.DecodeEncode | skills/notary_skill.py:26 | strict UTF-8 decoding of an encoded text gives the text back |
| Utf8.EncodeInjective | skills/notary_skill.py:26 | two encodable texts have the same UTF-8 bytes if and only if they are equal |
| Payload.EncodePayload | skills/notary_skill.py:29-30 | the envelope is 42 bytes: the 10-byte tag `NOTARY_V1|`, then the digest |
| Payload.PayloadRoundTrip | skills/notary_skill.py:29-30 | bytes decode to a digest as an envelope if and only if they are that digest's envelope |
| Payload.DigestViaHexdigest | skills/notary_skill.py:26-30 | `bytes.fromhex` of the hex digest is the digest itself |
| Payload.DataHex | skills/notary_skill.py:31 | the data field is 86 characters: `0x`, then lower-case hex |
| Payload.EvidenceHex | skills/notary_skill.py:26-31 | the field computed from a text fails exactly when the text is unencodable, at the same position; otherwise it is the data field of the digest of the text's UTF-8 bytes |
| Payload.DataHexRoundTrip | skills/notary_skill.py:26-31 | stripping `0x`, un-hexing and dropping the tag recovers exactly the digest |
| Payload.DataHexCanonical | skills/notary_skill.py:31 | a `0x` field with a lower-case hex body decodes to a digest if and only if it is the field written for that digest |
| Payload.EvidenceHexDeterminedByDigest | skills/notary_skill.py:26-31 | two encodable texts give the same field if and only if their UTF-8 bytes have the same digest, so identical texts give identical fields |
| Payload.EvidenceHexRecoversDigest | skills/notary_skill.py:26-31 | the field written for a text decodes to the digest of that text's UTF-8 bytes |
| Gas.WithMargin | skills/notary_skill.py:68 | the margin is the floor of 1.5 times the estimate |
| Gas.GasLimit | skills/notary_skill.py:61-70 | a failed estimate gives exactly 50000; an estimate `g` gives the floor of `1.5 g` |
| Gas.LimitCoversEstimate | skills/notary_skill.py:61-68 | a successful estimate `g` gives a limit between `g` and `2 g`, so the margin never under-provisions |
| Gas.LimitMonotonic | skills/notary_skill.py:61-68 | a larger successful estimate never gives a smaller limit |
| Notary.Transact | skills/notary_skill.py:52-91 | after the connectivity check, the steps run in order without skipping. It raises exactly when it stops before signing; a success means both signing and sending ran |
| Notary.Notarize | skills/notary_skill.py:16-91 | the trace follows the pipeline's stages in order. The trace is empty exactly when the routine raises a ValueError or an encoding error. Once anything is signed it never raises. Success means signing and sending both happened; an error string comes from the connectivity check or from sign/send |
| Notary.UnencodableTextRaisesFirst | skills/notary_skill.py:26-44 | an unencodable text raises UnicodeEncodeError at its first lone surrogate, before any setting is checked and before any call |
| Notary.MissingSettingRaises | skills/notary_skill.py:41-47 | a missing or empty RPC URL raises the RPC ValueError, whatever the key is. Otherwise a missing key raises the key ValueError. No call is made in either case |
| Notary.UnreachableNodeReported | skills/notary_skill.py:47-50 | an unreachable node returns `错误: 无法连接到 RPC: ` and the URL. No account is loaded and nothing is signed or sent |
| Notary.SignsIffResolved | skills/notary_skill.py:49-84 | a signature happens if and only if the node is reachable and the key, nonce, gas price and chain id all resolved |
| Notary.SignedTransactionShape | skills/notary_skill.py:57-80 | the signed transaction goes back to the sender with value 0 and the evidence field as data. Nonce, gas price and chain id are the node's answers. Gas is the limit derived from the estimate of that same self-transfer |
| Notary.RaisesExactly | skills/notary_skill.py:41-80 | the routine raises if and only if the text is unencodable, a setting is missing, or a key, nonce, gas price or chain id lookup fails on a reachable node |
| Notary.LookupErrorPropagates | skills/notary_skill.py:53-73 | on a reachable node, the first failing lookup of key, nonce, gas price and chain id raises that call's own exception unchanged |
| Notary.BroadcastErrorsReturned | skills/notary_skill.py:83-91 | after the fields resolve, a signing or sending error is returned as `上链失败: ` and the message, never raised. A successful send returns `上链成功! 交易哈希: https://sepolia.etherscan.io/tx/` and the hash's hex |

## Left out

- SHA-256 itself: a parameter `seq<byte> -> Digest`, and only its 32-byte output is relied on.
- ECDSA key handling and transaction serialisation in `eth_account`: the oracle functions `Wallet.fromKey` and `Wallet.signTransaction`.
- Web3 RPC behaviour: the oracle `Node`. Timeouts and transport errors are left out; they show up only as a query raising or as `connected` being false.
- `load_dotenv` and `os.getenv`: the `Env` input holds the values read after the reload.
- The debug prints (lines 38-39) and the `FunctionTool` wrapper (lines 95-99).
- Gas.WithMargin: `int(g * 1.5)` is computed in floating point. The model uses exact integer arithmetic. The two agree at least while `3 g` is below 2^53; above that the float may round. Real gas estimates are many orders of magnitude below this bound.
- Gas.GasLimit: for an estimate too large to convert to a float, `g * 1.5` raises OverflowError and the `except` gives the 50000 fallback; the model gives the floor of `1.5 g` there instead.
- HexCodec.FromHex: Python's `bytes.fromhex` also skips ASCII whitespace between byte pairs. The model rejects whitespace, because the routine only un-hexes digest text, which holds none.
- Notary.BroadcastErrorsReturned: the success string uses the plain lower-case hex of the returned hash, as `bytes.hex()` gives it. HexBytes versions before 1.0 prepend `0x` in `.hex()`; that variant is not modelled.
