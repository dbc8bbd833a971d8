# PSK handshake codecs

A Dafny model of `pkg/proto/handshake.go`, which holds the three binary messages of a pre-shared-key challenge-response handshake:

- **Hello**: the server's challenge. It is the 6-byte tag `u t t 0 0 0` followed by a 16-byte random challenge.
- **Connect**: the client's claimed ACL identity and its proof. It is two big-endian u16 lengths, the ACL key bytes, then the signature. The signature is HMAC-SHA512, keyed with the PSK, over `"cha" ‖ challenge ‖ "acl#" ‖ ACL key`.
- **ConnectResult**: the server's verdict. It is a flag byte, a length byte, then a message held in fixed 31-byte storage whose length is tracked separately.

Files:

- `wire.dfy` (module `Wire`): bytes, the three error kinds, `Result`, `Outcome` (the `error` return of a method that returns nothing else), the big-endian u16 field and Go's `copy` into the front of an array.
- `handshake.dfy` (module `Proto`): the three messages. Each message is a class whose fields the decoders update in place. The challenge and the message storage are fixed-size arrays. `Encode` and `Len` are functions of the object's state.
  - Each decoder method is specified by a pure parse function (`ParseHello`, `ParseConnect`, `ParseResult`). Round-trip lemmas tie that function to `Encode`.
- `as_written.dfy` (module `AsWritten`): the two decoders with the source's fixed-width arithmetic. It also has the lemmas that pin down where they differ from the corrected ones (see Findings).
- `scenario.dfy` (module `Scenario`): a whole exchange driven through the classes.

HMAC-SHA512 is a parameter `mac` of type `MacFunction`. That type covers the deterministic functions from (key, message) to a 64-byte digest. Nothing else is assumed about it. So the security statements are phrased as "this can only happen through a MAC collision".

The model follows the code in two places where the protocol's intent differs:
- `DecodeMessage` returns the whole 31-byte storage, padding included, rather than the message alone.
- `Verify` is a plain comparison, not a constant-time one.

The two decoders are modelled in corrected form, and the written arithmetic is kept beside them (see Findings).

## Model

| member | source | states |
|---|---|---|
| Wire.ReadBE16 | pkg/proto/handshake.go:86-88 | a decoded u16 length is at most 0xFFFF, and its high and low bytes are the two bytes read |
| Wire.BE16 | pkg/proto/handshake.go:72-75 | a length up to 0xFFFF is written as two bytes that read back as that length |
| Wire.BE16OfRead | pkg/proto/handshake.go:86-88 | every two-byte field is the encoding of the value read from it (the other direction of the BE16 inverse) |
| Wire.AddU8 | pkg/proto/handshake.go:137 | `uint8` addition: the sum modulo 256, smaller than the true sum exactly when that reaches 256 |
| Wire.AddU16 | pkg/proto/handshake.go:92-93 | `uint16` addition: the sum modulo 65536; when it wraps, the result is smaller than either operand |
| Wire.CopyPrefix | pkg/proto/handshake.go:110 | `copy` into the front of an array replaces the first bytes and keeps the rest |
| Proto.Hello.constructor | pkg/proto/handshake.go:15-17 | a Hello starts with the all-zero 16-byte challenge |
| Proto.Hello.Len | pkg/proto/handshake.go:34-36 | the Hello size is always 22 |
| Proto.Hello.Encode | pkg/proto/handshake.go:19-24 | the output is exactly `Len()` bytes: the magic tag followed by the challenge |
| Proto.ParseHello | pkg/proto/handshake.go:26-32 | a buffer is accepted iff it has at least 22 bytes and starts with the magic tag; the challenge is then bytes 6..22; anything else is `InvalidPacket` |
| Proto.Hello.Decode | pkg/proto/handshake.go:26-32 | on success the challenge becomes bytes 6..22 of the buffer; on `InvalidPacket` it is unchanged |
| Proto.Hello.Refresh | pkg/proto/handshake.go:38 | the whole challenge is replaced by the 16 random bytes supplied, with no other effect |
| Proto.HelloRoundTrip | pkg/proto/handshake.go:19-31 | parsing an encoded Hello, with any trailing bytes, restores its challenge exactly |
| Proto.ProofInput | pkg/proto/handshake.go:45-51 | the MAC input is "cha", the challenge, "acl#", the ACL key, at those offsets |
| Proto.ProofInputInjective | pkg/proto/handshake.go:45-51 | for challenges of equal length, two MAC inputs are equal iff both the challenges and the ACL keys are equal |
| Proto.ProofInputAmbiguousAcrossLengths | pkg/proto/handshake.go:47-49 | if challenge lengths could differ, the tags would not separate the fields: challenge "acl#" with an empty key collides with an empty challenge and key "acl#" |
| Proto.Connect.constructor | pkg/proto/handshake.go:40-43 | a Connect starts with an empty key and an empty signature |
| Proto.Connect.HMAC | pkg/proto/handshake.go:45-51 | the proof is a 64-byte digest |
| Proto.Connect.Len | pkg/proto/handshake.go:53-55 | `Len()` is the encoded size minus the 4-byte header |
| Proto.Connect.Sign | pkg/proto/handshake.go:57-59 | only the signature changes; it becomes the proof for the challenge and PSK, and `Verify` with the same challenge and PSK then holds |
| Proto.Connect.Verify | pkg/proto/handshake.go:61-63 | true iff the signature equals the MAC under the PSK of "cha" ‖ challenge ‖ "acl#" ‖ ACL key; an accepted signature is 64 bytes |
| Proto.ReplayNeedsCollision | pkg/proto/handshake.go:45-63 | a signature made for one challenge passes `Verify` for a different challenge of the same length only if the MAC maps two distinct inputs to one digest |
| Proto.KeySwapNeedsCollision | pkg/proto/handshake.go:45-63 | a signature made for one ACL key passes `Verify` under another key, with the same PSK and challenge, only through a MAC collision |
| Proto.Connect.Encode | pkg/proto/handshake.go:65-80 | fails with `ContentTooLong` iff the key or the signature is longer than 0xFFFF; otherwise the output is the two u16 lengths, the key, then the signature, 4 + `Len()` bytes |
| Proto.ParseConnect | pkg/proto/handshake.go:82-95 | fails with `InvalidPacket` iff the buffer has fewer than 4 bytes or 4 + the declared lengths exceeds it; on success both fields lie inside the buffer at the declared offsets |
| Proto.Connect.Decode | pkg/proto/handshake.go:82-95 | on success both fields are set to the parsed ones; on `InvalidPacket` both are unchanged |
| Proto.ConnectRoundTrip | pkg/proto/handshake.go:65-95 | for key and signature of at most 0xFFFF bytes each, parsing the encoding, with any trailing bytes, restores both fields |
| Proto.ConnectResult.constructor | pkg/proto/handshake.go:97-101 | a ConnectResult starts as a rejection with an empty message and zeroed storage |
| Proto.ConnectResult.Len | pkg/proto/handshake.go:103 | `Len()` is one less than the encoded size (1 + message length, while the encoding is 2 + message length) |
| Proto.ConnectResult.EncodeMessage | pkg/proto/handshake.go:105-113 | a message over 31 bytes fails with `BufferTooShort` and leaves everything unchanged; otherwise it fills the front of the storage and sets the length, and later storage bytes keep their values, so `DecodeMessage` then returns the message followed by the old storage tail |
| Proto.ConnectResult.DecodeMessage | pkg/proto/handshake.go:115-117 | returns all 31 storage bytes: the message in the first `MsgLen`, then whatever the storage held after it (zero padding or the tail of an earlier, longer message) |
| Proto.ConnectResult.Encode | pkg/proto/handshake.go:119-129 | the output is the flag byte (1 when welcome, else 0), the length byte, then the message: 2 + message length bytes |
| Proto.ParseResult | pkg/proto/handshake.go:131-143 | fails with `InvalidPacket` iff the buffer has fewer than 2 bytes, or the declared length runs past its end, or that length exceeds 31; on success the message is the declared bytes and fits the storage |
| Proto.ConnectResult.Decode | pkg/proto/handshake.go:131-143 | under 2 bytes nothing changes; otherwise the welcome flag is overwritten before the length check; on failure the length and storage are unchanged; on success the message fills the front of the storage |
| Proto.ResultRoundTrip | pkg/proto/handshake.go:119-143 | parsing an encoded ConnectResult, with any trailing bytes, restores the welcome flag and the message |
| AsWritten.ConnectDecodeAsWritten | pkg/proto/handshake.go:82-95 | Connect decoding with the source's uint16 slice offsets; a short buffer is `InvalidPacket` |
| AsWritten.ConnectDecodeCorrection | pkg/proto/handshake.go:89-93 | the decoder as written panics iff the declared fields plus the header fit the buffer and reach 65536 bytes; on every other buffer it agrees with `ParseConnect` |
| AsWritten.ConnectRoundTripFailsAsWritten | pkg/proto/handshake.go:65-93 | every Connect whose encoding is 65536 bytes or longer is accepted by `Encode` but makes the decoder as written panic |
| AsWritten.ConnectWrapCounterexample | pkg/proto/handshake.go:92-93 | a concrete 65536-byte buffer with a declared key of 65532 bytes parses correctly but makes the decoder as written panic |
| AsWritten.ResultDecodeAsWritten | pkg/proto/handshake.go:131-143 | ConnectResult decoding with the source's uint8 bound and no capacity check; a short buffer is `InvalidPacket` |
| AsWritten.ResultDecodeCorrection | pkg/proto/handshake.go:135-141 | the decoder as written panics iff the declared length exceeds 31 and its wrapped bound passes the check; otherwise it agrees with `ParseResult` |
| AsWritten.ResultWrapCounterexample | pkg/proto/handshake.go:137 | for the buffer [1, 254] the wrapped bound passes the check although the message would run past the end, and the decoder panics |
| AsWritten.ResultOverCapacityCounterexample | pkg/proto/handshake.go:140-141 | for declared length 32 with 32 bytes present, the check passes and the decoder panics; the corrected parse rejects it |
| Scenario.ExchangeHello | pkg/proto/handshake.go:19-38 | the challenge the server puts in its Hello is the challenge the client decodes |
| Scenario.ExchangeConnect | pkg/proto/handshake.go:45-95 | a Connect the client signs, once encoded and decoded by the server, passes `Verify` with the same challenge and PSK |
| Scenario.ExchangeResult | pkg/proto/handshake.go:105-143 | a welcome ConnectResult with a message of at most 31 bytes is decoded with the flag set, and its storage reads the message followed by zero padding |
| Scenario.Handshake | pkg/proto/handshake.go:19-143 | for challenge 0x00..0x0F, identity "svc-a" and PSK "topsecret" on both sides, the server's `Verify` accepts, and the client decodes welcome = true and the text "welcome" followed by zero padding |

## Left out

- Proto.Hello.Refresh: the random bytes come in as a parameter. `crypto/rand` is operating-system entropy, outside the model. The source also ignores `rand.Read`'s error.
- Proto.Connect.HMAC: the internals of HMAC-SHA512 (RFC 2104 over FIPS 180-4 SHA-512) are not modelled. The MAC is any deterministic function with 64-byte outputs, so the contract states only the digest length. Collision resistance cannot be stated of such a function. The lemmas therefore say that forging needs a collision.
- The negative scenario, where the server's PSK differs by one byte and `Verify` fails, depends on the MAC's output for two particular keys. It cannot be proved of an arbitrary function.
- Timing: `bytes.Compare` in `Verify` is not constant-time. The model only states the boolean result.
- Buffer reuse in the encoders (`buf = buf[0:0]` and appending into the caller's storage) is not modelled. Each encoder returns a fresh byte sequence.
- Aliasing is not modelled: the decoded `Signature` shares memory with the input buffer. The model copies values, so a later write to that buffer does not show up in the signature.
- `ACLKey` is a Go string and the result message is converted from and to strings. Both are byte sequences here, with no UTF-8 handling.
- `ErrInvalidPacket`, `ErrContentTooLong` and `ErrBufferTooShort` are defined outside `handshake.go`. They are modelled by the `Wire.Error` datatype.
- Proto.ConnectResult.Encode: it requires `0 <= MsgLen <= 31`. In Go, `RawMsg[:MsgLen]` panics outside that range, and the exported field could be set to anything. Every operation of the model keeps the bound.
- Proto.ConnectResult.Decode: it checks the declared length against the 31-byte capacity as well as the buffer, and computes the bound without 8-bit wrap-around. The source panics in those cases instead (see Findings). The welcome flag is still overwritten before the check, as in the source.
- Partial updates before a panic are not modelled. A `Panics` run in `AsWritten` records only that the call panicked, not the fields written first. In the source, `ACLKey` is already replaced at line 92 when line 93 panics. `Welcome` (line 136) and a `MsgLen` of 32 to 255 (line 140) are already set when line 141 panics. A caller that recovers from such a panic would be left with a ConnectResult whose `MsgLen` exceeds the 31-byte storage.
- Proto.Connect.Decode: it computes slice offsets in unbounded integers. The source's 16-bit offsets panic on large inputs (see Findings).

## Findings

| source | as written | input that shows it | evidently intended | confidence | as-written member | corrected member |
|---|---|---|---|---|---|---|
| pkg/proto/handshake.go:137 | `2+msgLen` is a `uint8` sum, so declared lengths 254 and 255 wrap to 0 and 1 and pass the bounds check; the copy then panics | buffer `[1, 254]` | reject with `InvalidPacket` whenever 2 + the declared length exceeds the buffer | high; not executed | AsWritten.ResultWrapCounterexample | Proto.ParseResult |
| pkg/proto/handshake.go:140-141 | a declared length from 32 to 253 with enough bytes passes the check, and `RawMsg[:MsgLen]` slices past the 31-byte array, a panic rather than an error | `[1, 32]` followed by 32 zero bytes | reject with `InvalidPacket` when the declared length exceeds the 31-byte storage | high; not executed | AsWritten.ResultOverCapacityCounterexample | Proto.ConnectResult.Decode |
| pkg/proto/handshake.go:92-93 | the slice offsets `4+msgLen` and `4+msgLen+signLen` are `uint16` sums; once the fields plus header reach 65536 bytes an offset wraps below the previous one and slicing panics, although `Encode` accepts such messages | a Connect with a 65532-byte ACL key and an empty signature, i.e. `[0xFF, 0xFC, 0, 0]` followed by 65532 zero bytes | compute the offsets in `int`, as the bounds check at line 89 does, so that every encoding decodes | high; not executed | AsWritten.ConnectRoundTripFailsAsWritten | Proto.ConnectRoundTrip |
