# bat token codec, modelled in Dafny

The bat package issues compact bearer tokens. A token names an application and a
token, may name a sub-token, and may carry an expiry. Its serialization is
authenticated by a 32-byte HMAC-SHA256 signature. The token travels as base 32
text with the `=` padding removed. This project models the codec at the heart of
the package and proves what it promises:

- `binary.dfy` (module `Binary`): the big-endian integers of Go's
  `encoding/binary` and the `uint32(...)` truncation.
- `base32.dfy` (module `Base32`): the standard base 32 encoding of RFC 4648,
  section 6, written as regrouping a bit string. Its `Decode` accepts exactly
  the text whose length is a multiple of 8, whose only `=` are 1, 3, 4 or 6 at
  the end, and whose other characters are in the alphabet. `ParseToken` pads
  its input to a multiple of 8 before decoding, so the length condition always
  holds there.
- `limits.dfy` (module `LimitsCodec`): `encodeLimits` and `parsLimit`, the 6-byte
  rate-limit record.
- `v1.dfy` (module `V1`): version 1 of the format.
  - The flag-bit helpers `setBit` and `isBitSet`, on a `bv16` word whose bit 0 is
    the most significant.
  - `Encode`, `Decode`, `Verifies` and `Text`: functions that state what
    `serialize`, `parse`, `ValidSignature` and `String1` compute.
  - The class `TokenV1`. Its fields are the Go struct's fields and its methods
    update them in place, like Go's pointer-receiver methods. Each method is
    proved against those functions.
- `v1_proofs.dfy` (module `V1Proofs`): round trips and invariance properties of
  the version-1 codec.
- `token.dfy` (module `Tokens`): `ParseToken`. It restores the padding, decodes
  base 32, checks the version byte and hands the rest to `parse`. Also the
  `Token` type and the text round trip `ParseToken(String1(t))`.

HMAC-SHA256 is a parameter `mac` of `Sign` and `ValidSignature`: any
deterministic function from key and message to 32 bytes. The clock read by
`WithTTL` is also a parameter, `now`, in Unix nanoseconds. An expiry is kept as
whole Unix seconds, the value that `Time.Unix` reports. The float `RPS` is carried
as its 32-bit pattern, since the code only reinterprets it
(`Float32bits` / `Float32frombits`).

Go's `Sign` computes `h.Sum(t.Signature[:0])`. That writes the MAC into the
token's own `Signature` array, so the model's `Sign` updates `Signature` as
well as returning it.

The flag word and the optional fields, as `v1.go` handles them:

- `v1.go` writes and reads only flag bit 0, the expiry. `Limits` and `BindIP`
  are fields of the struct but are never serialized, and they are not covered
  by the signature (`V1.Verifies`). There is no webhooks field.
- On parsing, every other flag bit is ignored and never rejected
  (`V1Proofs.DecodeIgnoresOtherFlagBits`).
- The flag word is computed in full before any optional block is appended.

`parse` sets `ExpireAt` only when flag bit 0 is set. It never clears it. A
token that already has an expiry and parses bytes without one keeps its old
expiry (`V1Proofs.DecodeKeepsStaleExpiry`). `ParseToken` always parses into a
fresh zero token, so the public round trip is unaffected. The lemmas about
re-serializing or re-verifying a parsed token therefore require a target
without an expiry, or a token that has one.

## Model

| member | source | states |
|---|---|---|
| Binary.Uint32 | v1.go:90-91 | the word read has the four bytes as its base-256 digits, most significant first |
| Binary.Uint16 | v1.go:104 | the word read has the first byte as its high 8 bits and the second as its low 8 bits |
| Binary.PutUint32 | v1.go:63-64 | four bytes that read back, big-endian, as the word written |
| Binary.PutUint32Of | v1.go:90-91 | any four bytes read as a big-endian word and written back are the same four bytes, so the word encoding is a bijection |
| Binary.PutUint16 | v1.go:73 | the flag word takes two bytes |
| Binary.Uint16TopBit | v1.go:104 | the top bit of a big-endian 16-bit word read from a buffer is the top bit of its first byte |
| Binary.Truncate32 | v1.go:75 | `uint32(x)` agrees with x modulo 2^32 |
| Base32.Encode | v1.go:57 | the encoded text's length is a multiple of 8 |
| Base32.EncodeSymbols | v1.go:57 | 5 symbols per 8 input bits, rounded up; each symbol is in the alphabet and stands for the next 5 bits of the input |
| Base32.EncodeShape | v1.go:57 | the encoder's padding is all the `=` its text ends with, and there are 0, 1, 3, 4 or 6 of them |
| Base32.TrimPadding | v1.go:57 | `strings.TrimRight(s, "=")`: the result does not end with `=`, and `s` is the result followed only by `=` |
| Base32.Regroup | token.go:22 | the bytes are the whole bytes of the 5-bit values' bits, and only fewer than 8 bits are left over |
| Base32.Decode | token.go:22 | succeeds if and only if the length is a multiple of 8, the text ends in 0, 1, 3, 4 or 6 `=` and every other character is in the alphabet; the decoded length is the number of whole bytes in 5 bits per unpadded symbol; the decoded bits are the leading bits of the symbols' values |
| Base32.DecodeEncode | token.go:22 | decoding the encoder's text gives back every input byte |
| LimitsCodec.EncodeLimits | limits.go:14-22 | six bytes: RPS big-endian, then the burst byte, then 1 or 0 for PerIP |
| LimitsCodec.ParseLimit | limits.go:24-27 | RPS from bytes 0..4, burst from byte 4, PerIP exactly when byte 5 is 1 |
| LimitsCodec.ParseEncodeLimits | limits.go:14-27 | parsing an encoded record gives the record back |
| LimitsCodec.ParseLimitPrefix | limits.go:24-27 | bytes after the sixth never affect the parsed record |
| LimitsCodec.EncodeParseLimit | limits.go:14-27 | re-encoding a parsed record restores the six bytes if and only if the PerIP byte was 0 or 1 |
| V1.IsBitSet | v1.go:135-141 | for an index b from 0 to 15, true exactly when bit 15 - b of the word, counted from the least significant, is 1; an index above 15 always reads as not set; a negative index down to math.MinInt64 + 16 always reads as set |
| V1.SetBit | v1.go:127-133 | a bit index from 0 to 15 is set afterwards; above 15 the word is unchanged |
| V1.SetBitBelowZero | v1.go:127-133 | a negative bit index down to math.MinInt64 + 16 leaves the word unchanged |
| V1.SetBitKeepsOtherBits | v1.go:127-133 | setting one bit leaves the state of every other bit unchanged |
| V1.SetBitIdempotent | v1.go:127-133 | setting a bit twice is the same as setting it once |
| V1.FlagBit0 | v1.go:104-106 | bit 0 of the flag word read from a buffer is set exactly when its first byte is at least 0x80 |
| V1.Flags | v1.go:69-72 | the flag word is 0x8000 when an expiry is present and 0 otherwise, and bit 0 is set exactly when it is present |
| V1.Encode | v1.go:60-78 | length 12, plus 4 for a subtoken, plus 4 for an expiry; version byte; AppID and TokenID big-endian; subtoken byte 1 or 0; the SubtokenID block only for a subtoken; flag bytes 0x80 or 0, then 0; the expiry as its low 32 bits only when present |
| V1.Decode | v1.go:86-119 | succeeds if and only if every block the buffer announces fits; each failure reports the buffer's length; AppID and TokenID are read whenever 9 bytes are present; SubtokenID is read when byte 8 is 1 and 13 bytes are present, and otherwise kept; ExpireAt is read when flag bit 0 is set and its 4 bytes are present, and otherwise kept, whatever the outcome; subtoken, expiry and signature are read at the offsets the announced blocks give; Limits and BindIP are left unchanged |
| V1.Verifies | v1.go:121-125 | the stored signature is the MAC of the serialization, which does not depend on Limits or BindIP |
| V1.Text | v1.go:56-58 | the text form never ends in `=` |
| V1.TokenV1.constructor | v1.go:30-32 | a token with both identifiers set and every other field zero |
| V1.TokenV1.WithSubtokenID | v1.go:34-38 | marks the token as a subtoken with that ID, changes nothing else, returns the same token |
| V1.TokenV1.WithTTL | v1.go:40-44 | the expiry becomes the whole second `duration` after `now`; nothing else changes; returns the same token |
| V1.TokenV1.WithExpireAt | v1.go:46-49 | sets the expiry, changes nothing else, returns the same token |
| V1.TokenV1.WithRateLimits | v1.go:51-54 | sets the rate limits, changes nothing else, returns the same token |
| V1.TokenV1.Serialize | v1.go:60-78 | builds exactly the layout of `V1.Encode` for the token's current fields |
| V1.TokenV1.String1 | v1.go:56-58 | returns `V1.Text` of the token's fields |
| V1.TokenV1.Sign | v1.go:80-84 | replaces the signature with the MAC of the serialization, returns it, and leaves a token that verifies |
| V1.TokenV1.ValidSignature | v1.go:121-125 | true exactly when the stored signature is the MAC of the serialization |
| V1.TokenV1.Parse | v1.go:86-119 | leaves exactly the token and error of `V1.Decode` applied to the old fields |
| V1Proofs.DecodeEncode | v1.go:60-119 | parsing a serialization followed by a signature, whatever follows it, succeeds; it restores every serialized field, the expiry as its low 32 bits, and the signature |
| V1Proofs.DecodeIgnoresTail | v1.go:114-118 | bytes after the signature never change the parsed token or the error |
| V1Proofs.DecodeIgnoresOtherFlagBits | v1.go:104-106 | rewriting the flag word while keeping bit 0 changes neither the parsed token nor the error |
| V1Proofs.EncodeDeterminedByWireFields | v1.go:60-78 | two tokens serialize alike if and only if they agree on the serialized fields, the expiry compared by its low 32 bits |
| V1Proofs.EncodeRestored | v1.go:60-119 | re-serializing a parsed token reproduces the original serialization, when parsed into a token without an expiry or when the token has an expiry |
| V1Proofs.VerifiesAfterRoundTrip | v1.go:80-125 | a signed token still verifies with the same secret after serialize and parse, when parsed into a token without an expiry or when the token has an expiry |
| V1Proofs.DecodeKeepsStaleExpiry | v1.go:106-113 | parsing bytes without an expiry into a token that has one keeps the old expiry, and the result no longer serializes to those bytes |
| Tokens.RestorePadding | token.go:19-21 | appends the fewest `=` that bring the length to a multiple of 8 |
| Tokens.RestoreTrimmedPadding | token.go:19-21 | restoring the padding of trimmed base 32 text gives back the encoder's output |
| Tokens.Parse | token.go:18-36 | corrupt base 32, an empty buffer and a wrong version byte each give their own error and the zero token; otherwise version 1 with the token and error of `V1.Decode` on the remaining bytes, starting from the zero token |
| Tokens.Token.constructor | token.go:13-16 | the zero Token: version 0 and a zero TokenV1 |
| Tokens.ParseToken | token.go:18-36 | returns a fresh token whose version, fields and error are those of `Tokens.Parse` |
| Tokens.ParseText | token_test.go:13-30 | `ParseToken(String1(t))` succeeds as version 1 and restores every serialized field, the expiry as its low 32 bits, and the signature |
| Tokens.ParseTextVerifies | token_test.go:31-33 | a signed token's text form parses into a token that verifies with the same secret |

## Left out

- HMAC-SHA256 itself: it is a parameter of `Sign` and `ValidSignature`.
  Properties that need its collision resistance are not stated. That includes
  "a wrong secret fails" and "any altered field fails". `V1Proofs.EncodeDeterminedByWireFields`
  is the part of them that holds for every MAC.
- The constant-time comparison of `hmac.Equal`: it is modelled as plain equality.
- The clock: `time.Now()` is the parameter `now`. Nanoseconds below a second
  and time zones are not modelled.
- V1.TokenV1.WithTTL: does not model `time.Add` saturating at the limits of `time.Time`, because those limits lie far outside any clock reading.
- The 64-bit range of Unix seconds: an expiry is an unbounded integer. Only the
  truncation to 32 bits that serialize applies is modelled.
- Binary.PutUint16: states only the length; the flag word's bytes are stated through `V1.Encode` (0x80 or 0, then 0) and `V1.FlagBit0`.
- Go's base 32 decoder skips `\r` and `\n`, and reports the offset of the first
  bad character in `CorruptInputError`. Neither is modelled. Text with a line
  break is rejected, and every decoding error is the single `CorruptInput`.
- Base32.Decode: rejects every text in which an `=` is followed by another character. Go's decoder treats `=` as padding only when fewer than 8 characters follow it, so on lengths that are a multiple of 8, which is every text `ParseToken` decodes, both reject the same texts. At other lengths they differ: Go decodes `"AA======AA"` to one byte, while `Decode` returns None.
- V1.IsBitSet, V1.SetBit: bit indices are unbounded integers. Go's `int` is 64 bits wide, and for b ≤ math.MinInt64 + 15 the shift count `15 - b` overflows to a negative number and the shift panics at run time. That panic is not modelled; every caller passes the constant 0.
- V1.TokenV1.Sign: the returned tag is a copy; in Go it aliases `Signature`, so a write through it would change the token.
- The float `RPS`: only its bit pattern is modelled. Float arithmetic and NaN
  payload canonicalisation are not.
- `encodeLimits` and `parsLimit` are modelled on their own. No code in the
  version-1 codec calls them, because rate limits are never serialized.
- `BindIP` and `Limits` are carried in the token but never serialized or parsed.
  That is the code's behaviour, not an omission of the model.
- Webhooks, and flag bits 1 to 3: the code has neither, although its test file
  uses a `Webhooks` field, a `WithWebhooks` setter and a `String` method that
  the code does not define.
- The text of the error messages: `parse` errors carry only the buffer length
  (`invalid token length %v`). The other errors are distinct constructors.
