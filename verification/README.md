# id3-go byte codec, modelled in Dafny

This project models the byte-level core of the id3-go ID3v2 library and
proves properties of the model:

- **Byte integers** (`encodedbytes/util.go`): `ByteInt`/`IntBytes` and their
  synchsafe (7 bits per byte, section 6.2 of the ID3v2.4.0 main structure
  document) and normal (8 bits per byte) wrappers.
- **Encoding table** (`encodedbytes/util.go`): `EncodingForIndex`,
  `IndexForEncoding`, and `afterNullIndex`, which finds the end of a
  null-terminated string (a two-byte aligned null for UTF-16 and UTF-16BE, a
  single zero byte otherwise).
- **Frame protocol** (`v2/id3v24.go`): `ParseV24Frame` reads one frame. A
  frame is a ten-byte header (4-byte ID, 4-byte synchsafe size, status flag
  byte, format flag byte; section 4 of the ID3v2.4.0 main structure
  document) followed by `size` body bytes. `V24Bytes` writes a frame back.

Files:

- `wrappers.dfy`: module `Wrappers`, with `Option` and `Result`.
- `bits.dfy`: module `Bits`. It holds Go's `byte` and `uint32` as subset
  types, powers of two, Go's `|` and `&` as bit-by-bit functions on
  naturals, and the division and modulus lemmas the proofs need.
- `encodedbytes.dfy`: module `EncodedBytes`, for `encodedbytes/util.go`.
- `id3v24.dfy`: module `Id3v24`, for `v2/id3v24.go`.

How Go is modelled:

- A Go `uint32` shift left is `(i * 2^k) % 2^32`. This gives 0 for a count
  of 32 or more, as Go does. A shift right is `i / 2^k`.
- `|` and `&` are the recursive functions `Bits.Or` and `Bits.And`.
  Lemmas show that an or into disjoint bits is addition and that an and with
  a low mask is a modulus. No shortcut is taken in the model itself.
- `ByteInt` is modelled for every `base`, not only 7 and 8. The mask
  `uint32(1<<base - 1)` wraps exactly as in Go.
- The `io.Reader` becomes a `seq<byte>`. `ParseV24Frame` returns the frame
  (or nothing) together with the unread rest of the stream. `io.ReadFull` is
  `Id3v24.ReadFull`: on a short stream it reads nothing useful and drains
  the stream.
- The frame-type table (`V24FrameTypeMap`) is a parameter
  `map<seq<byte>, FrameType>`. The constructor it names is a parameter
  `construct: (FrameHead, seq<byte>) -> Option<Frame>`; `None` stands for a
  constructor returning a nil `Framer`. Go's `Framer` interface is the
  record `Frame` (ID, size, both flag bytes, body).
- A frame ID is kept as its four bytes. A Go string is a byte string, so
  `string(data[:4])` and `f.Id()...` are the identity on those bytes.
- Charset names are Dafny strings (sequences of characters) rather than
  byte strings. The only operation on them is equality with the four ASCII
  table names, which gives the same answer either way.

## Model

| member | source | states |
|---|---|---|
| EncodedBytes.ByteInt | encodedbytes/util.go:39-55 | More than 4 bytes fails with InvalidLength, whatever the base. Otherwise it succeeds exactly when every byte is below 2^base, and fails with ExceedMaxBit when one is not. On success the value is the big-endian radix-2^base reading of the buffer modulo 2^32. For base <= 8 the value is exact and below 2^(base*len), so the shift never overflows. |
| EncodedBytes.Accumulate | encodedbytes/util.go:45-52 | The checking-and-shifting loop fails exactly when some byte does not fit the base. Otherwise or-ing each byte into the shifted accumulator yields the big-endian value modulo 2^32. |
| EncodedBytes.SynchInt | encodedbytes/util.go:57-60 | Succeeds exactly for at most 4 bytes that are all below 0x80. The value is the 7-bits-per-byte big-endian reading, which is below 2^28. |
| EncodedBytes.NormInt | encodedbytes/util.go:62-65 | Succeeds exactly for at most 4 bytes, whatever their values. The value is the plain big-endian reading. |
| EncodedBytes.IntBytes | encodedbytes/util.go:67-77 | Always exactly 4 bytes. For every base, byte j is the low 8 bits of digit 3-j of n in radix 2^base (most significant first); for base >= 32 the mask wraps to all ones and the shift clears n, which the same formula covers. For base <= 8 byte j is the whole digit, so every byte is below 2^base. The loop is `EncodedBytes.Fill`, whose meaning FillDigits and FillValue state. |
| EncodedBytes.FillDigits | encodedbytes/util.go:71-74 | The loop writing bytes from the last: for every base, byte j of `count` bytes is the low 8 bits of digit count-1-j of n, because `n & mask` keeps n's low digit and `n >>= base` moves to the next. |
| EncodedBytes.SynchBytes | encodedbytes/util.go:79-81 | Four bytes with the top bit clear. SynchInt reads them back as n mod 2^28. |
| EncodedBytes.NormBytes | encodedbytes/util.go:83-85 | Four bytes that NormInt reads back as n. |
| EncodedBytes.IntBytesRoundTrip | encodedbytes/util.go:39-77 | For base <= 8, ByteInt(IntBytes(n, base), base) succeeds with n mod 2^(4*base). That is every uint32 for base 8 and every n below 2^28 for base 7. |
| EncodedBytes.ByteIntThenIntBytes | encodedbytes/util.go:39-77 | The converse: four bytes that fit the base decode successfully and re-encode to the same bytes. |
| EncodedBytes.IntBytesLowBitsOnly | encodedbytes/util.go:67-77 | Two values that agree in their low 4*base bits encode to the same bytes. Higher bits are dropped. |
| EncodedBytes.SynchBytesLowBits | encodedbytes/util.go:68-74 | SynchBytes(n) == SynchBytes(n mod 2^28). |
| EncodedBytes.EncodingForIndexAsWritten | encodedbytes/util.go:87-94 | The code as written panics (index out of range) exactly for index 4. Every other byte yields a table name. |
| EncodedBytes.EncodingForIndexAsWrittenFailsAtFour | encodedbytes/util.go:89-93 | Index 4 passes the `>` guard and panics. For every other byte the code as written agrees with the corrected EncodingForIndex. |
| EncodedBytes.EncodingForIndex | encodedbytes/util.go:87-94 | Corrected guard. Every byte names a table entry: indices 0-3 select their entry and all others fall back to "ISO-8859-1". |
| EncodedBytes.IndexFrom | encodedbytes/util.go:97-103 | The scan from position i returns the first matching position at or after i. If nothing matches it returns 0. |
| EncodedBytes.IndexForEncoding | encodedbytes/util.go:96-104 | Returns a valid index. It is the first index whose name matches, or 0 when the name is not in the table. |
| EncodedBytes.NameIndexRoundTrip | encodedbytes/util.go:87-104 | EncodingForIndex(IndexForEncoding(e)) == e for every table name e. |
| EncodedBytes.IndexNameRoundTrip | encodedbytes/util.go:87-104 | IndexForEncoding(EncodingForIndex(i)) == i for every index 0-3, because the names are distinct. |
| EncodedBytes.WideEncodings | encodedbytes/util.go:107-109 | The two-byte scan is chosen exactly for encoding bytes 1 and 2. |
| EncodedBytes.ScanUnits | encodedbytes/util.go:110-120 | The aligned-unit loop returns -1 only when no aligned zero unit exists. Otherwise it returns the even offset just past the first aligned 00 00 unit. |
| EncodedBytes.IndexByteFrom | encodedbytes/util.go:122 | bytes.IndexByte returns the first position holding the byte, or -1 when none does. |
| EncodedBytes.AfterNullIndex | encodedbytes/util.go:106-128 | The result is -1 or lies in 1..len(data). For UTF-16 and UTF-16BE it is even, data[r-2..r] is 00 00, and no earlier aligned unit is all zero; -1 means no aligned unit is. For the other encodings r-1 is the first zero byte, and -1 means there is none. |
| EncodedBytes.TrailingOddByteIgnored | encodedbytes/util.go:110-120 | For UTF-16 and UTF-16BE, a trailing odd byte never changes the result. |
| Id3v24.ReadFull | v2/id3v24.go:23-53 | Both `io.ReadFull` calls: the header read (lines 23-26) and the body read (lines 50-53). Yields count bytes followed by the rest exactly when the stream holds count bytes. Otherwise the stream is left drained. |
| Id3v24.ParseV24Frame | v2/id3v24.go:22-56 | Fewer than 10 bytes: no frame and a drained stream. No frame is produced unless the synchsafe size in bytes 4-7 decodes, is nonzero, and fits in the stream. When it does, the result is whatever the constructor returns (possibly no frame, like a nil Framer); the constructor gets the table's descriptor for bytes 0-3 (or the "Unknown frame" fallback), flags copied from bytes 8 and 9, the decoded size, and exactly the next `size` bytes. Exactly 10 + size bytes are consumed. A bad or zero size leaves the stream just past the header. A short body drains it. |
| Id3v24.V24Bytes | v2/id3v24.go:58-66 | The output is ID, then four bytes that SynchInt reads as Size mod 2^28, then both flags, then the body. Its length is len(ID) + 6 + len(body). |
| Id3v24.V24RoundTrip | v2/id3v24.go:22-66 | Take a 4-byte ID and 0 < Size = len(body) < 2^28. Parsing V24Bytes(f) ++ rest hands the constructor f's ID descriptor, flags, size and body, returns whatever the constructor makes of them, and leaves rest unread. |
| Id3v24.V24RoundTripPassThrough | v2/id3v24.go:22-66 | With a passthrough constructor (which always yields a frame) and a table whose entries carry their own IDs, the frame parsed back from V24Bytes(f) ++ rest is f itself. |
| Id3v24.ParseThenV24Bytes | v2/id3v24.go:22-66 | With a table whose entries carry their own IDs, a frame parsed with a passthrough constructor serialises back to exactly the bytes it was read from. |
| Id3v24.UnknownIdNotRejected | v2/id3v24.go:28-32 | What remains unread never depends on the table. With constructors that always yield a frame, whether a frame is produced does not depend on it either. An ID missing from the table is not rejected: the constructor is handed the descriptor (id, "Unknown frame", ParseDataFrame). |

## Left out

- `init` and the `Decoders`/`Encoders` tables (encodedbytes/util.go:27-37) are not modelled. They build iconv converters, which are foreign calls into a C library.
- `EncodedDiff` (encodedbytes/util.go:130-142) is not modelled. It measures strings transcoded by iconv, a foreign call.
- Stream read errors other than running out of bytes are not modelled. The stream is a byte sequence, so it cannot fail.
- The contents of `V23FrameTypeMap`, `V23CommonFrame` and `V23DeprecatedTypeMap` are not part of this model. `V24CommonFrame` and `V24DeprecatedTypeMap` alias them and are not used by the two functions modelled. `V24FrameTypeMap` is the `types` parameter.
- `ParseDataFrame` and the other frame constructors are not part of this model. The protocol takes the constructor as the parameter `construct`. `Id3v24.PassThrough` is only a stand-in that keeps the header fields and body; the round-trip corollaries use it.
- EncodedBytes.ByteInt: on an error the source also returns the partly accumulated integer. The model returns only the error, since callers discard the integer.
- EncodedBytes.AfterNullIndex: uses the corrected EncodingForIndex. In the source an encoding byte of 4 panics here too; see Findings.

## Findings

| source | as written | input that shows it | evidently intended | confidence | as-written member | corrected member |
|---|---|---|---|---|---|---|
| encodedbytes/util.go:89 | `encodingIndex > len(EncodingMap)` lets index 4 reach `EncodingMap[4]` in a four-entry table | encoding byte 4, e.g. `EncodingForIndex(4)` or `afterNullIndex(data, 4)` from an untrusted text frame | `>=`: index 4 falls back to entry 0 like every other out-of-range byte | high; not executed | EncodedBytes.EncodingForIndexAsWritten | EncodedBytes.EncodingForIndex |
