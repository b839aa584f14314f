# Legacy Bitcoin transaction decoder, modelled in Dafny

This project models the decoding core of `rust-transaction-decoder`.
The decoder turns the hex text of a legacy (non-witness) Bitcoin transaction into its fields:

- version;
- inputs: previous txid, output index, unlocking script, sequence;
- outputs: amount, locking script;
- lock time;
- the transaction identifier, the double SHA-256 of the raw bytes.

It does this with a cursor over the decoded bytes, `&mut &[u8]`, which each reader advances in place:

- `read_compact_size` reads Bitcoin's variable-length integer: one prefix byte, then 0, 2, 4 or 8 little-endian bytes;
- `read_u32`, `read_amount` and `read_txid` read fixed widths;
- `read_script` reads a CompactSize length, then that many bytes, rendered as lowercase hex;
- `decode` hex-decodes the input, runs the readers in wire order with two counted loops, and hashes the whole buffer.

## Layout

- `bytes.dfy`, module `Bytes`: the byte, `u32` and `u64` types.
  - `FromLE` models `from_le_bytes`.
  - `ToLE` is its inverse.
- `hex.dfy`, module `Hex`: the two `hex` crate operations the decoder uses.
  - `Encode` renders bytes as lowercase digits.
  - `Decode` refuses an odd length first, then reports the first non-hex character with its index, and accepts both letter cases.
- `cursor.dfy`, module `ByteCursor`: `Read::read` on a slice.
  - A class `Cursor` holds the buffer and the position. Its method `Read` fills a caller's array.
  - A function `ReadAt` specifies the read.
  - A strict `ExactRead` serves as the point of comparison.
- `wire.dfy`, module `Wire`: the result datatypes and one function per reader.
  - Each reader function takes a buffer and a start position and returns the value and the next position (`Step`).
  - `TransactionAt` assembles a transaction from these readers.
  - `DecodeTransaction` is the functional statement of `decode`.
- `decoder.dfy`, module `Decoder`: the readers and `decode` written as the program runs them.
  - Zeroed arrays are filled from the shared `Cursor`.
  - Two `for` loops append inputs and outputs.
  - Each method is proved equal to its `Wire` function.
- `properties.dfy`, module `WireProperties`: what the readers and the decoder promise, as lemmas over `Wire`.
- `encoder.dfy`, module `Encoder`: the partner of the decoder.
  - `Serialize` writes the legacy wire format with canonical CompactSize lengths.
  - A round-trip lemma shows that decoding a serialized transaction, followed by any trailing bytes, gives back its fields and stops where the encoding ends.

## Slice reads versus strict reads

Every reader calls `Read::read` on a slice (`src/main.rs:20,26,31,36,45,52,59,67`).
That call copies `min(n, remaining)` bytes into the zero-initialised buffer, never fails, and leaves the rest of the buffer untouched.
A strict `read_exact` would fail on a short read instead.

The model follows the slice read:

- a truncated input decodes, and the missing bytes read as zero;
- a CompactSize read on an exhausted cursor is 0 and consumes nothing;
- the text `0100000001` decodes to one all-zero input, no outputs and lock time 0 instead of failing (`WireProperties.TruncatedInputReadsAsZeros`).

The strict read exists only as `ByteCursor.ExactRead`. `ByteCursor.ExactReadAgrees` proves that it fails exactly when the slice read pads.

SHA-256 is a function parameter `sha256: seq<byte> -> Txid`, so its internals are not modelled. The model states only which bytes are hashed and that they are hashed twice.

## Model

| member | source | states |
|---|---|---|
| Bytes.FromLE | src/main.rs:47 | the little-endian value of n bytes is below 256^n |
| Bytes.FromLEAppend | src/main.rs:37 | a further, most significant byte b adds b·256^k: the value is Σ bᵢ·256ⁱ |
| Bytes.FromLEZeroPadded | src/main.rs:44-47 | zero bytes left at the end of the buffer after a short read do not change the value read |
| Bytes.FromLEToLE | src/main.rs:54 | every value below 256^n is recovered from its n little-endian bytes |
| Bytes.ToLEFromLE | src/main.rs:54 | every n-byte string is the little-endian encoding of its own value, so the reading is a bijection |
| Bytes.LittleEndianVectors | src/main.rs:160-177 | the payloads of the unit tests are worth 256, 256³, 256⁷ and 20000 |
| Hex.Encode | src/main.rs:69 | the rendering has exactly two lowercase hex digits per byte, and each digit pair is worth its byte |
| Hex.DecodeFromOk | src/main.rs:85-86 | decoding the digit pairs succeeds exactly when every character is a hex digit, and then gives one byte per pair, worth that pair |
| Hex.DecodeFromError | src/main.rs:85-86 | a failure names the first non-hex character and its index in the whole text |
| Hex.DecodeFailsIff | src/main.rs:85-86 | hex decoding fails exactly on an odd length or a non-hex character; odd length is reported first, otherwise the first bad character and its index |
| Hex.Decode | src/main.rs:85-86 | `hex::decode` fails exactly on an odd length or a non-hex character; on success it gives one byte per digit pair, worth that pair, in either letter case |
| Hex.DecodeEncode | src/main.rs:69 | decoding the rendered text of any bytes gives the bytes back |
| ByteCursor.Taken | src/main.rs:20 | a read copies min(n, remaining) bytes: all n, or everything up to the end |
| ByteCursor.ReadAt | src/main.rs:19-20 | a read into a zeroed n-byte buffer yields n bytes and advances by the bytes copied, never past the end |
| ByteCursor.ReadAtByte | src/main.rs:19-20 | byte i of a read is the buffer's byte at pos + i, or 0 past the end |
| ByteCursor.ReadAtEnd | src/main.rs:19-20 | on an exhausted slice a read yields zeros and consumes nothing |
| ByteCursor.ExactReadAgrees | src/main.rs:20 | a strict `read_exact` fails exactly when the slice read would pad; otherwise both give the same bytes and position |
| ByteCursor.Cursor.constructor | src/main.rs:87 | the cursor starts at the first byte of the whole decoded buffer |
| ByteCursor.Cursor.Read | src/main.rs:20 | copies min(n, remaining) bytes into the front of the array, leaves the rest of it untouched and advances by that count; on a zeroed array the result is `ReadAt` |
| Wire.UIntAt | src/main.rs:44-47 | a fixed-width read is below 256^width and moves the cursor exactly as the underlying read does |
| Wire.CompactSizeAt | src/main.rs:18-40 | reading a CompactSize never moves the cursor back or past the end |
| Wire.U32At | src/main.rs:43-48 | reading a u32 never moves the cursor back or past the end |
| Wire.AmountAt | src/main.rs:50-55 | reading an amount never moves the cursor back or past the end |
| Wire.TxidAt | src/main.rs:57-62 | reading a txid never moves the cursor back or past the end |
| Wire.ScriptAt | src/main.rs:64-70 | reading a script never moves the cursor back or past the end |
| Wire.InputAt | src/main.rs:97-107 | reading an input never moves the cursor back or past the end |
| Wire.InputsFrom | src/main.rs:96-108 | the input loop yields exactly `count` inputs, and the cursor stays within the buffer |
| Wire.OutputAt | src/main.rs:115-121 | reading an output never moves the cursor back or past the end |
| Wire.OutputsFrom | src/main.rs:114-122 | the output loop yields exactly `count` outputs, and the cursor stays within the buffer |
| Wire.TransactionAt | src/main.rs:89-125 | reading a whole transaction stops within the buffer |
| Wire.DecodeTransaction | src/main.rs:72-126 | decoding fails exactly when hex decoding does, with that error, so any well-formed hex text yields a transaction; otherwise the identifier is the hash applied twice to the entire decoded buffer, not to the cursor's remaining bytes |
| WireProperties.UIntAtAvailable | src/main.rs:44-47 | a fixed-width read is worth the little-endian value of the bytes actually present and advances by min(width, remaining) |
| WireProperties.CompactSizeSingleByte | src/main.rs:22-23 | a prefix byte 0–252 is the value itself, and the cursor advances by exactly one byte |
| WireProperties.CompactSizeWide | src/main.rs:24-38 | prefixes 253, 254 and 255 are followed by the little-endian value of 2, 4 and 8 further bytes, or of those present if the buffer ends early |
| WireProperties.CompactSizeAtEnd | src/main.rs:19-23 | on an exhausted cursor a CompactSize is 0 and consumes nothing |
| WireProperties.CompactSizeVectorOneByte | src/main.rs:156-158 | `[1]` decodes to 1 |
| WireProperties.CompactSizeVectorTwoBytes | src/main.rs:160-162 | `[253, 0, 1]` decodes to 256 |
| WireProperties.CompactSizeVectorFourBytes | src/main.rs:164-166 | `[254, 0, 0, 0, 1]` decodes to 256³ |
| WireProperties.CompactSizeVectorEightBytes | src/main.rs:168-170 | `[255, 0, 0, 0, 0, 0, 0, 0, 1]` decodes to 256⁷ |
| WireProperties.CompactSizeVectorFromHex | src/main.rs:172-177 | `"fd204e"` hex-decodes to `[253, 32, 78]`, which decodes to 20000 |
| WireProperties.CompactSizeNonCanonical | src/main.rs:24-27 | there is no minimal-encoding check: 1 written in the three-byte form still decodes to 1 |
| WireProperties.UIntAtEnd | src/main.rs:44-47 | past the end of the buffer a fixed-width integer is 0 and nothing is consumed |
| WireProperties.InputAtEnd | src/main.rs:97-107 | past the end of the buffer an input is all zeros with an empty script |
| WireProperties.OutputAtEnd | src/main.rs:115-121 | past the end of the buffer an output has amount 0 and an empty script |
| WireProperties.DecodeEncodedBytes | src/main.rs:84-126 | the hex text of any bytes decodes to the transaction read from those bytes, identified by their double hash |
| WireProperties.EmptyTransactionExample | src/main.rs:89-125 | the ten bytes of `01000000000000000000` read as version 1, no inputs, no outputs, lock time 0, and all ten are consumed |
| WireProperties.TruncatedInputReadsAsZeros | src/main.rs:93-108 | the five bytes of `0100000001` read as one all-zero input with an empty script, no outputs and lock time 0, without error |
| WireProperties.TxidUnreversed | src/main.rs:57-62 | the 32 txid bytes keep their wire order, with zero past the end; a full read is exactly the 32 buffer bytes |
| WireProperties.ScriptRendering | src/main.rs:64-70 | a script is lowercase hex exactly twice as long as its declared length, even when the buffer is short, and decodes back to the bytes read |
| WireProperties.DecodeCounts | src/main.rs:89-114 | a decoded transaction has as many inputs and outputs as its counts declare; the counts are read after the version and after the inputs |
| Decoder.ReadLittleEndian | src/main.rs:44-47 | filling a zeroed buffer from the cursor and composing it little-endian gives `UIntAt` and advances the cursor as it says |
| Decoder.ReadCompactSize | src/main.rs:18-40 | the value and new cursor position are those of `CompactSizeAt` at the old position |
| Decoder.ReadU32 | src/main.rs:43-48 | the value and new cursor position are those of `U32At` at the old position |
| Decoder.ReadAmount | src/main.rs:50-55 | the value and new cursor position are those of `AmountAt` at the old position |
| Decoder.ReadTxid | src/main.rs:57-62 | the value and new cursor position are those of `TxidAt` at the old position |
| Decoder.ReadScript | src/main.rs:64-70 | the value and new cursor position are those of `ScriptAt` at the old position |
| Decoder.Decode | src/main.rs:84-135 | the two counted loops and the readers produce exactly `DecodeTransaction` of the input text |
| Encoder.EncodeCompactSize | src/main.rs:18-40 | the canonical CompactSize encoding, the inverse of the reader, takes 1 to 9 bytes |
| Encoder.ReadAtMatches | src/main.rs:19-20 | where the bytes e stand in the buffer, a read of \|e\| bytes returns e and advances past them |
| Encoder.UIntAtMatches | src/main.rs:44-47 | a fixed-width read of the little-endian encoding of v returns v |
| Encoder.CompactSizeAtMatches | src/main.rs:18-40 | reading the canonical CompactSize encoding of v returns v and stops at its end |
| Encoder.ScriptAtMatches | src/main.rs:64-70 | reading an encoded script returns its hex rendering and stops at its end |
| Encoder.InputAtMatches | src/main.rs:97-107 | reading an encoded input returns its fields and stops at its end |
| Encoder.InputsFromMatches | src/main.rs:96-108 | reading n encoded inputs returns them in order and stops at the end of the last |
| Encoder.OutputAtMatches | src/main.rs:115-121 | reading an encoded output returns its fields and stops at its end |
| Encoder.OutputsFromMatches | src/main.rs:114-122 | reading n encoded outputs returns them in order and stops at the end of the last |
| Encoder.TransactionAtMatches | src/main.rs:89-125 | a buffer laid out field by field as a transaction is read back field by field |
| Encoder.DecodeSerialized | src/main.rs:89-125 | round trip: reading a serialized transaction followed by any trailing bytes gives back its fields and stops where the encoding ends |
| Encoder.DecodeSerializedHex | src/main.rs:84-126 | decoding the hex text of a serialized transaction, with trailing bytes, gives its fields, identified by the double hash of all the bytes, trailing ones included |

## Left out

- The command line (`clap`), `main`, and printing the result or the error to standard output with a successful exit status (`src/main.rs:10-16,140-147`). These are I/O.
- JSON rendering with `serde_json::to_string_pretty` (`src/main.rs:137`). `Decoder.Decode` returns the `Transaction` value that would be rendered.
- Error-message formatting. `"Hex decode error: {}"` is modelled as `HexDecodeError(cause)`.
- The `transaction` module, which is not part of this model. It holds `Txid` and `Amount` and reverses txid bytes for display. Txids are kept in wire order.
- The SHA-256 computation (`src/main.rs:72-82`). It is foreign code and is modelled as the parameter `sha256`.
- `Wire.HashRawTransaction` is the double application of the `sha256` parameter and has no contract of its own. Which bytes it hashes is stated by `Wire.DecodeTransaction` and `Encoder.DecodeSerializedHex`.
- The `hex` crate works on the UTF-8 bytes of the string. The model works on characters. Text with non-ASCII characters can therefore differ in error kind and index.
- Allocation failure for huge declared script lengths or counts (`src/main.rs:66,96,114`). The model treats memory as unbounded.
- The `as usize` cast of a script length (`src/main.rs:65`). It is the identity on 64-bit targets and is modelled as such.
- Byte-for-byte reproduction of an input from its decoded fields. It holds only for canonical CompactSize encodings of complete input. `WireProperties.CompactSizeNonCanonical` shows that non-canonical forms decode to the same value. The round trip is proved in the other direction, `Encoder.DecodeSerialized`.
- `WireProperties.EmptyTransactionExample` and `WireProperties.TruncatedInputReadsAsZeros` are stated on the decoded bytes, not on the literal hex text. `WireProperties.DecodeEncodedBytes` links any hex rendering to its bytes.
