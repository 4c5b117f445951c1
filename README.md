# levarint: a verified model of the `u64` variable-length integer codec

The repository has two Rust crates, `levarint64` and `levarint`. Both encode a
`u64` into 1 to 9 bytes of a caller's 9-byte buffer and decode it back.

- **Length marker.** The low bits of byte 0 hold a unary length marker: an
  `n`-byte encoding (`n <= 8`) has `n - 1` trailing zero bits, then a one
  bit.
- **Bias.** The value is stored minus the offset of its band
  (`OFFSET0 .. OFFSET8`), so length `n` covers `[OFFSET[n-1], OFFSET[n])`
  and carries `7n` payload bits.
- **Nine-byte form.** Byte 0 is zero, and bytes 1..8 hold the value
  little-endian.

The decoder is the same text in both crates. The encoders differ.
`levarint64` stores whole little-endian words. `levarint` stores bytes one at
a time, and it has two slips (see "## Findings").

The project is written in Dafny. A `u64` is a `nat` below 2^64. Each shift is
written out: `<<` doubles modulo 2^64, `>>` halves. The caller's buffer is a
9-element `array` for the encoders, and a 9-element sequence (`Window`) for
the decoder and the specifications.

- `word.dfy` (module `Word`): powers of two, the shifts, little-endian
  bytes, `trailing_zeros`.
- `bands.dfy` (module `Bands`): the offset and shift tables, the band of a
  value, and the word `inner_encode` packs.
- `decoder.dfy` (module `Decoder`): `u64_from_low_eight`,
  `u64_from_high_eight`, `inner_decode`, `decode`, and the decoding test
  vectors.
- `levarint64.dfy` (module `Levarint64`): that crate's `inner_encode` and
  `encode` as methods on the buffer. Each method is proved against a
  specification function. The file also proves the round trip, the layout of
  the buffer, and the encoding test vectors.
- `levarint.dfy` (module `Levarint`): that crate's `u64_to_slice`,
  `inner_encode` and `encode`, as written. The file states exactly what they
  store and which values still come back. It also holds the corrected
  encoder, proved equal to `levarint64`'s.

`RIGHTS[n-1]` is `LEFTS[n-1] + n` (levarint64/src/lib.rs:28-29), so the
right shift in `inner_decode` drops the `n - 1` marker zeros and the
terminator bit together. `levarint`'s encoder gives back exactly the values
`Levarint.RoundTripIff` lists: 0..191, 16 512..16 543,
OFFSET3..OFFSET3 + 15 and OFFSET7.

## Model

| member | source | states |
|---|---|---|
| `Bands.Offset` | levarint64/src/lib.rs:6-15 | `OFFSETk` for `k <= 8`, which is `OFFSETS[k]` for `k < 8` and always below 2^64 |
| `Bands.OffsetValues` | levarint64/src/lib.rs:6-15 | the offsets are 0, 128, 16 512, 2 113 664, 270 549 120, 34 630 287 488, 4 432 676 798 592, 567 382 630 219 904 and 72 624 976 668 147 840, the values the tests assert |
| `Bands.OffsetStep` | levarint64/src/lib.rs:7-14 | `OFFSETk = OFFSET(k-1) + 2^(7k)`, and every offset is below 2^64 |
| `Bands.OffsetsIncrease` | levarint64/src/lib.rs:6-15 | the offsets strictly increase, so the bands are disjoint and non-empty |
| `Bands.ShiftTables` | levarint64/src/lib.rs:28-29 | `LEFTS[n-1] = 8(8-n)` and `RIGHTS[n-1] = LEFTS[n-1] + n` |
| `Bands.BandIndex` | levarint64/src/lib.rs:94-104 | the arm the range match selects: band `k < 8` holds exactly `[OFFSETk, OFFSET(k+1))`, band 8 holds the values from `OFFSET8` on |
| `Bands.BandIndexIff` | levarint64/src/lib.rs:94-104 | a value lies in band `k` if and only if it lies in that band's range |
| `Bands.BandIndexMonotone` | levarint64/src/lib.rs:94-104 | a larger value never falls in a lower band |
| `Bands.Pack` | levarint64/src/lib.rs:80-82 | `value <<= 1; value += 1; value <<= n - 1` on the biased value, with `u64` wrap-around (closed form in `Bands.PackIs`) |
| `Bands.PackedWord` | levarint64/src/lib.rs:79-82 | the word `inner_encode::<n>` computes: `value - OFFSETS[n-1]`, then `Bands.Pack` (meaning in `Bands.PackedWordIs`) |
| `Bands.PackedWordFits` | levarint64/src/lib.rs:79-82 | within its band, `v - OFFSET[n-1] < 2^(7n)` and the packed word is below 2^(8n) |
| `Bands.PackedWordIs` | levarint64/src/lib.rs:79-82 | `inner_encode`'s arithmetic loses no bit: the word is `((v - OFFSET[n-1]) * 2 + 1) * 2^(n-1)` |
| `Bands.PackIs` | levarint64/src/lib.rs:80-82 | shifting a payload of at most `7n` bits left by one, adding one and shifting by `n - 1` is `(2b + 1) * 2^(n-1) < 2^(8n)` |
| `Bands.PackPayload` | levarint64/src/lib.rs:80-82 | keeping the low `n` bytes of a packed word changes nothing, and dropping its low `n` bits gives the payload back |
| `Bands.PackedWordMarker` | levarint64/src/lib.rs:80-82 | the packed word's lowest set bit is bit `n - 1` |
| `Word.Shl` | levarint64/src/lib.rs:34 | `x << k` on `u64`: `k` doublings, each dropping the bit past bit 63 (closed form in `Word.ShlIs`) |
| `Word.Shr` | levarint64/src/lib.rs:38 | `x >> k`: `k` halvings; the result is never above `x` (closed form in `Word.ShrIs`) |
| `Word.LowByte` | levarint/src/lib.rs:79-86 | `x as u8`: the low eight bits (`Word.ShlLowByte`, `Word.ShrByte` say what it yields on shifted words) |
| `Word.FromLE` | levarint64/src/lib.rs:45 | `u64::from_le_bytes`: eight bytes, byte `i` weighed by 256^i, always below 2^64 (inverse of `Word.ToLE` by `Word.FromToLE`, `Word.ToFromLE`) |
| `Word.ToLE` | levarint64/src/lib.rs:84 | `u64::to_le_bytes`: eight bytes, least significant first (inverse of `Word.FromLE`) |
| `Word.ShlIs` | levarint64/src/lib.rs:34 | `x << k` is `x * 2^k` modulo 2^64 |
| `Word.ShrIs` | levarint64/src/lib.rs:38 | `x >> k` is `x / 2^k` |
| `Word.ShlLowByte` | levarint/src/lib.rs:80-86 | `(x << k) as u8` is 0 for every `k` from 8 to 63 |
| `Word.ShrByte` | levarint/src/lib.rs:80-86 | `(x >> 8i) as u8` is byte `i` of `x`'s little-endian form |
| `Word.FromToLE` | levarint64/src/lib.rs:43-51 | reading back the little-endian bytes of a word gives the word |
| `Word.ToFromLE` | levarint64/src/lib.rs:84 | writing the word read from eight bytes gives those bytes |
| `Word.TrailingZeros` | levarint64/src/lib.rs:57 | `trailing_zeros` is at most 64, and is 64 exactly for the zero word |
| `Word.TrailingZerosSpec` | levarint64/src/lib.rs:57 | the word is a multiple of 2^tz, and when `tz < 64` bit `tz` is set |
| `Word.TrailingZerosIs` | levarint64/src/lib.rs:57 | a word whose low `j` bits are clear and whose bit `j` is set has exactly `j` trailing zeros |
| `Word.TrailingZerosWithinSpec` | levarint64/src/lib.rs:57-68 | the count capped at `k` names the lowest set bit below `k`, and equals `k` exactly when the low `k` bits are clear |
| `Decoder.LowEight` | levarint64/src/lib.rs:43-46 | `u64_from_low_eight`: bytes 0..7 read as a little-endian word (meaning in `Decoder.WordReads`) |
| `Decoder.HighEight` | levarint64/src/lib.rs:48-51 | `u64_from_high_eight`: bytes 1..8 read as a little-endian word (meaning in `Decoder.WordReads`) |
| `Decoder.WordReads` | levarint64/src/lib.rs:43-51 | for every window, the low word is bytes 0..7 with byte `i` weighed by 256^i, and the high word is bytes 1..8 weighed the same way |
| `Decoder.WordReadsVectors` | levarint64/src/lib.rs:125-130 | the four `test_u64_from_x` vectors: low words 0, 1 and 256, high word 1 |
| `Decoder.Unpack` | levarint64/src/lib.rs:32-38 | the two shifts of `inner_decode::<n>`, `LEFTS[n-1]` left then `RIGHTS[n-1]` right (closed form in `Decoder.UnpackIs`, bound in `Decoder.UnpackFits`) |
| `Decoder.UnpackFits` | levarint64/src/lib.rs:32-38 | at most `7n` payload bits survive the two shifts |
| `Decoder.InnerDecode` | levarint64/src/lib.rs:31-41 | `inner_decode::<n>` always returns a value of band `n - 1` |
| `Decoder.UnpackIs` | levarint64/src/lib.rs:31-39 | the two shifts keep the low `n` bytes and drop the low `n` bits: `(x mod 2^(8n)) / 2^n` |
| `Decoder.InnerDecodeIs` | levarint64/src/lib.rs:31-41 | `inner_decode::<n>(x)` is `(x mod 2^(8n)) / 2^n + OFFSET[n-1]` |
| `Decoder.InnerDecodePacked` | levarint64/src/lib.rs:31-41 | `inner_decode::<n>` inverts `inner_encode::<n>` on band `n - 1` |
| `Decoder.Decode` | levarint64/src/lib.rs:53-74 | `decode` reports a length in 1..9, and for a length `n <= 8` a value of band `n - 1` |
| `Decoder.DecodeLength` | levarint64/src/lib.rs:55-68 | the length is 9 exactly when byte 0 is zero, and otherwise one more than byte 0's trailing zeros |
| `Decoder.DecodeShort` | levarint64/src/lib.rs:59-67 | for `n <= 8` the value is the first `n` bytes, read little-endian, divided by 2^n, plus `OFFSET[n-1]` |
| `Decoder.DecodeLong` | levarint64/src/lib.rs:68-72 | when byte 0 is zero, `decode` returns bytes 1..8 read little-endian and 9, whatever they hold |
| `Decoder.DecodeIgnoresTail` | levarint64/src/lib.rs:31-74 | two windows that agree on the bytes `decode` consumes decode alike |
| `Decoder.DecodeShortForm` | levarint64/src/lib.rs:31-67 | the consumed bytes of a short form are exactly the word `inner_encode` would pack for the decoded value |
| `Decoder.ConsumedMarker` | levarint64/src/lib.rs:57-67 | the consumed bytes have their low `n - 1` bits clear and bit `n - 1` set |
| `Decoder.DecodeKnown` | levarint64/src/lib.rs:53-67 | a window whose first byte carries the marker of length `n` decodes to its prefix's payload plus `OFFSET[n-1]` in `n` bytes |
| `Decoder.DecodeVectorsOne` | levarint64/src/lib.rs:135-143 | `[0x01,…]`, `[0x03,…]` and `[0xFF,…]` decode to (0, 1), (1, 1) and (127, 1) |
| `Decoder.DecodeVectorsTwo` | levarint64/src/lib.rs:146-154 | `[0x02,0x00,…]`, `[0x06,0x00,…]` and `[0xFE,0xFF,…]` decode to (128, 2), (129, 2) and (16 511, 2) |
| `Decoder.DecodeVectorsThree` | levarint64/src/lib.rs:157-165 | the three-byte vectors decode to (16 512, 3), (16 513, 3) and (OFFSET3 - 1, 3) |
| `Decoder.DecodeOffset6` | levarint64/src/lib.rs:171-173 | `[0x40, 0×6, …]` decodes to (OFFSET6, 7) |
| `Decoder.DecodeOffset6Plus1` | levarint64/src/lib.rs:174-176 | `[0xC0, 0×6, …]` decodes to (OFFSET6 + 1, 7) |
| `Decoder.DecodeOffset7Less1` | levarint64/src/lib.rs:177-179 | `[0xC0, 0xFF×6, …]` decodes to (OFFSET7 - 1, 7) |
| `Decoder.DecodeOffset7` | levarint64/src/lib.rs:182-184 | `[0x80, 0×7, …]` decodes to (OFFSET7, 8) |
| `Decoder.DecodeOffset7Plus1` | levarint64/src/lib.rs:185-187 | `[0x80, 0x01, 0×6, …]` decodes to (OFFSET7 + 1, 8) |
| `Decoder.DecodeOffset8Less1` | levarint64/src/lib.rs:188-190 | `[0x80, 0xFF×7, …]` decodes to (OFFSET8 - 1, 8) |
| `Decoder.DecodeNine` | levarint64/src/lib.rs:68-72 | a zero byte followed by the little-endian bytes of any `x` decodes to (x, 9) |
| `Decoder.DecodeVectorsSupernormal` | levarint64/src/lib.rs:193-198 | the nine-byte forms of 0 and 1 are accepted: (0, 9) and (1, 9) |
| `Decoder.DecodeMax` | levarint64/src/lib.rs:199-201 | `[0x00, 0xFF×8]` decodes to (u64::MAX, 9) |
| `Levarint64.EncodedLength` | levarint64/src/lib.rs:94-116 | `encode` returns a length in 1..9 |
| `Levarint64.EncodedLengthIff` | levarint64/src/lib.rs:94-116 | `encode` returns `n <= 8` exactly for band `n - 1`, and 9 exactly from `OFFSET8` on |
| `Levarint64.EncodedLengthMonotone` | levarint64/src/lib.rs:94-116 | a larger value never gets a shorter encoding |
| `Levarint64.Encoded` | levarint64/src/lib.rs:90-117 | the buffer `encode` leaves, as a function of the value and the old buffer (layout in `Levarint64.EncodedShort`/`EncodedLong`, inverse by `Levarint64.RoundTrip`) |
| `Levarint64.StoreWord` | levarint64/src/lib.rs:84 | storing a word writes its eight little-endian bytes at the given start and changes no other byte |
| `Levarint64.InnerEncode` | levarint64/src/lib.rs:76-87 | `inner_encode::<n>` returns `n` and leaves bytes 0..7 as the packed word's little-endian bytes, byte 8 unchanged |
| `Levarint64.Encode` | levarint64/src/lib.rs:90-117 | `encode` returns `EncodedLength(v)` and leaves the buffer as `Encoded(v, old buffer)` |
| `Levarint64.EncodedShort` | levarint64/src/lib.rs:76-103 | for `n <= 8` bytes 0..7 read as `((v - OFFSET[n-1]) * 2 + 1) << (n-1)`, bytes `n..7` are zero, and byte 8 is unchanged |
| `Levarint64.EncodedShortWord` | levarint64/src/lib.rs:84 | the stored bytes are the packed word's little-endian bytes, and they read back as that word |
| `Levarint64.EncodedLong` | levarint64/src/lib.rs:104-115 | the nine-byte arm leaves byte 0 zero and bytes 1..8 the little-endian bytes of `v` |
| `Levarint64.RoundTrip` | levarint64/src/lib.rs:31-117 | `decode` after `encode(v)` returns `(v, encode's result)`, whatever the buffer held before |
| `Levarint64.DecodePacked` | levarint64/src/lib.rs:53-67 | a window holding the packed word of a band `n - 1` value decodes to that value in `n` bytes |
| `Levarint64.DecodeThenEncode` | levarint64/src/lib.rs:53-117 | re-encoding a decoded value gives the same length and the same consumed bytes, except for a supernormal nine-byte form, which re-encodes shorter |
| `Levarint64.ReencodeShort` | levarint64/src/lib.rs:53-103 | a short form decoded and re-encoded reproduces its consumed bytes and its length |
| `Levarint64.EncodeZero` | levarint64/src/lib.rs:209-210 | `encode(0)` returns 1 and writes `[0x01, 0×7]`, leaving byte 8 |
| `Levarint64.EncodeOne` | levarint64/src/lib.rs:211-212 | `encode(1)` returns 1 and writes `[0x03, 0×7]` |
| `Levarint64.Encode127` | levarint64/src/lib.rs:213-214 | `encode(127)` returns 1 and writes `[0xFF, 0×7]` |
| `Levarint64.EncodeOffset1` | levarint64/src/lib.rs:217-218 | `encode(128)` returns 2 and writes `[0x02, 0×7]` |
| `Levarint64.EncodeOffset1Plus1` | levarint64/src/lib.rs:219-220 | `encode(129)` returns 2 and writes `[0x06, 0×7]` |
| `Levarint64.EncodeOffset2Less1` | levarint64/src/lib.rs:221-222 | `encode(16 511)` returns 2 and writes `[0xFE, 0xFF, 0×6]` |
| `Levarint64.EncodeOffset2` | levarint64/src/lib.rs:225-226 | `encode(16 512)` returns 3 and writes `[0x04, 0×7]` |
| `Levarint64.EncodeOffset2Plus1` | levarint64/src/lib.rs:227-228 | `encode(16 513)` returns 3 and writes `[0x0C, 0×7]` |
| `Levarint64.EncodeOffset3Less1` | levarint64/src/lib.rs:229-230 | `encode(OFFSET3 - 1)` returns 3 and writes `[0xFC, 0xFF, 0xFF, 0×5]` |
| `Levarint64.EncodeOffset6` | levarint64/src/lib.rs:236-237 | `encode(OFFSET6)` returns 7 and writes `[0x40, 0×7]` |
| `Levarint64.EncodeOffset6Plus1` | levarint64/src/lib.rs:238-239 | `encode(OFFSET6 + 1)` returns 7 and writes `[0xC0, 0×7]` |
| `Levarint64.EncodeOffset7Less1` | levarint64/src/lib.rs:240-241 | `encode(OFFSET7 - 1)` returns 7 and writes `[0xC0, 0xFF×6, 0]` |
| `Levarint64.EncodeOffset7` | levarint64/src/lib.rs:244-245 | `encode(OFFSET7)` returns 8 and writes `[0x80, 0×7]` |
| `Levarint64.EncodeOffset7Plus1` | levarint64/src/lib.rs:246-247 | `encode(OFFSET7 + 1)` returns 8 and writes `[0x80, 0x01, 0×6]` |
| `Levarint64.EncodeOffset8Less1` | levarint64/src/lib.rs:248-249 | `encode(OFFSET8 - 1)` returns 8 and writes `[0x80, 0xFF×7]` |
| `Levarint64.EncodeOffset8` | levarint64/src/lib.rs:252-253 | `encode(OFFSET8)` returns 9 and the whole buffer is `[0x00, 0x80, 0x40, 0x20, 0x10, 0x08, 0x04, 0x02, 0x01]` |
| `Levarint64.EncodeOffset8Plus1` | levarint64/src/lib.rs:254-255 | `encode(OFFSET8 + 1)` returns 9 and the buffer is `[0x00, 0x81, 0x40, …, 0x01]` |
| `Levarint64.EncodeMax` | levarint64/src/lib.rs:256-257 | `encode(u64::MAX)` returns 9 and the buffer is `[0x00, 0xFF×8]` |
| `Levarint.SliceBytes` | levarint/src/lib.rs:79-86 | the eight bytes `u64_to_slice` stores, `(value << 8i) as u8` as written (only byte 0 non-zero, by `Levarint.SliceBytesLowOnly`) |
| `Levarint.Encoded` | levarint/src/lib.rs:103-120 | the buffer this `encode` leaves: the arm's `NUM_BYTES` is `ArmBytes[k]` = 1, 2, 3, 4, 4, 5, 6, 8 for band `k`, and the nine-byte arm stores a zero byte then `SliceBytes` (layout in `Levarint.EncodedShort`/`EncodedLong`) |
| `Levarint.EncodedLength` | levarint/src/lib.rs:100-124 | `encode` returns the arm's `NUM_BYTES` (the `ArmBytes` table 1, 2, 3, 4, 4, 5, 6, 8 of lines 103-110) or 9: a length in 1..9, and 9 exactly from `OFFSET8` on |
| `Levarint.ArmFits` | levarint/src/lib.rs:90-110 | no arm underflows: each arm's `NUM_BYTES` is in 1..8, is at most one more than the band index, and its offset is at most the value |
| `Levarint.EncodedBand` | levarint/src/lib.rs:103-110 | a value of band `k` goes to the arm passing `ArmBytes[k]` and leaves what that arm stores |
| `Levarint.U64ToSlice` | levarint/src/lib.rs:76-88 | the eight stores leave bytes 0..7 as `value as u8` followed by `(value << 8i) as u8`, and byte 8 unchanged |
| `Levarint.InnerEncode` | levarint/src/lib.rs:90-97 | `inner_encode::<n>` returns `n` and stores the bytes `u64_to_slice` takes from the packed word |
| `Levarint.StoreNine` | levarint/src/lib.rs:112-120 | the nine-byte arm stores a zero byte, then `value as u8` and `(value << 8i) as u8` |
| `Levarint.Encode` | levarint/src/lib.rs:100-124 | `encode` returns `EncodedLength(v)` and leaves the buffer as `Encoded(v, old buffer)` |
| `Levarint.SliceBytesLowOnly` | levarint/src/lib.rs:79-86 | only byte 0 of what `u64_to_slice` stores can be non-zero |
| `Levarint.PackLowByte` | levarint/src/lib.rs:91-95 | the low byte of the packed word is `(2 * (b mod 2^(8-n)) + 1) * 2^(n-1)`, whatever is shifted out above it |
| `Levarint.EncodedShort` | levarint/src/lib.rs:90-110 | below `OFFSET8` the buffer is that one marker byte, seven zero bytes and the untouched byte 8 |
| `Levarint.EncodedLong` | levarint/src/lib.rs:111-122 | from `OFFSET8` on the buffer is `[0, v mod 256, 0×7]` and the length is 9 |
| `Levarint.DecodeFirstByteOnly` | levarint/src/lib.rs:54-67 | a window whose first byte is `(2c+1) * 2^(n-1)` and whose bytes 1..7 are zero decodes to `(OFFSET[n-1] + c, n)` |
| `Levarint.DecodeEncoded` | levarint/src/lib.rs:31-124 | `decode` after this `encode` returns `Recovered(v)` and the length `encode` returned: the band offset plus the low `8 - n` payload bits, or `v mod 256` for the nine-byte form |
| `Levarint.RecoveredIff` | levarint/src/lib.rs:90-122 | `Recovered(v) == v` exactly when `v < 192`, `16 512 <= v < 16 544`, `OFFSET3 <= v < OFFSET3 + 16` or `v == OFFSET7` |
| `Levarint.RoundTripIff` | levarint/src/lib.rs:31-124 | `decode(encode(v))` is `(v, encode's result)` exactly for the values `RecoveredIff` lists |
| `Levarint.SmallValues` | levarint/src/lib.rs:90-103 | for `v < 128`, `encode` returns 1, stores `2v + 1` in byte 0 and zeros in bytes 1..7, and `decode` gives back `(v, 1)` |
| `Levarint.EncodeZeroVector` | levarint/src/lib.rs:213-216 | `encode(0)` on a zeroed buffer returns 1 and leaves `[0x01, 0×8]` |
| `Levarint.LargeValues` | levarint/src/lib.rs:111-122 | from `OFFSET8` on `encode` returns 9, byte 0 is 0, byte 1 is `v`'s low byte, and `decode` gives back only that low byte |
| `Levarint.ShortArmsLose` | levarint/src/lib.rs:107-109 | bands 4, 5 and 6 get a length one less than `levarint64`'s, and decode to a value below the band |
| `Levarint.ShortArmExample` | levarint/src/lib.rs:107 | `encode(OFFSET4)` returns 4, and `decode` reads back `(OFFSET3, 4)` |
| `Levarint.LeftShiftExample` | levarint/src/lib.rs:80-86 | `encode(192)` stores `[0x02, 0×7]`, and `decode` reads back `(128, 2)` |
| `Levarint.LeftShiftExampleLong` | levarint/src/lib.rs:113-120 | `encode(OFFSET8)` stores `[0x00, 0x80, 0×7]`, and `decode` reads back `(128, 9)` |
| `Levarint.CorrectedSliceBytes` | levarint/src/lib.rs:79-86 | with `>>` for `<<`, the eight bytes are the word's little-endian bytes |
| `Levarint.CorrectedLength` | levarint/src/lib.rs:103-110 | with `NUM_BYTES` 5, 6 and 7 in the arms for bands 4 to 6, the length is `levarint64`'s |
| `Levarint.CorrectedEncoded` | levarint/src/lib.rs:100-124 | with both corrections, the buffer `encode` leaves is exactly `levarint64`'s |
| `Levarint.CorrectedRoundTrip` | levarint/src/lib.rs:31-124 | with both corrections, `decode(encode(v))` is `(v, encode's result)` for every `v` |

## Left out

- The `#[cfg(test)] eprintln!` debug output in `levarint64`'s `inner_encode` and `encode`. It is test-only I/O.
- `try_into().unwrap()`, `drop(low64)` and `size_of`. These are borrow and slice plumbing; the model reads and writes ranges of the 9-element buffer directly.
- `levarint`'s `get_unchecked_mut` stores past the end of the sub-slice that `encode` passes. Each arm passes `buf[0..k]`, and for `k < 8` the stores at indices `k..7` are undefined behaviour in Rust. The model writes them into `buf[0..8]`, the memory they address. Every such byte is zero (`Levarint.SliceBytesLowOnly`).
- `Decoder.Decode`: the eight-arm `match` on the trailing-zero count is written as one `if count <= 7` with `n = count + 1`. The arms are all alike, so the result is the same.
- The tests call `encode` one after another on the same buffer. Every encoding lemma quantifies over the buffer's prior contents `w`, so this order is covered but not spelled out step by step.
- `no_std`, the `#[cfg(test)]` test modules as code, and `levarint`'s `test_u64_from_x` and `test_decoding`. These are the same text as in `levarint64`, and their vectors are the `Decoder` lemmas cited at `levarint64`'s lines.

## Findings

| source | as written | input that shows it | evidently intended | confidence | as-written member | corrected member |
|---|---|---|---|---|---|---|
| levarint/src/lib.rs:107-109 | the arms for bands 4, 5 and 6 call `inner_encode::<4>`, `::<5>`, `::<6>` | `encode(OFFSET4)` returns 4, and `decode` reads back `(OFFSET3, 4)` | `::<5>`, `::<6>`, `::<7>`, as in `levarint64` (lines 100-102) | high (proved, not executed) | `Levarint.ShortArmExample` (general form `Levarint.ShortArmsLose`) | `Levarint.CorrectedRoundTrip` |
| levarint/src/lib.rs:80-86, 114-120 | byte `i` is `(value << 8i) as u8`, which is always 0 | `encode(192)` stores `[0x02, 0…]`, read back as `(128, 2)`. `encode(OFFSET8)` stores `[0x00, 0x80, 0…]`, read back as `(128, 9)` | `(value >> 8i) as u8`, the little-endian bytes | high (proved, not executed) | `Levarint.LeftShiftExample` and `Levarint.LeftShiftExampleLong` (general form `Levarint.RoundTripIff`) | `Levarint.CorrectedRoundTrip` |
