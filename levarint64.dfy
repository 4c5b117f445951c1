/** The `levarint64` encoder.  `encode` writes the caller's nine-byte buffer
    in place: for a value of band `n - 1` it stores one whole little-endian
    word into bytes 0..7, and for the nine-byte band it zeroes bytes 0..7 and
    then stores the value itself into bytes 1..8. */
module Levarint64 {
  import opened Word
  import opened Bands
  import opened Decoder

  // ---------------------------------------------------------------------
  // What `encode` computes.

  /** The number of bytes `encode` reports for `v`. */
  function EncodedLength(v: U64): (n: nat)
    ensures 1 <= n <= 9
  {
    BandIndex(v) + 1
  }

  /** The contents of the buffer after `encode(v, buf)`, when it held `w`
      before: for `n <= 8` the packed word's eight little-endian bytes
      followed by the untouched byte 8, otherwise a zero byte followed by
      the eight little-endian bytes of `v`. */
  function Encoded(v: U64, w: Window): (e: Window)
  {
    var n := EncodedLength(v);
    if n <= 8 then ToLE(PackedWord(n, v)) + [w[8]] else [0] + ToLE(v)
  }

  // ---------------------------------------------------------------------
  // The encoder itself.

  /** `*bytes = u64::to_le_bytes(w)` on the eight bytes of `buf` that start
      at `start` (0 for `buf[..8]`, 1 for `buf[1..9]`). */
  method StoreWord(buf: array<Byte>, start: nat, w: U64)
    requires buf.Length == 9 && start <= 1
    modifies buf
    ensures buf[..] == old(buf[..start]) + ToLE(w) + old(buf[start + 8..])
  {
    var bytes := ToLE(w);
    forall i | start <= i < start + 8 {
      buf[i] := bytes[i - start];
    }
    assert buf[..] == old(buf[..start]) + bytes + old(buf[start + 8..]);
  }

  /** `inner_encode::<n>`: take the band offset off, make room for the
      terminating one bit, set it, shift above the `n - 1` marker zeros and
      store the word into `buf[..8]`.  The caller's byte 8 is not touched. */
  method InnerEncode(n: nat, value: U64, buf: array<Byte>) returns (r: nat)
    requires 1 <= n <= 8 && buf.Length == 9 && Offset(n - 1) <= value
    modifies buf
    ensures r == n
    ensures buf[..] == ToLE(PackedWord(n, value)) + [old(buf[8])]
  {
    var x := value - Offset(n - 1);
    ShlOneEven(x);
    x := Shl(x, 1);
    x := x + 1;
    x := Shl(x, n - 1);
    StoreWord(buf, 0, x);
    assert old(buf[8..]) == [old(buf[8])];
    r := n;
  }

  /** `encode`: select the band by the value's range and write it. */
  method Encode(value: U64, buf: array<Byte>) returns (n: nat)
    requires buf.Length == 9
    modifies buf
    ensures n == EncodedLength(value)
    ensures buf[..] == Encoded(value, old(buf[..]))
  {
    if value <= Offset1 - 1 {
      n := InnerEncode(1, value, buf);
    } else if value <= Offset2 - 1 {
      n := InnerEncode(2, value, buf);
    } else if value <= Offset3 - 1 {
      n := InnerEncode(3, value, buf);
    } else if value <= Offset4 - 1 {
      n := InnerEncode(4, value, buf);
    } else if value <= Offset5 - 1 {
      n := InnerEncode(5, value, buf);
    } else if value <= Offset6 - 1 {
      n := InnerEncode(6, value, buf);
    } else if value <= Offset7 - 1 {
      n := InnerEncode(7, value, buf);
    } else if value <= Offset8 - 1 {
      n := InnerEncode(8, value, buf);
    } else {
      EncodedLengthIff(value, 9);
      StoreWord(buf, 0, 0);
      StoreWord(buf, 1, value);
      n := 9;
    }
  }

  // ---------------------------------------------------------------------
  // The length.

  /** `encode` reports `n <= 8` exactly for the values of band `n - 1`, and
      9 exactly for the values from `OFFSET8` on. */
  lemma EncodedLengthIff(v: U64, n: nat)
    requires 1 <= n <= 9
    ensures EncodedLength(v) == n <==> Offset(n - 1) <= v && (n <= 8 ==> v < Offset(n))
  {
    BandIndexIff(v, n - 1);
  }

  /** A larger value never gets a shorter encoding. */
  lemma EncodedLengthMonotone(v: U64, u: U64)
    requires v <= u
    ensures EncodedLength(v) <= EncodedLength(u)
  {
    BandIndexMonotone(v, u);
  }

  // ---------------------------------------------------------------------
  // The layout of the written buffer.

  /** A short encoding: bytes 0..7 are the little-endian bytes of
      `((v - OFFSET[n-1]) * 2 + 1) << (n - 1)`, bytes `n..7` are zero and
      byte 8 keeps what the buffer held. */
  lemma EncodedShort(v: U64, w: Window, n: nat)
    requires n == EncodedLength(v) <= 8
    ensures LEValue(Encoded(v, w)[..8]) == (2 * (v - Offset(n - 1)) + 1) * Pow2(n - 1)
    ensures forall i :: n <= i < 8 ==> Encoded(v, w)[i] == 0
    ensures Encoded(v, w)[8] == w[8]
  {
    EncodedShortWord(v, w, n, PackedWord(n, v));
    PackedWordIs(n, v);
  }

  lemma EncodedShortWord(v: U64, w: Window, n: nat, p: U64)
    requires n == EncodedLength(v) <= 8 && p == PackedWord(n, v)
    ensures Encoded(v, w)[..8] == ToLE(p) && LEValue(ToLE(p)) == p
    ensures forall i :: n <= i < 8 ==> Encoded(v, w)[i] == 0
    ensures Encoded(v, w)[8] == w[8]
  {
    assert Encoded(v, w)[..8] == ToLE(p);
    FromToLE(p);
    PackedWordFits(n, v);
    ToLEHigh(p, n);
  }

  /** The nine-byte encoding: byte 0 is zero and bytes 1..8 are the
      little-endian bytes of `v`. */
  lemma EncodedLong(v: U64, w: Window)
    requires EncodedLength(v) == 9
    ensures Encoded(v, w)[0] == 0
    ensures Encoded(v, w)[1..] == ToLE(v)
    ensures FromLE(Encoded(v, w)[1..]) == v
  {
    assert Encoded(v, w)[1..] == ToLE(v);
    FromToLE(v);
  }

  // ---------------------------------------------------------------------
  // Round trips.

  /** `decode` reads back what `encode` wrote, with the length `encode`
      reported, whatever the buffer held before. */
  lemma RoundTrip(v: U64, w: Window)
    ensures Decode(Encoded(v, w)) == (v, EncodedLength(v))
  {
    var n := EncodedLength(v);
    if n <= 8 {
      var p := PackedWord(n, v);
      EncodedShortWord(v, w, n, p);
      DecodePacked(n, v, Encoded(v, w));
    } else {
      EncodedLong(v, w);
      DecodeLong(Encoded(v, w));
    }
  }

  /** A window whose low eight bytes hold the packed word of a value of
      band `n - 1` decodes to that value and length `n`. */
  lemma DecodePacked(n: nat, v: U64, e: Window)
    requires 1 <= n <= 8 && Offset(n - 1) <= v < Offset(n)
    requires e[..8] == ToLE(PackedWord(n, v))
    ensures Decode(e) == (v, n)
  {
    FromToLE(PackedWord(n, v));
    assert LowEight(e) == PackedWord(n, v);
    PackedWordMarker(n, v);
    InnerDecodePacked(n, v);
  }

  /** The other direction: re-encoding what `decode` read gives back the
      consumed bytes, with the same length, unless the bytes were a
      supernormal nine-byte form of a value below `OFFSET8`. */
  lemma DecodeThenEncode(w: Window)
    ensures Decode(w).1 <= 8 ==> EncodedLength(Decode(w).0) == Decode(w).1
    ensures Decode(w).1 <= 8 ==> Encoded(Decode(w).0, w)[..Decode(w).1] == w[..Decode(w).1]
    ensures Decode(w).1 == 9 && Offset(8) <= Decode(w).0 ==> Encoded(Decode(w).0, w) == w
    ensures Decode(w).1 == 9 && Decode(w).0 < Offset(8) ==> EncodedLength(Decode(w).0) < 9
  {
    var x, n := Decode(w).0, Decode(w).1;
    if n <= 8 {
      ReencodeShort(w, x, n);
    } else {
      EncodedLengthIff(x, 9);
      if Offset(8) <= x {
        DecodeLength(w);
        DecodeLong(w);
        ToFromLE(w[1..]);
        assert w == [0] + w[1..];
      }
    }
  }

  lemma ReencodeShort(w: Window, x: U64, n: nat)
    requires x == Decode(w).0 && n == Decode(w).1 <= 8
    ensures EncodedLength(x) == n && Encoded(x, w)[..n] == w[..n]
  {
    DecodeLength(w);
    EncodedLengthIff(x, n);
    var p := PackedWord(n, x);
    PackedWordIs(n, x);
    DecodeShortForm(w);
    assert LEValue(w[..n]) == p;
    EncodedShortWord(x, w, n, p);
    WordPrefix(Encoded(x, w), p, n);
    LEValueBytes(w[..n]);
  }

  /** The first `n` bytes of a stored word below 2^(8n). */
  lemma WordPrefix(e: Window, p: U64, n: nat)
    requires n <= 8 && e[..8] == ToLE(p) && p < Pow2(8 * n)
    ensures e[..n] == LEBytes(p, n)
  {
    LEBytesHigh(p, n, 8);
    assert e[..n] == e[..8][..n];
  }

  // ---------------------------------------------------------------------
  // The encoding test vectors.  Each states the whole buffer after the
  // write, for any earlier contents of byte 8, which is kept for `n <= 8`.

  /** A short form checked against the expected bytes 0..7, `low`. */
  lemma EncodeKnown(v: U64, w: Window, n: nat, low: seq<Byte>, b: nat, q: nat)
    requires 1 <= n <= 8 && Offset(n - 1) <= v < Offset(n) && |low| == 8
    requires b == v - Offset(n - 1) && q == Pow2(n - 1) && LEValue(low) == (2 * b + 1) * q
    ensures EncodedLength(v) == n && Encoded(v, w)[..8] == low && Encoded(v, w)[8] == w[8]
  {
    EncodedLengthIff(v, n);
    var p := PackedWord(n, v);
    PackedWordWith(n, v, b, q);
    assert Encoded(v, w)[..8] == ToLE(p);
    LEValueBytes(low);
  }

  /** Zero, the first one-byte value. */
  lemma EncodeZero(v: U64, w: Window)
    requires v == 0
    ensures EncodedLength(v) == 1
    ensures Encoded(v, w)[..8] == [0x01, 0, 0, 0, 0, 0, 0, 0] && Encoded(v, w)[8] == w[8]
  {
    LEValueEight([0x01, 0, 0, 0, 0, 0, 0, 0]);
    EncodeKnown(v, w, 1, [0x01, 0, 0, 0, 0, 0, 0, 0], 0, 1);
  }

  /** One in one byte. */
  lemma EncodeOne(v: U64, w: Window)
    requires v == 1
    ensures EncodedLength(v) == 1
    ensures Encoded(v, w)[..8] == [0x03, 0, 0, 0, 0, 0, 0, 0] && Encoded(v, w)[8] == w[8]
  {
    LEValueEight([0x03, 0, 0, 0, 0, 0, 0, 0]);
    EncodeKnown(v, w, 1, [0x03, 0, 0, 0, 0, 0, 0, 0], 1, 1);
  }

  /** 127, the last one-byte value (`OFFSET1 - 1`). */
  lemma Encode127(v: U64, w: Window)
    requires v == 127
    ensures EncodedLength(v) == 1
    ensures Encoded(v, w)[..8] == [0xFF, 0, 0, 0, 0, 0, 0, 0] && Encoded(v, w)[8] == w[8]
  {
    LEValueEight([0xFF, 0, 0, 0, 0, 0, 0, 0]);
    EncodeKnown(v, w, 1, [0xFF, 0, 0, 0, 0, 0, 0, 0], 127, 1);
  }

  /** `OFFSET1`, the first two-byte value. */
  lemma EncodeOffset1(v: U64, w: Window)
    requires v == 128
    ensures EncodedLength(v) == 2
    ensures Encoded(v, w)[..8] == [0x02, 0x00, 0, 0, 0, 0, 0, 0] && Encoded(v, w)[8] == w[8]
  {
    LEValueEight([0x02, 0x00, 0, 0, 0, 0, 0, 0]);
    EncodeKnown(v, w, 2, [0x02, 0x00, 0, 0, 0, 0, 0, 0], 0, 2);
  }

  /** `OFFSET1 + 1` in two bytes. */
  lemma EncodeOffset1Plus1(v: U64, w: Window)
    requires v == 129
    ensures EncodedLength(v) == 2
    ensures Encoded(v, w)[..8] == [0x06, 0x00, 0, 0, 0, 0, 0, 0] && Encoded(v, w)[8] == w[8]
  {
    LEValueEight([0x06, 0x00, 0, 0, 0, 0, 0, 0]);
    EncodeKnown(v, w, 2, [0x06, 0x00, 0, 0, 0, 0, 0, 0], 1, 2);
  }

  /** `OFFSET2 - 1`, the last two-byte value. */
  lemma EncodeOffset2Less1(v: U64, w: Window)
    requires v == 16_511
    ensures EncodedLength(v) == 2
    ensures Encoded(v, w)[..8] == [0xFE, 0xFF, 0, 0, 0, 0, 0, 0] && Encoded(v, w)[8] == w[8]
  {
    LEValueEight([0xFE, 0xFF, 0, 0, 0, 0, 0, 0]);
    EncodeKnown(v, w, 2, [0xFE, 0xFF, 0, 0, 0, 0, 0, 0], 0x3FFF, 2);
  }

  /** `OFFSET2`, the first three-byte value. */
  lemma EncodeOffset2(v: U64, w: Window)
    requires v == 16_512
    ensures EncodedLength(v) == 3
    ensures Encoded(v, w)[..8] == [0x04, 0x00, 0x00, 0, 0, 0, 0, 0] && Encoded(v, w)[8] == w[8]
  {
    LEValueEight([0x04, 0x00, 0x00, 0, 0, 0, 0, 0]);
    EncodeKnown(v, w, 3, [0x04, 0x00, 0x00, 0, 0, 0, 0, 0], 0, 4);
  }

  /** `OFFSET2 + 1` in three bytes. */
  lemma EncodeOffset2Plus1(v: U64, w: Window)
    requires v == 16_513
    ensures EncodedLength(v) == 3
    ensures Encoded(v, w)[..8] == [0x0C, 0x00, 0x00, 0, 0, 0, 0, 0] && Encoded(v, w)[8] == w[8]
  {
    LEValueEight([0x0C, 0x00, 0x00, 0, 0, 0, 0, 0]);
    EncodeKnown(v, w, 3, [0x0C, 0x00, 0x00, 0, 0, 0, 0, 0], 1, 4);
  }

  /** `OFFSET3 - 1`, the last three-byte value. */
  lemma EncodeOffset3Less1(v: U64, w: Window)
    requires v == Offset3 - 1
    ensures EncodedLength(v) == 3
    ensures Encoded(v, w)[..8] == [0xFC, 0xFF, 0xFF, 0, 0, 0, 0, 0] && Encoded(v, w)[8] == w[8]
  {
    LEValueEight([0xFC, 0xFF, 0xFF, 0, 0, 0, 0, 0]);
    EncodeKnown(v, w, 3, [0xFC, 0xFF, 0xFF, 0, 0, 0, 0, 0], 0x1F_FFFF, 4);
  }

  /** `OFFSET6` in seven bytes. */
  lemma EncodeOffset6(v: U64, w: Window)
    requires v == Offset6
    ensures EncodedLength(v) == 7
    ensures Encoded(v, w)[..8] == [0x40, 0, 0, 0, 0, 0, 0, 0] && Encoded(v, w)[8] == w[8]
  {
    LEValueEight([0x40, 0, 0, 0, 0, 0, 0, 0]);
    EncodeKnown(v, w, 7, [0x40, 0, 0, 0, 0, 0, 0, 0], 0, 64);
  }

  /** `OFFSET6 + 1` in seven bytes. */
  lemma EncodeOffset6Plus1(v: U64, w: Window)
    requires v == Offset6 + 1
    ensures EncodedLength(v) == 7
    ensures Encoded(v, w)[..8] == [0xC0, 0, 0, 0, 0, 0, 0, 0] && Encoded(v, w)[8] == w[8]
  {
    LEValueEight([0xC0, 0, 0, 0, 0, 0, 0, 0]);
    EncodeKnown(v, w, 7, [0xC0, 0, 0, 0, 0, 0, 0, 0], 1, 64);
  }

  /** `OFFSET7 - 1` in seven bytes. */
  lemma EncodeOffset7Less1(v: U64, w: Window)
    requires v == Offset7 - 1
    ensures EncodedLength(v) == 7
    ensures Encoded(v, w)[..8] == [0xC0, 0xFF, 0xFF, 0xFF, 0xFF, 0xFF, 0xFF, 0] && Encoded(v, w)[8] == w[8]
  {
    LEValueEight([0xC0, 0xFF, 0xFF, 0xFF, 0xFF, 0xFF, 0xFF, 0]);
    EncodeKnown(v, w, 7, [0xC0, 0xFF, 0xFF, 0xFF, 0xFF, 0xFF, 0xFF, 0], 0x1_FFFF_FFFF_FFFF, 64);
  }

  /** `OFFSET7` in eight bytes. */
  lemma EncodeOffset7(v: U64, w: Window)
    requires v == Offset7
    ensures EncodedLength(v) == 8
    ensures Encoded(v, w)[..8] == [0x80, 0, 0, 0, 0, 0, 0, 0] && Encoded(v, w)[8] == w[8]
  {
    LEValueEight([0x80, 0, 0, 0, 0, 0, 0, 0]);
    EncodeKnown(v, w, 8, [0x80, 0, 0, 0, 0, 0, 0, 0], 0, 128);
  }

  /** `OFFSET7 + 1` in eight bytes. */
  lemma EncodeOffset7Plus1(v: U64, w: Window)
    requires v == Offset7 + 1
    ensures EncodedLength(v) == 8
    ensures Encoded(v, w)[..8] == [0x80, 0x01, 0, 0, 0, 0, 0, 0] && Encoded(v, w)[8] == w[8]
  {
    LEValueEight([0x80, 0x01, 0, 0, 0, 0, 0, 0]);
    EncodeKnown(v, w, 8, [0x80, 0x01, 0, 0, 0, 0, 0, 0], 1, 128);
  }

  /** `OFFSET8 - 1` in eight bytes. */
  lemma EncodeOffset8Less1(v: U64, w: Window)
    requires v == Offset8 - 1
    ensures EncodedLength(v) == 8
    ensures Encoded(v, w)[..8] == [0x80, 0xFF, 0xFF, 0xFF, 0xFF, 0xFF, 0xFF, 0xFF] && Encoded(v, w)[8] == w[8]
  {
    LEValueEight([0x80, 0xFF, 0xFF, 0xFF, 0xFF, 0xFF, 0xFF, 0xFF]);
    EncodeKnown(v, w, 8, [0x80, 0xFF, 0xFF, 0xFF, 0xFF, 0xFF, 0xFF, 0xFF], 0xFF_FFFF_FFFF_FFFF, 128);
  }

  /** A nine-byte form checked against the expected bytes 1..8. */
  lemma EncodeKnownLong(v: U64, w: Window, bytes: seq<Byte>)
    requires Offset(8) <= v && |bytes| == 8 && LEValue(bytes) == v
    ensures EncodedLength(v) == 9 && Encoded(v, w) == [0] + bytes
  {
    EncodedLengthIff(v, 9);
    LEValueBytes(bytes);
  }

  /** `OFFSET8`, the first nine-byte value. */
  lemma EncodeOffset8(v: U64, w: Window)
    requires v == Offset8
    ensures EncodedLength(v) == 9 && Encoded(v, w) == [0, 0x80, 0x40, 0x20, 0x10, 0x08, 0x04, 0x02, 0x01]
  {
    LEValueEight([0x80, 0x40, 0x20, 0x10, 0x08, 0x04, 0x02, 0x01]);
    EncodeKnownLong(v, w, [0x80, 0x40, 0x20, 0x10, 0x08, 0x04, 0x02, 0x01]);
  }

  /** `OFFSET8 + 1` in nine bytes. */
  lemma EncodeOffset8Plus1(v: U64, w: Window)
    requires v == Offset8 + 1
    ensures EncodedLength(v) == 9 && Encoded(v, w) == [0, 0x81, 0x40, 0x20, 0x10, 0x08, 0x04, 0x02, 0x01]
  {
    LEValueEight([0x81, 0x40, 0x20, 0x10, 0x08, 0x04, 0x02, 0x01]);
    EncodeKnownLong(v, w, [0x81, 0x40, 0x20, 0x10, 0x08, 0x04, 0x02, 0x01]);
  }

  /** `u64::MAX` in nine bytes. */
  lemma EncodeMax(v: U64, w: Window)
    requires v == U64Limit - 1
    ensures EncodedLength(v) == 9 && Encoded(v, w) == [0, 0xFF, 0xFF, 0xFF, 0xFF, 0xFF, 0xFF, 0xFF, 0xFF]
  {
    LEValueEight([0xFF, 0xFF, 0xFF, 0xFF, 0xFF, 0xFF, 0xFF, 0xFF]);
    EncodeKnownLong(v, w, [0xFF, 0xFF, 0xFF, 0xFF, 0xFF, 0xFF, 0xFF, 0xFF]);
  }
}
