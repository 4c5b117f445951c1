/** The decoder.  `inner_decode`, `u64_from_low_eight`, `u64_from_high_eight`
    and `decode` are the same text in both crates, so they are modelled once. */
module Decoder {
  import opened Word
  import opened Bands

  /** The caller's nine-byte window, `&[u8; 9]`. */
  type Window = s: seq<Byte> | |s| == 9 witness [0, 0, 0, 0, 0, 0, 0, 0, 0]

  /** `u64_from_low_eight`: bytes 0..7 read little-endian. */
  function LowEight(buf: Window): (r: U64)
  {
    FromLE(buf[..8])
  }

  /** `u64_from_high_eight`: bytes 1..8 read little-endian. */
  function HighEight(buf: Window): (r: U64)
  {
    FromLE(buf[1..])
  }

  /** Byte `i` of the low word weighs 256^i; the high word reads the same
      way starting one byte later. */
  lemma WordReads(buf: Window)
    ensures LowEight(buf) == LEValue(buf[..8])
    ensures LowEight(buf) == buf[0] as nat + 256 * (buf[1] as nat + 256 * (buf[2] as nat + 256 * (buf[3] as nat + 256 * (buf[4] as nat + 256 * (buf[5] as nat + 256 * (buf[6] as nat + 256 * (buf[7] as nat)))))))
    ensures HighEight(buf) == LEValue(buf[1..])
    ensures HighEight(buf) == buf[1] as nat + 256 * (buf[2] as nat + 256 * (buf[3] as nat + 256 * (buf[4] as nat + 256 * (buf[5] as nat + 256 * (buf[6] as nat + 256 * (buf[7] as nat + 256 * (buf[8] as nat)))))))
  {
    LEValueEight(buf[..8]);
    LEValueEight(buf[1..]);
  }

  /** The `test_u64_from_x` vectors. */
  lemma WordReadsVectors(buf: Window)
    ensures buf == [0, 0, 0, 0, 0, 0, 0, 0, 0] ==> LowEight(buf) == 0
    ensures buf == [1, 0, 0, 0, 0, 0, 0, 0, 0] ==> LowEight(buf) == 1
    ensures buf == [0, 1, 0, 0, 0, 0, 0, 0, 0] ==> LowEight(buf) == 256
    ensures buf == [0, 1, 0, 0, 0, 0, 0, 0, 0] ==> HighEight(buf) == 1
  {
    WordReads(buf);
  }

  /** The shifts of `inner_decode::<n>`: move the `n` encoded bytes to the
      top of the word, dropping the bytes above them, then shift back down
      past the length marker. */
  function Unpack(n: nat, value: U64): (r: U64)
    requires 1 <= n <= 8
  {
    Shr(Shl(value, Lefts[n - 1]), Rights[n - 1])
  }

  /** `inner_decode::<n>`: unpack and add the band offset.  The result
      always lies in band `n - 1`. */
  function InnerDecode(n: nat, value: U64): (r: U64)
    requires 1 <= n <= 8
    ensures Offset(n - 1) <= r < Offset(n)
  {
    UnpackFits(n, value);
    OffsetStep(n);
    Unpack(n, value) + Offset(n - 1)
  }

  /** At most 7n payload bits survive the two shifts. */
  lemma UnpackFits(n: nat, value: U64)
    requires 1 <= n <= 8
    ensures Unpack(n, value) < Pow2(7 * n)
  {
    var shifted := Shl(value, Lefts[n - 1]);
    ShrIs(shifted, Rights[n - 1]);
    ShiftTables(n);
    Pow2Word();
    DivPow2Bound(shifted, Rights[n - 1], 7 * n);
  }

  /** `decode`: the count of trailing zero bits of the low word selects the
      length; eight or more (byte 0 is zero) selects the nine-byte form. */
  function Decode(buf: Window): (r: (U64, nat))
    ensures 1 <= r.1 <= 9
    ensures r.1 <= 8 ==> Offset(r.1 - 1) <= r.0 < Offset(r.1)
  {
    var low := LowEight(buf);
    var zeros := TrailingZeros(low);
    if zeros <= 7 then (InnerDecode(zeros + 1, low), zeros + 1)
    else (HighEight(buf), 9)
  }

  // ---------------------------------------------------------------------
  // What `inner_decode` computes.

  /** The shifts of `inner_decode::<n>` keep the low `n` bytes of the word
      and drop the `n` marker bits below the payload. */
  lemma UnpackIs(n: nat, x: U64)
    requires 1 <= n <= 8
    ensures Unpack(n, x) == (x % Pow2(8 * n)) / Pow2(n)
  {
    var l, r := Lefts[n - 1], Rights[n - 1];
    var y := x % Pow2(8 * n);
    ShiftTables(n);
    Pow2Word();
    ShlIs(x, l);
    ShiftOutHigh(x, l, 8 * n, 64);
    var shifted := Shl(x, l);
    assert shifted == y * Pow2(l);
    ShrIs(shifted, r);
    ShiftDown(shifted, y, l, n, r);
  }

  /** `inner_decode::<n>` is the little-endian value of the low `n` bytes,
      less the marker, plus the band offset. */
  lemma InnerDecodeIs(n: nat, x: U64)
    requires 1 <= n <= 8
    ensures InnerDecode(n, x) == (x % Pow2(8 * n)) / Pow2(n) + Offset(n - 1)
  {
    UnpackIs(n, x);
  }

  /** `inner_decode::<n>` undoes the packing `inner_encode::<n>` performs on
      a value of its band. */
  lemma InnerDecodePacked(n: nat, v: U64)
    requires 1 <= n <= 8 && Offset(n - 1) <= v < Offset(n)
    ensures InnerDecode(n, PackedWord(n, v)) == v
  {
    var b := v - Offset(n - 1);
    PackedWordFits(n, v);
    UnpackPack(n, b);
    assert InnerDecode(n, Pack(n, b)) == b + Offset(n - 1);
  }

  lemma UnpackPack(n: nat, b: U64)
    requires 1 <= n <= 8 && b < Pow2(7 * n)
    ensures Unpack(n, Pack(n, b)) == b
  {
    PackPayload(n, b);
    UnpackIs(n, Pack(n, b));
  }

  // ---------------------------------------------------------------------
  // What `decode` computes.

  /** The length is fixed by byte 0 alone: nine when it is zero, otherwise
      one more than the number of trailing zero bits of byte 0. */
  lemma DecodeLength(buf: Window)
    ensures Decode(buf).1 == if buf[0] == 0 then 9 else TrailingZerosWithin(buf[0], 8) + 1
    ensures Decode(buf).1 == 9 <==> buf[0] == 0
  {
    var low := LowEight(buf);
    Pow2Eight();
    LEValuePrefix(buf[..8], 1);
    assert LEValue(buf[..8][..1]) == buf[0];
    TrailingZerosWithinMod(low, buf[0], 8);
    TrailingZerosWithinCap(low, 8, 64);
    TrailingZerosWithinSpec(buf[0], 8);
  }

  /** A short encoding: the value is the first `n` bytes read as a
      little-endian number, less the `n` marker bits, plus the band offset.
      Byte 8, and the bytes from `n` on, play no part. */
  lemma DecodeShort(buf: Window)
    requires buf[0] != 0
    ensures Decode(buf).1 <= 8
    ensures Decode(buf).0 == LEValue(buf[..Decode(buf).1]) / Pow2(Decode(buf).1) + Offset(Decode(buf).1 - 1)
  {
    DecodeLength(buf);
    var n := Decode(buf).1;
    InnerDecodeIs(n, LowEight(buf));
    LEValuePrefix(buf[..8], n);
    assert buf[..8][..n] == buf[..n];
  }

  /** Byte 0 zero: the nine-byte form, whatever the other eight bytes hold.
      Values below `OFFSET8` are accepted here too (supernormal encodings). */
  lemma DecodeLong(buf: Window)
    requires buf[0] == 0
    ensures Decode(buf) == (FromLE(buf[1..]), 9)
  {
    DecodeLength(buf);
  }

  /** Only the bytes `decode` reports as consumed matter. */
  lemma DecodeIgnoresTail(a: Window, b: Window)
    requires a[..Decode(a).1] == b[..Decode(a).1]
    ensures Decode(b) == Decode(a)
  {
    var n := Decode(a).1;
    assert a[0] == a[..n][0] == b[..n][0] == b[0];
    DecodeLength(a);
    DecodeLength(b);
    if n <= 8 {
      DecodeShort(a);
      DecodeShort(b);
      assert Decode(b).1 == n;
      assert LEValue(b[..n]) == LEValue(a[..n]);
      assert Decode(b).0 == Decode(a).0;
    } else {
      assert a == a[..9] == b[..9] == b;
    }
  }

  /** The consumed bytes of a short form are a packed word: the biased
      value, its terminating one bit and `n - 1` zero bits below it. */
  lemma DecodeShortForm(buf: Window)
    requires buf[0] != 0
    ensures Decode(buf).1 <= 8
    ensures LEValue(buf[..Decode(buf).1]) ==
              (2 * (Decode(buf).0 - Offset(Decode(buf).1 - 1)) + 1) * Pow2(Decode(buf).1 - 1)
  {
    DecodeShort(buf);
    var n := Decode(buf).1;
    ConsumedMarker(buf);
    var x := LEValue(buf[..n]);
    OddMultiple(x, Pow2(n - 1));
    assert Pow2(n) == 2 * Pow2(n - 1);
  }

  /** The consumed bytes end their low `n` bits with `n - 1` zeros and a one. */
  lemma ConsumedMarker(buf: Window)
    requires buf[0] != 0
    ensures Decode(buf).1 <= 8
    ensures LEValue(buf[..Decode(buf).1]) % Pow2(Decode(buf).1 - 1) == 0
    ensures (LEValue(buf[..Decode(buf).1]) / Pow2(Decode(buf).1 - 1)) % 2 == 1
  {
    DecodeLength(buf);
    var n := Decode(buf).1;
    var low := LowEight(buf);
    var x := LEValue(buf[..n]);
    assert TrailingZeros(low) == n - 1;
    TrailingZerosWithinCap(low, 8 * n, 64);
    LEValuePrefix(buf[..8], n);
    assert buf[..8][..n] == buf[..n];
    LEValueBound(buf[..n]);
    ModBelow(x, Pow2(8 * n));
    TrailingZerosWithinMod(x, low, 8 * n);
    TrailingZerosWithinSpec(x, 8 * n);
  }

  /** A short form whose consumed bytes are known decodes to the value
      they spell; the test vectors below go through this. */
  lemma DecodeKnown(buf: Window, n: nat, prefix: seq<Byte>, v: nat)
    requires 1 <= n <= 8 && buf[..n] == prefix && prefix[0] % Pow2(n) == Pow2(n - 1)
    requires v == LEValue(prefix) / Pow2(n) + Offset(n - 1)
    ensures Decode(buf) == (v, n)
  {
    assert buf[0] == prefix[0];
    assert Pow2(n) == 2 * Pow2(n - 1);
    MarkerBits(buf[0], Pow2(n - 1));
    LowestSetBitUnique(buf[0], 8, n - 1);
    DecodeLength(buf);
    var d := Decode(buf);
    assert d.1 == n;
    DecodeShort(buf);
    assert d.0 == LEValue(buf[..n]) / Pow2(n) + Offset(n - 1);
  }

  /** The one-byte decoding test vectors; the bytes the tests mark as
      ignored may hold anything. */
  lemma DecodeVectorsOne(buf: Window)
    ensures buf[0] == 0x01 ==> Decode(buf) == (0, 1)
    ensures buf[0] == 0x03 ==> Decode(buf) == (1, 1)
    ensures buf[0] == 0xFF ==> Decode(buf) == (127, 1)
  {
    assert buf[..1] == [buf[0]];
    if buf[0] == 0x01 {
      DecodeKnown(buf, 1, [0x01], 0);
    } else if buf[0] == 0x03 {
      DecodeKnown(buf, 1, [0x03], 1);
    } else if buf[0] == 0xFF {
      DecodeKnown(buf, 1, [0xFF], 127);
    }
  }

  /** The two-byte decoding test vectors. */
  lemma DecodeVectorsTwo(buf: Window)
    ensures buf[..2] == [0x02, 0x00] ==> Decode(buf) == (128, 2)
    ensures buf[..2] == [0x06, 0x00] ==> Decode(buf) == (129, 2)
    ensures buf[..2] == [0xFE, 0xFF] ==> Decode(buf) == (16_511, 2)
  {
    if buf[..2] == [0x02, 0x00] {
      DecodeKnown(buf, 2, [0x02, 0x00], 128);
    } else if buf[..2] == [0x06, 0x00] {
      DecodeKnown(buf, 2, [0x06, 0x00], 129);
    } else if buf[..2] == [0xFE, 0xFF] {
      DecodeKnown(buf, 2, [0xFE, 0xFF], 16_511);
    }
  }

  /** The three-byte decoding test vectors. */
  lemma DecodeVectorsThree(buf: Window)
    ensures buf[..3] == [0x04, 0x00, 0x00] ==> Decode(buf) == (16_512, 3)
    ensures buf[..3] == [0x0C, 0x00, 0x00] ==> Decode(buf) == (16_513, 3)
    ensures buf[..3] == [0xFC, 0xFF, 0xFF] ==> Decode(buf) == (Offset3 - 1, 3)
  {
    if buf[..3] == [0x04, 0x00, 0x00] {
      DecodeKnown(buf, 3, [0x04, 0x00, 0x00], 16_512);
    } else if buf[..3] == [0x0C, 0x00, 0x00] {
      DecodeKnown(buf, 3, [0x0C, 0x00, 0x00], 16_513);
    } else if buf[..3] == [0xFC, 0xFF, 0xFF] {
      DecodeKnown(buf, 3, [0xFC, 0xFF, 0xFF], Offset3 - 1);
    }
  }

  /** `OFFSET6`, the first seven-byte value. */
  lemma DecodeOffset6(buf: Window)
    requires buf[..7] == [0x40, 0, 0, 0, 0, 0, 0]
    ensures Decode(buf) == (Offset6, 7)
  {
    Pow2Eight();
    LEValueSeven([0x40, 0, 0, 0, 0, 0, 0]);
    DecodeKnown(buf, 7, [0x40, 0, 0, 0, 0, 0, 0], Offset6);
  }

  /** `OFFSET6 + 1` in seven bytes. */
  lemma DecodeOffset6Plus1(buf: Window)
    requires buf[..7] == [0xC0, 0, 0, 0, 0, 0, 0]
    ensures Decode(buf) == (Offset6 + 1, 7)
  {
    Pow2Eight();
    LEValueSeven([0xC0, 0, 0, 0, 0, 0, 0]);
    DecodeKnown(buf, 7, [0xC0, 0, 0, 0, 0, 0, 0], Offset6 + 1);
  }

  /** `OFFSET7 - 1`, the last seven-byte value. */
  lemma DecodeOffset7Less1(buf: Window)
    requires buf[..7] == [0xC0, 0xFF, 0xFF, 0xFF, 0xFF, 0xFF, 0xFF]
    ensures Decode(buf) == (Offset7 - 1, 7)
  {
    Pow2Eight();
    LEValueSeven([0xC0, 0xFF, 0xFF, 0xFF, 0xFF, 0xFF, 0xFF]);
    DecodeKnown(buf, 7, [0xC0, 0xFF, 0xFF, 0xFF, 0xFF, 0xFF, 0xFF], Offset7 - 1);
  }

  /** `OFFSET7`, the first eight-byte value. */
  lemma DecodeOffset7(buf: Window)
    requires buf[..8] == [0x80, 0, 0, 0, 0, 0, 0, 0]
    ensures Decode(buf) == (Offset7, 8)
  {
    Pow2Eight();
    LEValueEight([0x80, 0, 0, 0, 0, 0, 0, 0]);
    DecodeKnown(buf, 8, [0x80, 0, 0, 0, 0, 0, 0, 0], Offset7);
  }

  /** `OFFSET7 + 1` in eight bytes. */
  lemma DecodeOffset7Plus1(buf: Window)
    requires buf[..8] == [0x80, 0x01, 0, 0, 0, 0, 0, 0]
    ensures Decode(buf) == (Offset7 + 1, 8)
  {
    Pow2Eight();
    LEValueEight([0x80, 0x01, 0, 0, 0, 0, 0, 0]);
    DecodeKnown(buf, 8, [0x80, 0x01, 0, 0, 0, 0, 0, 0], Offset7 + 1);
  }

  /** `OFFSET8 - 1`, the last eight-byte value. */
  lemma DecodeOffset8Less1(buf: Window)
    requires buf[..8] == [0x80, 0xFF, 0xFF, 0xFF, 0xFF, 0xFF, 0xFF, 0xFF]
    ensures Decode(buf) == (Offset8 - 1, 8)
  {
    Pow2Eight();
    LEValueEight([0x80, 0xFF, 0xFF, 0xFF, 0xFF, 0xFF, 0xFF, 0xFF]);
    DecodeKnown(buf, 8, [0x80, 0xFF, 0xFF, 0xFF, 0xFF, 0xFF, 0xFF, 0xFF], Offset8 - 1);
  }

  /** Any value read back from the nine-byte form, whatever band it lies
      in: the supernormal encodings are accepted. */
  lemma DecodeNine(x: U64)
    ensures Decode([0] + ToLE(x)) == (x, 9)
  {
    var buf: Window := [0] + ToLE(x);
    DecodeLong(buf);
    assert buf[1..] == ToLE(x);
    FromToLE(x);
  }

  /** The supernormal nine-byte encodings of zero and one decode. */
  lemma DecodeVectorsSupernormal(buf: Window)
    ensures buf == [0, 0, 0, 0, 0, 0, 0, 0, 0] ==> Decode(buf) == (0, 9)
    ensures buf == [0, 0x01, 0, 0, 0, 0, 0, 0, 0] ==> Decode(buf) == (1, 9)
  {
    if buf[0] == 0 {
      DecodeLong(buf);
      LEValueEight(buf[1..]);
    }
  }

  /** `u64::MAX` in nine bytes. */
  lemma DecodeMax(buf: Window)
    requires buf == [0, 0xFF, 0xFF, 0xFF, 0xFF, 0xFF, 0xFF, 0xFF, 0xFF]
    ensures Decode(buf) == (U64Limit - 1, 9)
  {
    DecodeLong(buf);
    LEValueEight(buf[1..]);
  }
}
