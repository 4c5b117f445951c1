/** The `levarint` crate's encoder, as it is written.  It shares the decoder
    and the band table with `levarint64`, but two things in it differ: the
    arms for bands 4, 5 and 6 instantiate `inner_encode` with one byte fewer
    than the band needs, and every byte after the first is taken from a
    LEFT shift of the word (`(value << 8i) as u8`), which is always zero.
    The model reproduces both; the lemmas below say exactly what the encoder
    then produces and which values still survive a round trip, and the last
    section proves that the evidently intended encoder is `levarint64`'s. */
module Levarint {
  import opened Word
  import opened Bands
  import opened Decoder
  import Levarint64

  /** The `NUM_BYTES` each encoder arm passes to `inner_encode`, indexed by
      the band of the value. */
  const ArmBytes: seq<nat> := [1, 2, 3, 4, 4, 5, 6, 8]

  /** The bytes `u64_to_slice` stores at indices 0..7: `value as u8`, then
      `(value << 8i) as u8` for i = 1..7. */
  function SliceBytes(x: U64): (b: seq<Byte>)
    ensures |b| == 8
  {
    seq(8, i requires 0 <= i < 8 => LowByte(Shl(x, 8 * i)))
  }

  /** The length the encoder returns for `v`. */
  function EncodedLength(v: U64): (n: nat)
    ensures 1 <= n <= 9
    ensures n == 9 <==> Offset(8) <= v
  {
    var k := BandIndex(v);
    if k < 8 then ArmBytes[k] else 9
  }

  /** No arm subtracts more than the value holds: every arm's `NUM_BYTES`
      is between 1 and 8 and its offset is at most the value. */
  lemma ArmFits(v: U64)
    requires BandIndex(v) < 8
    ensures 1 <= ArmBytes[BandIndex(v)] <= 8
    ensures ArmBytes[BandIndex(v)] <= BandIndex(v) + 1
    ensures Offset(ArmBytes[BandIndex(v)] - 1) <= v
  {
    var k := BandIndex(v);
    if ArmBytes[k] - 1 < k {
      OffsetsIncrease(ArmBytes[k] - 1, k);
    }
  }

  /** The nine bytes after `encode(v, buf)` on a buffer holding `w`. */
  function Encoded(v: U64, w: Window): (e: Window)
  {
    var k := BandIndex(v);
    if k < 8 then
      ArmFits(v);
      SliceBytes(PackedWord(ArmBytes[k], v)) + [w[8]]
    else
      [0] + SliceBytes(v)
  }

  /** A value of band `k < 8` is handled by the arm passing `ArmBytes[k]`. */
  lemma EncodedBand(v: U64, w: Window, k: nat)
    requires k < 8 && Offset(k) <= v < Offset(k + 1)
    ensures BandIndex(v) == k && EncodedLength(v) == ArmBytes[k]
    ensures Offset(ArmBytes[k] - 1) <= v
    ensures Encoded(v, w) == SliceBytes(PackedWord(ArmBytes[k], v)) + [w[8]]
  {
    BandIndexIff(v, k);
    ArmFits(v);
  }

  // ---------------------------------------------------------------------
  // The encoder.

  /** `u64_to_slice::<NUM_BYTES>`: the eight unchecked stores go to the
      first eight bytes of the buffer whatever `NUM_BYTES` is. */
  method U64ToSlice(value: U64, buf: array<Byte>)
    requires buf.Length == 9
    modifies buf
    ensures buf[..] == SliceBytes(value) + [old(buf[8])]
  {
    buf[0] := LowByte(value);
    buf[1] := LowByte(Shl(value, 8));
    buf[2] := LowByte(Shl(value, 16));
    buf[3] := LowByte(Shl(value, 24));
    buf[4] := LowByte(Shl(value, 32));
    buf[5] := LowByte(Shl(value, 40));
    buf[6] := LowByte(Shl(value, 48));
    buf[7] := LowByte(Shl(value, 56));
    assert buf[..] == [buf[0], buf[1], buf[2], buf[3], buf[4], buf[5], buf[6], buf[7], buf[8]];
  }

  /** `inner_encode::<NUM_BYTES>`: the same arithmetic as `levarint64`'s,
      then `u64_to_slice`. */
  method InnerEncode(numBytes: nat, value: U64, buf: array<Byte>) returns (r: nat)
    requires 1 <= numBytes <= 8 && buf.Length == 9 && Offset(numBytes - 1) <= value
    modifies buf
    ensures r == numBytes
    ensures buf[..] == SliceBytes(PackedWord(numBytes, value)) + [old(buf[8])]
  {
    var x := value - Offset(numBytes - 1);
    ShlOneEven(x);
    x := Shl(x, 1);
    x := x + 1;
    x := Shl(x, numBytes - 1);
    U64ToSlice(x, buf);
    r := numBytes;
  }

  /** The nine-byte arm of `encode`: a zero byte, then `value as u8` and
      `(value << 8i) as u8` for i = 1..7. */
  method StoreNine(value: U64, buf: array<Byte>)
    requires buf.Length == 9
    modifies buf
    ensures buf[..] == [0] + SliceBytes(value)
  {
    buf[0] := 0;
    buf[1] := LowByte(value);
    buf[2] := LowByte(Shl(value, 8));
    buf[3] := LowByte(Shl(value, 16));
    buf[4] := LowByte(Shl(value, 24));
    buf[5] := LowByte(Shl(value, 32));
    buf[6] := LowByte(Shl(value, 40));
    buf[7] := LowByte(Shl(value, 48));
    buf[8] := LowByte(Shl(value, 56));
    assert buf[..] == [buf[0], buf[1], buf[2], buf[3], buf[4], buf[5], buf[6], buf[7], buf[8]];
  }

  /** `encode`: the arms as the source lists them. */
  method Encode(value: U64, buf: array<Byte>) returns (n: nat)
    requires buf.Length == 9
    modifies buf
    ensures n == EncodedLength(value)
    ensures buf[..] == Encoded(value, old(buf[..]))
  {
    ghost var w := buf[..];
    if value <= Offset1 - 1 {
      EncodedBand(value, w, 0);
      n := InnerEncode(1, value, buf);
    } else if value <= Offset2 - 1 {
      EncodedBand(value, w, 1);
      n := InnerEncode(2, value, buf);
    } else if value <= Offset3 - 1 {
      EncodedBand(value, w, 2);
      n := InnerEncode(3, value, buf);
    } else if value <= Offset4 - 1 {
      EncodedBand(value, w, 3);
      n := InnerEncode(4, value, buf);
    } else if value <= Offset5 - 1 {
      EncodedBand(value, w, 4);
      n := InnerEncode(4, value, buf);
    } else if value <= Offset6 - 1 {
      EncodedBand(value, w, 5);
      n := InnerEncode(5, value, buf);
    } else if value <= Offset7 - 1 {
      EncodedBand(value, w, 6);
      n := InnerEncode(6, value, buf);
    } else if value <= Offset8 - 1 {
      EncodedBand(value, w, 7);
      n := InnerEncode(8, value, buf);
    } else {
      BandIndexIff(value, 8);
      StoreNine(value, buf);
      n := 9;
    }
  }

  // ---------------------------------------------------------------------
  // What the encoder stores.

  /** Every left-shifted byte is zero: `u64_to_slice` keeps only the low byte
      of the word it is given. */
  lemma SliceBytesLowOnly(x: U64)
    ensures SliceBytes(x) == [LowByte(x), 0, 0, 0, 0, 0, 0, 0]
  {
    ShlLowByte(x, 8);
    ShlLowByte(x, 16);
    ShlLowByte(x, 24);
    ShlLowByte(x, 32);
    ShlLowByte(x, 40);
    ShlLowByte(x, 48);
    ShlLowByte(x, 56);
  }

  /** The low byte of `inner_encode::<n>`'s word: the length marker and the
      low `8 - n` bits of the biased value, whatever is shifted out above. */
  lemma PackLowByte(n: nat, b: U64)
    requires 1 <= n <= 8
    ensures LowByte(Pack(n, b)) == (2 * (b % Pow2(8 - n)) + 1) * Pow2(n - 1)
  {
    PackModByte(n, b);
    OddLowBits(b, n);
  }

  /** Bits shifted out of the word do not reach the low byte. */
  lemma PackModByte(n: nat, b: U64)
    requires 1 <= n <= 8
    ensures LowByte(Pack(n, b)) == ((2 * b + 1) * Pow2(n - 1)) % 256
  {
    var s := Shl(b, 1);
    ShlIs(b, 1);
    assert Pow2(1) == 2;
    ShlOneEven(b);
    var p := Pow2(n - 1);
    ShlIs(s + 1, n - 1);
    MulNat(s + 1, p);
    var c := Pow56;
    ModLowByte((s + 1) * p, c);
    var q := (2 * b) / U64Limit;
    assert 2 * b == s + U64Limit * q;
    WrapUnderProduct(s + 1, q, p, c);
    MulNat(q, p);
    MulNat(c, q * p);
    ModAddMultiple((s + 1) * p, c * (q * p), 256);
  }

  /** The low byte of `(2b + 1) * 2^(n-1)`. */
  lemma OddLowBits(b: nat, n: nat)
    requires 1 <= n <= 8
    ensures ((2 * b + 1) * Pow2(n - 1)) % 256 == (2 * (b % Pow2(8 - n)) + 1) * Pow2(n - 1)
  {
    Pow2Eight();
    ShiftOutHigh(2 * b + 1, n - 1, 9 - n, 8);
    DivHalf(2 * b + 1, Pow2(8 - n));
  }

  /** A buffer whose first byte is `(2c + 1) * 2^(n-1)` and whose bytes 1..7
      are zero decodes to `OFFSETS[n-1] + c` in `n` bytes. */
  lemma DecodeFirstByteOnly(e: Window, n: nat, c: nat)
    requires 1 <= n <= 8 && e[0] == (2 * c + 1) * Pow2(n - 1)
    requires forall i :: 1 <= i < 8 ==> e[i] == 0
    ensures Decode(e).0 == Offset(n - 1) + c && Decode(e).1 == n
  {
    var p, m := Pow2(n - 1), Pow2(n);
    OddSplit(e[0], c, p, m);
    var x := e[0];
    FirstByteValue(e, n);
    var v := Offset(n - 1) + c;
    DecodeKnown(e, n, e[..n], v);
  }

  /** `(2c + 1) * p` divided by `2p`: remainder `p`, quotient `c`. */
  lemma OddSplit(x: nat, c: nat, p: nat, m: nat)
    requires p > 0 && x == (2 * c + 1) * p && m == 2 * p
    ensures x % m == p && x / m == c
  {
    DivModUnique(x, m, c, p);
  }

  /** A first byte followed by zeros is the value of every prefix. */
  lemma FirstByteValue(e: Window, n: nat)
    requires 1 <= n <= 8
    requires forall i :: 1 <= i < 8 ==> e[i] == 0
    ensures LEValue(e[..n]) == e[0]
  {
    LEValueEight(e[..8]);
    LEValuePrefix(e[..8], n);
    Pow2Eight();
    Pow2Monotone(8, 8 * n);
    ModBelow(e[0], Pow2(8 * n));
    assert e[..8][..n] == e[..n];
  }

  /** Below `OFFSET8` the buffer holds one marker byte carrying the low
      `8 - n` bits of the biased value, seven zero bytes and the untouched
      last byte. */
  lemma EncodedShort(v: U64, w: Window, n: nat)
    requires v < Offset(8) && n == EncodedLength(v)
    ensures n <= 8 && Offset(n - 1) <= v
    ensures Encoded(v, w) == [(2 * ((v - Offset(n - 1)) % Pow2(8 - n)) + 1) * Pow2(n - 1),
                              0, 0, 0, 0, 0, 0, 0, w[8]]
  {
    ArmFits(v);
    var x := PackedWord(n, v);
    SliceBytesLowOnly(x);
    var b := v - Offset(n - 1);
    PackLowByte(n, b);
    var first := (2 * (b % Pow2(8 - n)) + 1) * Pow2(n - 1);
    assert SliceBytes(x) == [first, 0, 0, 0, 0, 0, 0, 0];
    assert Encoded(v, w) == SliceBytes(x) + [w[8]];
  }

  /** From `OFFSET8` on the buffer is a zero byte, the value's low byte and
      seven zero bytes. */
  lemma EncodedLong(v: U64, w: Window)
    requires Offset(8) <= v
    ensures EncodedLength(v) == 9
    ensures Encoded(v, w) == [0, v % 256, 0, 0, 0, 0, 0, 0, 0]
  {
    BandIndexIff(v, 8);
    SliceBytesLowOnly(v);
  }

  /** The value the shared decoder reads back from this encoder's output:
      below `OFFSET8` the band's offset plus the low `8 - n` bits of the
      biased value (the bits byte 0 carries), from `OFFSET8` on the value's
      low byte. */
  function Recovered(v: U64): (r: nat)
  {
    if v < Offset(8) then
      var n := EncodedLength(v);
      ArmFits(v);
      Offset(n - 1) + (v - Offset(n - 1)) % Pow2(8 - n)
    else
      v % 256
  }

  lemma RecoveredShort(v: U64, n: nat)
    requires v < Offset(8) && n == EncodedLength(v)
    ensures n <= 8 && Offset(n - 1) <= v
    ensures Recovered(v) == Offset(n - 1) + (v - Offset(n - 1)) % Pow2(8 - n)
  {
    ArmFits(v);
  }

  /** Decoding what `encode(v)` stored gives `Recovered(v)` and the length
      `encode` returned. */
  lemma DecodeEncoded(v: U64, w: Window)
    ensures Decode(Encoded(v, w)).0 == Recovered(v)
    ensures Decode(Encoded(v, w)).1 == EncodedLength(v)
  {
    if v < Offset(8) {
      var n := EncodedLength(v);
      DecodeEncodedShort(v, w, n);
      RecoveredShort(v, n);
    } else {
      DecodeEncodedLong(v, w);
    }
  }

  lemma DecodeEncodedShort(v: U64, w: Window, n: nat)
    requires v < Offset(8) && n == EncodedLength(v)
    ensures n <= 8 && Offset(n - 1) <= v
    ensures Decode(Encoded(v, w)).0 == Offset(n - 1) + (v - Offset(n - 1)) % Pow2(8 - n)
    ensures Decode(Encoded(v, w)).1 == n
  {
    var e := Encoded(v, w);
    EncodedShort(v, w, n);
    DecodeFirstByteOnly(e, n, (v - Offset(n - 1)) % Pow2(8 - n));
  }

  lemma DecodeEncodedLong(v: U64, w: Window)
    requires Offset(8) <= v
    ensures Decode(Encoded(v, w)).0 == v % 256
    ensures Decode(Encoded(v, w)).1 == 9
  {
    var e := Encoded(v, w);
    EncodedLong(v, w);
    DecodeLong(e);
    LEValueEight(e[1..]);
  }

  /** `EncodedShort` and `DecodeEncodedShort` with the kept payload bits
      and the first byte named. */
  lemma ShortForm(v: U64, w: Window, n: nat, c: nat, first: nat)
    requires v < Offset(8) && n == EncodedLength(v) && 1 <= n <= 8 && Offset(n - 1) <= v
    requires c == (v - Offset(n - 1)) % Pow2(8 - n) && first == (2 * c + 1) * Pow2(n - 1)
    ensures Encoded(v, w) == [first, 0, 0, 0, 0, 0, 0, 0, w[8]]
    ensures Decode(Encoded(v, w)).0 == Offset(n - 1) + c
    ensures Decode(Encoded(v, w)).1 == n
  {
    EncodedShort(v, w, n);
    DecodeEncodedShort(v, w, n);
  }

  lemma ModKeeps(x: nat, r: nat)
    requires r > 0
    ensures x % r == x <==> x < r
  {
    if x < r {
      ModBelow(x, r);
    }
  }

  /** The values `Recovered` leaves unchanged: all of band 0, the first 64
      values of band 1, the first 32 of band 2, the first 16 of band 3 and
      `OFFSET7`. */
  lemma RecoveredIff(v: U64)
    ensures Recovered(v) == v <==>
              v < 192 || 16_512 <= v < 16_544 || Offset3 <= v < Offset3 + 16 || v == Offset7
  {
    var k := BandIndex(v);
    if k == 8 {
      ModKeeps(v, 256);
    } else {
      var n := EncodedLength(v);
      RecoveredShort(v, n);
      var x := v - Offset(n - 1);
      var r := Pow2(8 - n);
      ModKeeps(x, r);
      assert Recovered(v) == v <==> x < r;
      KeptBand(v, BandIndex(v), n, x, r);
    }
  }

  /** Band by band, when the biased value fits in the bits byte 0 keeps. */
  lemma KeptBand(v: U64, k: nat, n: nat, x: nat, r: nat)
    requires k == BandIndex(v) < 8 && n == ArmBytes[k] && Offset(n - 1) <= v
    requires x == v - Offset(n - 1) && r == Pow2(8 - n)
    ensures x < r <==>
              v < 192 || 16_512 <= v < 16_544 || Offset3 <= v < Offset3 + 16 || v == Offset7
  {
    if k == 0 {
      assert r == Pow2(7) == 128;
    } else if k == 1 {
      assert r == Pow2(6) == 64;
    } else if k == 2 {
      assert r == Pow2(5) == 32;
    } else if k == 3 || k == 4 {
      assert r == Pow2(4) == 16;
    } else if k == 5 {
      assert r == Pow2(3) == 8;
    } else if k == 6 {
      assert r == Pow2(2) == 4;
    } else {
      assert r == Pow2(0) == 1;
    }
  }

  /** Exactly the values `RecoveredIff` lists survive `decode(encode(v))`. */
  lemma RoundTripIff(v: U64, w: Window)
    ensures Decode(Encoded(v, w)) == (v, EncodedLength(v)) <==>
              v < 192 || 16_512 <= v < 16_544 || Offset3 <= v < Offset3 + 16 || v == Offset7
  {
    DecodeEncoded(v, w);
    RecoveredIff(v);
  }

  /** Values below 128 encode as `2v + 1` in one byte and come back. */
  lemma SmallValues(v: U64, w: Window)
    requires v < 128
    ensures EncodedLength(v) == 1
    ensures Encoded(v, w) == [2 * v + 1, 0, 0, 0, 0, 0, 0, 0, w[8]]
    ensures Decode(Encoded(v, w)) == (v, 1)
  {
    assert Pow2(7) == 128 && Pow2(0) == 1;
    ModBelow(v, 128);
    ShortForm(v, w, 1, v, 2 * v + 1);
  }

  /** `encode(0)` on a zeroed buffer stores 1 and returns 1. */
  lemma EncodeZeroVector(v: U64, w: Window)
    requires v == 0 && w == [0, 0, 0, 0, 0, 0, 0, 0, 0]
    ensures EncodedLength(v) == 1
    ensures Encoded(v, w) == [1, 0, 0, 0, 0, 0, 0, 0, 0]
  {
    SmallValues(v, w);
  }

  /** From `OFFSET8` on only the low byte is stored and it is all that comes
      back; no such value survives the round trip. */
  lemma LargeValues(v: U64, w: Window)
    requires Offset(8) <= v
    ensures EncodedLength(v) == 9
    ensures Encoded(v, w)[0] == 0 && Encoded(v, w)[1] == v % 256
    ensures Decode(Encoded(v, w)).0 == v % 256 != v
    ensures Decode(Encoded(v, w)).1 == 9
  {
    EncodedLong(v, w);
    DecodeEncoded(v, w);
    ModKeeps(v, 256);
  }

  // ---------------------------------------------------------------------
  // The two slips, shown on concrete values.

  /** Bands 4, 5 and 6 are encoded one byte too short: the length is the
      band index, one less than `levarint64`'s, and the value decoded from
      it lies below the band, hence below the value. */
  lemma ShortArmsLose(v: U64, w: Window)
    requires 4 <= BandIndex(v) <= 6
    ensures EncodedLength(v) == BandIndex(v) == Levarint64.EncodedLength(v) - 1
    ensures Decode(Encoded(v, w)).0 < Offset(BandIndex(v)) <= v
  {
    var n := EncodedLength(v);
    DecodeEncoded(v, w);
    OffsetStep(n);
    Pow2Monotone(8 - n, 7 * n);
  }

  /** `OFFSET4` is encoded in four bytes, which decode to `OFFSET3`. */
  lemma ShortArmExample(v: U64, w: Window)
    requires v == Offset4
    ensures EncodedLength(v) == 4
    ensures Decode(Encoded(v, w)).0 == Offset3
    ensures Decode(Encoded(v, w)).1 == 4
  {
    assert Pow2(4) == 16;
    assert (v - Offset(3)) % Pow2(4) == 0;
    BandIndexIff(v, 4);
    ShortForm(v, w, 4, 0, 8);
  }

  /** 192 is encoded as 0x02 followed by zeros, which decodes to 128. */
  lemma LeftShiftExample(v: U64, w: Window)
    requires v == 192
    ensures Encoded(v, w) == [0x02, 0, 0, 0, 0, 0, 0, 0, w[8]]
    ensures Decode(Encoded(v, w)).0 == 128
    ensures Decode(Encoded(v, w)).1 == 2
  {
    assert Pow2(6) == 64 && Pow2(1) == 2;
    assert (v - Offset(1)) % Pow2(6) == 0;
    BandIndexIff(v, 1);
    ShortForm(v, w, 2, 0, 2);
  }

  /** `OFFSET8` is encoded as 0x00 0x80 followed by zeros, which decodes to
      128 in nine bytes. */
  lemma LeftShiftExampleLong(v: U64, w: Window)
    requires v == Offset8
    ensures Encoded(v, w) == [0, 0x80, 0, 0, 0, 0, 0, 0, 0]
    ensures Decode(Encoded(v, w)).0 == 128
    ensures Decode(Encoded(v, w)).1 == 9
  {
    assert v % 256 == 0x80;
    LargeValues(v, w);
    EncodedLong(v, w);
  }

  // ---------------------------------------------------------------------
  // The encoder as evidently intended.

  /** The arms' byte counts with bands 4, 5 and 6 given 5, 6 and 7 bytes. */
  const CorrectedArmBytes: seq<nat> := [1, 2, 3, 4, 5, 6, 7, 8]

  /** `u64_to_slice` with `>>` for `<<`: byte i is `(x >> 8i) as u8`, which
      is byte i of the little-endian form. */
  function CorrectedSliceBytes(x: U64): (b: seq<Byte>)
    ensures b == ToLE(x)
  {
    ShrByte(x, 0);
    ShrByte(x, 1);
    ShrByte(x, 2);
    ShrByte(x, 3);
    ShrByte(x, 4);
    ShrByte(x, 5);
    ShrByte(x, 6);
    ShrByte(x, 7);
    [LowByte(x), LowByte(Shr(x, 8)), LowByte(Shr(x, 16)), LowByte(Shr(x, 24)),
     LowByte(Shr(x, 32)), LowByte(Shr(x, 40)), LowByte(Shr(x, 48)), LowByte(Shr(x, 56))]
  }

  /** The length the corrected encoder returns. */
  function CorrectedLength(v: U64): (n: nat)
    ensures n == Levarint64.EncodedLength(v)
  {
    var k := BandIndex(v);
    if k < 8 then CorrectedArmBytes[k] else 9
  }

  /** The buffer the corrected encoder leaves: the same arms, with the
      corrected byte counts and byte extraction. */
  function CorrectedEncoded(v: U64, w: Window): (e: Window)
    ensures e == Levarint64.Encoded(v, w)
  {
    var k := BandIndex(v);
    if k < 8 then
      CorrectedArms(k);
      CorrectedSliceBytes(PackedWord(CorrectedArmBytes[k], v)) + [w[8]]
    else
      [0] + CorrectedSliceBytes(v)
  }

  lemma CorrectedArms(k: nat)
    requires k < 8
    ensures CorrectedArmBytes[k] == k + 1
  {
  }

  /** With both slips corrected every value decodes back to itself. */
  lemma CorrectedRoundTrip(v: U64, w: Window)
    ensures Decode(CorrectedEncoded(v, w)) == (v, CorrectedLength(v))
  {
    Levarint64.RoundTrip(v, w);
  }
}
