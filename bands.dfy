/** The range partition shared by both crates: the band offsets, the decoder's
    shift tables, the band a value falls in, and the word `inner_encode`
    packs before it stores anything. */
module Bands {
  import opened Word

  /** `OFFSET0` .. `OFFSET8`: `OFFSETk` is the smallest value encoded in
      `k + 1` bytes, and `OFFSET8` is where the nine-byte band starts.  Each is
      the previous one plus 2^(7k) (written `1 << 7k` in the source). */
  const Offset0: nat := 0
  const Offset1: nat := Offset0 + 0x80
  const Offset2: nat := Offset1 + 0x4000
  const Offset3: nat := Offset2 + 0x20_0000
  const Offset4: nat := Offset3 + 0x1000_0000
  const Offset5: nat := Offset4 + 0x8_0000_0000
  const Offset6: nat := Offset5 + 0x400_0000_0000
  const Offset7: nat := Offset6 + 0x2_0000_0000_0000
  const Offset8: nat := Offset7 + 0x100_0000_0000_0000

  /** `OFFSETS`: the lower bounds of the eight short bands. */
  const Offsets: seq<nat> := [Offset0, Offset1, Offset2, Offset3,
                              Offset4, Offset5, Offset6, Offset7]

  /** `OFFSETk` for `k <= 8`. */
  function Offset(k: nat): (r: U64)
    requires k <= 8
    ensures k < 8 ==> r == Offsets[k]
  {
    if k < 8 then Offsets[k] else Offset8
  }

  /** The values the test suites pin the offsets to. */
  lemma OffsetValues()
    ensures Offset(0) == 0 && Offset(1) == 128 && Offset(2) == 16_512
    ensures Offset(3) == 2_113_664 && Offset(4) == 270_549_120
    ensures Offset(5) == 34_630_287_488 && Offset(6) == 4_432_676_798_592
    ensures Offset(7) == 567_382_630_219_904
    ensures Offset(8) == 72_624_976_668_147_840
  {
  }

  /** Each band is 2^(7k) values wide: a `k`-byte encoding carries `7k`
      payload bits, and all the bands fit below 2^64. */
  lemma {:induction false} OffsetStep(k: nat)
    requires 1 <= k <= 8
    ensures Offset(k) == Offset(k - 1) + Pow2(7 * k)
    ensures Offset(k) < U64Limit
  {
    Pow2Values();
    match k
    case 1 =>
    case 2 =>
    case 3 =>
    case 4 =>
    case 5 =>
    case 6 =>
    case 7 =>
    case 8 =>
  }

  /** The bands do not overlap and every one of them is non-empty. */
  lemma OffsetsIncrease(j: nat, k: nat)
    requires j < k <= 8
    ensures Offset(j) < Offset(k)
  {
  }

  /** `LEFTS` and `RIGHTS`, indexed by the encoding length minus one. */
  const Lefts: seq<nat> := [56, 48, 40, 32, 24, 16, 8, 0]
  const Rights: seq<nat> := [57, 50, 43, 36, 29, 22, 15, 8]

  /** The left shift moves an `n`-byte encoding to the top of the word; the
      right shift is `n` more than that, removing the `n - 1` zero bits and
      the terminating one bit of the length marker. */
  lemma ShiftTables(n: nat)
    requires 1 <= n <= 8
    ensures Lefts[n - 1] == 8 * (8 - n)
    ensures Rights[n - 1] == Lefts[n - 1] + n
  {
  }

  /** The band of `v`, as the encoders' range patterns select it: `k < 8`
      is the band encoded in `k + 1` bytes, 8 the nine-byte band. */
  function BandIndex(v: U64): (k: nat)
    ensures k <= 8
    ensures k < 8 ==> Offset(k) <= v < Offset(k + 1)
    ensures k == 8 ==> Offset(8) <= v
  {
    if v < Offset(1) then 0
    else if v < Offset(2) then 1
    else if v < Offset(3) then 2
    else if v < Offset(4) then 3
    else if v < Offset(5) then 4
    else if v < Offset(6) then 5
    else if v < Offset(7) then 6
    else if v < Offset(8) then 7
    else 8
  }

  /** Exactly one band holds each value. */
  lemma BandIndexIff(v: U64, k: nat)
    requires k <= 8
    ensures BandIndex(v) == k <==> Offset(k) <= v && (k < 8 ==> v < Offset(k + 1))
  {
  }

  /** A larger value never falls in a lower band. */
  lemma BandIndexMonotone(v: U64, w: U64)
    requires v <= w
    ensures BandIndex(v) <= BandIndex(w)
  {
  }

  /** The arithmetic of `inner_encode::<n>` after the offset is taken off:
      make room for the terminating one bit, set it, and shift the whole
      payload above the `n - 1` marker zeros. */
  function Pack(n: nat, b: U64): (w: U64)
    requires 1 <= n <= 8
  {
    var shifted := Shl(b, 1);
    ShlOneEven(b);
    Shl(shifted + 1, n - 1)
  }

  /** The word `inner_encode::<n>` computes from `v`: subtract the band
      offset, then pack. */
  function PackedWord(n: nat, v: U64): (w: U64)
    requires 1 <= n <= 8 && Offset(n - 1) <= v
  {
    Pack(n, v - Offset(n - 1))
  }

  lemma ShlOneEven(x: U64)
    ensures Shl(x, 1) % 2 == 0 && Shl(x, 1) + 1 < U64Limit
  {
  }

  /** A payload of at most 7n bits packs without loss: twice the payload
      plus the terminator bit, times 2^(n-1), below 2^(8n). */
  lemma PackIs(n: nat, b: U64)
    requires 1 <= n <= 8 && b < Pow2(7 * n)
    ensures Pack(n, b) == (2 * b + 1) * Pow2(n - 1) < Pow2(8 * n)
  {
    PackFitsIn(n, b);
    ShlIs(b, 1);
    assert Pow2(1) == 2;
    ModBelow(2 * b, U64Limit);
    ShlNoLoss(2 * b + 1, n - 1);
  }

  /** Keeping the low `n` bytes of a packed word changes nothing, and
      dropping its low `n` bits gives the payload back. */
  lemma PackPayload(n: nat, b: U64)
    requires 1 <= n <= 8 && b < Pow2(7 * n)
    ensures Pack(n, b) % Pow2(8 * n) == Pack(n, b)
    ensures Pack(n, b) / Pow2(n) == b
  {
    PackIs(n, b);
    ModBelow(Pack(n, b), Pow2(8 * n));
    assert Pow2(n) == 2 * Pow2(n - 1);
    HalveOdd(Pack(n, b), b, Pow2(n - 1), Pow2(n));
  }

  lemma PackFitsIn(n: nat, b: nat)
    requires 1 <= n <= 8 && b < Pow2(7 * n)
    ensures 2 * b + 1 < U64Limit
    ensures 0 <= (2 * b + 1) * Pow2(n - 1) < Pow2(8 * n) <= U64Limit
  {
    var e := 7 * n + 1;
    assert Pow2(e) == 2 * Pow2(7 * n);
    MulStrict(2 * b + 1, Pow2(e), Pow2(n - 1));
    Pow2Add(e, n - 1);
    assert e + (n - 1) == 8 * n;
    Pow2Monotone(8 * n, 64);
    Pow2Monotone(e, 64);
    Pow2Word();
  }

  /** Within its own band nothing underflows, overflows or is shifted out:
      the biased value has at most 7n bits and the packed word fits in `n`
      bytes. */
  lemma PackedWordFits(n: nat, v: U64)
    requires 1 <= n <= 8 && Offset(n - 1) <= v < Offset(n)
    ensures v - Offset(n - 1) < Pow2(7 * n)
    ensures PackedWord(n, v) < Pow2(8 * n)
  {
    OffsetStep(n);
    PackIs(n, v - Offset(n - 1));
  }

  /** The word `inner_encode::<n>` computes for a value of its band is
      `((v - OFFSET[n-1]) * 2 + 1) << (n - 1)` without any bit lost, and has
      at most `n` bytes. */
  lemma PackedWordIs(n: nat, v: U64)
    requires 1 <= n <= 8 && Offset(n - 1) <= v < Offset(n)
    ensures PackedWord(n, v) == (2 * (v - Offset(n - 1)) + 1) * Pow2(n - 1)
    ensures PackedWord(n, v) < Pow2(8 * n)
  {
    OffsetStep(n);
    PackIs(n, v - Offset(n - 1));
  }

  /** `PackedWordIs` with the payload and the power of two named. */
  lemma PackedWordWith(n: nat, v: U64, b: nat, q: nat)
    requires 1 <= n <= 8 && Offset(n - 1) <= v < Offset(n)
    requires b == v - Offset(n - 1) && q == Pow2(n - 1)
    ensures PackedWord(n, v) == (2 * b + 1) * q
  {
    PackedWordIs(n, v);
  }

  /** The packed word's lowest set bit is bit `n - 1`: the length marker. */
  lemma PackedWordMarker(n: nat, v: U64)
    requires 1 <= n <= 8 && Offset(n - 1) <= v < Offset(n)
    ensures TrailingZeros(PackedWord(n, v)) == n - 1
  {
    PackedWordIs(n, v);
    OddTimes(PackedWord(n, v), v - Offset(n - 1), Pow2(n - 1));
    TrailingZerosIs(PackedWord(n, v), n - 1);
  }
}
