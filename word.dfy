/** Unsigned machine words as bounded naturals.  Rust's `u64` and `u8` are
    the subset types `U64` and `Byte`; `<<` discards the bits shifted past
    bit 63 (it is taken modulo 2^64), `>>` is division by a power of two,
    `as u8` keeps the low eight bits. */
module Word {

  const U64Limit: nat := 0x1_0000_0000_0000_0000

  type U64 = x: nat | x < U64Limit
  type Byte = x: nat | x < 256

  function Pow2(k: nat): (r: nat)
    ensures r > 0
  {
    if k == 0 then 1 else 2 * Pow2(k - 1)
  }

  /** The powers of two that the codec's shift distances use. */
  lemma Pow2Values()
    ensures Pow2(1) == 2 && Pow2(2) == 4 && Pow2(3) == 8 && Pow2(4) == 16
    ensures Pow2(5) == 32 && Pow2(6) == 64 && Pow2(7) == 128 && Pow2(8) == 256
    ensures Pow2(14) == 0x4000 && Pow2(15) == 0x8000 && Pow2(16) == 0x1_0000
    ensures Pow2(21) == 0x20_0000 && Pow2(22) == 0x40_0000 && Pow2(24) == 0x100_0000
    ensures Pow2(28) == 0x1000_0000 && Pow2(29) == 0x2000_0000 && Pow2(32) == 0x1_0000_0000
    ensures Pow2(35) == 0x8_0000_0000 && Pow2(36) == 0x10_0000_0000 && Pow2(40) == 0x100_0000_0000
    ensures Pow2(42) == 0x400_0000_0000 && Pow2(43) == 0x800_0000_0000 && Pow2(48) == 0x1_0000_0000_0000
    ensures Pow2(49) == 0x2_0000_0000_0000 && Pow2(50) == 0x4_0000_0000_0000
    ensures Pow2(56) == 0x100_0000_0000_0000 && Pow2(57) == 0x200_0000_0000_0000
    ensures Pow2(64) == U64Limit
  {
  }

  lemma Pow2Eight()
    ensures Pow2(8) == 256
  {
  }

  lemma Pow2Word()
    ensures Pow2(64) == U64Limit
  {
    Pow2Values();
  }

  /** `x << k`, one bit at a time: the bit moved past bit 63 is lost. */
  function Shl(x: U64, k: nat): (r: U64)
    requires k < 64
    decreases k
  {
    if k == 0 then x else Shl((2 * x) % U64Limit, k - 1)
  }

  /** `x >> k`, one bit at a time. */
  function Shr(x: U64, k: nat): (r: U64)
    requires k < 64
    ensures r <= x
  {
    if k == 0 then x else Shr(x / 2, k - 1)
  }

  /** Shifting left by `k` is multiplying by 2^k modulo 2^64. */
  lemma {:induction false} ShlIs(x: U64, k: nat)
    requires k < 64
    ensures Shl(x, k) == (x * Pow2(k)) % U64Limit
    decreases k
  {
    if k > 0 {
      var y := (2 * x) % U64Limit;
      var q := (2 * x) / U64Limit;
      var p := Pow2(k - 1);
      ShlIs(y, k - 1);
      Rebase(x, p, q, y, U64Limit);
      MulNat(y, p);
      MulNat(q, p);
      ModAddMultiple(y * p, q * p, U64Limit);
    }
  }

  /** 2x = m q + y gives x (2 p) = y p + m (q p). */
  lemma Rebase(x: nat, p: nat, q: nat, y: nat, m: nat)
    requires 2 * x == m * q + y
    ensures x * (2 * p) == y * p + m * (q * p)
  {
    assert x * (2 * p) == (2 * x) * p;
    assert (m * q + y) * p == y * p + m * (q * p);
  }

  lemma MulSwap(x: nat, c: nat, p: nat)
    ensures x * (c * p) == c * (x * p)
  {
  }

  lemma MulNat(a: nat, b: nat)
    ensures a * b >= 0
  {
  }

  lemma ModBelow(x: int, m: int)
    requires 0 <= x < m
    ensures x % m == x
  {
  }

  /** A shift that pushes no bit past bit 63 is a multiplication. */
  lemma ShlNoLoss(x: U64, k: nat)
    requires k < 64 && x * Pow2(k) < U64Limit
    ensures Shl(x, k) == x * Pow2(k)
  {
    ShlIs(x, k);
    MulNat(x, Pow2(k));
    ModBelow(x * Pow2(k), U64Limit);
  }

  /** `(x << k) as u8` for `k >= 8`: the low byte of the shifted word is
      always zero. */
  lemma ShlLowByte(x: U64, k: nat)
    requires 8 <= k < 64
    ensures LowByte(Shl(x, k)) == 0
  {
    ShlIs(x, k);
    var p := Pow2(k - 8);
    var a := x * p;
    MulNat(x, p);
    Pow2Add(8, k - 8);
    Pow2Eight();
    assert Pow2(k) == 256 * p;
    MulSwap(x, 256, p);
    ModLowByte(256 * a, Pow56);
    DivModUnique(256 * a, 256, a, 0);
  }

  /** 2^56: 2^64 is 256 times this. */
  const Pow56: nat := 0x100_0000_0000_0000

  /** Reducing modulo a multiple of 256 keeps the low byte. */
  lemma ModLowByte(x: nat, c: nat)
    requires c > 0
    ensures (x % (256 * c)) % 256 == x % 256
  {
    DivStep(x, 256, c);
    DivModUnique(x % 256 + 256 * ((x / 256) % c), 256, (x / 256) % c, x % 256);
  }

  /** A multiple of 2^64 added under a product by `p` is a multiple of
      256 in the product. */
  lemma WrapUnderProduct(s: nat, q: nat, p: nat, c: nat)
    requires U64Limit == 256 * c
    ensures (s + U64Limit * q) * p == s * p + 256 * (c * (q * p))
  {
    assert (s + U64Limit * q) * p == s * p + U64Limit * (q * p);
  }

  lemma ModAddMultiple(a: nat, q: nat, m: nat)
    requires m > 0
    ensures (a + m * q) % m == a % m
  {
    DivModUnique(a + m * q, m, a / m + q, a % m);
  }

  /** Shifting right by `k` is dividing by 2^k. */
  lemma {:induction false} ShrIs(x: U64, k: nat)
    requires k < 64
    ensures Shr(x, k) == x / Pow2(k)
  {
    if k > 0 {
      ShrIs(x / 2, k - 1);
      DivHalf(x, Pow2(k - 1));
    }
  }

  /** `x as u8`. */
  function LowByte(x: U64): (b: Byte)
  {
    x % 256
  }

  /** The number whose little-endian bytes are `s`: byte `i` weighs 256^i. */
  function LEValue(s: seq<Byte>): (x: nat)
  {
    if |s| == 0 then 0 else s[0] + 256 * LEValue(s[1..])
  }

  /** The low `k` bytes of `x`, least significant first. */
  function LEBytes(x: nat, k: nat): (b: seq<Byte>)
    ensures |b| == k
  {
    if k == 0 then [] else [x % 256] + LEBytes(x / 256, k - 1)
  }

  /** A 7-byte little-endian number digit by digit. */
  lemma LEValueSeven(s: seq<Byte>)
    requires |s| == 7
    ensures LEValue(s) == s[0] as nat + 256 * (s[1] as nat + 256 * (s[2] as nat + 256 * (s[3] as nat + 256 * (s[4] as nat + 256 * (s[5] as nat + 256 * (s[6] as nat))))))
  {
    assert s[7..] == [];
    assert s[6..][1..] == s[7..];
    assert LEValue(s[6..]) == s[6] as nat + 256 * LEValue(s[7..]);
    assert s[5..][1..] == s[6..];
    assert LEValue(s[5..]) == s[5] as nat + 256 * LEValue(s[6..]);
    assert s[4..][1..] == s[5..];
    assert LEValue(s[4..]) == s[4] as nat + 256 * LEValue(s[5..]);
    assert s[3..][1..] == s[4..];
    assert LEValue(s[3..]) == s[3] as nat + 256 * LEValue(s[4..]);
    assert s[2..][1..] == s[3..];
    assert LEValue(s[2..]) == s[2] as nat + 256 * LEValue(s[3..]);
    assert s[1..][1..] == s[2..];
    assert LEValue(s[1..]) == s[1] as nat + 256 * LEValue(s[2..]);
    assert s[0..] == s;
  }

  /** A 8-byte little-endian number digit by digit. */
  lemma LEValueEight(s: seq<Byte>)
    requires |s| == 8
    ensures LEValue(s) == s[0] as nat + 256 * (s[1] as nat + 256 * (s[2] as nat + 256 * (s[3] as nat + 256 * (s[4] as nat + 256 * (s[5] as nat + 256 * (s[6] as nat + 256 * (s[7] as nat)))))))
  {
    assert s[8..] == [];
    assert s[7..][1..] == s[8..];
    assert LEValue(s[7..]) == s[7] as nat + 256 * LEValue(s[8..]);
    assert s[6..][1..] == s[7..];
    assert LEValue(s[6..]) == s[6] as nat + 256 * LEValue(s[7..]);
    assert s[5..][1..] == s[6..];
    assert LEValue(s[5..]) == s[5] as nat + 256 * LEValue(s[6..]);
    assert s[4..][1..] == s[5..];
    assert LEValue(s[4..]) == s[4] as nat + 256 * LEValue(s[5..]);
    assert s[3..][1..] == s[4..];
    assert LEValue(s[3..]) == s[3] as nat + 256 * LEValue(s[4..]);
    assert s[2..][1..] == s[3..];
    assert LEValue(s[2..]) == s[2] as nat + 256 * LEValue(s[3..]);
    assert s[1..][1..] == s[2..];
    assert LEValue(s[1..]) == s[1] as nat + 256 * LEValue(s[2..]);
    assert s[0..] == s;
  }

  /** `u64::from_le_bytes`. */
  function FromLE(b: seq<Byte>): (w: U64)
    requires |b| == 8
  {
    LEValueBound(b);
    Pow2Word();
    LEValue(b)
  }

  /** `u64::to_le_bytes`. */
  function ToLE(w: U64): (b: seq<Byte>)
    ensures |b| == 8
  {
    LEBytes(w, 8)
  }

  lemma {:induction false} LEValueBound(s: seq<Byte>)
    ensures LEValue(s) < Pow2(8 * |s|)
  {
    if |s| > 0 {
      LEValueBound(s[1..]);
      Pow2Byte(|s| - 1);
    }
  }

  lemma Pow2Byte(k: nat)
    ensures Pow2(8 * (k + 1)) == 256 * Pow2(8 * k)
  {
    Pow2Add(8, 8 * k);
    Pow2Eight();
  }

  /** Writing the low `k` bytes and reading them back keeps `x` modulo 2^(8k). */
  lemma {:induction false} LEBytesValue(x: nat, k: nat)
    ensures LEValue(LEBytes(x, k)) == x % Pow2(8 * k)
  {
    if k > 0 {
      LEBytesValue(x / 256, k - 1);
      Pow2Byte(k - 1);
      DivStep(x, 256, Pow2(8 * (k - 1)));
      assert LEBytes(x, k)[1..] == LEBytes(x / 256, k - 1);
    }
  }

  /** Reading bytes and writing them back gives the same bytes. */
  lemma {:induction false} LEValueBytes(s: seq<Byte>)
    ensures LEBytes(LEValue(s), |s|) == s
  {
    if |s| > 0 {
      LEValueBytes(s[1..]);
      var y := LEValue(s[1..]);
      DivModUnique(LEValue(s), 256, y, s[0]);
      assert s == [s[0]] + s[1..];
    }
  }

  /** The low `n` bytes of a little-endian number are its first `n` bytes. */
  lemma {:induction false} LEValuePrefix(s: seq<Byte>, n: nat)
    requires n <= |s|
    ensures LEValue(s) % Pow2(8 * n) == LEValue(s[..n])
  {
    if n == 0 {
      ModBelow(0, 1);
    } else {
      var y := LEValue(s[1..]);
      LEValuePrefix(s[1..], n - 1);
      Pow2Byte(n - 1);
      DivModUnique(LEValue(s), 256, y, s[0]);
      DivStep(LEValue(s), 256, Pow2(8 * (n - 1)));
      assert s[..n][1..] == s[1..][..n - 1];
    }
  }

  /** When `x` has only `j` bytes, its bytes past the `j`-th are zero. */
  lemma {:induction false} LEBytesHigh(x: nat, j: nat, k: nat)
    requires j <= k && x < Pow2(8 * j)
    ensures LEBytes(x, k) == LEBytes(x, j) + LEBytes(0, k - j)
  {
    if j > 0 {
      Pow2Byte(j - 1);
      LEBytesHigh(x / 256, j - 1, k - 1);
    }
  }

  /** The bytes of zero are all zero. */
  lemma {:induction false} LEBytesZero(k: nat)
    ensures forall i :: 0 <= i < k ==> LEBytes(0, k)[i] == 0
  {
    if k > 0 {
      LEBytesZero(k - 1);
    }
  }

  /** A word below 2^(8n) has zero bytes from byte `n` on. */
  lemma ToLEHigh(w: U64, n: nat)
    requires n <= 8 && w < Pow2(8 * n)
    ensures forall i :: n <= i < 8 ==> ToLE(w)[i] == 0
  {
    LEBytesHigh(w, n, 8);
    LEBytesZero(8 - n);
    assert forall i :: n <= i < 8 ==> ToLE(w)[i] == LEBytes(0, 8 - n)[i - n];
  }

  /** Byte `i` of the little-endian form is `x / 2^(8i)` modulo 256. */
  lemma {:induction false} LEBytesAt(x: nat, k: nat, i: nat)
    requires i < k
    ensures LEBytes(x, k)[i] == (x / Pow2(8 * i)) % 256
  {
    if i > 0 {
      LEBytesAt(x / 256, k - 1, i - 1);
      DivStep(x, 256, Pow2(8 * (i - 1)));
      Pow2Byte(i - 1);
    }
  }

  /** `(w >> 8i) as u8` is byte `i` of `w`'s little-endian form. */
  lemma ShrByte(w: U64, i: nat)
    requires i < 8
    ensures LowByte(Shr(w, 8 * i)) == ToLE(w)[i]
  {
    ShrIs(w, 8 * i);
    LEBytesAt(w, 8, i);
  }

  lemma FromToLE(w: U64)
    ensures FromLE(ToLE(w)) == w
  {
    LEBytesValue(w, 8);
    Pow2Word();
    ModBelow(w, U64Limit);
  }

  lemma ToFromLE(b: seq<Byte>)
    requires |b| == 8
    ensures ToLE(FromLE(b)) == b
  {
    LEValueBytes(b);
  }

  // ---------------------------------------------------------------------
  // Division facts used below.

  lemma {:induction false} MulAtLeast(d: nat, m: nat)
    requires m >= 1
    ensures d * m >= d
  {
    if m > 1 {
      MulAtLeast(d, m - 1);
      assert d * m == d * (m - 1) + d;
    }
  }

  /** Dividing by 2p is halving and then dividing by p. */
  lemma DivHalf(x: nat, p: nat)
    requires p > 0
    ensures x / (2 * p) == (x / 2) / p
    ensures x % (2 * p) == x % 2 + 2 * ((x / 2) % p)
  {
    DivStep(x, 2, p);
  }

  /** Dividing by d * p is dividing by d and then by p. */
  lemma DivStep(x: nat, d: nat, p: nat)
    requires d > 0 && p > 0
    ensures x / (d * p) == (x / d) / p
    ensures x % (d * p) == x % d + d * ((x / d) % p)
  {
    var q, r := x / d, x % d;
    var a, c := q / p, q % p;
    Regroup(x, d, q, r, p, a, c);
    DivModUnique(x, d * p, a, d * c + r);
  }

  /** x = d q + r and q = p a + c give x = (d p) a + (d c + r), and the
      remainder stays below d p. */
  lemma Regroup(x: nat, d: nat, q: nat, r: nat, p: nat, a: nat, c: nat)
    requires x == d * q + r && q == p * a + c && r < d && c < p
    ensures x == (d * p) * a + (d * c + r) && d * c + r < d * p
  {
    assert d * q == (d * p) * a + d * c;
    MulMonotone(c, p - 1, d);
    assert d * (p - 1) + d == d * p;
  }

  lemma {:induction false} MulMonotone(a: nat, b: nat, d: nat)
    requires a <= b
    ensures d * a <= d * b
  {
    assert d * b == d * a + d * (b - a);
  }

  lemma MulStrict(a: nat, b: nat, c: nat)
    requires a < b && c > 0
    ensures 0 <= a * c < b * c
  {
    assert b * c == a * c + (b - a) * c;
    MulAtLeast(c, b - a);
    assert (b - a) * c == c * (b - a);
  }

  /** A number below 2^(a + b), divided by 2^a, is below 2^b. */
  lemma DivPow2Bound(x: nat, a: nat, b: nat)
    requires x < Pow2(a + b)
    ensures x / Pow2(a) < Pow2(b)
  {
    var pa, pb := Pow2(a), Pow2(b);
    Pow2Add(a, b);
    var q := x / pa;
    assert pa * q <= x;
    if q >= pb {
      MulMonotone(pb, q, pa);
    }
  }

  lemma Pow2Monotone(a: nat, b: nat)
    requires a <= b
    ensures Pow2(a) <= Pow2(b)
  {
    Pow2Add(a, b - a);
    MulAtLeast(Pow2(a), Pow2(b - a));
  }

  /** 2^(a + b) is 2^a times 2^b. */
  lemma {:induction false} Pow2Add(a: nat, b: nat)
    ensures Pow2(a + b) == Pow2(a) * Pow2(b)
  {
    if a > 0 {
      Pow2Add(a - 1, b);
      assert Pow2(a + b) == 2 * Pow2(a - 1 + b);
    }
  }

  lemma DivModUnique(x: nat, d: nat, a: nat, s: nat)
    requires 0 <= s < d && x == d * a + s
    ensures x / d == a && x % d == s
  {
    var q, t := x / d, x % d;
    assert x == d * q + t;
    if q > a {
      assert d * q == d * a + d * (q - a);
      MulAtLeast(d, q - a);
    } else if q < a {
      assert d * a == d * q + d * (a - q);
      MulAtLeast(d, a - q);
    }
  }

  // ---------------------------------------------------------------------
  // u64::trailing_zeros

  /** The number of consecutive zero bits at the bottom of `x`, looking at
      `k` bits at most. */
  function TrailingZerosWithin(x: nat, k: nat): (z: nat)
    ensures z <= k
  {
    if k == 0 || x % 2 == 1 then 0 else 1 + TrailingZerosWithin(x / 2, k - 1)
  }

  /** `z` is the position of the lowest set bit of `x` among its low `k`
      bits, or `k` when those are all zero. */
  ghost predicate LowestSetBit(x: nat, k: nat, z: nat)
  {
    z <= k && x % Pow2(z) == 0 && (z < k ==> (x / Pow2(z)) % 2 == 1)
  }

  lemma {:induction false} TrailingZerosWithinSpec(x: nat, k: nat)
    ensures LowestSetBit(x, k, TrailingZerosWithin(x, k))
    ensures TrailingZerosWithin(x, k) == k <==> x % Pow2(k) == 0
  {
    if k > 0 {
      TrailingZerosWithinSpec(x / 2, k - 1);
      DivHalf(x, Pow2(k - 1));
      if x % 2 == 0 {
        var z := TrailingZerosWithin(x / 2, k - 1);
        DivHalf(x, Pow2(z));
      }
    }
  }

  /** The lowest set bit is determined uniquely. */
  lemma {:induction false} LowestSetBitUnique(x: nat, k: nat, j: nat)
    requires j < k && x % Pow2(j) == 0 && (x / Pow2(j)) % 2 == 1
    ensures TrailingZerosWithin(x, k) == j
  {
    if j > 0 {
      DivHalf(x, Pow2(j - 1));
      LowestSetBitUnique(x / 2, k - 1, j - 1);
    }
  }

  /** An odd multiple of `p` has `p` as its largest power-of-two part. */
  lemma OddTimes(x: nat, b: nat, p: nat)
    requires p > 0 && x == (2 * b + 1) * p
    ensures x % p == 0 && (x / p) % 2 == 1
  {
    DivModUnique(x, p, 2 * b + 1, 0);
  }

  /** Low bits `0..01` of width `k + 1`, with 2^k written `p`: the lowest set bit is bit `k`. */
  lemma MarkerBits(x: nat, p: nat)
    requires p > 0 && x % (2 * p) == p
    ensures x % p == 0 && (x / p) % 2 == 1
  {
    var q := x / (2 * p);
    assert x == p * (2 * q + 1);
    DivModUnique(x, p, 2 * q + 1, 0);
  }

  /** `u64::trailing_zeros`: the number of zero bits below the lowest set
      bit, 64 for a zero word. */
  function TrailingZeros(w: U64): (z: nat)
    ensures z <= 64
    ensures z == 64 <==> w == 0
  {
    TrailingZerosWithinSpec(w, 64);
    Pow2Word();
    TrailingZerosWithin(w, 64)
  }

  /** The bits below position `TrailingZeros(w)` are zero and the bit at it is set. */
  lemma TrailingZerosSpec(w: U64)
    ensures w % Pow2(TrailingZeros(w)) == 0
    ensures TrailingZeros(w) < 64 ==> (w / Pow2(TrailingZeros(w))) % 2 == 1
  {
    TrailingZerosWithinSpec(w, 64);
  }

  lemma TrailingZerosIs(w: U64, j: nat)
    requires j < 64 && w % Pow2(j) == 0 && (w / Pow2(j)) % 2 == 1
    ensures TrailingZeros(w) == j
  {
    LowestSetBitUnique(w, 64, j);
  }
  /** Counting within `k` bits looks at the low `k` bits only. */
  lemma {:induction false} TrailingZerosWithinMod(x: nat, y: nat, k: nat)
    requires x % Pow2(k) == y % Pow2(k)
    ensures TrailingZerosWithin(x, k) == TrailingZerosWithin(y, k)
  {
    if k > 0 {
      DivHalf(x, Pow2(k - 1));
      DivHalf(y, Pow2(k - 1));
      TrailingZerosWithinMod(x / 2, y / 2, k - 1);
    }
  }

  /** Counting within fewer bits caps the count. */
  lemma {:induction false} TrailingZerosWithinCap(x: nat, k: nat, m: nat)
    requires k <= m
    ensures TrailingZerosWithin(x, k) ==
              if TrailingZerosWithin(x, m) < k then TrailingZerosWithin(x, m) else k
  {
    if k > 0 && x % 2 == 0 {
      TrailingZerosWithinCap(x / 2, k - 1, m - 1);
    }
  }

  // ---------------------------------------------------------------------
  // Shifts of a product by a power of two.

  /** Multiplying by 2^l modulo 2^(l + m) keeps the low m bits of `x`. */
  lemma ShiftOutHigh(x: nat, l: nat, m: nat, t: nat)
    requires t == l + m
    ensures (x * Pow2(l)) % Pow2(t) == (x % Pow2(m)) * Pow2(l)
  {
    var q, p := Pow2(l), Pow2(m);
    MulNat(x, q);
    MulNat(q, p);
    MulNat(q, x % p);
    Regroup(x * q, q, x, 0, p, x / p, x % p);
    Pow2Add(l, m);
    DivModUnique(x * q, q * p, x / p, q * (x % p));
  }

  /** Multiplying by 2^l and dividing by 2^(l + n) divides by 2^n. */
  lemma ShiftDown(s: nat, y: nat, l: nat, n: nat, r: nat)
    requires s == y * Pow2(l) && r == l + n
    ensures s / Pow2(r) == y / Pow2(n)
  {
    var q, p := Pow2(l), Pow2(n);
    MulNat(y, q);
    MulNat(q, p);
    MulNat(q, y % p);
    Regroup(y * q, q, y, 0, p, y / p, y % p);
    Pow2Add(l, n);
    DivModUnique(y * q, q * p, y / p, q * (y % p));
  }

  /** An odd multiple of p, divided by 2p, leaves its half. */
  lemma HalveOdd(w: nat, b: nat, p: nat, q: nat)
    requires p > 0 && w == (2 * b + 1) * p && q == 2 * p
    ensures w / q == b
  {
    assert w == q * b + p;
    DivModUnique(w, q, b, p);
  }

  /** A number that is p times an odd number is that odd number, written
      through its half, times p. */
  lemma OddMultiple(x: nat, p: nat)
    requires p > 0 && x % p == 0 && (x / p) % 2 == 1
    ensures x == (2 * (x / (2 * p)) + 1) * p
  {
    var t := x / p;
    assert x == p * t;
    DivStep(x, p, 2);
    assert p * 2 == 2 * p;
    assert t == 2 * (t / 2) + 1;
  }
}
