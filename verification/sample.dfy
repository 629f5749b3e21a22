/**
 The sample converter: SoX's `SOX_SAMPLE_TO_FLOAT_32BIT` rule, which maps a
 native signed 32-bit sample to a normalised value. Samples too close to the
 top of the range saturate to 1.0; every other sample is rounded to a
 multiple of 128 with `(d + 64) & !127` and scaled by 1 / 2^31.

 The integer step is modelled exactly on `i32`, including the bitwise AND on
 the two's-complement pattern. The scaling is real division by 2^31: the
 rounded value is a multiple of 128 of magnitude at most 2^31, so it has at
 most 24 significant bits and both the `as f32` cast and the product by the
 power of two 2^-31 are exact in single precision (see `QuantizeFitsF32`).
 */
module Sample {
  import opened Native

  /** `SOX_SAMPLE_MAX`, the largest native sample. */
  const SOX_SAMPLE_MAX: i32 := 0x7FFF_FFFF

  /** Samples above this value take the saturation branch. */
  const CLIP_THRESHOLD: i32 := SOX_SAMPLE_MAX - 64

  /** `SOX_SAMPLE_MAX + 1.0`, the divisor of the scaling step. */
  const SCALE: real := 2147483648.0

  /** `x & !127` on an `i32`: clears the low seven bits of the two's-complement
      pattern, which rounds `x` down to a multiple of 128. */
  function ClearLow7(x: i32): (r: i32)
    ensures r == x - x % 128
  {
    MaskIsFloor(x);
    FromBits(BitAnd(ToBits(x), Not32(127), 32))
  }

  /** The AND on the bit pattern, read back as an `i32`, is `x` rounded down
      to a multiple of 128. */
  lemma MaskIsFloor(x: i32)
    ensures BitAnd(ToBits(x), Not32(127), 32) < TWO_32
    ensures FromBits(BitAnd(ToBits(x), Not32(127), 32)) == x - x % 128
  {
    var bits := ToBits(x);
    MaskPattern(bits);
    ModOfWrapped(x);
    if x >= 0 {
      assert bits == x;
    } else {
      assert bits == x + TWO_32;
    }
  }

  /** On the unsigned pattern, AND with `!127` clears the low seven bits. */
  lemma MaskPattern(bits: u32)
    ensures BitAnd(bits, Not32(127), 32) == bits - bits % 128
  {
    assert Pow2(7) == 128;
    Pow2Of32();
    assert Not32(127) == Pow2(32) - Pow2(7);
    BitAndClearsLowBits(bits, 7, 32);
  }

  /** The two's-complement pattern keeps the residue modulo 128, and the
      rounded-down value stays within `i32`. */
  lemma ModOfWrapped(x: i32)
    ensures ToBits(x) % 128 == x % 128
    ensures I32_MIN <= x - x % 128
  {
    if x < 0 {
      assert ToBits(x) == x + TWO_32;
      assert TWO_32 == 128 * 0x200_0000;
      DivModUnique(x + TWO_32, 128, x / 128 + 0x200_0000, x % 128);
    }
  }

  /** The non-saturating branch: `(d + 64) & !127`. The sum cannot overflow,
      the result is a multiple of 128 within 64 of `d`, and it lies in
      [-2^31, 2^31 - 128]. */
  function Quantize(d: i32): (q: i32)
    requires d <= CLIP_THRESHOLD
    ensures q % 128 == 0
    ensures d - 64 < q <= d + 64
    ensures I32_MIN <= q <= SOX_SAMPLE_MAX - 127
  {
    var sum: i32 := d + 64;
    var q := ClearLow7(sum);
    var k := sum / 128;
    assert q == 128 * k;
    assert k <= 0xFF_FFFF;
    DivModUnique(q, 128, k, 0);
    q
  }

  /** `sox_sample_to_float_32bit`: saturates to exactly 1.0 above the threshold,
      is otherwise strictly below 1.0, and never leaves [-1.0, 1.0]. */
  function SampleToFloat32(d: i32): (r: real)
    ensures d > CLIP_THRESHOLD ==> r == 1.0
    ensures d <= CLIP_THRESHOLD ==> r < 1.0
    ensures -1.0 <= r <= 1.0
  {
    if d > CLIP_THRESHOLD then 1.0
    else Quantize(d) as real / SCALE
  }

  // ---------------------------------------------------------------------
  // Reference definition: round half up to a multiple of 128, on unbounded
  // integers.
  // ---------------------------------------------------------------------

  predicate IsMultipleOf128(m: int) {
    m % 128 == 0
  }

  function Dist(a: int, b: int): nat {
    if a <= b then b - a else a - b
  }

  /** `m` is a multiple of 128 nearest to `n`, and among two equally near
      multiples it is the upper one. */
  ghost predicate NearestHalfUp(n: int, m: int) {
    && IsMultipleOf128(m)
    && (forall m' :: IsMultipleOf128(m') ==> Dist(n, m) <= Dist(n, m'))
    && (forall m' :: IsMultipleOf128(m') && Dist(n, m') == Dist(n, m) ==> m' <= m)
  }

  /** 128 times the floor of (n + 64) / 128. */
  function RoundHalfUp128(n: int): int {
    128 * ((n + 64) / 128)
  }

  /** A multiple of 128 in the half-open window (n - 64, n + 64] is the
      nearest one, ties going up. */
  lemma WindowIsNearest(n: int, m: int)
    requires IsMultipleOf128(m) && n - 64 < m <= n + 64
    ensures NearestHalfUp(n, m)
  {
    forall m' | IsMultipleOf128(m')
      ensures Dist(n, m) <= Dist(n, m')
      ensures Dist(n, m') == Dist(n, m) ==> m' <= m
    {
      FarMultiple(m, m');
    }
  }

  /** Two distinct multiples of 128 are at least 128 apart. */
  lemma FarMultiple(m: int, m': int)
    requires IsMultipleOf128(m) && IsMultipleOf128(m')
    ensures m' == m || m' <= m - 128 || m' >= m + 128
  {
    var k, k' := m / 128, m' / 128;
    assert m == 128 * k && m' == 128 * k';
    if k' < k {
      assert m - m' == 128 * (k - k');
    } else if k' > k {
      assert m' - m == 128 * (k' - k);
    }
  }

  /** The reference rounding really is round-half-up to the nearest multiple
      of 128, and it is the only value that is. */
  lemma RoundHalfUp128IsNearest(n: int, m: int)
    ensures NearestHalfUp(n, RoundHalfUp128(n))
    ensures NearestHalfUp(n, m) ==> m == RoundHalfUp128(n)
  {
    var r := RoundHalfUp128(n);
    assert (n + 64) == 128 * ((n + 64) / 128) + (n + 64) % 128;
    assert IsMultipleOf128(r) by {
      DivModUnique(r, 128, (n + 64) / 128, 0);
    }
    WindowIsNearest(n, r);
    if NearestHalfUp(n, m) {
      assert Dist(n, m) <= Dist(n, r);
      FarMultiple(r, m);
    }
  }

  /** The bit-level quantisation is the reference rounding. */
  lemma QuantizeIsRounding(d: i32)
    requires d <= CLIP_THRESHOLD
    ensures Quantize(d) == RoundHalfUp128(d)
    ensures NearestHalfUp(d, Quantize(d))
  {
    WindowIsNearest(d, Quantize(d));
    RoundHalfUp128IsNearest(d, Quantize(d));
  }

  /** One rule covers both branches: every sample maps to its nearest
      multiple of 128 (ties up), divided by 2^31. Saturation is exactly what
      that rule gives for the samples whose `d + 64` would overflow `i32`. */
  lemma SampleToFloat32IsScaledRounding(d: i32)
    ensures SampleToFloat32(d) == RoundHalfUp128(d) as real / SCALE
    ensures d > CLIP_THRESHOLD <==> d + 64 > SOX_SAMPLE_MAX
  {
    if d > CLIP_THRESHOLD {
      DivModUnique(d + 64, 128, 0x100_0000, d + 64 - 0x8000_0000);
      assert RoundHalfUp128(d) == 0x8000_0000;
    } else {
      QuantizeIsRounding(d);
    }
  }

  /** The quantised value is 128 * k with |k| <= 2^24, so it has at most 24
      significant bits: the single-precision cast and scaling are exact. */
  lemma QuantizeFitsF32(d: i32)
    requires d <= CLIP_THRESHOLD
    ensures Quantize(d) == 128 * (Quantize(d) / 128)
    ensures -0x100_0000 <= Quantize(d) / 128 < 0x100_0000
  {
    var q := Quantize(d);
    DivModUnique(q, 128, q / 128, 0);
  }

  /** Larger samples never convert to smaller values. */
  lemma SampleToFloat32Monotone(a: i32, b: i32)
    requires a <= b
    ensures SampleToFloat32(a) <= SampleToFloat32(b)
  {
    SampleToFloat32IsScaledRounding(a);
    SampleToFloat32IsScaledRounding(b);
    RoundHalfUp128Monotone(a, b);
  }

  lemma RoundHalfUp128Monotone(a: int, b: int)
    requires a <= b
    ensures RoundHalfUp128(a) <= RoundHalfUp128(b)
  {
  }
}
