/**
 Fixed-width integer types of the Rust side of the binding, written out as
 bounded subsets of Dafny's unbounded `int`, together with the two's-complement
 view of a 32-bit signed integer that Rust's bitwise operators work on.
 The target is taken to be 64-bit, so `usize` is a 64-bit unsigned integer.
 */
module Native {

  const I32_MIN: int := -0x8000_0000
  const I32_MAX: int := 0x7FFF_FFFF
  const TWO_32: int := 0x1_0000_0000
  const TWO_64: int := 0x1_0000_0000_0000_0000

  /** `i32` / `c_int`: the native SoX sample type. */
  type i32 = x: int | -0x8000_0000 <= x <= 0x7FFF_FFFF

  /** `usize` on a 64-bit target: the count type `sox_read` returns. */
  type usize = x: int | 0 <= x < 0x1_0000_0000_0000_0000

  /** `u8`: one byte of a file. */
  type u8 = x: int | 0 <= x < 0x100

  /** `u32`: the bit pattern of one 4-byte little-endian word. */
  type u32 = x: int | 0 <= x < 0x1_0000_0000

  /** Rust's `Result` and `Option`. */
  datatype Result<T, E> = Ok(value: T) | Err(error: E)
  datatype Option<T> = None | Some(value: T)

  /** Rust's `x as usize` for a signed `isize` value: wrap-around modulo 2^64. */
  function AsUsize(x: int): (r: usize)
    requires -0x8000_0000_0000_0000 <= x < 0x8000_0000_0000_0000
    ensures x >= 0 ==> r == x
    ensures x < 0 ==> r == x + TWO_64
  {
    x % TWO_64
  }

  /** 2 to the power `n`. */
  function Pow2(n: nat): (r: nat)
    ensures r >= 1
  {
    if n == 0 then 1 else 2 * Pow2(n - 1)
  }

  /** The two's-complement bit pattern of an `i32`, read as an unsigned number. */
  function ToBits(x: i32): (b: u32)
    ensures b % TWO_32 == x % TWO_32
  {
    if x >= 0 then
      DivModUnique(x, TWO_32, 0, x);
      x
    else
      DivModUnique(x, TWO_32, -1, x + TWO_32);
      DivModUnique(x + TWO_32, TWO_32, 0, x + TWO_32);
      x + TWO_32
  }

  /** The `i32` whose two's-complement bit pattern is `b`. */
  function FromBits(b: u32): (x: i32)
    ensures x % TWO_32 == b
  {
    if b <= I32_MAX then b else b - TWO_32
  }

  /** Bitwise NOT of a 32-bit pattern (Rust's `!` on a 32-bit integer). */
  function Not32(a: u32): (r: u32)
    ensures a + r == TWO_32 - 1
  {
    TWO_32 - 1 - a
  }

  /**
   Bitwise AND of the low `width` bits of `a` and `b` (Rust's `&`), defined
   bit by bit from the least significant end.
   */
  function BitAnd(a: nat, b: nat, width: nat): nat
    decreases width
  {
    if width == 0 then 0
    else (if a % 2 == 1 && b % 2 == 1 then 1 else 0) + 2 * BitAnd(a / 2, b / 2, width - 1)
  }

  /** AND with a mask whose low `k` bits are clear and whose other bits up to
      `width` are set clears exactly the low `k` bits: the result rounds `a`
      down to a multiple of 2^k. */
  lemma BitAndClearsLowBits(a: nat, k: nat, width: nat)
    requires k <= width
    requires a < Pow2(width)
    ensures Pow2(k) <= Pow2(width)
    ensures BitAnd(a, Pow2(width) - Pow2(k), width) == a - a % Pow2(k)
  {
    Pow2Monotone(k, width);
    ClearLowBits(a, k, width);
  }

  /** The induction on `width` behind `BitAndClearsLowBits`. */
  lemma {:induction false} ClearLowBits(a: nat, k: nat, width: nat)
    requires k <= width
    requires a < Pow2(width)
    requires Pow2(k) <= Pow2(width)
    ensures BitAnd(a, Pow2(width) - Pow2(k), width) == a - a % Pow2(k)
    decreases width
  {
    if k == 0 {
      ClearNoBits(a, width);
    } else {
      Pow2Monotone(k - 1, width - 1);
      var p := Pow2(width - 1);
      assert Pow2(width) == 2 * p;
      assert a / 2 < p;
      ClearLowBits(a / 2, k - 1, width - 1);
      ClearOneMoreBit(a, k, width);
    }
  }

  /** The base case: the all-ones mask leaves a `width`-bit value unchanged. */
  lemma ClearNoBits(a: nat, width: nat)
    requires a < Pow2(width)
    ensures BitAnd(a, Pow2(width) - Pow2(0), width) == a - a % Pow2(0)
  {
    BitAndAllOnes(a, width);
    DivModUnique(a, Pow2(width), 0, a);
    DivModUnique(a, 1, a, 0);
  }

  /** The inductive step: clearing k low bits of `a` is clearing k - 1 low
      bits of `a / 2` and shifting back. */
  lemma ClearOneMoreBit(a: nat, k: nat, width: nat)
    requires 0 < k <= width
    requires Pow2(k - 1) <= Pow2(width - 1)
    requires BitAnd(a / 2, Pow2(width - 1) - Pow2(k - 1), width - 1)
          == a / 2 - (a / 2) % Pow2(k - 1)
    ensures Pow2(k) <= Pow2(width)
    ensures BitAnd(a, Pow2(width) - Pow2(k), width) == a - a % Pow2(k)
  {
    var p, h := Pow2(width - 1), Pow2(k - 1);
    assert Pow2(width) == 2 * p && Pow2(k) == 2 * h;
    MaskStep(a, p, h, width);
    assert Pow2(width) - Pow2(k) == 2 * p - 2 * h;
    assert a % Pow2(k) == a % (2 * h);
  }

  /** The step of `ClearOneMoreBit`, with the powers of two as plain numbers. */
  lemma MaskStep(a: nat, p: nat, h: nat, width: nat)
    requires width > 0 && 1 <= h <= p
    requires BitAnd(a / 2, p - h, width - 1) == a / 2 - (a / 2) % h
    ensures BitAnd(a, 2 * p - 2 * h, width) == a - a % (2 * h)
  {
    var m := 2 * p - 2 * h;
    assert m % 2 == 0 && m / 2 == p - h;
    var rest := BitAnd(a / 2, p - h, width - 1);
    BitAndEvenMask(a, m, width);
    HalveRemainder(a, h);
    CombineHalves(a, h, rest);
  }

  lemma CombineHalves(a: nat, h: nat, rest: int)
    requires h >= 1
    requires rest == a / 2 - (a / 2) % h
    requires a % (2 * h) == 2 * ((a / 2) % h) + a % 2
    ensures 2 * rest == a - a % (2 * h)
  {
  }

  /** An odd mask keeps the lowest bit and shifts the rest. */
  lemma BitAndOddMask(a: nat, m: nat, width: nat)
    requires width > 0 && m % 2 == 1
    ensures BitAnd(a, m, width) == a % 2 + 2 * BitAnd(a / 2, m / 2, width - 1)
  {
  }

  /** An even mask clears the lowest bit and shifts the rest. */
  lemma BitAndEvenMask(a: nat, m: nat, width: nat)
    requires width > 0 && m % 2 == 0
    ensures BitAnd(a, m, width) == 2 * BitAnd(a / 2, m / 2, width - 1)
  {
  }

  /** AND with the all-ones mask of `width` bits keeps the low `width` bits. */
  lemma {:induction false} BitAndAllOnes(a: nat, width: nat)
    ensures BitAnd(a, Pow2(width) - 1, width) == a % Pow2(width)
    decreases width
  {
    if width > 0 {
      var p := Pow2(width - 1);
      assert Pow2(width) == 2 * p;
      BitAndAllOnes(a / 2, width - 1);
      AllOnesStep(a, p, width);
    }
  }

  /** The step of `BitAndAllOnes`, with the power of two as a plain number. */
  lemma AllOnesStep(a: nat, p: nat, width: nat)
    requires width > 0 && p >= 1
    requires BitAnd(a / 2, p - 1, width - 1) == (a / 2) % p
    ensures BitAnd(a, 2 * p - 1, width) == a % (2 * p)
  {
    var m := 2 * p - 1;
    assert m % 2 == 1 && m / 2 == p - 1;
    BitAndOddMask(a, m, width);
    HalveRemainder(a, p);
  }

  /** a mod 2p, split into its lowest bit and (a / 2) mod p. */
  lemma HalveRemainder(a: nat, p: nat)
    requires p >= 1
    ensures a % (2 * p) == 2 * ((a / 2) % p) + a % 2
  {
    var q := (a / 2) / p;
    var r := (a / 2) % p;
    assert a / 2 == p * q + r;
    assert a == (2 * p) * q + (2 * r + a % 2);
    DivModUnique(a, 2 * p, q, 2 * r + a % 2);
  }

  /** Quotient and remainder are determined by a == d * q + r with 0 <= r < d. */
  lemma DivModUnique(a: int, d: int, q: int, r: int)
    requires d > 0 && 0 <= r < d && a == d * q + r
    ensures a / d == q && a % d == r
  {
    var q', r' := a / d, a % d;
    assert a == d * q' + r';
    if q' > q {
      assert d * q' - d * q == d * (q' - q);
      MulAtLeast(d, q' - q);
    } else if q' < q {
      assert d * q - d * q' == d * (q - q');
      MulAtLeast(d, q - q');
    }
  }

  lemma MulAtLeast(d: int, k: int)
    requires d > 0 && k >= 1
    ensures d * k >= d
  {
  }

  lemma {:induction false} Pow2Monotone(k: nat, n: nat)
    requires k <= n
    ensures Pow2(k) <= Pow2(n)
    decreases n
  {
    if k < n {
      Pow2Monotone(k, n - 1);
    }
  }

  lemma {:induction false} Pow2Add(a: nat, b: nat)
    ensures Pow2(a + b) == Pow2(a) * Pow2(b)
    decreases a
  {
    if a > 0 {
      Pow2Add(a - 1, b);
    }
  }

  lemma Pow2Of32()
    ensures Pow2(32) == TWO_32
  {
    assert Pow2(8) == 256;
    Pow2Add(8, 8);
    Pow2Add(16, 16);
  }
}
