/*
 * Small shared vocabulary for the lexyOS model: an optional value, the
 * fixed-width unsigned arithmetic the C code relies on, and byte helpers.
 */
module Common {

  datatype Option<T> = None | Some(value: T)

  const U8_LIMIT: nat := 0x100
  const U16_LIMIT: nat := 0x1_0000
  const U32_LIMIT: nat := 0x1_0000_0000
  const U64_LIMIT: nat := 0x1_0000_0000_0000_0000

  type byte = x: int | 0 <= x < 0x100
  type u16 = x: int | 0 <= x < 0x1_0000
  type u32 = x: int | 0 <= x < 0x1_0000_0000
  type u64 = x: int | 0 <= x < 0x1_0000_0000_0000_0000

  /** Reduction of a mathematical integer to an unsigned 32-bit value (C's conversion rule). */
  function U32(x: int): (r: u32)
    ensures 0 <= x < U32_LIMIT ==> r == x
    ensures (r - x) % U32_LIMIT == 0
  {
    x % U32_LIMIT
  }

  /** Reduction of a mathematical integer to an unsigned 64-bit value. */
  function U64(x: int): (r: u64)
    ensures 0 <= x < U64_LIMIT ==> r == x
    ensures (r - x) % U64_LIMIT == 0
  {
    x % U64_LIMIT
  }

  /** Adding a multiple of 2^32 does not change a uint32 value. */
  lemma U32Multiple(p: u32, t: int)
    ensures U32(p + U32_LIMIT * t) == p
  {
    var x := p + U32_LIMIT * t;
    var q, r := x / U32_LIMIT, x % U32_LIMIT;
    assert x == U32_LIMIT * q + r && 0 <= r < U32_LIMIT;
    assert U32_LIMIT * (q - t) == p - r;
    assert q - t == 0;
  }

  /** Adding a multiple of 2^32 does not change the uint32 reduction of any integer. */
  lemma U32Shift(x: int, t: int)
    ensures U32(x + U32_LIMIT * t) == U32(x)
  {
    var p := U32(x);
    var s := (x - p) / U32_LIMIT;
    assert x == p + U32_LIMIT * s;
    assert x + U32_LIMIT * t == p + U32_LIMIT * (s + t);
    U32Multiple(p, s + t);
  }

  /** uint32 addition of k is undone by uint32 subtraction of k. */
  lemma U32Cancel(p: u32, k: int)
    ensures U32(U32(p + k) - k) == p
  {
    var a := U32(p + k);
    var t := (a - (p + k)) / U32_LIMIT;
    assert a - k == p + U32_LIMIT * t;
    U32Multiple(p, t);
  }

  /**
   * uint32 addition, written without a remainder: the sum, less 2^32 when
   * it overflows. It is C's wrapping `+=` (see Add32IsU32).
   */
  function Add32(a: u32, b: u32): u32
  {
    if a + b < U32_LIMIT then a + b else a + b - U32_LIMIT
  }

  lemma Add32IsU32(a: u32, b: u32)
    ensures Add32(a, b) == U32(a + b)
  {
    if a + b >= U32_LIMIT {
      U32Multiple(Add32(a, b), 1);
    }
  }

  /** Two wrapping additions are one addition of the sum. */
  lemma Add32Twice(a: u32, b: u32, c: u32)
    requires b + c < U32_LIMIT
    ensures Add32(Add32(a, b), c) == Add32(a, b + c)
  {
  }

  /** uint32 subtraction: the difference, plus 2^32 when it would be negative. */
  function Sub32(a: u32, b: u32): u32
  {
    if a >= b then a - b else a - b + U32_LIMIT
  }

  lemma Sub32IsU32(a: u32, b: u32)
    ensures Sub32(a, b) == U32(a - b)
  {
    if a < b {
      U32Multiple(Sub32(a, b), -1);
    }
  }

  /** An unsigned 32-bit value reinterpreted as a two's-complement C int. */
  function ToInt32(x: u32): (r: int)
    ensures -0x8000_0000 <= r < 0x8000_0000
    ensures U32(r) == x
  {
    if x < 0x8000_0000 then x else x - U32_LIMIT
  }

  function Min(a: int, b: int): int { if a <= b then a else b }

  /** The byte at `i`; bytes past either end of `s` read as zero. */
  function ByteAt(s: seq<byte>, i: int): byte
  {
    if 0 <= i < |s| then s[i] else 0
  }

  /** Little-endian read of `n` bytes at `off`. */
  function LE(s: seq<byte>, off: int, n: nat): (r: nat)
    decreases n
  {
    if n == 0 then 0 else ByteAt(s, off) + 0x100 * LE(s, off + 1, n - 1)
  }

  lemma {:induction false} LEBound(s: seq<byte>, off: int, n: nat)
    ensures LE(s, off, n) < Pow256(n)
    decreases n
  {
    if n > 0 {
      LEBound(s, off + 1, n - 1);
    }
  }

  function Pow256(n: nat): (r: nat)
    ensures r >= 1
  {
    if n == 0 then 1 else 0x100 * Pow256(n - 1)
  }

  function LE32(s: seq<byte>, off: int): (r: u32)
  {
    LEBound(s, off, 4);
    LE(s, off, 4)
  }

  function LE64(s: seq<byte>, off: int): (r: u64)
  {
    LEBound(s, off, 8);
    LE(s, off, 8)
  }

  // ---------------------------------------------------------------------
  // Bitwise operations on unsigned values held as integers
  // ---------------------------------------------------------------------

  function Pow2(n: nat): (r: nat)
    ensures r >= 1
  {
    if n == 0 then 1 else 2 * Pow2(n - 1)
  }

  /** The low `n` bits of the bitwise OR of `a` and `b`, one bit at a time. */
  function BitOr(a: nat, b: nat, n: nat): nat
    decreases n
  {
    if n == 0 then 0
    else (if a % 2 == 1 || b % 2 == 1 then 1 else 0) + 2 * BitOr(a / 2, b / 2, n - 1)
  }

  lemma {:induction false} BitOrBound(a: nat, b: nat, n: nat)
    ensures BitOr(a, b, n) < Pow2(n)
    decreases n
  {
    if n > 0 {
      BitOrBound(a / 2, b / 2, n - 1);
    }
  }

  /** An OR keeps every bit of both operands, so it is at least either of them. */
  lemma {:induction false} BitOrAtLeast(a: nat, b: nat, n: nat)
    requires a < Pow2(n) && b < Pow2(n)
    ensures BitOr(a, b, n) >= a && BitOr(a, b, n) >= b
    decreases n
  {
    if n > 0 {
      BitOrAtLeast(a / 2, b / 2, n - 1);
    }
  }

  lemma {:induction false} BitOrZero(a: nat, n: nat)
    requires a < Pow2(n)
    ensures BitOr(a, 0, n) == a
    decreases n
  {
    if n > 0 {
      BitOrZero(a / 2, n - 1);
    }
  }

  /** OR-ing a value into the zero low bits of another one is addition. */
  lemma {:induction false} BitOrDisjoint(a: nat, b: nat, c: nat, k: nat, n: nat)
    requires k <= n && a < Pow2(n)
    requires a == c * Pow2(k) && b < Pow2(k)
    ensures BitOr(a, b, n) == a + b
    decreases n
  {
    if k == 0 {
      BitOrZero(a, n);
    } else {
      assert a == 2 * (c * Pow2(k - 1));
      BitOrDisjoint(a / 2, b / 2, c, k - 1, n - 1);
    }
  }

  lemma {:induction false} Pow2Add(a: nat, b: nat)
    ensures Pow2(a + b) == Pow2(a) * Pow2(b)
    decreases a
  {
    if a > 0 {
      Pow2Add(a - 1, b);
    }
  }

  lemma Pow2Values()
    ensures Pow2(4) == 16 && Pow2(12) == 4096 && Pow2(64) == U64_LIMIT
    ensures Pow2(8) == 0x100 && Pow2(16) == U16_LIMIT && Pow2(32) == U32_LIMIT
  {
    assert Pow2(4) == 16;
    Pow2Add(4, 4);
    assert Pow2(8) == 0x100;
    Pow2Add(8, 4);
    Pow2Add(8, 8);
    assert Pow2(16) == U16_LIMIT;
    Pow2Add(16, 16);
    assert Pow2(32) == U32_LIMIT;
    Pow2Add(32, 32);
  }

  /** The low `n` bits of the bitwise AND of `a` and `b`, one bit at a time. */
  function BitAnd(a: nat, b: nat, n: nat): (r: nat)
    ensures r <= a
    decreases n
  {
    if n == 0 then 0
    else (if a % 2 == 1 && b % 2 == 1 then 1 else 0) + 2 * BitAnd(a / 2, b / 2, n - 1)
  }

  /** `~m` on 64 bits. */
  function Not64(m: u64): u64
  {
    U64_LIMIT - 1 - m
  }

  lemma {:induction false} BitAndZero(x: nat, n: nat)
    ensures BitAnd(x, 0, n) == 0
    decreases n
  {
    if n > 0 {
      BitAndZero(x / 2, n - 1);
    }
  }

  /** Subtracting the remainder gives the largest multiple of `a` not above `x`. */
  lemma RoundDown(x: nat, a: nat)
    requires a > 0
    ensures (x - x % a) % a == 0 && x - x % a <= x < x - x % a + a
  {
    DivModUnique(x - x % a, a, x / a, 0);
  }

  lemma {:induction false} BitAndOnes(x: nat, n: nat)
    requires x < Pow2(n)
    ensures BitAnd(x, Pow2(n) - 1, n) == x
    decreases n
  {
    if n > 0 {
      assert (Pow2(n) - 1) / 2 == Pow2(n - 1) - 1 && (Pow2(n) - 1) % 2 == 1;
      BitAndOnes(x / 2, n - 1);
    }
  }

  /** AND with a mask whose low k bits are clear and whose other n - k bits are set rounds down to a multiple of 2^k. */
  lemma {:induction false} BitAndClearsLow(x: nat, mask: nat, k: nat, n: nat)
    requires k <= n && x < Pow2(n) && mask + Pow2(k) == Pow2(n)
    ensures BitAnd(x, mask, n) == x - x % Pow2(k)
    decreases n
  {
    if k == 0 {
      BitAndOnes(x, n);
    } else {
      Pow2Monotone(k - 1, n - 1);
      assert mask % 2 == 0 && mask / 2 + Pow2(k - 1) == Pow2(n - 1);
      BitAndClearsLow(x / 2, mask / 2, k - 1, n - 1);
      HalveRoundDown(x, Pow2(k - 1));
    }
  }

  lemma HalveRoundDown(x: nat, p: nat)
    requires p > 0
    ensures 2 * (x / 2 - (x / 2) % p) == x - x % (2 * p)
  {
    var q := x / 2;
    var t := q % p;
    var m := q / p;
    assert q == p * m + t && 0 <= t < p;
    assert x == 2 * q + x % 2;
    assert x == (2 * p) * m + (2 * t + x % 2);
    assert 0 <= 2 * t + x % 2 < 2 * p;
    DivModUnique(x, 2 * p, m, 2 * t + x % 2);
  }

  lemma DivModUnique(x: nat, d: nat, q: nat, r: nat)
    requires d > 0 && x == d * q + r && r < d
    ensures x % d == r && x / d == q
  {
    var q', r' := x / d, x % d;
    assert x == d * q' + r';
    if q' < q {
      MulStep(d, q', q);
      assert false;
    } else if q < q' {
      MulStep(d, q, q');
      assert false;
    }
  }

  lemma {:induction false} MulStep(d: nat, a: nat, b: nat)
    requires a < b
    ensures d * a + d <= d * b
    decreases b
  {
    assert d * b == d * (b - 1) + d;
    if a < b - 1 {
      MulStep(d, a, b - 1);
    }
  }

  lemma {:induction false} Pow2Monotone(a: nat, b: nat)
    requires a <= b
    ensures Pow2(a) <= Pow2(b)
    decreases b
  {
    if a < b {
      Pow2Monotone(a, b - 1);
    }
  }
}
