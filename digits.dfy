/*
 * Number formatting shared by the console (ui/console.c) and the serial
 * port (drivers/serial/serial.c): decimal digits without leading zeros and
 * fixed-width upper-case hexadecimal, each with its parser, so that the text
 * the kernel prints can be read back as the number it printed.
 */
module Digits {
  import opened Common

  const HEX_DIGITS: string := "0123456789ABCDEF"

  /** '0' + d */
  function DecChar(d: nat): (c: char)
    requires d < 10
    ensures '0' <= c <= '9'
  {
    (48 + d) as char
  }

  /** An upper-case hexadecimal digit: a character of HEX_DIGITS. */
  predicate IsHexDigit(c: char)
  {
    '0' <= c <= '9' || 'A' <= c <= 'F'
  }

  /** hex_digits[d] */
  function HexChar(d: nat): (c: char)
    requires d < 16
    ensures IsHexDigit(c)
    ensures c as int == if d < 10 then 48 + d else 55 + d
  {
    HEX_DIGITS[d]
  }

  predicate IsDecimal(s: string)
  {
    forall i :: 0 <= i < |s| ==> '0' <= s[i] <= '9'
  }

  /** The value of a decimal digit character. */
  function DecValue(c: char): (v: nat)
    requires '0' <= c <= '9'
    ensures v < 10 && DecChar(v) == c
  {
    c as int - 48
  }

  /** The decimal digits of n, most significant first; none for 0. */
  function DigitsOf(n: nat): (s: string)
    ensures IsDecimal(s)
    ensures n > 0 ==> |s| > 0 && s[0] != '0'
    decreases n
  {
    if n == 0 then [] else DigitsOf(n / 10) + [DecChar(n % 10)]
  }

  /** What console_write_dec and serial_write_dec print: the digits, or "0" for 0. */
  function Decimal(n: nat): (s: string)
    ensures IsDecimal(s) && |s| > 0
    ensures s[0] == '0' <==> n == 0
  {
    if n == 0 then "0" else DigitsOf(n)
  }

  /** The number a string of decimal digits denotes. */
  function ParseDecimal(s: string): nat
    requires IsDecimal(s)
  {
    if s == [] then 0 else ParseDecimal(s[..|s| - 1]) * 10 + DecValue(s[|s| - 1])
  }

  /** Reading the printed digits back gives the number. */
  lemma {:induction false} DigitsRoundTrip(n: nat)
    ensures ParseDecimal(DigitsOf(n)) == n
    decreases n
  {
    if n > 0 {
      var s := DigitsOf(n);
      assert s[..|s| - 1] == DigitsOf(n / 10);
      DigitsRoundTrip(n / 10);
    }
  }

  lemma DecimalRoundTrip(n: nat)
    ensures ParseDecimal(Decimal(n)) == n
  {
    DigitsRoundTrip(n);
  }

  /**
   * The other direction: a digit string without a leading zero is exactly
   * what is printed for the number it denotes.
   */
  lemma {:induction false} CanonicalDigits(s: string)
    requires IsDecimal(s) && (|s| > 0 ==> s[0] != '0')
    ensures DigitsOf(ParseDecimal(s)) == s
    ensures |s| > 0 ==> ParseDecimal(s) > 0
    decreases |s|
  {
    if s != [] {
      var p, c := s[..|s| - 1], s[|s| - 1];
      assert s == p + [c];
      assert |p| > 0 ==> p[0] == s[0];
      CanonicalDigits(p);
      var m, d := ParseDecimal(p), DecValue(c);
      var n := ParseDecimal(s);
      assert n == m * 10 + d;
      DivModUnique(n, 10, m, d);
      assert n > 0 by {
        if p == [] {
          assert c == s[0];
        }
      }
      assert DigitsOf(n) == DigitsOf(m) + [DecChar(d)];
    }
  }

  lemma CanonicalDecimal(s: string)
    requires IsDecimal(s) && |s| > 0 && (s[0] == '0' ==> s == "0")
    ensures Decimal(ParseDecimal(s)) == s
  {
    if s == "0" {
      assert ParseDecimal(s) == ParseDecimal([]) * 10 + 0;
    } else {
      CanonicalDigits(s);
    }
  }

  function Pow10(k: nat): (r: nat)
    ensures r >= 1
  {
    if k == 0 then 1 else 10 * Pow10(k - 1)
  }

  /** A number below 10^k has at most k digits. */
  lemma {:induction false} DigitsLength(n: nat, k: nat)
    requires n < Pow10(k)
    ensures |DigitsOf(n)| <= k
    decreases k
  {
    if n > 0 {
      DigitsLength(n / 10, k - 1);
    }
  }

  /** The buffers the two writers fill: at most 10 digits for a uint32, at most 20 for a uint64. */
  lemma DecimalWidths(n: nat)
    ensures n < U32_LIMIT ==> |DigitsOf(n)| <= 10
    ensures n < U64_LIMIT ==> |DigitsOf(n)| <= 20
  {
    assert Pow10(10) == 10_000_000_000;
    assert Pow10(20) == 100_000_000_000_000_000_000;
    if n < U32_LIMIT {
      DigitsLength(n, 10);
    }
    if n < U64_LIMIT {
      DigitsLength(n, 20);
    }
  }

  /** The k low nibbles of n as upper-case hexadecimal, most significant first. */
  function Hex(n: nat, k: nat): (s: string)
    ensures |s| == k
    decreases k
  {
    if k == 0 then [] else Hex(n / 16, k - 1) + [HexChar(n % 16)]
  }

  /** Every character Hex prints is a hexadecimal digit. */
  lemma {:induction false} HexDigits(n: nat, k: nat)
    ensures forall i :: 0 <= i < k ==> IsHexDigit(Hex(n, k)[i])
    decreases k
  {
    if k > 0 {
      HexDigits(n / 16, k - 1);
    }
  }

  /** The value of a hexadecimal digit character: its position in HEX_DIGITS. */
  function HexValue(c: char): (v: nat)
    requires IsHexDigit(c)
    ensures v < 16 && HexChar(v) == c
  {
    if '0' <= c <= '9' then c as int - 48 else c as int - 55
  }

  function ParseHex(s: string): nat
    requires forall i :: 0 <= i < |s| ==> IsHexDigit(s[i])
  {
    if s == [] then 0 else ParseHex(s[..|s| - 1]) * 16 + HexValue(s[|s| - 1])
  }

  /** x % (16 * p) from x / 16 and x % 16. */
  lemma ModNibble(x: nat, p: nat)
    requires p > 0
    ensures (x / 16 % p) * 16 + x % 16 == x % (16 * p)
  {
    var q := x / 16 / p;
    var r := x / 16 % p;
    assert x == 16 * (p * q + r) + x % 16;
    MulStep(16, r, p);
    assert x == (16 * p) * q + (r * 16 + x % 16);
    DivModUnique(x, 16 * p, q, r * 16 + x % 16);
  }

  function Pow16(k: nat): (r: nat)
    ensures r >= 1
  {
    if k == 0 then 1 else 16 * Pow16(k - 1)
  }

  /** Reading k printed nibbles back gives n modulo 16^k. */
  lemma {:induction false} HexRoundTrip(n: nat, k: nat)
    ensures (forall i :: 0 <= i < k ==> IsHexDigit(Hex(n, k)[i])) && ParseHex(Hex(n, k)) == n % Pow16(k)
    decreases k
  {
    HexDigits(n, k);
    if k > 0 {
      var s := Hex(n, k);
      assert s[..k - 1] == Hex(n / 16, k - 1);
      assert ParseHex(s) == ParseHex(Hex(n / 16, k - 1)) * 16 + n % 16;
      HexRoundTrip(n / 16, k - 1);
      ModNibble(n, Pow16(k - 1));
    }
  }

  lemma Pow16Values()
    ensures Pow16(8) == U32_LIMIT && Pow16(16) == U64_LIMIT
  {
    assert Pow16(8) == U32_LIMIT;
    assert Pow16(16) == U64_LIMIT;
  }

  /** The 16 nibbles printed for a uint64 read back as the number itself. */
  lemma Hex64RoundTrip(n: u64)
    ensures (forall i :: 0 <= i < 16 ==> IsHexDigit(Hex(n, 16)[i])) && ParseHex(Hex(n, 16)) == n
  {
    HexRoundTrip(n, 16);
    Pow16Values();
    DivModUnique(n, Pow16(16), 0, n);
  }

  /** The 8 nibbles printed for a uint32 read back as the number itself. */
  lemma Hex32RoundTrip(n: u32)
    ensures (forall i :: 0 <= i < 8 ==> IsHexDigit(Hex(n, 8)[i])) && ParseHex(Hex(n, 8)) == n
  {
    HexRoundTrip(n, 8);
    Pow16Values();
    DivModUnique(n, Pow16(8), 0, n);
  }

  /** s back to front: the order in which a digit buffer filled from the low end is emitted. */
  function Reversed(s: string): (r: string)
    ensures |r| == |s|
    ensures forall k :: 0 <= k < |s| ==> r[k] == s[|s| - 1 - k]
  {
    if s == [] then [] else [s[|s| - 1]] + Reversed(s[..|s| - 1])
  }

  /**
   * The digit loop of the decimal writers: `buffer[i++] = '0' + n % 10;
   * n /= 10;` while n > 0, which leaves the digits in the buffer lowest
   * first.
   */
  method FillDigits(buffer: array<char>, num: nat) returns (i: nat)
    requires |DigitsOf(num)| <= buffer.Length
    modifies buffer
    ensures i == |DigitsOf(num)| && Reversed(buffer[..i]) == DigitsOf(num)
  {
    i := 0;
    var n := num;
    while n > 0
      invariant 0 <= n <= num
      invariant i + |DigitsOf(n)| == |DigitsOf(num)|
      invariant DigitsOf(num) == DigitsOf(n) + Reversed(buffer[..i])
      decreases n
    {
      buffer[i] := DecChar(n % 10);
      assert buffer[..i + 1][..i] == buffer[..i];
      i := i + 1;
      n := n / 10;
    }
  }

  /** `n >> bits`: n halved bits times, rounding down. */
  function Shr(n: nat, bits: nat): nat
  {
    if bits == 0 then n else Shr(n, bits - 1) / 2
  }

  /** Shifting four bits further divides by 16. */
  lemma ShrNibble(n: nat, shift: nat)
    ensures Shr(n, shift + 4) == Shr(n, shift) / 16
  {
    var x := Shr(n, shift);
    assert Shr(n, shift + 2) == x / 2 / 2;
    assert Shr(n, shift + 4) == Shr(n, shift + 2) / 2 / 2;
  }

  /**
   * One step of a writer that prints the nibble at bit `shift` after the
   * ones above it: `(n >> shift) & 0xF` extends the printed text by one digit.
   */
  lemma HexNext(n: nat, shift: nat, k: nat)
    requires k >= 1
    ensures Hex(Shr(n, shift), k) == Hex(Shr(n, shift + 4), k - 1) + [HexChar(Shr(n, shift) % 16)]
  {
    ShrNibble(n, shift);
  }

  /** A writer that has printed the nibbles above bit `shift` extends its text by the one at `shift`. */
  lemma HexAppend(n: nat, shift: nat, k: nat, before: string, out: string)
    requires k >= 1 && out == before + Hex(Shr(n, shift + 4), k - 1)
    ensures out + [HexChar(Shr(n, shift) % 16)] == before + Hex(Shr(n, shift), k)
  {
    HexNext(n, shift, k);
  }

  /** A number below 2^(b + m) shifted right by b bits is below 2^m. */
  lemma {:induction false} ShrBelow(n: nat, b: nat, m: nat)
    requires n < Pow2(b + m)
    ensures Shr(n, b) < Pow2(m)
    decreases b
  {
    if b > 0 {
      ShrBelow(n, b - 1, m + 1);
    }
  }

  /** Nothing is left of a uint64 shifted right by 64 bits, and nothing of a uint32 shifted by 32. */
  lemma ShrAll(n: nat)
    ensures n < U64_LIMIT ==> Shr(n, 64) == 0
    ensures n < U32_LIMIT ==> Shr(n, 32) == 0
  {
    Pow2Values();
    if n < U64_LIMIT {
      ShrBelow(n, 64, 0);
    }
    if n < U32_LIMIT {
      ShrBelow(n, 32, 0);
    }
  }
}
