/*
 * drivers/serial/serial.c: the COM1 UART the kernel logs to. serial_init
 * programs the port; every character written afterwards goes to the data
 * register, and nothing does before. serial_write turns each line feed into
 * a carriage return and a line feed. The transmit-empty busy wait is not
 * modelled: the port is taken to drain.
 */
module Serial {
  import opened Common
  import opened Digits

  /** SERIAL_COM1: the base I/O port. */
  const COM1: u16 := 0x3F8

  /** One `outb` to a UART register. */
  datatype PortWrite = PortWrite(port: u16, value: byte)

  /**
   * serial_init's register writes, in order: interrupts off, the divisor
   * latch opened and set to 3 (38400 baud), 8 data bits with no parity and
   * one stop bit (which closes the latch), the FIFOs enabled and cleared with
   * a 14-byte threshold, then IRQs, RTS and DSR.
   */
  const INIT_WRITES: seq<PortWrite> := [
    PortWrite(COM1 + 1, 0x00), PortWrite(COM1 + 3, 0x80), PortWrite(COM1 + 0, 0x03), PortWrite(COM1 + 1, 0x00),
    PortWrite(COM1 + 3, 0x03), PortWrite(COM1 + 2, 0xC7), PortWrite(COM1 + 4, 0x0B)]

  /** The position of the first NUL in s, or |s| when there is none. */
  function NulIndex(s: string): (n: nat)
    ensures n <= |s| && (n < |s| ==> s[n] == '\0')
    ensures forall k :: 0 <= k < n ==> s[k] != '\0'
  {
    if s == [] || s[0] == '\0' then 0
    else
      var n := NulIndex(s[1..]);
      assert forall k :: 1 <= k < n + 1 ==> s[k] == s[1..][k - 1];
      1 + n
  }

  /** The C string s points at: the characters before its terminator. */
  function UpToNul(s: string): string
  {
    s[..NulIndex(s)]
  }

  /** What serial_write sends for one character. */
  function Expand(c: char): (t: string)
    ensures |t| >= 1 && t[|t| - 1] == c
    ensures |t| == 2 <==> c == '\n'
    ensures |t| == 2 ==> t[0] == '\r'
  {
    if c == '\n' then "\r\n" else [c]
  }

  /** What serial_write sends for a string: each line feed preceded by a carriage return. */
  function Crlf(s: string): (t: string)
    ensures |t| >= |s|
  {
    if s == [] then [] else Crlf(s[..|s| - 1]) + Expand(s[|s| - 1])
  }

  /** The text with every carriage return removed. */
  function StripCr(t: string): string
  {
    if t == [] then [] else StripCr(t[..|t| - 1]) + (if t[|t| - 1] == '\r' then [] else [t[|t| - 1]])
  }

  lemma {:induction false} StripCrAppend(a: string, b: string)
    ensures StripCr(a + b) == StripCr(a) + StripCr(b)
    decreases |b|
  {
    if b != [] {
      var p := b[..|b| - 1];
      assert (a + b)[..|a + b| - 1] == a + p;
      StripCrAppend(a, p);
    } else {
      assert a + b == a;
    }
  }

  /** For text without carriage returns of its own, the carriage returns serial_write adds are all it adds. */
  lemma {:induction false} StripCrlf(s: string)
    requires forall k :: 0 <= k < |s| ==> s[k] != '\r'
    ensures StripCr(Crlf(s)) == s
    decreases |s|
  {
    if s != [] {
      var p, c := s[..|s| - 1], s[|s| - 1];
      StripCrlf(p);
      StripCrAppend(Crlf(p), Expand(c));
      StripExpand(c);
      assert s == p + [c];
    }
  }

  /** Removing the carriage returns from what one character expands to leaves the character. */
  lemma StripExpand(c: char)
    requires c != '\r'
    ensures StripCr(Expand(c)) == [c]
  {
    if c == '\n' {
      var t := Expand(c);
      assert t[..1] == ['\r'] && t[1] == '\n';
      assert StripCr(['\r']) == StripCr([]) + [];
    } else {
      assert StripCr([c]) == StripCr([]) + [c];
    }
  }

  /** Every line feed serial_write sends comes straight after a carriage return. */
  lemma {:induction false} CrBeforeLf(s: string)
    ensures forall k :: 0 <= k < |Crlf(s)| && Crlf(s)[k] == '\n' ==> k > 0 && Crlf(s)[k - 1] == '\r'
    decreases |s|
  {
    if s != [] {
      var p := s[..|s| - 1];
      CrBeforeLf(p);
    }
  }

  /** Text with neither a NUL nor a line feed is sent exactly as it is. */
  lemma {:induction false} PlainText(s: string)
    requires forall k :: 0 <= k < |s| ==> s[k] != '\0' && s[k] != '\n'
    ensures Crlf(UpToNul(s)) == s
    decreases |s|
  {
    if s != [] {
      var p := s[..|s| - 1];
      PlainText(p);
      assert UpToNul(p) == p && UpToNul(s) == s;
    }
  }

  class Port {
    /** serial_initialized. */
    var initialized: bool
    /** The writes to the UART's registers other than the data register. */
    var config: seq<PortWrite>
    /** The characters written to the data register, in order. */
    var sent: string

    /** Before serial_init: not initialized, nothing written. */
    constructor ()
      ensures !initialized && config == [] && sent == []
    {
      initialized, config, sent := false, [], [];
    }

    /** serial_init: the configuration writes, then the flag. */
    method Init()
      modifies `initialized, `config
      ensures initialized && config == old(config) + INIT_WRITES
    {
      config := config + [PortWrite(COM1 + 1, 0x00)];
      config := config + [PortWrite(COM1 + 3, 0x80)];
      config := config + [PortWrite(COM1 + 0, 0x03)];
      config := config + [PortWrite(COM1 + 1, 0x00)];
      config := config + [PortWrite(COM1 + 3, 0x03)];
      config := config + [PortWrite(COM1 + 2, 0xC7)];
      config := config + [PortWrite(COM1 + 4, 0x0B)];
      initialized := true;
    }

    /** serial_putchar: dropped before serial_init. */
    method PutChar(c: char)
      modifies `sent
      ensures initialized ==> sent == old(sent) + [c]
      ensures !initialized ==> sent == old(sent)
    {
      if !initialized {
        return;
      }
      sent := sent + [c];
    }

    /** serial_write: up to the terminator, a carriage return before every line feed. */
    method Write(str: string)
      modifies `sent
      ensures sent == old(sent) + (if initialized then Crlf(UpToNul(str)) else [])
    {
      var i := 0;
      while i < |str| && str[i] != '\0'
        invariant 0 <= i <= |str|
        invariant forall k :: 0 <= k < i ==> str[k] != '\0'
        invariant sent == old(sent) + (if initialized then Crlf(str[..i]) else [])
      {
        if str[i] == '\n' {
          PutChar('\r');
        }
        PutChar(str[i]);
        assert str[..i + 1][..i] == str[..i];
        i := i + 1;
      }
      assert i == NulIndex(str);
    }

    /** serial_write_hex64: "0x", then the nibble at each shift from 60 down to 0. */
    method WriteHex64(value: u64)
      modifies `sent
      ensures initialized ==> sent == old(sent) + "0x" + Hex(value, 16)
      ensures !initialized ==> sent == old(sent)
    {
      PlainText("0x");
      Write("0x");
      ghost var prefixed := sent;
      WriteNibbles(value);
      assert initialized ==> sent == prefixed + Hex(value, 16);
    }

    /**
     * The digit loop of serial_write_hex64: `hex[(value >> i) & 0xF]` for
     * i = 60, 56, ..., 0, counted here by the number k of digits already sent
     * (i = 60 - 4k).
     */
    method WriteNibbles(value: u64)
      modifies `sent
      ensures initialized ==> sent == old(sent) + Hex(value, 16)
      ensures !initialized ==> sent == old(sent)
    {
      for k := 0 to 16
        invariant !initialized ==> sent == old(sent)
        invariant initialized ==> sent == old(sent) + Hex(Shr(value, 64 - 4 * k), k)
      {
        var i := 60 - 4 * k;
        PutNibble(value, i, k + 1, old(sent));
      }
      assert Shr(value, 0) == value;
    }

    /** One digit of serial_write_hex64: the nibble at bit `shift` extends the k - 1 digits already sent after `before`. */
    method PutNibble(value: u64, shift: nat, ghost k: nat, ghost before: string)
      requires k >= 1
      requires initialized ==> sent == before + Hex(Shr(value, shift + 4), k - 1)
      modifies `sent
      ensures initialized ==> sent == before + Hex(Shr(value, shift), k)
      ensures !initialized ==> sent == old(sent)
    {
      if initialized {
        HexAppend(value, shift, k, before, sent);
      }
      PutChar(HexChar(Shr(value, shift) % 16));
    }

    /** serial_write_dec: "0" for zero, else the digits filled into a 21-character buffer, emitted from the last. */
    method WriteDec(value: u64)
      modifies `sent
      ensures sent == old(sent) + (if initialized then Decimal(value) else [])
    {
      if value == 0 {
        PutChar('0');
        return;
      }
      var buf := new char[21];
      DecimalWidths(value);
      var i := FillDigits(buf, value);
      Emit(buf, i);
    }

    /** `while (i--) serial_putchar(buf[i]);` */
    method Emit(buf: array<char>, n: nat)
      requires n <= buf.Length
      modifies `sent
      ensures sent == old(sent) + (if initialized then Reversed(buf[..n]) else [])
    {
      ghost var d := Reversed(buf[..n]);
      var i := n;
      while i > 0
        invariant 0 <= i <= n
        invariant sent == old(sent) + (if initialized then d[..n - i] else [])
      {
        i := i - 1;
        assert d[..n - i] == d[..n - i - 1] + [buf[i]];
        PutChar(buf[i]);
      }
      assert d[..n] == d;
    }
  }
}
