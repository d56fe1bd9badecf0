/*
 * ui/console.c: the text console the kernel prints through. It forwards
 * text to the framebuffer console, formats numbers in decimal and in
 * fixed-width hexadecimal, and keeps the foreground and background colours,
 * with nine named presets.
 */
module Console {
  import opened Common
  import opened Digits
  import FbConsole

  datatype Rgb = Rgb(r: byte, g: byte, b: byte)

  /** The framebuffer console's foreground and background colours. */
  datatype Colors = Colors(fg: Rgb, bg: Rgb)

  /** console_color_preset_t, in its declaration order. */
  datatype Preset = Classic | Matrix | Amber | Cyan | Paper | BlueScreen | Hacker | Sunset | Red

  const BLACK := Rgb(0, 0, 0)
  const WHITE := Rgb(255, 255, 255)

  /** The colours each preset selects. */
  function PresetColors(p: Preset): (c: Colors)
    ensures c.fg != c.bg
    ensures c == Colors(WHITE, BLACK) <==> p == Classic
  {
    match p
    case Classic => Colors(WHITE, BLACK)
    case Matrix => Colors(Rgb(0, 255, 0), BLACK)
    case Amber => Colors(Rgb(255, 191, 0), BLACK)
    case Cyan => Colors(Rgb(0, 255, 255), BLACK)
    case Paper => Colors(BLACK, WHITE)
    case BlueScreen => Colors(WHITE, Rgb(0, 0, 170))
    case Hacker => Colors(Rgb(0, 255, 0), Rgb(0, 20, 0))
    case Sunset => Colors(Rgb(255, 140, 0), Rgb(75, 0, 130))
    case Red => Colors(Rgb(255, 0, 0), BLACK)
  }

  /** Different presets select different colours. */
  lemma PresetsDistinct(p: Preset, q: Preset)
    ensures PresetColors(p) == PresetColors(q) ==> p == q
  {
  }

  /** The classic preset is the framebuffer console's start-up pair, white on black. */
  lemma ClassicIsStartup()
    ensures PresetColors(Classic) == Colors(WHITE, BLACK)
  {
  }

  /** Text appended in two steps is the text appended at once. */
  lemma Appended(o: string, d: string, x: string)
    ensures o + d + x == o + (d + x)
  {
  }

  /** console_init: a NULL framebuffer leaves the framebuffer console as it was. */
  method Init(screen: FbConsole.Console, fb: Option<FbConsole.Frame>)
    modifies screen`fb, screen`cx, screen`cy, screen`fontScale
    ensures fb.None? ==> unchanged(screen)
    ensures fb.Some? ==> screen.Valid() && screen.fb == fb && screen.At() == FbConsole.Pos(0, 0) && screen.fontScale == 1
  {
    if fb.None? {
      return;
    }
    screen.Init(fb);
  }

  class Terminal {
    /** The text handed to the framebuffer console, in order. */
    var out: string
    /** The framebuffer console's current colours. */
    var colors: Colors

    /** Nothing printed yet, white on black. */
    constructor ()
      ensures out == [] && colors == Colors(WHITE, BLACK)
    {
      out, colors := [], Colors(WHITE, BLACK);
    }

    /** console_putchar. */
    method PutChar(c: char)
      modifies `out
      ensures out == old(out) + [c]
    {
      out := out + [c];
    }

    /** console_write: a NULL string prints nothing; str holds the characters before the terminator. */
    method Write(str: Option<string>)
      modifies `out
      ensures out == old(out) + (if str.Some? then str.value else [])
    {
      if str.None? {
        return;
      }
      out := out + str.value;
    }

    /**
     * console_write_dec: the digits are produced from the low end into a
     * 16-character buffer, then emitted from the last one filled.
     */
    method WriteDec(num: u32)
      modifies `out
      ensures out == old(out) + Decimal(num)
    {
      if num == 0 {
        PutChar('0');
        return;
      }
      var buffer := new char[16];
      DecimalWidths(num);
      var i := FillDigits(buffer, num);
      Emit(buffer, i);
    }

    /** The emitting loop of console_write_dec: buffer[i - 1] down to buffer[0]. */
    method Emit(buffer: array<char>, i: nat)
      requires i <= buffer.Length
      modifies `out
      ensures out == old(out) + Reversed(buffer[..i])
    {
      ghost var d := Reversed(buffer[..i]);
      var j := i - 1;
      while j >= 0
        invariant -1 <= j < i
        invariant out == old(out) + d[..i - 1 - j]
      {
        assert d[..i - j] == d[..i - 1 - j] + [buffer[j]];
        PutChar(buffer[j]);
        j := j - 1;
      }
      assert d[..i] == d;
    }

    /** console_write_hex64: "0x", then the sixteen nibbles from the top. */
    method WriteHex64(num: u64)
      modifies `out
      ensures out == old(out) + "0x" + Hex(num, 16)
    {
      Write(Some("0x"));
      WriteNibbles(num, 16);
    }

    /** console_write_hex32: "0x", then the eight nibbles from the top. */
    method WriteHex32(num: u32)
      modifies `out
      ensures out == old(out) + "0x" + Hex(num, 8)
    {
      Write(Some("0x"));
      WriteNibbles(num, 8);
    }

    /**
     * The digit loop of both hexadecimal writers: `(num >> (i * 4)) & 0xF`
     * as a hex digit, for i from k - 1 down to 0.
     */
    method WriteNibbles(num: nat, k: nat)
      modifies `out
      ensures out == old(out) + Hex(num, k)
    {
      var i := k - 1;
      while i >= 0
        invariant -1 <= i < k
        invariant out == old(out) + Hex(Shr(num, 4 * i + 4), k - 1 - i)
      {
        var shift := i * 4;
        var digit := Shr(num, shift) % 16;
        HexAppend(num, shift, k - i, old(out), out);
        PutChar(HexChar(digit));
        i := i - 1;
      }
      assert Shr(num, 0) == num;
    }

    /** console_set_fg_color. */
    method SetFg(c: Rgb)
      modifies `colors
      ensures colors == old(colors).(fg := c)
    {
      colors := colors.(fg := c);
    }

    /** console_set_bg_color. */
    method SetBg(c: Rgb)
      modifies `colors
      ensures colors == old(colors).(bg := c)
    {
      colors := colors.(bg := c);
    }

    /** console_set_colors: the foreground, then the background. */
    method SetColors(fg: Rgb, bg: Rgb)
      modifies `colors
      ensures colors == Colors(fg, bg)
    {
      SetFg(fg);
      SetBg(bg);
    }

    /** console_set_color_preset. */
    method SetColorPreset(p: Preset)
      modifies `colors
      ensures colors == PresetColors(p)
    {
      match p
      case Classic => SetColors(Rgb(255, 255, 255), Rgb(0, 0, 0));
      case Matrix => SetColors(Rgb(0, 255, 0), Rgb(0, 0, 0));
      case Amber => SetColors(Rgb(255, 191, 0), Rgb(0, 0, 0));
      case Cyan => SetColors(Rgb(0, 255, 255), Rgb(0, 0, 0));
      case Paper => SetColors(Rgb(0, 0, 0), Rgb(255, 255, 255));
      case BlueScreen => SetColors(Rgb(255, 255, 255), Rgb(0, 0, 170));
      case Hacker => SetColors(Rgb(0, 255, 0), Rgb(0, 20, 0));
      case Sunset => SetColors(Rgb(255, 140, 0), Rgb(75, 0, 130));
      case Red => SetColors(Rgb(255, 0, 0), Rgb(0, 0, 0));
    }
  }
}
