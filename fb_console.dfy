/*
 * The framebuffer text console (ui/fb_console.c): UTF-8 decoding of the
 * strings it is given, and the cursor that putchar, write, backspace,
 * scroll and the cursor moves update. The cursor is a pair of uint32 pixel
 * coordinates; a character cell is 8x8 pixels times the font scale. What
 * the console draws (glyphs, the underscore cursor, the pixel copy of a
 * scroll) is left out; only the cursor and scale state are modelled.
 */
module FbConsole {
  import opened Common

  const FONT_W: nat := 8
  const FONT_H: nat := 8
  const MAX_SCALE: nat := 8
  /** U+FFFD REPLACEMENT CHARACTER, returned for a byte that cannot start a sequence. */
  const REPLACEMENT: nat := 0xFFFD
  const LF: nat := 10
  const CR: nat := 13

  // ---------------------------------------------------------------------
  // UTF-8 decoding
  // ---------------------------------------------------------------------

  /**
   * The sequence length decode_utf8 reads from a lead byte: 1 for 0xxxxxxx,
   * 2 for 110xxxxx, 3 for 1110xxxx, 4 for 11110xxx, and 0 for a byte it
   * rejects (a continuation byte 10xxxxxx, or 11111xxx).
   */
  function LeadLength(b: byte): (n: nat)
    ensures n <= 4
  {
    if b < 0x80 then 1
    else if 0xC0 <= b <= 0xDF then 2
    else if 0xE0 <= b <= 0xEF then 3
    else if 0xF0 <= b <= 0xF7 then 4
    else 0
  }

  /**
   * The masks decode_utf8 applies, read as ranges and remainders: the lead
   * tests `(b & 0xE0) == 0xC0`, `(b & 0xF0) == 0xE0`, `(b & 0xF8) == 0xF0`
   * select the ranges of LeadLength, and `b & 0x3F`, `& 0x1F`, `& 0x0F`,
   * `& 0x07` keep the low 6, 5, 4 and 3 bits.
   */
  lemma LeadMasks(b: bv8)
    ensures (b & 0xE0 == 0xC0) <==> (0xC0 <= b && b <= 0xDF)
    ensures (b & 0xF0 == 0xE0) <==> (0xE0 <= b && b <= 0xEF)
    ensures (b & 0xF8 == 0xF0) <==> (0xF0 <= b && b <= 0xF7)
    ensures b & 0x3F == b % 64 && b & 0x1F == b % 32 && b & 0x0F == b % 16 && b & 0x07 == b % 8
  {
  }

  /**
   * The code point assembled from the n bytes at i: the payload bits of the
   * lead byte, then 6 bits from each continuation byte. The fields do not
   * overlap, so the C's shifts and ORs are these sums.
   */
  function Payload(s: seq<byte>, i: int, n: nat): (cp: nat)
    requires 1 <= n <= 4
    ensures cp < 0x20_0000
  {
    var b0, b1, b2, b3 := ByteAt(s, i), ByteAt(s, i + 1), ByteAt(s, i + 2), ByteAt(s, i + 3);
    if n == 1 then b0
    else if n == 2 then (b0 % 32) * 64 + b1 % 64
    else if n == 3 then (b0 % 16) * 4096 + (b1 % 64) * 64 + b2 % 64
    else (b0 % 8) * 262144 + (b1 % 64) * 4096 + (b2 % 64) * 64 + b3 % 64
  }

  /**
   * decode_utf8 as written: the code point at i and the index it advances
   * to. NUL decodes as 0 without advancing; a rejected lead byte gives
   * U+FFFD and advances 1; otherwise it advances by the announced length,
   * whatever the continuation bytes are.
   */
  function DecodeAsWritten(s: seq<byte>, i: int): (r: (nat, int))
    ensures ByteAt(s, i) == 0 ==> r == (0, i)
    ensures ByteAt(s, i) != 0 && LeadLength(ByteAt(s, i)) == 0 ==> r == (REPLACEMENT, i + 1)
    ensures ByteAt(s, i) != 0 && LeadLength(ByteAt(s, i)) > 0 ==> r.1 == i + LeadLength(ByteAt(s, i))
    ensures r.0 < 0x20_0000
  {
    var b := ByteAt(s, i);
    if b == 0 then (0, i)
    else if LeadLength(b) == 0 then (REPLACEMENT, i + 1)
    else (Payload(s, i, LeadLength(b)), i + LeadLength(b))
  }

  /** The sequence at i announces more bytes than there are before the terminating NUL. */
  predicate Truncated(s: seq<byte>, i: int)
  {
    var n := LeadLength(ByteAt(s, i));
    (n >= 2 && ByteAt(s, i + 1) == 0) || (n >= 3 && ByteAt(s, i + 2) == 0) || (n >= 4 && ByteAt(s, i + 3) == 0)
  }

  /**
   * decode_utf8 with the terminator respected: a sequence cut short by the
   * NUL decodes as U+FFFD and consumes its lead byte only. Elsewhere it is
   * decode_utf8 as written.
   */
  function Decode(s: seq<byte>, i: int): (r: (nat, int))
    ensures ByteAt(s, i) == 0 ==> r == (0, i)
    ensures ByteAt(s, i) != 0 ==> i < r.1 <= i + 4
    ensures forall k :: i < k < r.1 ==> ByteAt(s, k) != 0
    ensures !Truncated(s, i) ==> r == DecodeAsWritten(s, i)
  {
    if Truncated(s, i) then (REPLACEMENT, i + 1) else DecodeAsWritten(s, i)
  }

  /** The NUL that ends "\xC3": decode_utf8 as written reads it as a continuation byte and steps past it. */
  lemma DecodeSkipsTerminator()
    ensures var s: seq<byte> := [0xC3, 0x00];
      ByteAt(s, 1) == 0 && DecodeAsWritten(s, 0) == (0xC0, 2) && Decode(s, 0) == (REPLACEMENT, 1)
  {
    var s: seq<byte> := [0xC3, 0x00];
    assert ByteAt(s, 0) == 0xC3 && ByteAt(s, 1) == 0;
    assert Payload(s, 0, 2) == 3 * 64;
  }

  /** A Unicode scalar value: a code point that is not a surrogate. */
  predicate Scalar(cp: nat)
  {
    cp <= 0x10FFFF && !(0xD800 <= cp <= 0xDFFF)
  }

  /** The UTF-8 encoding of a scalar value, as the table in section 3 of RFC 3629 lays it out. */
  function Encode(cp: nat): (e: seq<byte>)
    requires Scalar(cp)
    ensures 1 <= |e| <= 4
    ensures |e| == if cp < 0x80 then 1 else if cp < 0x800 then 2 else if cp < 0x1_0000 then 3 else 4
    ensures forall k :: 1 <= k < |e| ==> 0x80 <= e[k] <= 0xBF
  {
    if cp < 0x80 then [cp]
    else if cp < 0x800 then [0xC0 + cp / 64, 0x80 + cp % 64]
    else if cp < 0x1_0000 then [0xE0 + cp / 4096, 0x80 + (cp / 64) % 64, 0x80 + cp % 64]
    else [0xF0 + cp / 262144, 0x80 + (cp / 4096) % 64, 0x80 + (cp / 64) % 64, 0x80 + cp % 64]
  }

  /** A number split into base-64 digits. */
  lemma Digits64(cp: nat)
    ensures cp == 64 * (cp / 64) + cp % 64
    ensures cp / 64 == 64 * (cp / 4096) + (cp / 64) % 64
    ensures cp / 4096 == 64 * (cp / 262144) + (cp / 4096) % 64
  {
    var a := cp / 64;
    assert a / 64 == cp / 4096;
    var b := cp / 4096;
    assert b / 64 == cp / 262144;
  }

  /**
   * Decoding undoes encoding: the scalar value comes back, and the decoder
   * steps over exactly its bytes. An encoding holds no NUL after its lead
   * byte, so decode_utf8 as written and the corrected decoder agree on it.
   */
  lemma DecodeEncode(cp: nat, rest: seq<byte>)
    requires Scalar(cp) && cp != 0
    ensures Decode(Encode(cp) + rest, 0) == (cp, |Encode(cp)|)
    ensures DecodeAsWritten(Encode(cp) + rest, 0) == (cp, |Encode(cp)|)
  {
    var e := Encode(cp);
    var s := e + rest;
    if cp < 0x80 {
      assert ByteAt(s, 0) == cp;
    } else if cp < 0x800 {
      assert ByteAt(s, 0) == e[0] && ByteAt(s, 1) == e[1];
      DecodeTwo(cp, s);
    } else if cp < 0x1_0000 {
      assert ByteAt(s, 0) == e[0] && ByteAt(s, 1) == e[1] && ByteAt(s, 2) == e[2];
      DecodeThree(cp, s);
    } else {
      assert ByteAt(s, 0) == e[0] && ByteAt(s, 1) == e[1] && ByteAt(s, 2) == e[2] && ByteAt(s, 3) == e[3];
      DecodeFour(cp, s);
    }
  }

  lemma DecodeTwo(cp: nat, s: seq<byte>)
    requires 0x80 <= cp < 0x800
    requires ByteAt(s, 0) == 0xC0 + cp / 64 && ByteAt(s, 1) == 0x80 + cp % 64
    ensures Decode(s, 0) == (cp, 2)
  {
    Digits64(cp);
    assert ByteAt(s, 0) % 32 == cp / 64;
  }

  lemma DecodeThree(cp: nat, s: seq<byte>)
    requires 0x800 <= cp < 0x1_0000
    requires ByteAt(s, 0) == 0xE0 + cp / 4096 && ByteAt(s, 1) == 0x80 + (cp / 64) % 64
    requires ByteAt(s, 2) == 0x80 + cp % 64
    ensures Decode(s, 0) == (cp, 3)
  {
    Digits64(cp);
    assert ByteAt(s, 0) % 16 == cp / 4096;
    assert ByteAt(s, 1) % 64 == (cp / 64) % 64;
    assert Payload(s, 0, 3) == (cp / 4096) * 4096 + ((cp / 64) % 64) * 64 + cp % 64;
  }

  lemma DecodeFour(cp: nat, s: seq<byte>)
    requires 0x1_0000 <= cp <= 0x10FFFF
    requires ByteAt(s, 0) == 0xF0 + cp / 262144 && ByteAt(s, 1) == 0x80 + (cp / 4096) % 64
    requires ByteAt(s, 2) == 0x80 + (cp / 64) % 64 && ByteAt(s, 3) == 0x80 + cp % 64
    ensures Decode(s, 0) == (cp, 4)
  {
    Digits64(cp);
    assert ByteAt(s, 0) % 8 == cp / 262144;
    assert ByteAt(s, 1) % 64 == (cp / 4096) % 64;
    assert ByteAt(s, 2) % 64 == (cp / 64) % 64;
    assert Payload(s, 0, 4) == (cp / 262144) * 262144 + ((cp / 4096) % 64) * 4096 + ((cp / 64) % 64) * 64 + cp % 64;
  }

  /**
   * The code points fb_console_write goes through: decoded with decode_utf8
   * as written from i until a NUL lead byte or a sequence that decodes to
   * 0 (such as C0 80). A sequence cut short by the terminator carries the
   * walk past it, onto whatever follows (read as 0 past the end of s).
   */
  function CodePoints(s: seq<byte>, i: nat): (cps: seq<nat>)
    requires i <= |s| + 3
    ensures forall k :: 0 <= k < |cps| ==> cps[k] != 0
    ensures ByteAt(s, i) == 0 ==> cps == []
    decreases |s| + 3 - i
  {
    if ByteAt(s, i) == 0 then []
    else
      var (cp, next) := DecodeAsWritten(s, i);
      if cp == 0 then [] else [cp] + CodePoints(s, next)
  }

  /** fb_console_write on C3 00 41 00 reads U+00C0 across the terminator, then goes on to 'A'. */
  lemma WriteReadsPastTerminator()
    ensures CodePoints([0xC3, 0x00, 0x41, 0x00], 0) == [0xC0, 0x41]
  {
    var s: seq<byte> := [0xC3, 0x00, 0x41, 0x00];
    assert ByteAt(s, 0) == 0xC3 && ByteAt(s, 1) == 0 && ByteAt(s, 2) == 0x41 && ByteAt(s, 3) == 0;
    assert DecodeAsWritten(s, 0) == (0xC0, 2);
    assert DecodeAsWritten(s, 2) == (0x41, 3);
  }

  /** The overlong NUL C0 80 decodes to 0, and fb_console_write stops there. */
  lemma OverlongNulStops()
    ensures CodePoints([0xC0, 0x80, 0x41, 0x00], 0) == []
  {
    var s: seq<byte> := [0xC0, 0x80, 0x41, 0x00];
    assert ByteAt(s, 0) == 0xC0 && ByteAt(s, 1) == 0x80;
  }

  /** The decoder looks only at the bytes from i on, so a prefix does not change what it reads there. */
  lemma DecodeShift(a: seq<byte>, b: seq<byte>, j: nat)
    ensures var d := DecodeAsWritten(b, j); DecodeAsWritten(a + b, |a| + j) == (d.0, |a| + d.1)
  {
    assert ByteAt(a + b, |a| + j) == ByteAt(b, j) && ByteAt(a + b, |a| + j + 1) == ByteAt(b, j + 1);
    assert ByteAt(a + b, |a| + j + 2) == ByteAt(b, j + 2) && ByteAt(a + b, |a| + j + 3) == ByteAt(b, j + 3);
  }

  lemma {:induction false} CodePointsShift(a: seq<byte>, b: seq<byte>, j: nat)
    requires j <= |b| + 3
    ensures CodePoints(a + b, |a| + j) == CodePoints(b, j)
    decreases |b| + 3 - j
  {
    assert ByteAt(a + b, |a| + j) == ByteAt(b, j);
    if ByteAt(b, j) != 0 {
      DecodeShift(a, b, j);
      var (cp, next) := DecodeAsWritten(b, j);
      if cp != 0 {
        CodePointsShift(a, b, next);
      }
    }
  }

  /** The UTF-8 text of a string of scalar values. */
  function EncodeAll(cps: seq<nat>): seq<byte>
    requires forall k :: 0 <= k < |cps| ==> Scalar(cps[k])
  {
    if cps == [] then [] else Encode(cps[0]) + EncodeAll(cps[1..])
  }

  /** fb_console_write reads back exactly the code points a NUL-terminated UTF-8 string encodes. */
  lemma {:induction false} CodePointsOfText(cps: seq<nat>)
    requires forall k :: 0 <= k < |cps| ==> Scalar(cps[k]) && cps[k] != 0
    ensures CodePoints(EncodeAll(cps) + [0], 0) == cps
    decreases |cps|
  {
    if cps == [] {
      assert EncodeAll(cps) + [0] == [0];
    } else {
      var e := Encode(cps[0]);
      var tail := EncodeAll(cps[1..]) + [0];
      assert EncodeAll(cps) + [0] == e + tail;
      DecodeEncode(cps[0], tail);
      CodePointsOfText(cps[1..]);
      CodePointsShift(e, tail, 0);
      assert ByteAt(e + tail, 0) == e[0];
      if cps[0] < 0x80 {
        assert e[0] != 0;
      }
      assert ByteAt(e + tail, 0) != 0;
    }
  }

  // ---------------------------------------------------------------------
  // The cursor
  // ---------------------------------------------------------------------

  /** The framebuffer the console draws on, as far as the cursor is concerned. */
  datatype Frame = Frame(width: u32, height: u32)

  /** The console's cursor: pixel coordinates of the top-left corner of its cell. */
  datatype Pos = Pos(x: u32, y: u32)

  /** The screen and the font scale the cursor arithmetic uses. */
  datatype Layout = Layout(width: u32, height: u32, scale: u32)

  predicate ScaleOk(scale: u32)
  {
    1 <= scale <= MAX_SCALE
  }

  /** scaled_font_w and scaled_font_h: one cell, in pixels. */
  function CellW(l: Layout): u32
    requires ScaleOk(l.scale)
  {
    FONT_W * l.scale
  }

  function CellH(l: Layout): u32
    requires ScaleOk(l.scale)
  {
    FONT_H * l.scale
  }

  /** fb_console_scroll's new row: the last line, height - cell height in uint32. */
  function ScrollRow(l: Layout): u32
    requires ScaleOk(l.scale)
  {
    Sub32(l.height, CellH(l))
  }

  /** A new line: column 0, one cell lower, scrolling when the cell below would not fit. */
  function LineFeed(c: Pos, l: Layout): (r: Pos)
    requires ScaleOk(l.scale)
    ensures r.x == 0
  {
    var y := Add32(c.y, CellH(l));
    if Add32(y, CellH(l)) > l.height then Pos(0, ScrollRow(l)) else Pos(0, y)
  }

  /** After a glyph: one cell right, wrapping to a new line when the next cell would not fit. */
  function Stepped(c: Pos, l: Layout): Pos
    requires ScaleOk(l.scale)
  {
    var x := Add32(c.x, CellW(l));
    if Add32(x, CellW(l)) > l.width then LineFeed(Pos(x, c.y), l) else Pos(x, c.y)
  }

  /** fb_console_putchar's cursor: '\n', '\r', a printable ASCII byte, or anything else, which leaves it alone. */
  function PutCharPos(c: Pos, l: Layout, ch: byte): (r: Pos)
    requires ScaleOk(l.scale)
    ensures (ch < 32 || ch > 126) && ch != LF && ch != CR ==> r == c
  {
    if ch == LF then LineFeed(c, l)
    else if ch == CR then c.(x := 0)
    else if ch < 32 || ch > 126 then c
    else Stepped(c, l)
  }

  /** The code points fb_console_write has glyphs for: box drawing, Braille patterns and printable ASCII. */
  predicate Drawable(cp: nat)
  {
    (0x2500 <= cp <= 0x257F) || (0x2800 <= cp <= 0x28FF) || (32 <= cp <= 126)
  }

  /** One code point of fb_console_write: a glyph takes a cell, '\n' and '\r' move, anything else is skipped. */
  function WritePos(c: Pos, l: Layout, cp: nat): (r: Pos)
    requires ScaleOk(l.scale)
    ensures !Drawable(cp) && cp != LF && cp != CR ==> r == c
  {
    if cp == LF then LineFeed(c, l)
    else if cp == CR then c.(x := 0)
    else if Drawable(cp) then Stepped(c, l)
    else c
  }

  function WriteAll(c: Pos, l: Layout, cps: seq<nat>): Pos
    requires ScaleOk(l.scale)
    decreases |cps|
  {
    if cps == [] then c else WriteAll(WritePos(c, l, cps[0]), l, cps[1..])
  }

  /** A screen that holds at least one cell and is not within a cell of 2^32 pixels. */
  predicate Roomy(l: Layout)
  {
    ScaleOk(l.scale) && CellW(l) <= l.width && CellH(l) <= l.height
    && l.width + CellW(l) < U32_LIMIT && l.height + CellH(l) < U32_LIMIT
  }

  /** The whole cell under the cursor is on the screen. */
  predicate InView(c: Pos, l: Layout)
    requires ScaleOk(l.scale)
  {
    c.x + CellW(l) <= l.width && c.y + CellH(l) <= l.height
  }

  /** A new line from a visible row is visible: it is the next row, or the last one after a scroll. */
  lemma LineFeedInView(c: Pos, l: Layout)
    requires Roomy(l) && c.y + CellH(l) <= l.height
    ensures InView(LineFeed(c, l), l)
    ensures LineFeed(c, l).y == if c.y + 2 * CellH(l) > l.height then l.height - CellH(l) else c.y + CellH(l)
  {
  }

  /** Writing any text keeps a visible cursor visible. */
  lemma {:induction false} WriteAllInView(c: Pos, l: Layout, cps: seq<nat>)
    requires Roomy(l) && InView(c, l)
    ensures InView(WriteAll(c, l, cps), l)
    decreases |cps|
  {
    if cps != [] {
      var d := WritePos(c, l, cps[0]);
      LineFeedInView(c, l);
      LineFeedInView(Pos(Add32(c.x, CellW(l)), c.y), l);
      assert InView(d, l);
      WriteAllInView(d, l, cps[1..]);
    }
  }

  /** putchar keeps a visible cursor visible. */
  lemma PutCharInView(c: Pos, l: Layout, ch: byte)
    requires Roomy(l) && InView(c, l)
    ensures InView(PutCharPos(c, l, ch), l)
  {
    LineFeedInView(c, l);
    LineFeedInView(Pos(Add32(c.x, CellW(l)), c.y), l);
  }

  class Console {
    /** The framebuffer; None while fb is NULL. */
    var fb: Option<Frame>
    var cx: u32
    var cy: u32
    var fontScale: u32
    var savedCx: u32
    var savedCy: u32

    predicate Valid()
      reads this
    {
      ScaleOk(fontScale)
    }

    function At(): Pos
      reads this
    {
      Pos(cx, cy)
    }

    function Geometry(): Layout
      reads this
      requires fb.Some?
    {
      Layout(fb.value.width, fb.value.height, fontScale)
    }

    /** The statics before fb_console_init: no framebuffer, the cursor at the origin, scale 1. */
    constructor ()
      ensures Valid() && fb.None? && At() == Pos(0, 0) && fontScale == 1 && savedCx == 0 && savedCy == 0
    {
      fb, cx, cy, fontScale, savedCx, savedCy := None, 0, 0, 1, 0, 0;
    }

    /** fb_console_init: attach to a framebuffer, cursor at the origin, scale 1. */
    method Init(frame: Option<Frame>)
      modifies `fb, `cx, `cy, `fontScale
      ensures Valid() && fb == frame && At() == Pos(0, 0) && fontScale == 1
    {
      fb := frame;
      cx, cy := 0, 0;
      fontScale := 1;
    }

    /** fb_console_clear: the cursor goes home (the pixels are cleared too, which is not modelled). */
    method Clear()
      modifies `cx, `cy
      ensures At() == if fb.Some? then Pos(0, 0) else old(At())
    {
      if fb.None? {
        return;
      }
      cx, cy := 0, 0;
    }

    /** fb_console_set_scale: only scales 1 to 8 are taken. */
    method SetScale(scale: u32)
      requires Valid()
      modifies `fontScale
      ensures Valid()
      ensures fontScale == if 1 <= scale <= MAX_SCALE then scale else old(fontScale)
    {
      if scale >= 1 && scale <= MAX_SCALE {
        fontScale := scale;
      }
    }

    /** fb_console_scroll: the cursor goes to the last line. */
    method Scroll()
      requires Valid()
      modifies `cy
      ensures fb.Some? ==> cy == ScrollRow(Geometry())
      ensures fb.None? ==> cy == old(cy)
    {
      if fb.None? {
        return;
      }
      var scaledH := FONT_H * fontScale;
      cy := Sub32(fb.value.height, scaledH);
    }

    /** fb_console_backspace: one cell left when there is a whole cell to the left. */
    method Backspace()
      requires Valid()
      modifies `cx
      ensures cx == if fb.Some? && old(cx) >= FONT_W * fontScale then old(cx) - FONT_W * fontScale else old(cx)
    {
      if fb.None? {
        return;
      }
      var scaledW := FONT_W * fontScale;
      if cx >= scaledW {
        cx := cx - scaledW;
      }
    }

    /** fb_console_set_cursor_pos: any position, once there is a framebuffer. */
    method SetCursorPos(x: u32, y: u32)
      modifies `cx, `cy
      ensures At() == if fb.Some? then Pos(x, y) else old(At())
    {
      if fb.None? {
        return;
      }
      cx, cy := x, y;
    }

    /** The new-line step of putchar and write: column 0, one cell down, and a scroll when the next cell would not fit. */
    method NewLine()
      requires Valid() && fb.Some?
      modifies `cx, `cy
      ensures At() == LineFeed(old(At()), Geometry())
    {
      var scaledH := FONT_H * fontScale;
      cx := 0;
      cy := Add32(cy, scaledH);
      if Add32(cy, scaledH) > fb.value.height {
        Scroll();
      }
    }

    /** The step after a glyph: one cell right, wrapping to a new line when the next cell would not fit. */
    method NextCell()
      requires Valid() && fb.Some?
      modifies `cx, `cy
      ensures At() == Stepped(old(At()), Geometry())
    {
      var scaledW := FONT_W * fontScale;
      cx := Add32(cx, scaledW);
      if Add32(cx, scaledW) > fb.value.width {
        NewLine();
      }
    }

    /** fb_console_putchar's cursor movement. */
    method PutChar(ch: byte)
      requires Valid()
      modifies `cx, `cy
      ensures At() == if fb.Some? then PutCharPos(old(At()), Geometry(), ch) else old(At())
    {
      if fb.None? {
        return;
      }
      if ch == LF {
        NewLine();
        return;
      }
      if ch == CR {
        cx := 0;
        return;
      }
      if ch < 32 || ch > 126 {
        return;
      }
      NextCell();
    }

    /** fb_console_write: decode the string and move over each code point until the first 0. */
    method Write(text: Option<seq<byte>>)
      requires Valid()
      modifies `cx, `cy
      ensures At() == if text.Some? && fb.Some? then WriteAll(old(At()), Geometry(), CodePoints(text.value, 0)) else old(At())
    {
      if text.None? || fb.None? {
        return;
      }
      var s := text.value;
      var p: nat := 0;
      while ByteAt(s, p) != 0
        invariant p <= |s| + 3
        invariant WriteAll(At(), Geometry(), CodePoints(s, p)) == WriteAll(old(At()), Geometry(), CodePoints(s, 0))
        decreases |s| + 3 - p
      {
        var d := DecodeAsWritten(s, p);
        if d.0 == 0 {
          break;
        }
        if d.0 == LF {
          NewLine();
        } else if d.0 == CR {
          cx := 0;
        } else if 0x2500 <= d.0 <= 0x257F {
          NextCell();
        } else if 0x2800 <= d.0 <= 0x28FF {
          NextCell();
        } else if 32 <= d.0 <= 126 {
          NextCell();
        }
        p := d.1;
      }
    }

    /** fb_console_move_cursor_left: one cell left when there is a whole cell to the left. */
    method MoveLeft()
      requires Valid()
      modifies `cx
      ensures cx == if old(cx) >= FONT_W * fontScale then old(cx) - FONT_W * fontScale else old(cx)
    {
      var scaledW := FONT_W * fontScale;
      if cx >= scaledW {
        cx := cx - scaledW;
      }
    }

    /** fb_console_move_cursor_right: one cell right when the cell after it starts on the screen. */
    method MoveRight()
      requires Valid()
      modifies `cx
      ensures cx == if fb.Some? && Add32(old(cx), FONT_W * fontScale) < fb.value.width
        then Add32(old(cx), FONT_W * fontScale) else old(cx)
    {
      if fb.None? {
        return;
      }
      var scaledW := FONT_W * fontScale;
      if Add32(cx, scaledW) < fb.value.width {
        cx := Add32(cx, scaledW);
      }
    }

    /** fb_console_save_cursor_pos. */
    method SavePos()
      modifies `savedCx, `savedCy
      ensures savedCx == cx && savedCy == cy
    {
      savedCx, savedCy := cx, cy;
    }

    /** fb_console_restore_cursor_pos: back to the saved position. */
    method RestorePos()
      modifies `cx, `cy
      ensures At() == Pos(savedCx, savedCy)
    {
      cx, cy := savedCx, savedCy;
    }
  }
}
