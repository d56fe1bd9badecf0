/*
 * The linear framebuffer driver (drivers/video/framebuffer.c): colour
 * packing, the framebuffer tag search in the Multiboot2 information, and
 * the pixel writers. The framebuffer memory is an array of 32-bit words
 * starting at the framebuffer's address; pixel (x, y) is the word at byte
 * offset y * pitch + 4 * x.
 */
module Framebuffer {
  import opened Common
  import opened Multiboot

  /** struct framebuffer: address, geometry, depth, and position and width of each colour field. */
  datatype FbInfo = FbInfo(
    addr: u64, width: u32, height: u32, pitch: u32, bpp: byte,
    rPos: byte, rSize: byte, gPos: byte, gSize: byte, bPos: byte, bSize: byte)

  /** Shift counts the C defines: every field position and size below 32. */
  predicate Shifts(fb: FbInfo)
  {
    fb.rPos < 32 && fb.rSize < 32 && fb.gPos < 32 && fb.gSize < 32 && fb.bPos < 32 && fb.bSize < 32
  }

  /** Powers of two the colour fields use. */
  lemma Pow2Fields()
    ensures Pow2(8) == 0x100 && Pow2(16) == 0x1_0000 && Pow2(24) == 0x100_0000 && Pow2(32) == U32_LIMIT
  {
    Pow2Values();
    Pow2Add(4, 4);
    Pow2Add(8, 8);
    Pow2Add(16, 8);
    Pow2Add(16, 16);
  }

  lemma Pow2Word()
    ensures Pow2(32) == U32_LIMIT
  {
    Pow2Fields();
  }

  /**
   * One channel of fb_make_color: `(c * ((1 << size) - 1) / 255) << pos`,
   * each step in uint32.
   */
  function Channel(c: byte, size: nat, pos: nat): (v: u32)
    requires size < 32 && pos < 32
    ensures c == 0 ==> v == 0
  {
    U32(U32(c * (Pow2(size) - 1)) / 255 * Pow2(pos))
  }

  lemma MulMono(a: nat, b: nat, m: nat)
    requires a <= b
    ensures a * m <= b * m
  {
  }

  /**
   * A field of at most 24 bits that fits in the word keeps the whole
   * product: the channel is c scaled from 0..255 to 0..2^size-1 and shifted
   * into place, and 255 fills the field.
   */
  lemma ChannelScales(c: byte, size: nat, pos: nat)
    requires size <= 24 && pos < 32 && size + pos <= 32
    ensures Channel(c, size, pos) == c * (Pow2(size) - 1) / 255 * Pow2(pos)
    ensures c == 255 ==> Channel(c, size, pos) == (Pow2(size) - 1) * Pow2(pos)
  {
    var mask, p := Pow2(size) - 1, Pow2(pos);
    assert mask < 0x100_0000 by {
      Pow2Fields();
      Pow2Monotone(size, 24);
    }
    FieldFits(size, pos);
    ScaleFits(c, mask, p);
    var q := c * mask / 255;
    assert U32(c * mask) == c * mask;
    assert U32(q * p) == q * p;
    if c == 255 {
      DivModUnique(255 * mask, 255, mask, 0);
    }
  }

  lemma Distribute(m: nat, p: nat)
    ensures (m + 1) * p == m * p + p
  {
  }

  /** Scaling a byte into a field of at most 24 bits overflows neither product. */
  lemma ScaleFits(c: nat, mask: nat, p: nat)
    requires c <= 255 && mask < 0x100_0000 && mask * p < U32_LIMIT
    ensures 0 <= c * mask < U32_LIMIT && c * mask / 255 <= mask && 0 <= c * mask / 255 * p < U32_LIMIT
  {
    MulMono(0, c, mask);
    MulMono(c, 255, mask);
    var q := c * mask / 255;
    assert q <= mask;
    MulMono(q, mask, p);
    MulMono(0, q, p);
  }

  /** A full field of `size` bits at `pos` fits in the word. */
  lemma FieldFits(size: nat, pos: nat)
    requires size + pos <= 32
    ensures (Pow2(size) - 1) * Pow2(pos) < U32_LIMIT
  {
    var a, p := Pow2(size), Pow2(pos);
    Pow2Add(size, pos);
    Pow2Monotone(size + pos, 32);
    Pow2Word();
    assert a * p <= U32_LIMIT;
    BelowProduct(a, p, U32_LIMIT);
  }

  lemma BelowProduct(a: nat, p: nat, bound: nat)
    requires a >= 1 && p >= 1 && a * p <= bound
    ensures (a - 1) * p < bound
  {
    Distribute(a - 1, p);
  }

  /** 8-bit fields take the byte unchanged, shifted into place. */
  lemma ChannelBytes(c: byte)
    ensures Channel(c, 8, 16) == c * 0x1_0000 && Channel(c, 8, 8) == c * 0x100 && Channel(c, 8, 0) == c
  {
    Pow2Fields();
    assert Pow2(0) == 1;
    assert c * 255 / 255 == c;
  }

  /** fb_make_color: the three channels ORed together. */
  function MakeColor(fb: FbInfo, r: byte, g: byte, b: byte): (v: u32)
    requires Shifts(fb)
    ensures v >= Channel(r, fb.rSize, fb.rPos) && v >= Channel(g, fb.gSize, fb.gPos) && v >= Channel(b, fb.bSize, fb.bPos)
  {
    var red := Channel(r, fb.rSize, fb.rPos);
    var green := Channel(g, fb.gSize, fb.gPos);
    var blue := Channel(b, fb.bSize, fb.bPos);
    BitOrBound(BitOr(red, green, 32), blue, 32);
    Pow2Fields();
    BitOrBound(red, green, 32);
    BitOrAtLeast(red, green, 32);
    BitOrAtLeast(BitOr(red, green, 32), blue, 32);
    BitOr(BitOr(red, green, 32), blue, 32)
  }

  /** Black is the zero word whatever the layout. */
  lemma MakeColorBlack(fb: FbInfo)
    requires Shifts(fb)
    ensures MakeColor(fb, 0, 0, 0) == 0
  {
    BitOrZero(0, 32);
  }

  /** With the usual 8-bit fields at 16, 8 and 0 the colour is 0xRRGGBB. */
  lemma MakeColorRgb888(fb: FbInfo, r: byte, g: byte, b: byte)
    requires fb.rSize == 8 && fb.gSize == 8 && fb.bSize == 8 && fb.rPos == 16 && fb.gPos == 8 && fb.bPos == 0
    ensures MakeColor(fb, r, g, b) == r * 0x1_0000 + g * 0x100 + b
  {
    ChannelBytes(r);
    ChannelBytes(g);
    ChannelBytes(b);
    OrBytes(r, g, b);
  }

  /** Three bytes ORed into disjoint places of a word add up. */
  lemma OrBytes(r: byte, g: byte, b: byte)
    ensures BitOr(BitOr(r * 0x1_0000, g * 0x100, 32), b, 32) == r * 0x1_0000 + g * 0x100 + b
  {
    Pow2Fields();
    var rg := r * 0x1_0000 + g * 0x100;
    assert r * 0x1_0000 == r * Pow2(16);
    BitOrDisjoint(r * 0x1_0000, g * 0x100, r, 16, 32);
    var c := r * 0x100 + g;
    assert rg == c * 0x100 == c * Pow2(8);
    BitOrDisjoint(rg, b, c, 8, 32);
    assert BitOr(r * 0x1_0000, g * 0x100, 32) == rg;
    assert BitOr(rg, b, 32) == rg + b;
  }

  // ---------------------------------------------------------------------
  // fb_init's tag search
  // ---------------------------------------------------------------------

  /** The framebuffer described by the framebuffer information tag at off (section 3.6.12 of the Multiboot2 specification). */
  function TagInfo(info: seq<byte>, off: nat): (fb: FbInfo)
    ensures Accepted(info, off) ==> fb.bpp == 32
    ensures fb.width == LE32(info, off + 20) && fb.height == LE32(info, off + 24) && fb.pitch == LE32(info, off + 16)
  {
    FbInfo(LE64(info, off + 8), LE32(info, off + 20), LE32(info, off + 24), LE32(info, off + 16), ByteAt(info, off + 28),
      ByteAt(info, off + 32), ByteAt(info, off + 33), ByteAt(info, off + 34), ByteAt(info, off + 35),
      ByteAt(info, off + 36), ByteAt(info, off + 37))
  }

  /** The only framebuffer fb_init takes: direct RGB colour (framebuffer_type 1) at 32 bits per pixel. */
  predicate Accepted(info: seq<byte>, off: nat)
  {
    ByteAt(info, off + 29) == 1 && ByteAt(info, off + 28) == 32
  }

  /**
   * fb_init's search from off: stop at total_size, at the END tag, at a tag
   * smaller than its header, or at the first framebuffer tag, which is
   * taken only when Accepted. Tags are stepped over by their rounded-up
   * size.
   */
  function FindFramebuffer(info: seq<byte>, off: nat): (r: Option<FbInfo>)
    ensures r.Some? ==> r.value.bpp == 32
    decreases TotalSize(info) - off
  {
    if off >= TotalSize(info) || TagType(info, off) == TAG_END || TagSize(info, off) < TAG_HEADER then None
    else if TagType(info, off) == TAG_FRAMEBUFFER then
      if Accepted(info, off) then Some(TagInfo(info, off)) else None
    else FindFramebuffer(info, off + RoundUp8(TagSize(info, off)))
  }

  /**
   * What fb_init takes is the first framebuffer tag of the walk, the one
   * FindTag finds, and only when it is Accepted.
   */
  lemma {:induction false} FindFramebufferIsFirst(info: seq<byte>, off: nat)
    ensures var r := FindFramebuffer(info, off);
      r.Some? ==> && FindTag(info, off, TAG_FRAMEBUFFER).Some?
                  && Accepted(info, FindTag(info, off, TAG_FRAMEBUFFER).value)
                  && r.value == TagInfo(info, FindTag(info, off, TAG_FRAMEBUFFER).value)
    decreases TotalSize(info) - off
  {
    if FindFramebuffer(info, off).Some? {
      if off >= |info| {
        PastEndIsZero(info, off);
      }
      if TagType(info, off) != TAG_FRAMEBUFFER {
        var next := off + RoundUp8(TagSize(info, off));
        assert FindFramebuffer(info, next).Some?;
        StrideAgrees(info, off);
        FindFramebufferIsFirst(info, next);
      }
    }
  }

  /** A tag the search steps over without leaving total_size behind has a stride that does not wrap. */
  lemma StrideAgrees(info: seq<byte>, off: nat)
    requires off + RoundUp8(TagSize(info, off)) < TotalSize(info)
    ensures Align8(TagSize(info, off)) == RoundUp8(TagSize(info, off))
  {
  }

  /**
   * fb_init's search as written: the same exits, but the step is Align8 of
   * the size, in uint32. `fuel` bounds the steps, and None means it ran out.
   */
  function FindFramebufferAsWritten(info: seq<byte>, off: nat, fuel: nat): (r: Option<Option<FbInfo>>)
    ensures r.Some? && r.value.Some? ==> r.value.value.bpp == 32
    decreases fuel
  {
    if fuel == 0 then None
    else if off >= TotalSize(info) || TagType(info, off) == TAG_END || TagSize(info, off) < TAG_HEADER then Some(None)
    else if TagType(info, off) == TAG_FRAMEBUFFER then
      if Accepted(info, off) then Some(Some(TagInfo(info, off))) else Some(None)
    else FindFramebufferAsWritten(info, off + Align8(TagSize(info, off)), fuel - 1)
  }

  /** total_size 32, a tag of type 1 and size 0xFFFFFFFF at 8, then zeros. */
  function HugeTagInfo(): seq<byte>
  {
    [32, 0, 0, 0, 0, 0, 0, 0,  1, 0, 0, 0, 0xFF, 0xFF, 0xFF, 0xFF,
     0, 0, 0, 0, 0, 0, 0, 0,  0, 0, 0, 0, 0, 0, 0, 0]
  }

  lemma HugeTagFields()
    ensures var info := HugeTagInfo();
      TotalSize(info) == 32 && TagType(info, FIRST_TAG) == 1 && TagSize(info, FIRST_TAG) == U32_LIMIT - 1
  {
    var info := HugeTagInfo();
    assert ByteAt(info, 0) == 32 && ByteAt(info, 1) == 0 && ByteAt(info, 2) == 0 && ByteAt(info, 3) == 0;
    assert ByteAt(info, 8) == 1 && ByteAt(info, 9) == 0 && ByteAt(info, 10) == 0 && ByteAt(info, 11) == 0;
    assert ByteAt(info, 12) == 0xFF && ByteAt(info, 13) == 0xFF && ByteAt(info, 14) == 0xFF && ByteAt(info, 15) == 0xFF;
  }

  /**
   * A tag whose size rounds past 2^32 does not move fb_init's walk as
   * written: its stride wraps to 0, so whatever the number of steps the
   * search has not finished.
   */
  lemma {:induction false} HugeTagHangs(fuel: nat)
    ensures FindFramebufferAsWritten(HugeTagInfo(), FIRST_TAG, fuel) == None
    decreases fuel
  {
    HugeTagFields();
    if fuel > 0 {
      HugeTagHangs(fuel - 1);
    }
  }

  /** The corrected step leaves total_size behind and the search ends with nothing found. */
  lemma HugeTagEnds()
    ensures FindFramebuffer(HugeTagInfo(), FIRST_TAG) == None
  {
    HugeTagFields();
    var info := HugeTagInfo();
    assert FIRST_TAG + RoundUp8(TagSize(info, FIRST_TAG)) >= TotalSize(info);
  }

  class Device {
    /** fb_initialized */
    var initialized: bool
    /** current_fb; None while it is NULL. */
    var current: Option<FbInfo>
    /** The framebuffer memory as 32-bit words. */
    const mem: array<u32>

    /** Words per row. */
    static function Stride(fb: FbInfo): nat
    {
      fb.pitch / 4
    }

    /** fb describes memory this device has: whole rows of 32-bit words, each at least as wide as the screen. */
    predicate Maps(fb: FbInfo)
      reads this
    {
      Shifts(fb) && fb.pitch % 4 == 0 && fb.width <= Stride(fb) && Stride(fb) * fb.height <= mem.Length
    }

    constructor (mem: array<u32>)
      ensures !initialized && current == None && this.mem == mem
    {
      this.mem := mem;
      initialized := false;
      current := None;
    }

    /** fb_init: take the first acceptable framebuffer tag; otherwise change nothing. */
    method Init(info: Option<seq<byte>>)
      modifies `initialized, `current
      ensures info.Some? && FindFramebuffer(info.value, FIRST_TAG).Some? ==>
        initialized && current == FindFramebuffer(info.value, FIRST_TAG)
      ensures info.None? || FindFramebuffer(info.value, FIRST_TAG).None? ==>
        initialized == old(initialized) && current == old(current)
    {
      if info.None? {
        return;
      }
      var mb := info.value;
      var total := LE32(mb, 0);
      var tag := FIRST_TAG;
      while tag < total && TagType(mb, tag) != TAG_END
        invariant FindFramebuffer(mb, tag) == FindFramebuffer(mb, FIRST_TAG)
        decreases total - tag
      {
        if TagSize(mb, tag) < TAG_HEADER {
          break;
        }
        if TagType(mb, tag) == TAG_FRAMEBUFFER {
          if ByteAt(mb, tag + 29) != 1 || ByteAt(mb, tag + 28) != 32 {
            break;
          }
          current := Some(TagInfo(mb, tag));
          initialized := true;
          return;
        }
        tag := tag + RoundUp8(TagSize(mb, tag));
      }
    }

    /** Row y of the screen lies inside the mapped words. */
    static lemma RowInside(fb: FbInfo, y: nat, size: nat)
      requires fb.width <= Stride(fb) && y < fb.height && Stride(fb) * fb.height <= size
      ensures 0 <= y * Stride(fb) && y * Stride(fb) + fb.width <= size
    {
      MulStep(Stride(fb), y, fb.height);
    }

    /** fb_put_pixel: one word, when the device is initialized and (x, y) is on the screen. */
    method PutPixel(fb: Option<FbInfo>, x: u32, y: u32, r: byte, g: byte, b: byte)
      requires initialized && fb.Some? ==> Maps(fb.value)
      modifies mem
      ensures if initialized && fb.Some? && x < fb.value.width && y < fb.value.height then
          y * Stride(fb.value) + x < mem.Length
          && mem[..] == old(mem[..])[y * Stride(fb.value) + x := MakeColor(fb.value, r, g, b)]
        else mem[..] == old(mem[..])
    {
      if !initialized || fb.None? {
        return;
      }
      var f := fb.value;
      if x >= f.width || y >= f.height {
        return;
      }
      RowInside(f, y, mem.Length);
      mem[y * Stride(f) + x] := MakeColor(f, r, g, b);
    }

    /** fb_clear: the first (pitch / 4) * height words, the count taken in uint32, all in one colour. */
    method Clear(fb: Option<FbInfo>, r: byte, g: byte, b: byte)
      requires initialized && fb.Some? ==> Maps(fb.value)
      modifies mem
      ensures if initialized && fb.Some? then
          mem[..] == PaintRun(old(mem[..]), 0, U32(Stride(fb.value) * fb.value.height), MakeColor(fb.value, r, g, b))
        else mem[..] == old(mem[..])
    {
      if !initialized || fb.None? {
        return;
      }
      var f := fb.value;
      var color := MakeColor(f, r, g, b);
      ClearCount(f.pitch / 4, f.height, mem.Length);
      var pixels := U32((f.pitch / 4) * f.height);
      var i := 0;
      while i < pixels
        invariant i <= pixels <= mem.Length
        invariant mem[..] == PaintRun(old(mem[..]), 0, i, color)
      {
        PaintRunStep(old(mem[..]), 0, i, color);
        mem[i] := color;
        i := i + 1;
      }
    }

    /** fb_fill_rect: the w by h rectangle at (x, y), clipped to the screen. */
    method FillRect(fb: Option<FbInfo>, x: u32, y: u32, w: u32, h: u32, r: byte, g: byte, b: byte)
      requires initialized && fb.Some? ==> Maps(fb.value)
      modifies mem
      ensures if initialized && fb.Some? then
          mem[..] == Painted(old(mem[..]), Stride(fb.value), x, y, Span(x, w, fb.value.width),
                             MakeColor(fb.value, r, g, b), Span(y, h, fb.value.height))
        else mem[..] == old(mem[..])
    {
      if !initialized || fb.None? {
        return;
      }
      var f := fb.value;
      var color := MakeColor(f, r, g, b);
      FillRows(f, x, y, w, h, color);
    }

    /** The outer loop of fb_fill_rect: rows y + dy while dy < h and y + dy < height. */
    method FillRows(fb: FbInfo, x: u32, y: u32, w: u32, h: u32, color: u32)
      requires Maps(fb)
      modifies mem
      ensures mem[..] == Painted(old(mem[..]), Stride(fb), x, y, Span(x, w, fb.width), color, Span(y, h, fb.height))
    {
      ghost var stride, cols := Stride(fb), Span(x, w, fb.width);
      var dy: u32 := 0;
      while dy < h && y + dy < fb.height
        invariant dy <= Span(y, h, fb.height)
        invariant mem[..] == Painted(old(mem[..]), stride, x, y, cols, color, dy)
        decreases h - dy
      {
        var yy := y + dy;
        FillSpan(fb, yy, x, w, color);
        PaintedNext(old(mem[..]), stride, x, y, cols, color, dy, yy);
        dy := dy + 1;
      }
      assert dy == Span(y, h, fb.height);
    }

    /** The inner loop of fb_fill_rect: row yy, from column x while dx < w and x + dx < width. */
    method FillSpan(fb: FbInfo, yy: u32, x: u32, w: u32, color: u32)
      requires Maps(fb) && yy < fb.height
      modifies mem
      ensures mem[..] == PaintRun(old(mem[..]), yy * Stride(fb) + x, Span(x, w, fb.width), color)
    {
      RowInside(fb, yy, mem.Length);
      var row, width := yy * Stride(fb), fb.width;
      var dx: u32 := 0;
      while dx < w && x + dx < width
        invariant dx <= Span(x, w, width)
        invariant mem[..] == PaintRun(old(mem[..]), row + x, dx, color)
        decreases w - dx
      {
        PaintRunStep(old(mem[..]), row + x, dx, color);
        mem[row + x + dx] := color;
        dx := dx + 1;
      }
    }
  }

  /** The pixels fb_fill_rect paints along one axis: from x, w of them, but none from the limit on. */
  function Span(x: nat, w: nat, limit: nat): (n: nat)
    ensures n <= w && (n > 0 ==> x + n <= limit)
    ensures x < limit ==> n == w || x + n == limit
  {
    if x >= limit then 0 else Min(w, limit - x)
  }

  /** n words from start set to color. */
  function PaintRun(cells: seq<u32>, start: int, n: nat, color: u32): (r: seq<u32>)
    ensures |r| == |cells|
    ensures forall i :: 0 <= i < |cells| ==> r[i] == if start <= i < start + n then color else cells[i]
  {
    seq(|cells|, i requires 0 <= i < |cells| => if start <= i < start + n then color else cells[i])
  }

  /** Painting one more word is one array update. */
  lemma PaintRunStep(cells: seq<u32>, start: nat, n: nat, color: u32)
    requires start + n < |cells|
    ensures PaintRun(cells, start, n + 1, color) == PaintRun(cells, start, n, color)[start + n := color]
  {
  }

  /** The count fb_clear writes, truncated to uint32, stays inside the mapped words. */
  lemma ClearCount(stride: nat, height: nat, size: nat)
    requires stride * height <= size
    ensures 0 <= stride * height && U32(stride * height) <= size
  {
  }

  /** The first `rows` rows of the rectangle at (x, y), cols pixels wide, painted. */
  function Painted(cells: seq<u32>, stride: nat, x: nat, y: nat, cols: nat, color: u32, rows: nat): (r: seq<u32>)
    ensures |r| == |cells|
    decreases rows
  {
    if rows == 0 then cells
    else PaintRun(Painted(cells, stride, x, y, cols, color, rows - 1), (y + rows - 1) * stride + x, cols, color)
  }

  /** Painting the next row after `rows` rows extends Painted by one. */
  lemma PaintedNext(cells: seq<u32>, stride: nat, x: nat, y: nat, cols: nat, color: u32, rows: nat, row: nat)
    requires row == y + rows
    ensures Painted(cells, stride, x, y, cols, color, rows + 1)
      == PaintRun(Painted(cells, stride, x, y, cols, color, rows), row * stride + x, cols, color)
  {
  }

  /** A word of the run painted in row `row` is a pixel of that row, in the run's columns, and the other way round. */
  lemma RowOfPixel(stride: nat, row: nat, x: nat, cols: nat, px: nat, py: nat)
    requires x + cols <= stride && px < stride
    ensures row * stride + x <= py * stride + px < row * stride + x + cols <==> py == row && x <= px < x + cols
  {
    var start, i := row * stride + x, py * stride + px;
    if start <= i < start + cols {
      DivModUnique(i, stride, py, px);
      DivModUnique(i, stride, row, x + (i - start));
    }
  }

  /**
   * fb_fill_rect paints exactly its rectangle: pixel (px, py) of a row of
   * stride words gets the colour when it is one of the rows and columns
   * painted, and keeps its word otherwise.
   */
  lemma {:induction false} PaintedPixels(cells: seq<u32>, stride: nat, x: nat, y: nat, cols: nat, color: u32, rows: nat, px: nat, py: nat)
    requires x + cols <= stride && px < stride && py * stride + px < |cells|
    ensures Painted(cells, stride, x, y, cols, color, rows)[py * stride + px]
      == if y <= py < y + rows && x <= px < x + cols then color else cells[py * stride + px]
    decreases rows
  {
    if rows > 0 {
      PaintedPixels(cells, stride, x, y, cols, color, rows - 1, px, py);
      RowOfPixel(stride, y + rows - 1, x, cols, px, py);
    }
  }
}
