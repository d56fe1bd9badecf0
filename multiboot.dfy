/*
 * The Multiboot2 boot information the kernel receives (section 3.6 of the
 * Multiboot2 specification, boot information format): a uint32 total_size,
 * a reserved uint32, then tags from offset 8, each starting with a uint32
 * type and a uint32 size and padded to a multiple of 8 bytes. The
 * information is a byte sequence; bytes past its end read as zero, so a walk
 * that runs off the end meets an END tag.
 */
module Multiboot {
  import opened Common

  const TAG_END: u32 := 0
  const TAG_MODULE: u32 := 3
  const TAG_BASIC_MEMINFO: u32 := 4
  const TAG_FRAMEBUFFER: u32 := 8
  /** Offset of the first tag. */
  const FIRST_TAG: nat := 8
  /** sizeof(struct multiboot_tag): the type and size fields. */
  const TAG_HEADER: nat := 8

  function TotalSize(info: seq<byte>): u32 { LE32(info, 0) }
  function TagType(info: seq<byte>, off: nat): u32 { LE32(info, off) }
  function TagSize(info: seq<byte>, off: nat): u32 { LE32(info, off + 4) }

  /** A little-endian field that lies wholly past the end of the information reads as zero. */
  lemma PastEndIsZero(info: seq<byte>, off: nat)
    requires off >= |info|
    ensures LE32(info, off) == 0
  {
    assert ByteAt(info, off) == 0 && ByteAt(info, off + 1) == 0 && ByteAt(info, off + 2) == 0 && ByteAt(info, off + 3) == 0;
  }

  /**
   * The stride the C computes, `(size + 7) & ~7` in uint32: size rounded up
   * to a multiple of 8, except that it wraps to 0 for the seven largest sizes.
   */
  function Align8(size: u32): (a: u32)
    ensures size + 7 < U32_LIMIT ==> a % 8 == 0 && size <= a < size + 8
    ensures size + 7 >= U32_LIMIT ==> a == 0
  {
    var t := Add32(size, 7);
    RoundDown(t, 8);
    t - t % 8
  }

  /** Align8 is the C's AND with ~7: the low three bits of the uint32 sum cleared. */
  lemma Align8IsMask(size: u32)
    ensures Align8(size) == BitAnd(Add32(size, 7), U32_LIMIT - 8, 32)
  {
    Pow2Values();
    Pow2Add(12, 4);
    Pow2Add(16, 16);
    assert Pow2(3) == 8;
    BitAndClearsLow(Add32(size, 7), U32_LIMIT - 8, 3, 32);
  }

  /** The stride without the wrap: size rounded up to a multiple of 8. */
  function RoundUp8(size: nat): (a: nat)
    ensures a % 8 == 0 && size <= a < size + 8
  {
    RoundDown(size + 7, 8);
    (size + 7) - (size + 7) % 8
  }

  /**
   * The offsets of the tags the kernel's walk examines from `off`, in order:
   * it stops at the END tag, and it never leaves a tag whose uint32 stride
   * Align8 is 0 (a size of 0, or one of the seven largest sizes), so that tag
   * is the last one listed.
   */
  function Tags(info: seq<byte>, off: nat): (offs: seq<nat>)
    ensures forall k :: 0 <= k < |offs| ==> TagType(info, offs[k]) != TAG_END
    ensures forall k :: 0 <= k < |offs| ==> offs[k] >= off
    ensures forall k :: 0 <= k < |offs| - 1 ==> Align8(TagSize(info, offs[k])) > 0
    decreases |info| + 1 - off
  {
    if TagType(info, off) == TAG_END then []
    else if off >= |info| then PastEndIsZero(info, off); []
    else if Align8(TagSize(info, off)) == 0 then [off]
    else
      var rest := Tags(info, off + Align8(TagSize(info, off)));
      assert forall k :: 1 <= k < |rest| + 1 ==> ([off] + rest)[k] == rest[k - 1];
      [off] + rest
  }

  /**
   * The first tag of type t from `off`, walking as get_memory_size and
   * get_initrd do (kernel/kernel.c): END ends the walk, a tag of type t is
   * the result, any other tag is stepped over by Align8 of its size. The one
   * correction is where the C never returns: a tag whose stride is 0 ends
   * the walk with nothing found.
   */
  function FindTag(info: seq<byte>, off: nat, t: u32): (r: Option<nat>)
    ensures r.Some? ==> TagType(info, r.value) == t
    decreases |info| + 1 - off
  {
    if TagType(info, off) == TAG_END then None
    else if off >= |info| then PastEndIsZero(info, off); None
    else if TagType(info, off) == t then Some(off)
    else if Align8(TagSize(info, off)) == 0 then None
    else FindTag(info, off + Align8(TagSize(info, off)), t)
  }

  /** The k-th of offs is a tag of type t and none before it is. */
  predicate FirstOfType(info: seq<byte>, offs: seq<nat>, t: u32, k: nat)
  {
    k < |offs| && TagType(info, offs[k]) == t && forall j :: 0 <= j < k ==> TagType(info, offs[j]) != t
  }

  /** What FindTag promises about a walk: the first tag of type t, or None when the walk has none. */
  ghost predicate FindsFirst(info: seq<byte>, offs: seq<nat>, t: u32, r: Option<nat>)
  {
    && (r.None? <==> forall k :: 0 <= k < |offs| ==> TagType(info, offs[k]) != t)
    && (r.Some? ==> exists k: nat :: FirstOfType(info, offs, t, k) && offs[k] == r.value)
  }

  /** A tag of another type in front of a walk does not change its first tag of type t. */
  lemma FindsFirstBehind(info: seq<byte>, off: nat, t: u32, rest: seq<nat>, r: Option<nat>)
    requires TagType(info, off) != t && FindsFirst(info, rest, t, r)
    ensures FindsFirst(info, [off] + rest, t, r)
  {
    var offs := [off] + rest;
    if r.Some? {
      var k: nat :| FirstOfType(info, rest, t, k) && rest[k] == r.value;
      assert FirstOfType(info, offs, t, k + 1);
    } else {
      assert forall k :: 1 <= k < |offs| ==> offs[k] == rest[k - 1];
    }
  }

  /** FindTag finds the first tag of type t in the walk, and finds nothing exactly when the walk has no such tag. */
  lemma {:induction false} FindTagFirst(info: seq<byte>, off: nat, t: u32)
    requires t != TAG_END
    ensures FindsFirst(info, Tags(info, off), t, FindTag(info, off, t))
    decreases |info| + 1 - off
  {
    if TagType(info, off) == TAG_END {
    } else if off >= |info| {
      PastEndIsZero(info, off);
    } else if TagType(info, off) == t {
      assert FirstOfType(info, Tags(info, off), t, 0);
    } else if Align8(TagSize(info, off)) == 0 {
      assert Tags(info, off) == [off];
    } else {
      var next := off + Align8(TagSize(info, off));
      assert Tags(info, off) == [off] + Tags(info, next);
      assert FindTag(info, off, t) == FindTag(info, next, t);
      FindTagFirst(info, next, t);
      FindsFirstBehind(info, off, t, Tags(info, next), FindTag(info, next, t));
    }
  }

  /**
   * The kernel's walk as written (kernel/kernel.c): from `off`, stop at the
   * END tag or a tag of type t, else step by Align8 of the size. The loop has
   * no other exit; `fuel` bounds the steps, and None means it ran out.
   */
  function FindTagAsWritten(info: seq<byte>, off: nat, t: u32, fuel: nat): (r: Option<Option<nat>>)
    ensures r.Some? && r.value.Some? ==> TagType(info, r.value.value) == t
    decreases fuel
  {
    if fuel == 0 then None
    else if TagType(info, off) == TAG_END then Some(None)
    else if TagType(info, off) == t then Some(Some(off))
    else FindTagAsWritten(info, off + Align8(TagSize(info, off)), t, fuel - 1)
  }

  /** One tag of type 1 and size 0, then the END tag that the size would have led to. */
  function ZeroSizeTagInfo(): seq<byte>
  {
    [24, 0, 0, 0, 0, 0, 0, 0,  1, 0, 0, 0, 0, 0, 0, 0,  0, 0, 0, 0, 8, 0, 0, 0]
  }

  /** A tag of size 0 never moves the kernel's walk: whatever the number of steps, it has not finished. */
  lemma {:induction false} ZeroSizeTagHangs(t: u32, fuel: nat)
    requires t != TAG_END && t != 1
    ensures FindTagAsWritten(ZeroSizeTagInfo(), FIRST_TAG, t, fuel) == None
    decreases fuel
  {
    var info := ZeroSizeTagInfo();
    assert TagType(info, FIRST_TAG) == 1 && TagSize(info, FIRST_TAG) == 0;
    if fuel > 0 {
      ZeroSizeTagHangs(t, fuel - 1);
    }
  }

  /**
   * Wherever FindTag gives up at a tag whose stride is 0, the walk as
   * written stays on that tag: whatever the number of steps, it has not
   * finished.
   */
  lemma {:induction false} StuckTagHangs(info: seq<byte>, off: nat, t: u32, fuel: nat)
    requires TagType(info, off) != TAG_END && TagType(info, off) != t && Align8(TagSize(info, off)) == 0
    ensures FindTagAsWritten(info, off, t, fuel) == None
    decreases fuel
  {
    if fuel > 0 {
      StuckTagHangs(info, off, t, fuel - 1);
    }
  }

  /** The corrected walk stops at the zero-size tag and finds nothing. */
  lemma ZeroSizeTagStops(t: u32)
    requires t != TAG_END && t != 1
    ensures FindTag(ZeroSizeTagInfo(), FIRST_TAG, t) == None
  {
    var info := ZeroSizeTagInfo();
    assert TagType(info, FIRST_TAG) == 1 && TagSize(info, FIRST_TAG) == 0;
    assert Align8(0) == 0;
  }

  /** Every tag the walk steps over before the END tag has a stride other than 0. */
  predicate WellFormed(info: seq<byte>, off: nat)
    decreases |info| + 1 - off
  {
    TagType(info, off) == TAG_END
    || (&& Align8(TagSize(info, off)) > 0
        && (off < |info| ==> WellFormed(info, off + Align8(TagSize(info, off)))))
  }

  /** Where no stride is 0 the walk as written and the corrected one agree, within one step per tag. */
  lemma {:induction false} FindTagAgrees(info: seq<byte>, off: nat, t: u32)
    requires t != TAG_END && WellFormed(info, off)
    ensures FindTagAsWritten(info, off, t, |Tags(info, off)| + 1) == Some(FindTag(info, off, t))
    decreases |info| + 1 - off
  {
    var ty, size := TagType(info, off), TagSize(info, off);
    if ty != TAG_END {
      if off >= |info| {
        PastEndIsZero(info, off);
      } else if ty != t {
        var next := off + Align8(size);
        assert Tags(info, off) == [off] + Tags(info, next);
        FindTagAgrees(info, next, t);
        assert FindTag(info, off, t) == FindTag(info, next, t);
        assert FindTagAsWritten(info, off, t, |Tags(info, off)| + 1) == FindTagAsWritten(info, next, t, |Tags(info, next)| + 1);
      }
    }
  }
}
