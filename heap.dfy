/*
 * The kernel heap (mm/heap.c): a first-fit allocator over one arena. The
 * headers form a singly linked list in address order; here the list is the
 * sequence `blocks` and every header's address is the sum of the footprints
 * (header plus payload) of the blocks before it, counted from the arena start.
 * A pointer handed out by kmalloc is the arena offset of a payload.
 */
module Heap {
  import opened Common

  /** sizeof(block_header_t) on x86_64: an 8-byte size, an 8-byte next pointer, a 4-byte int and 4 bytes of padding. */
  const HEADER: nat := 24
  const ALIGN: nat := 16

  /** One header: the payload size and the is_free flag; `next` is the position in the sequence. */
  datatype Block = Block(size: nat, free: bool)

  // ---------------------------------------------------------------------
  // Sizes and offsets
  // ---------------------------------------------------------------------

  /**
   * `(size + alignment - 1) & ~(alignment - 1)` in size_t: the rounding of
   * align_size (alignment 16) and of kmalloc_aligned.
   */
  function AlignUp(size: u64, alignment: u64): u64
  {
    BitAnd(U64(size + alignment - 1), Not64(U64(alignment - 1)), 64)
  }

  /** Unfolds AlignUp where a power-of-two fact in scope would send the solver astray. */
  lemma AlignUpIsMask(size: u64, alignment: u64)
    ensures AlignUp(size, alignment) == BitAnd(U64(size + alignment - 1), Not64(U64(alignment - 1)), 64)
  {
  }

  /** For a power-of-two alignment the mask clears the remainder of the wrapped sum. */
  lemma AlignUpPow2(size: u64, alignment: u64, k: nat)
    requires alignment == Pow2(k) && k < 64
    ensures AlignUp(size, alignment) == U64(size + alignment - 1) - U64(size + alignment - 1) % alignment
  {
    var x, mask := U64(size + alignment - 1), Not64(U64(alignment - 1));
    AlignUpIsMask(size, alignment);
    assert mask + alignment == U64_LIMIT;
    Pow2Values();
    BitAndClearsLow(x, mask, k, 64);
  }

  /** Without wrap-around, rounding to a power of two yields the least multiple of it that is >= size. */
  lemma AlignUpRounds(size: u64, alignment: u64, k: nat)
    requires alignment == Pow2(k) && k < 64 && size + alignment - 1 < U64_LIMIT
    ensures AlignUp(size, alignment) % alignment == 0
    ensures size <= AlignUp(size, alignment) < size + alignment
  {
    AlignUpPow2(size, alignment, k);
    RoundUpBounds(size, alignment, AlignUp(size, alignment));
  }

  lemma RoundUpBounds(size: nat, a: nat, r: int)
    requires a > 0 && size + a - 1 < U64_LIMIT && r == U64(size + a - 1) - U64(size + a - 1) % a
    ensures r % a == 0 && size <= r < size + a
  {
    RoundDown(size + a - 1, a);
  }

  /** An alignment of 0 makes the mask ~(0 - 1) == 0: every request becomes 0. */
  lemma AlignUpZero(size: u64)
    ensures AlignUp(size, 0) == 0
  {
    BitAndZero(U64(size - 1), 64);
  }

  lemma WrappedSmall(x: nat)
    requires U64_LIMIT <= x < U64_LIMIT + 15
    ensures U64(x) - U64(x) % 16 == 0
  {
    assert U64(x) == x - U64_LIMIT;
  }

  /**
   * align_size: `(size + 15) & ~15`, which for alignment 16 is the sum
   * (wrapped to size_t) less its remainder modulo 16 (AlignSizeIsMask).
   * The result is the least multiple of 16 that is >= s, except for the 15
   * largest sizes, where the sum wraps and the result is 0.
   */
  function AlignSize(s: u64): (r: u64)
    ensures s < U64_LIMIT - 15 ==> r % ALIGN == 0 && s <= r < s + ALIGN
    ensures s >= U64_LIMIT - 15 ==> r == 0
  {
    RoundDown(U64(s + 15), 16);
    U64(s + 15) - U64(s + 15) % 16
  }

  /** align_size is the alignment mask of kmalloc_aligned at alignment 16. */
  lemma AlignSizeIsMask(s: u64)
    ensures AlignSize(s) == AlignUp(s, 16)
  {
    AlignUpPow2(s, 16, 4);
  }

  /** Bytes the blocks occupy: each header plus its payload. */
  function Footprint(bs: seq<Block>): nat
  {
    if |bs| == 0 then 0 else HEADER + bs[0].size + Footprint(bs[1..])
  }

  /** Offset of block i's header from the arena start. */
  function Offset(bs: seq<Block>, i: nat): nat
    requires i <= |bs|
  {
    Footprint(bs[..i])
  }

  lemma {:induction false} FootprintAppend(a: seq<Block>, b: seq<Block>)
    ensures Footprint(a + b) == Footprint(a) + Footprint(b)
    decreases |a|
  {
    if |a| > 0 {
      assert (a + b)[1..] == a[1..] + b;
      FootprintAppend(a[1..], b);
    } else {
      assert a + b == b;
    }
  }

  /** Block i lies inside the blocks' footprint: header, payload and all. */
  lemma BlockInside(bs: seq<Block>, i: nat)
    requires i < |bs|
    ensures Offset(bs, i) + HEADER + bs[i].size <= Footprint(bs)
  {
    assert bs == bs[..i] + [bs[i]] + bs[i + 1..];
    FootprintAppend(bs[..i] + [bs[i]], bs[i + 1..]);
    FootprintAppend(bs[..i], [bs[i]]);
  }

  /** No two neighbours in the list are both free. */
  predicate NoAdjacentFree(bs: seq<Block>)
  {
    forall i :: 0 <= i < |bs| - 1 ==> !(bs[i].free && bs[i + 1].free)
  }

  /** Live allocations: payload pointer to payload size, for the used blocks starting at `base`. */
  function Allocs(bs: seq<Block>, base: nat): map<nat, nat>
  {
    if |bs| == 0 then map[]
    else
      var rest := Allocs(bs[1..], base + HEADER + bs[0].size);
      if bs[0].free then rest else rest[base + HEADER := bs[0].size]
  }

  /** Bytes (headers included) of the used blocks: what used_size is meant to count. */
  function AllocatedBytes(bs: seq<Block>): nat
  {
    if |bs| == 0 then 0
    else (if bs[0].free then 0 else HEADER + bs[0].size) + AllocatedBytes(bs[1..])
  }

  lemma {:induction false} AllocatedWithin(bs: seq<Block>)
    ensures AllocatedBytes(bs) <= Footprint(bs)
    decreases |bs|
  {
    if |bs| > 0 {
      AllocatedWithin(bs[1..]);
    }
  }

  lemma {:induction false} AllocsRange(bs: seq<Block>, base: nat)
    ensures forall q :: q in Allocs(bs, base) ==> base + HEADER <= q && q + Allocs(bs, base)[q] <= base + Footprint(bs)
    decreases |bs|
  {
    if |bs| > 0 {
      AllocsRange(bs[1..], base + HEADER + bs[0].size);
    }
  }

  // ---------------------------------------------------------------------
  // find_free_block, split_block, merge_free_blocks as functions on the list
  // ---------------------------------------------------------------------

  predicate Fits(b: Block, s: nat)
  {
    b.free && b.size >= s
  }

  /** The first block in list order that is free and holds `s` bytes. */
  function FirstFit(bs: seq<Block>, s: nat): (r: Option<nat>)
    ensures r.Some? ==> r.value < |bs| && Fits(bs[r.value], s) && forall j :: 0 <= j < r.value ==> !Fits(bs[j], s)
    ensures r.None? ==> forall j :: 0 <= j < |bs| ==> !Fits(bs[j], s)
  {
    if |bs| == 0 then None
    else if Fits(bs[0], s) then Some(0)
    else match FirstFit(bs[1..], s)
      case None => None
      case Some(j) => Some(j + 1)
  }

  /** The list after split_block(block i, s). */
  function Split(bs: seq<Block>, i: nat, s: nat): (r: seq<Block>)
    requires i < |bs|
    ensures |r| == |bs| || |r| == |bs| + 1
    ensures r[..i] == bs[..i]
    ensures bs[i].size < s + HEADER + ALIGN ==> r == bs
    ensures bs[i].size >= s + HEADER + ALIGN ==>
      && |r| == |bs| + 1 && r[i] == Block(s, bs[i].free) && r[i + 1].free
      && r[i].size + HEADER + r[i + 1].size == bs[i].size && r[i + 2..] == bs[i + 1..]
  {
    if bs[i].size >= s + HEADER + ALIGN then
      bs[..i] + [Block(s, bs[i].free), Block(bs[i].size - s - HEADER, true)] + bs[i + 1..]
    else bs
  }

  /** The list after the coalescing pass of merge_free_blocks. */
  function Coalesce(bs: seq<Block>): (r: seq<Block>)
    ensures |r| <= |bs|
    ensures |bs| > 0 ==> |r| > 0
    decreases |bs|
  {
    if |bs| < 2 then bs
    else if bs[0].free && bs[1].free then Coalesce([Block(bs[0].size + HEADER + bs[1].size, true)] + bs[2..])
    else [bs[0]] + Coalesce(bs[1..])
  }

  function SetFree(bs: seq<Block>, i: nat, free: bool): seq<Block>
    requires i < |bs|
  {
    bs[i := Block(bs[i].size, free)]
  }

  /** Splitting keeps the footprint, the blocks before i, block i's offset and every live allocation. */
  lemma SplitFacts(bs: seq<Block>, i: nat, s: nat, base: nat)
    requires i < |bs| && bs[i].free && s <= bs[i].size
    ensures i < |Split(bs, i, s)| && Split(bs, i, s)[..i] == bs[..i]
    ensures Footprint(Split(bs, i, s)) == Footprint(bs)
    ensures Allocs(Split(bs, i, s), base) == Allocs(bs, base)
    ensures AllocatedBytes(Split(bs, i, s)) == AllocatedBytes(bs)
    ensures Split(bs, i, s)[i].free
    ensures Split(bs, i, s)[i].size == if bs[i].size >= s + HEADER + ALIGN then s else bs[i].size
  {
    if bs[i].size >= s + HEADER + ALIGN {
      var mid := [Block(s, true), Block(bs[i].size - s - HEADER, true)];
      ReplaceMiddle(bs[..i], [bs[i]], mid, bs[i + 1..], base);
      assert bs == bs[..i] + [bs[i]] + bs[i + 1..];
      assert Split(bs, i, s) == bs[..i] + mid + bs[i + 1..];
    }
  }

  /**
   * Replacing a run of free blocks by another run of free blocks with the same
   * footprint keeps the footprint and the live allocations of the whole list.
   */
  lemma {:induction false} ReplaceMiddle(pre: seq<Block>, mid: seq<Block>, mid': seq<Block>, post: seq<Block>, base: nat)
    requires Footprint(mid) == Footprint(mid')
    requires forall k :: 0 <= k < |mid| ==> mid[k].free
    requires forall k :: 0 <= k < |mid'| ==> mid'[k].free
    ensures Footprint(pre + mid' + post) == Footprint(pre + mid + post)
    ensures Allocs(pre + mid' + post, base) == Allocs(pre + mid + post, base)
    ensures AllocatedBytes(pre + mid' + post) == AllocatedBytes(pre + mid + post)
    decreases |pre|
  {
    if |pre| > 0 {
      assert (pre + mid + post)[1..] == pre[1..] + mid + post;
      assert (pre + mid' + post)[1..] == pre[1..] + mid' + post;
      ReplaceMiddle(pre[1..], mid, mid', post, base + HEADER + pre[0].size);
    } else {
      assert pre + mid + post == mid + post;
      assert pre + mid' + post == mid' + post;
      FreeRun(mid, post, base);
      FreeRun(mid', post, base);
      FootprintAppend(mid, post);
      FootprintAppend(mid', post);
    }
  }

  /** A run of free blocks in front of `post` contributes no allocation. */
  lemma {:induction false} FreeRun(mid: seq<Block>, post: seq<Block>, base: nat)
    requires forall k :: 0 <= k < |mid| ==> mid[k].free
    ensures Allocs(mid + post, base) == Allocs(post, base + Footprint(mid))
    ensures AllocatedBytes(mid + post) == AllocatedBytes(post)
    decreases |mid|
  {
    if |mid| > 0 {
      assert (mid + post)[1..] == mid[1..] + post;
      FreeRun(mid[1..], post, base + HEADER + mid[0].size);
    } else {
      assert mid + post == post;
    }
  }

  /** merge_free_blocks keeps the footprint and every live allocation, and leaves no two free neighbours. */
  /** One merge of the pass at i: the blocks before i stay, and the rest coalesces as before. */
  lemma CoalesceMergeAt(bs: seq<Block>, i: nat)
    requires i + 1 < |bs| && bs[i].free && bs[i + 1].free
    ensures var bs' := bs[..i] + [Block(bs[i].size + HEADER + bs[i + 1].size, true)] + bs[i + 2..];
      bs'[..i] == bs[..i] && Coalesce(bs'[i..]) == Coalesce(bs[i..])
  {
    var merged := Block(bs[i].size + HEADER + bs[i + 1].size, true);
    var bs' := bs[..i] + [merged] + bs[i + 2..];
    assert bs[i..][2..] == bs[i + 2..];
    assert bs'[i..] == [merged] + bs[i + 2..];
  }

  /** One step of the pass past i: block i is kept as it is. */
  lemma CoalesceKeepAt(bs: seq<Block>, i: nat)
    requires i + 1 < |bs| && !(bs[i].free && bs[i + 1].free)
    ensures bs[..i + 1] + Coalesce(bs[i + 1..]) == bs[..i] + Coalesce(bs[i..])
  {
    assert bs[i..][1..] == bs[i + 1..];
    assert bs[..i + 1] == bs[..i] + [bs[i]];
  }

  lemma {:induction false} CoalesceFacts(bs: seq<Block>, base: nat)
    ensures Footprint(Coalesce(bs)) == Footprint(bs)
    ensures Allocs(Coalesce(bs), base) == Allocs(bs, base)
    ensures AllocatedBytes(Coalesce(bs)) == AllocatedBytes(bs)
    ensures NoAdjacentFree(Coalesce(bs))
    ensures |bs| > 0 ==> |Coalesce(bs)| > 0 && Coalesce(bs)[0].free == bs[0].free
    decreases |bs|
  {
    if |bs| >= 2 {
      if bs[0].free && bs[1].free {
        var merged := [Block(bs[0].size + HEADER + bs[1].size, true)];
        CoalesceFacts(merged + bs[2..], base);
        assert Footprint(bs[..2]) == HEADER + bs[0].size + HEADER + bs[1].size by {
          var two := bs[..2];
          assert two[1..] == [bs[1]] && two[1..][1..] == [];
          assert Footprint([bs[1]]) == HEADER + bs[1].size + Footprint([]);
        }
        ReplaceMiddle([], bs[..2], merged, bs[2..], base);
        assert bs == [] + bs[..2] + bs[2..];
        assert merged + bs[2..] == [] + merged + bs[2..];
      } else {
        CoalesceFacts(bs[1..], base + HEADER + bs[0].size);
        var c := Coalesce(bs);
        assert c == [bs[0]] + Coalesce(bs[1..]);
        assert c[1..] == Coalesce(bs[1..]);
        forall i | 0 <= i < |c| - 1
          ensures !(c[i].free && c[i + 1].free)
        {
          if i > 0 {
            assert c[i] == c[1..][i - 1] && c[i + 1] == c[1..][i];
          }
        }
      }
    }
  }

  /** Marking a used block free removes exactly its allocation. */
  lemma {:induction false} FreeAllocs(bs: seq<Block>, i: nat, base: nat)
    requires i < |bs| && !bs[i].free
    ensures Allocs(SetFree(bs, i, true), base) == Allocs(bs, base) - {base + Offset(bs, i) + HEADER}
    ensures AllocatedBytes(SetFree(bs, i, true)) + HEADER + bs[i].size == AllocatedBytes(bs)
    ensures Footprint(SetFree(bs, i, true)) == Footprint(bs)
    decreases i
  {
    var bs' := SetFree(bs, i, true);
    AllocsRange(bs[1..], base + HEADER + bs[0].size);
    if i > 0 {
      assert bs'[1..] == SetFree(bs[1..], i - 1, true);
      assert bs[..i][1..] == bs[1..][..i - 1];
      FreeAllocs(bs[1..], i - 1, base + HEADER + bs[0].size);
    } else {
      assert bs'[1..] == bs[1..];
    }
  }

  /** Marking a free block used adds exactly its allocation. */
  lemma {:induction false} UseAllocs(bs: seq<Block>, i: nat, base: nat)
    requires i < |bs| && bs[i].free
    ensures base + Offset(bs, i) + HEADER !in Allocs(bs, base)
    ensures Allocs(SetFree(bs, i, false), base) == Allocs(bs, base)[base + Offset(bs, i) + HEADER := bs[i].size]
    ensures AllocatedBytes(SetFree(bs, i, false)) == AllocatedBytes(bs) + HEADER + bs[i].size
    ensures Footprint(SetFree(bs, i, false)) == Footprint(bs)
    decreases i
  {
    var bs' := SetFree(bs, i, false);
    AllocsRange(bs[1..], base + HEADER + bs[0].size);
    if i > 0 {
      assert bs'[1..] == SetFree(bs[1..], i - 1, false);
      assert bs[..i][1..] == bs[1..][..i - 1];
      UseAllocs(bs[1..], i - 1, base + HEADER + bs[0].size);
    } else {
      assert bs'[1..] == bs[1..];
    }
  }

  /** Allocating block i of a list without free neighbours keeps that property. */
  lemma AllocKeepsNoAdjacent(bs: seq<Block>, i: nat, s: nat)
    requires i < |bs| && bs[i].free && s <= bs[i].size && NoAdjacentFree(bs)
    ensures i < |Split(bs, i, s)| && NoAdjacentFree(SetFree(Split(bs, i, s), i, false))
  {
    var sp := Split(bs, i, s);
    var r := SetFree(sp, i, false);
    if bs[i].size >= s + HEADER + ALIGN {
      forall k | 0 <= k < |r| - 1
        ensures !(r[k].free && r[k + 1].free)
      {
        if k < i - 1 {
          assert r[k] == bs[k] && r[k + 1] == bs[k + 1];
        } else if k == i - 1 {
          assert !r[k + 1].free;
        } else if k == i + 1 {
          assert r[k + 1] == bs[i + 1];
        } else if k > i + 1 {
          assert r[k] == bs[k - 1] && r[k + 1] == bs[k];
        }
      }
    }
  }

  /** The index of the block whose payload starts at `ptr` (the C code steps back from the pointer). */
  function FindPayload(bs: seq<Block>, base: nat, ptr: nat): (r: Option<nat>)
    ensures r.Some? ==> r.value < |bs| && base + Offset(bs, r.value) + HEADER == ptr
  {
    if |bs| == 0 then None
    else if base + HEADER == ptr then Some(0)
    else match FindPayload(bs[1..], base + HEADER + bs[0].size, ptr)
      case None => None
      case Some(j) =>
        assert bs[..j + 1][1..] == bs[1..][..j];
        Some(j + 1)
  }

  /** A live pointer is found, at a used block holding the recorded size. */
  lemma {:induction false} FindLive(bs: seq<Block>, base: nat, ptr: nat)
    requires ptr in Allocs(bs, base)
    ensures FindPayload(bs, base, ptr).Some?
    ensures !bs[FindPayload(bs, base, ptr).value].free
    ensures bs[FindPayload(bs, base, ptr).value].size == Allocs(bs, base)[ptr]
    decreases |bs|
  {
    AllocsRange(bs[1..], base + HEADER + bs[0].size);
    if base + HEADER != ptr {
      FindLive(bs[1..], base + HEADER + bs[0].size, ptr);
    }
  }

  /** Distinct live payloads do not overlap: each ends at or before the next one starts. */
  lemma {:induction false} AllocsDisjoint(bs: seq<Block>, base: nat)
    ensures forall q, r :: q in Allocs(bs, base) && r in Allocs(bs, base) && q < r ==> q + Allocs(bs, base)[q] <= r
    decreases |bs|
  {
    if |bs| > 0 {
      var base' := base + HEADER + bs[0].size;
      AllocsDisjoint(bs[1..], base');
      AllocsRange(bs[1..], base');
    }
  }

  /** No bytes are allocated exactly when no pointer is live. */
  lemma {:induction false} AllocatedEmpty(bs: seq<Block>, base: nat)
    ensures AllocatedBytes(bs) == 0 <==> Allocs(bs, base) == map[]
    decreases |bs|
  {
    if |bs| > 0 {
      var base' := base + HEADER + bs[0].size;
      AllocatedEmpty(bs[1..], base');
      if !bs[0].free {
        assert base + HEADER in Allocs(bs, base);
      }
    }
  }

  /**
   * What kmalloc(size) does to the list and to used_size, read off mm/heap.c:
   * NULL and no change for size 0, before heap_init or when no block fits;
   * otherwise the first fitting block is split, marked used and its payload
   * returned, and used_size grows by the aligned request plus one header.
   */
  ghost predicate MallocOutcome(bs: seq<Block>, used: u64, initialized: bool, size: u64,
                                p: Option<nat>, bs': seq<Block>, used': u64)
  {
    var s := AlignSize(size);
    if size == 0 || !initialized || FirstFit(bs, s).None? then
      p == None && bs' == bs && used' == used
    else
      var i := FirstFit(bs, s).value;
      && i < |Split(bs, i, s)|
      && bs' == SetFree(Split(bs, i, s), i, false)
      && p == Some(Offset(bs, i) + HEADER)
      && used' == U64(used + s + HEADER)
  }

  /**
   * What kfree(p) does: nothing for NULL or before heap_init; otherwise the
   * block whose payload is p becomes free, the merge pass runs, and used_size
   * loses the block's stored size plus one header.
   */
  ghost predicate FreeOutcome(bs: seq<Block>, used: u64, initialized: bool, p: Option<nat>,
                              bs': seq<Block>, used': u64)
  {
    if p.None? || !initialized then
      bs' == bs && used' == used
    else
      && FindPayload(bs, 0, p.value).Some?
      && var i := FindPayload(bs, 0, p.value).value;
      && bs' == Coalesce(SetFree(bs, i, true))
      && used' == U64(used - (bs[i].size + HEADER))
  }

  /**
   * What the moving branch of krealloc(p, size) does, n being p's stored size:
   * kmalloc(size) as MallocOutcome; on failure nothing else; on success the
   * n old payload bytes are copied to the new block (nothing else in memory
   * changes) and p is freed as FreeOutcome.
   */
  ghost predicate GrowOutcome(bs: seq<Block>, used: u64, mem: seq<byte>, initialized: bool, p: nat, size: u64,
                              q: Option<nat>, bs': seq<Block>, used': u64, mem': seq<byte>)
  {
    && p in Allocs(bs, 0)
    && (exists mid: seq<Block>, midUsed: u64 ::
          && MallocOutcome(bs, used, initialized, size, q, mid, midUsed)
          && if q.None? then bs' == mid && used' == midUsed
             else FreeOutcome(mid, midUsed, initialized, Some(p), bs', used'))
    && (q.None? ==> mem' == mem)
    && (q.Some? ==>
          var n := Allocs(bs, 0)[p];
          && q.value != p && q.value !in Allocs(bs, 0) && q.value in Allocs(bs', 0)
          && Allocs(bs', 0) - {q.value} == Allocs(bs, 0) - {p}
          && size <= Allocs(bs', 0)[q.value]
          && Copied(mem, mem', p, q.value, n))
  }

  /** mem' is mem with the n bytes at src copied to dst, both ranges inside memory. */
  ghost predicate Copied(mem: seq<byte>, mem': seq<byte>, src: nat, dst: nat, n: nat)
  {
    && |mem'| == |mem| && src + n <= |mem| && dst + n <= |mem|
    && (forall j :: dst <= j < dst + n ==> mem'[j] == mem[j - dst + src])
    && (forall j :: 0 <= j < |mem| && !(dst <= j < dst + n) ==> mem'[j] == mem[j])
  }

  lemma MinusBoth(a0: map<nat, nat>, a1: map<nat, nat>, a2: map<nat, nat>, p: nat, q: nat)
    requires a1 - {q} == a0 && a2 == a1 - {p} && p != q
    ensures a2 - {q} == a0 - {p}
  {
    assert a2 - {q} == a1 - {q} - {p};
  }

  // ---------------------------------------------------------------------
  // The allocator state
  // ---------------------------------------------------------------------

  class KernelHeap {
    /** The memory heap_init is given; payload bytes live here, headers are modelled by `blocks`. */
    const arena: array<byte>
    /** heap_start != NULL */
    var initialized: bool
    /** The header list from free_list onwards, in address order. */
    var blocks: seq<Block>
    var totalSize: u64
    var usedSize: u64

    /** The blocks tile [0, total_size) of the arena and no two neighbours are both free. */
    ghost predicate Valid()
      reads this
    {
      && (initialized ==>
            |blocks| > 0 && Footprint(blocks) == totalSize && totalSize <= arena.Length
            && totalSize < U64_LIMIT - ALIGN && NoAdjacentFree(blocks))
      && (!initialized ==> blocks == [])
    }

    /** The heap before heap_init: heap_start is NULL. */
    constructor (arena: array<byte>)
      ensures Valid() && this.arena == arena && !initialized
      ensures blocks == [] && totalSize == 0 && usedSize == 0
    {
      this.arena := arena;
      initialized := false;
      blocks := [];
      totalSize := 0;
      usedSize := 0;
    }

    /** heap_init over the first `size` bytes of the arena: one free block after one header. */
    method Init(size: u64)
      requires HEADER <= size <= arena.Length && size < U64_LIMIT - ALIGN
      modifies this
      ensures Valid() && initialized
      ensures blocks == [Block(size - HEADER, true)] && Allocs(blocks, 0) == map[]
      ensures totalSize == size && usedSize == 0
    {
      initialized := true;
      totalSize := size;
      usedSize := 0;
      blocks := [Block(size - HEADER, true)];
    }

    /** find_free_block: walk the list from its head. */
    method FindFreeBlock(s: nat) returns (r: Option<nat>)
      ensures r == FirstFit(blocks, s)
    {
      var i := 0;
      while i < |blocks|
        invariant i <= |blocks|
        invariant forall j :: 0 <= j < i ==> !Fits(blocks[j], s)
      {
        if blocks[i].free && blocks[i].size >= s {
          return Some(i);
        }
        i := i + 1;
      }
      return None;
    }

    /** split_block(block i, s) */
    method SplitBlock(i: nat, s: nat)
      requires i < |blocks|
      modifies this`blocks
      ensures blocks == Split(old(blocks), i, s)
    {
      if blocks[i].size >= s + HEADER + ALIGN {
        var rest := Block(blocks[i].size - s - HEADER, true);
        blocks := blocks[..i] + [Block(s, blocks[i].free), rest] + blocks[i + 1..];
      }
    }

    /** merge_free_blocks: one pass from the head, merging a free block with a free successor in place. */
    method MergeFreeBlocks()
      modifies this`blocks
      ensures blocks == Coalesce(old(blocks))
    {
      var bs := blocks;
      ghost var b0 := blocks;
      var i := 0;
      assert bs[..0] + bs[0..] == bs;
      while i + 1 < |bs|
        invariant i <= |bs|
        invariant bs[..i] + Coalesce(bs[i..]) == Coalesce(b0)
        decreases |bs| - i
      {
        if bs[i].free && bs[i + 1].free {
          var merged := Block(bs[i].size + HEADER + bs[i + 1].size, true);
          CoalesceMergeAt(bs, i);
          bs := bs[..i] + [merged] + bs[i + 2..];
        } else {
          CoalesceKeepAt(bs, i);
          i := i + 1;
        }
      }
      assert Coalesce(bs[i..]) == bs[i..];
      assert bs[..i] + bs[i..] == bs;
      assert bs == Coalesce(b0);
      blocks := bs;
    }

    /**
     * kmalloc: NULL for size 0 or before heap_init; otherwise the first free
     * block holding align_size(size) bytes is split, marked used and its
     * payload returned, and used_size grows by align_size(size) + header
     * whether or not the block was split.
     */
    method Kmalloc(size: u64) returns (p: Option<nat>)
      requires Valid()
      modifies this`blocks, this`usedSize
      ensures Valid()
      ensures MallocOutcome(old(blocks), old(usedSize), initialized, size, p, blocks, usedSize)
      ensures p.Some? ==> p.value !in old(Allocs(blocks, 0)) && Allocs(blocks, 0) - {p.value} == old(Allocs(blocks, 0))
      ensures p.Some? ==> p.value in Allocs(blocks, 0) && AlignSize(size) <= Allocs(blocks, 0)[p.value]
      ensures p.Some? ==> p.value + Allocs(blocks, 0)[p.value] <= totalSize
      ensures p.Some? ==> AllocatedBytes(blocks) == old(AllocatedBytes(blocks)) + HEADER + Allocs(blocks, 0)[p.value]
    {
      p := None;
      if size != 0 && initialized {
        var s := AlignSize(size);
        var found := FindFreeBlock(s);
        if found.Some? {
          var i := found.value;
          SplitFacts(blocks, i, s, 0);
          AllocKeepsNoAdjacent(blocks, i, s);
          ghost var split := Split(blocks, i, s);
          AllocsRange(blocks, 0);
          SplitBlock(i, s);
          UseAllocs(split, i, 0);
          BlockInside(split, i);
          blocks := SetFree(blocks, i, false);
          usedSize := U64(usedSize + s + HEADER);
          assert Offset(split, i) == Offset(old(blocks), i);
          p := Some(Offset(blocks, i) + HEADER);
          assert Offset(blocks, i) == Offset(split, i) by {
            assert blocks[..i] == split[..i];
          }
          assert Allocs(blocks, 0) - {p.value} == old(Allocs(blocks, 0));
        }
      }
    }

    /**
     * kfree: nothing for NULL or before heap_init; otherwise the block is
     * marked free, used_size loses its stored size plus a header, and the
     * merge pass leaves no two neighbouring free blocks.
     */
    method Kfree(p: Option<nat>)
      requires Valid()
      requires p.Some? && initialized ==> p.value in Allocs(blocks, 0)
      modifies this`blocks, this`usedSize
      ensures Valid()
      ensures FreeOutcome(old(blocks), old(usedSize), initialized, p, blocks, usedSize)
      ensures p.Some? && initialized ==> Allocs(blocks, 0) == old(Allocs(blocks, 0)) - {p.value}
      ensures p.Some? && initialized ==>
                AllocatedBytes(blocks) + HEADER + old(Allocs(blocks, 0))[p.value] == old(AllocatedBytes(blocks))
    {
      if p.Some? && initialized {
        FindLive(blocks, 0, p.value);
        var i := FindPayload(blocks, 0, p.value).value;
        ghost var freed := SetFree(blocks, i, true);
        FreeAllocs(blocks, i, 0);
        CoalesceFacts(freed, 0);
        usedSize := U64(usedSize - (blocks[i].size + HEADER));
        blocks := SetFree(blocks, i, true);
        MergeFreeBlocks();
      }
    }

    /**
     * kmalloc_aligned: rounds the request up with the alignment mask and
     * calls kmalloc; the returned pointer itself is not aligned.
     */
    method KmallocAligned(size: u64, alignment: u64) returns (p: Option<nat>)
      requires Valid()
      modifies this`blocks, this`usedSize
      ensures Valid()
      ensures MallocOutcome(old(blocks), old(usedSize), initialized, AlignUp(size, alignment), p, blocks, usedSize)
      ensures alignment == 0 ==> p == None && blocks == old(blocks) && usedSize == old(usedSize)
      ensures p.Some? ==> p.value !in old(Allocs(blocks, 0)) && Allocs(blocks, 0) - {p.value} == old(Allocs(blocks, 0))
      ensures p.Some? ==> p.value in Allocs(blocks, 0) && AlignSize(AlignUp(size, alignment)) <= Allocs(blocks, 0)[p.value]
    {
      AlignUpZero(size);
      var aligned := AlignUp(size, alignment);
      p := Kmalloc(aligned);
    }

    /**
     * kcalloc: kmalloc(nmemb * size) with the product wrapped to size_t,
     * then the first nmemb * size payload bytes are zeroed.
     */
    method Kcalloc(nmemb: u64, size: u64) returns (p: Option<nat>)
      requires Valid()
      requires U64(nmemb * size) < U64_LIMIT - 15
      modifies this`blocks, this`usedSize, arena
      ensures Valid()
      ensures MallocOutcome(old(blocks), old(usedSize), initialized, U64(nmemb * size), p, blocks, usedSize)
      ensures p.Some? ==> p.value !in old(Allocs(blocks, 0)) && Allocs(blocks, 0) - {p.value} == old(Allocs(blocks, 0))
      ensures p.Some? ==> p.value in Allocs(blocks, 0) && U64(nmemb * size) <= Allocs(blocks, 0)[p.value]
      ensures p.Some? ==> p.value + U64(nmemb * size) <= arena.Length
      ensures p.Some? ==> forall k :: p.value <= k < p.value + U64(nmemb * size) ==> arena[k] == 0
      ensures forall k :: 0 <= k < arena.Length && !(p.Some? && p.value <= k < p.value + U64(nmemb * size)) ==>
                arena[k] == old(arena[k])
    {
      var total := U64(nmemb * size);
      p := Kmalloc(total);
      if p.Some? {
        var i := 0;
        while i < total
          modifies arena
          invariant i <= total
          invariant forall k :: p.value <= k < p.value + i ==> arena[k] == 0
          invariant forall k :: 0 <= k < arena.Length && !(p.value <= k < p.value + i) ==> arena[k] == old(arena[k])
        {
          arena[p.value + i] := 0;
          i := i + 1;
        }
      }
    }

    /**
     * krealloc: NULL behaves as kmalloc, size 0 as kfree; a block whose stored
     * size already holds the request is returned as is; otherwise the block
     * moves (GrowOutcome).
     */
    method Krealloc(p: Option<nat>, size: u64) returns (q: Option<nat>)
      requires Valid()
      requires p.Some? ==> initialized && p.value in Allocs(blocks, 0) && size < U64_LIMIT - 15
      modifies this`blocks, this`usedSize, arena
      ensures Valid()
      ensures p.None? ==> MallocOutcome(old(blocks), old(usedSize), initialized, size, q, blocks, usedSize)
      ensures p.Some? && size == 0 ==>
                q == None && FreeOutcome(old(blocks), old(usedSize), initialized, p, blocks, usedSize)
      ensures p.Some? && 0 < size <= old(Allocs(blocks, 0))[p.value] ==>
                q == p && blocks == old(blocks) && usedSize == old(usedSize)
      ensures p.None? || size <= old(Allocs(blocks, 0))[p.value] ==> arena[..] == old(arena[..])
      ensures p.Some? && size > old(Allocs(blocks, 0))[p.value] ==>
                GrowOutcome(old(blocks), old(usedSize), old(arena[..]), initialized, p.value, size,
                            q, blocks, usedSize, arena[..])
    {
      if p.None? {
        q := Kmalloc(size);
        return;
      }
      if size == 0 {
        Kfree(p);
        q := None;
        return;
      }
      FindLive(blocks, 0, p.value);
      var i := FindPayload(blocks, 0, p.value).value;
      var n := blocks[i].size;
      if n >= size {
        q := p;
        return;
      }
      q := Grow(p.value, size, n);
    }

    /**
     * The moving branch of krealloc: allocate a new block, copy the old
     * stored size of bytes into it, then free the old block. When the
     * allocation fails nothing changes and the old block stays allocated.
     */
    method Grow(p: nat, size: u64, n: nat) returns (q: Option<nat>)
      requires Valid() && initialized && p in Allocs(blocks, 0) && Allocs(blocks, 0)[p] == n
      requires n < size < U64_LIMIT - 15
      modifies this`blocks, this`usedSize, arena
      ensures Valid()
      ensures GrowOutcome(old(blocks), old(usedSize), old(arena[..]), initialized, p, size, q, blocks, usedSize, arena[..])
    {
      ghost var allocs0 := Allocs(blocks, 0);
      ghost var mem0 := arena[..];
      AllocsRange(blocks, 0);
      q := Kmalloc(size);
      if q.None? {
        assert MallocOutcome(old(blocks), old(usedSize), initialized, size, q, blocks, usedSize);
        return;
      }
      ghost var bs, used, allocs1 := blocks, usedSize, Allocs(blocks, 0);
      assert p in allocs1 && allocs1[p] == n && p != q.value;
      AllocsDisjoint(blocks, 0);
      AllocsRange(blocks, 0);
      if p < q.value {
        assert p + n <= q.value;
      } else {
        assert q.value + allocs1[q.value] <= p;
      }
      CopyPayload(p, q.value, n);
      Kfree(Some(p));
      MinusBoth(allocs0, allocs1, Allocs(blocks, 0), p, q.value);
      assert MallocOutcome(old(blocks), old(usedSize), initialized, size, q, bs, used);
    }

    /** The byte loop of krealloc: copies n payload bytes from src to a non-overlapping dst. */
    method CopyPayload(src: nat, dst: nat, n: nat)
      requires src + n <= arena.Length && dst + n <= arena.Length
      requires src + n <= dst || dst + n <= src
      modifies arena
      ensures Copied(old(arena[..]), arena[..], src, dst, n)
    {
      var k := 0;
      while k < n
        invariant k <= n
        invariant Copied(old(arena[..]), arena[..], src, dst, k)
      {
        arena[dst + k] := arena[src + k];
        k := k + 1;
      }
    }

    /**
     * heap_get_used. While the counter still matches the bytes of the live
     * blocks, the figure it reports lies within the heap.
     */
    function HeapUsed(): (r: u64)
      reads this
      ensures Valid() && initialized && r == UsedCorrected() ==> r <= totalSize
    {
      usedSize
    }

    /**
     * heap_get_free: total_size - used_size in size_t. Used plus free is the
     * total while used_size is within it; past it the difference wraps.
     */
    function HeapFree(): (r: u64)
      reads this
      ensures HeapUsed() <= totalSize ==> r + HeapUsed() == totalSize
      ensures HeapUsed() > totalSize ==> r > totalSize
    {
      U64(totalSize - usedSize)
    }

    /**
     * The bytes the live blocks occupy, headers included: the count used_size
     * is meant to keep (see UsedSizeDrift). It never exceeds the heap size.
     */
    function UsedCorrected(): (r: nat)
      requires Valid()
      reads this
      ensures r <= totalSize || !initialized
      ensures r == 0 <==> Allocs(blocks, 0) == map[]
    {
      AllocatedWithin(blocks);
      AllocatedEmpty(blocks, 0);
      AllocatedBytes(blocks)
    }
  }

  // ---------------------------------------------------------------------
  // Scenarios
  // ---------------------------------------------------------------------

  /**
   * kmalloc followed by kfree of the returned pointer gives back exactly the
   * live allocations and allocated bytes there were before.
   */
  method MallocFreeRoundTrip(h: KernelHeap, size: u64)
    requires h.Valid() && h.initialized
    modifies h`blocks, h`usedSize
    ensures h.Valid()
    ensures Allocs(h.blocks, 0) == old(Allocs(h.blocks, 0))
    ensures AllocatedBytes(h.blocks) == old(AllocatedBytes(h.blocks))
  {
    var p := h.Kmalloc(size);
    h.Kfree(p);
  }

  /**
   * kmalloc adds the aligned request to used_size but kfree subtracts the
   * stored size: in a 56-byte heap, kmalloc(16) gets the whole 32-byte block
   * (too small to split) and after kfree used_size has wrapped to 2^64 - 16
   * and heap_get_free reports 72 bytes, while nothing is allocated.
   */
  method UsedSizeDrift() returns (used: u64, free: u64, inUse: nat)
    ensures used == U64_LIMIT - 16 && free == 72 && inUse == 0
  {
    var arena := new byte[56];
    var h := new KernelHeap(arena);
    h.Init(56);
    assert FirstFit(h.blocks, 16) == Some(0) by {
      assert Fits(h.blocks[0], 16);
    }
    var p := h.Kmalloc(16);
    h.Kfree(p);
    used := h.HeapUsed();
    free := h.HeapFree();
    inUse := h.UsedCorrected();
  }

  /**
   * kmalloc(SIZE_MAX): align_size wraps to 0, so the first free block is
   * split down to a zero-byte payload, which is returned.
   */
  method HugeRequest() returns (p: Option<nat>, granted: nat)
    ensures p.Some? && granted == 0
  {
    var arena := new byte[4096];
    var h := new KernelHeap(arena);
    h.Init(4096);
    p := h.Kmalloc(U64_LIMIT - 1);
    assert FirstFit([Block(4072, true)], 0) == Some(0);
    granted := Allocs(h.blocks, 0)[p.value];
  }

  /**
   * align_size with the wrap-around rejected: None exactly when the rounded
   * size does not fit in size_t, otherwise the least multiple of 16 that is >= s.
   */
  function AlignSizeChecked(s: u64): (r: Option<u64>)
    ensures r.None? <==> s > U64_LIMIT - ALIGN
    ensures r.Some? ==> r.value % ALIGN == 0 && s <= r.value < s + ALIGN
  {
    if s <= U64_LIMIT - ALIGN then Some(AlignSize(s)) else None
  }
}
