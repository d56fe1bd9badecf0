/*
 * Physical memory manager (mm/pmm.c): a first-fit bitmap over 4 KiB page
 * frames. Bit p of the bitmap is set when frame p is in use; word p / 32 of
 * the bitmap holds bit p % 32. The bitmap has room for MAX_BLOCKS words, of
 * which only the first `totalBlocks` are searched by the allocators.
 */
module Pmm {
  import opened Common

  const PAGE_SIZE: nat := 4096
  const PAGES_PER_BLOCK: nat := 32
  const MAX_BLOCKS: nat := 32768
  /** Number of frames the bitmap can describe. */
  const MAX_PAGES: nat := 0x10_0000
  /** The first 16 MiB are reserved for the kernel image: 4096 frames. */
  const KERNEL_PAGES: nat := 4096

  /** The single-bit mask 1 << j of a bitmap word. */
  function Mask(j: bv5): bv32
  {
    (1 as bv32) << j
  }

  /** Bit j of a bitmap word. */
  predicate BitSet(w: bv32, j: bv5)
  {
    w & Mask(j) != 0
  }

  /** Position of frame p inside its bitmap word. */
  function Offset(p: int): bv5
  {
    (p % 32) as bv5
  }

  /** Frame p is marked used in bitmap `bm` (bitmap_test: bits beyond the bitmap read as free). */
  predicate Used(bm: seq<bv32>, p: int)
  {
    0 <= p && p / 32 < |bm| && BitSet(bm[p / 32], Offset(p))
  }

  /** Every frame below n is in use. */
  ghost predicate AllUsedBelow(bm: seq<bv32>, n: int)
  {
    forall q :: 0 <= q < n ==> Used(bm, q)
  }

  /** Frames s .. s+n-1 are all free. */
  ghost predicate RunFree(bm: seq<bv32>, s: int, n: nat)
  {
    forall k :: s <= k < s + n ==> !Used(bm, k)
  }

  /** No run of n free frames starts at or after 0 and ends at or before `limit`. */
  ghost predicate NoRunBefore(bm: seq<bv32>, n: nat, limit: int)
  {
    forall s :: 0 <= s && s + n <= limit ==> !RunFree(bm, s, n)
  }

  /**
   * The state of the pmm_find_free_pages scan before frame `page`: the last
   * `found` frames are free and preceded by a used frame (or the start), and
   * no run of n free frames ends before `page`.
   */
  ghost predicate Scanned(bm: seq<bv32>, n: nat, page: int, found: nat)
  {
    && 0 <= found <= page
    && RunFree(bm, page - found, found)
    && (found < page ==> Used(bm, page - found - 1))
    && NoRunBefore(bm, n, page)
  }

  /** A free frame at `page` extends the current run. */
  lemma ScanFree(bm: seq<bv32>, n: nat, page: int, found: nat)
    requires Scanned(bm, n, page, found) && found < n && !Used(bm, page)
    ensures RunFree(bm, page - found, found + 1)
    ensures found + 1 < n ==> Scanned(bm, n, page + 1, found + 1)
  {
    if found + 1 < n {
      forall s | 0 <= s && s + n <= page + 1
        ensures !RunFree(bm, s, n)
      {
        if s + n == page + 1 {
          assert Used(bm, page - found - 1);
        }
      }
    }
  }

  /** A used frame at `page` ends the current run. */
  lemma ScanUsed(bm: seq<bv32>, n: nat, page: int, found: nat)
    requires Scanned(bm, n, page, found) && n > 0 && Used(bm, page)
    ensures Scanned(bm, n, page + 1, 0)
  {
    forall s | 0 <= s && s + n <= page + 1
      ensures !RunFree(bm, s, n)
    {
      if s + n == page + 1 {
        assert Used(bm, page);
      }
    }
  }

  /** A frame index p is one of the uint32 values s, s+1, ..., s+n-1 (taken modulo 2^32). */
  predicate Covers(s: int, n: nat, p: int)
  {
    (p - s) % U32_LIMIT < n
  }

  lemma SetBitSame(w: bv32, j: bv5)
    ensures BitSet(w | Mask(j), j)
  {
  }

  lemma SetBitOther(w: bv32, j: bv5, k: bv5)
    requires j != k
    ensures BitSet(w | Mask(j), k) == BitSet(w, k)
  {
  }

  lemma SetBitEffect(w: bv32, j: bv5, k: bv5)
    ensures BitSet(w | Mask(j), k) == (k == j || BitSet(w, k))
  {
    if j == k {
      SetBitSame(w, j);
    } else {
      SetBitOther(w, j, k);
    }
  }

  lemma ClearBitEffect(w: bv32, j: bv5, k: bv5)
    ensures BitSet(w & !Mask(j), k) == (k != j && BitSet(w, k))
  {
  }

  lemma FullWord(k: bv5)
    ensures BitSet(0xFFFF_FFFF, k)
  {
  }

  /** Two frames of the same word share a bit position only if they are the same frame. */
  lemma OffsetInjective(p: int, q: int)
    requires p / 32 == q / 32
    ensures (Offset(p) == Offset(q)) == (p == q)
  {
    if p != q {
      assert p % 32 != q % 32;
    }
  }

  lemma PageSplit(i: nat, j: nat)
    requires j < 32
    ensures (i * 32 + j) / 32 == i && (i * 32 + j) % 32 == j && Offset(i * 32 + j) == j as bv5
  {
  }

  /** Setting bit `bit` in its word marks exactly frame `bit` used. */
  lemma SetInWord(bm: seq<bv32>, bit: nat, p: int)
    requires bit / 32 < |bm|
    ensures Used(bm[bit / 32 := bm[bit / 32] | Mask(Offset(bit))], p) == (p == bit || Used(bm, p))
  {
    if 0 <= p && p / 32 == bit / 32 {
      OffsetInjective(p, bit);
      SetBitEffect(bm[bit / 32], Offset(bit), Offset(p));
    }
  }

  /** Clearing bit `bit` in its word marks exactly frame `bit` free. */
  lemma ClearInWord(bm: seq<bv32>, bit: nat, p: int)
    requires bit / 32 < |bm|
    ensures Used(bm[bit / 32 := bm[bit / 32] & !Mask(Offset(bit))], p) == (p != bit && Used(bm, p))
  {
    if 0 <= p && p / 32 == bit / 32 {
      OffsetInjective(p, bit);
      ClearBitEffect(bm[bit / 32], Offset(bit), Offset(p));
    }
  }

  /** Extending the covered range by one step adds exactly the frame (s + i) mod 2^32. */
  lemma CoversStep(s: nat, i: nat, p: nat)
    requires p < U32_LIMIT && i < U32_LIMIT
    ensures Covers(s, i + 1, p) == (Covers(s, i, p) || p == U32(s + i))
  {
  }

  /** With at most 2^32 steps from s < 2^32 the covered frames are exactly s .. s+n-1 when no wrap occurs. */
  lemma CoversNoWrap(s: nat, n: nat, p: nat)
    requires s + n <= U32_LIMIT && p < U32_LIMIT
    ensures Covers(s, n, p) == (s <= p < s + n)
  {
  }

  /** Frames of the bitmap that a FreePages call over (s, n) finds in use and frees. */
  ghost function Freed(bm: seq<bv32>, s: nat, n: nat): set<nat>
  {
    set p: nat | p < MAX_PAGES && Covers(s, n, p) && Used(bm, p)
  }

  lemma CoversAll(s: nat, n: nat, p: int)
    requires n >= U32_LIMIT
    ensures Covers(s, n, p)
  {
  }

  lemma FreedSaturates(bm: seq<bv32>, s: nat, n: nat)
    requires n >= U32_LIMIT
    ensures Freed(bm, s, n + 1) == Freed(bm, s, n)
  {
  }

  lemma FreedStep(bm: seq<bv32>, s: nat, n: nat)
    requires n < U32_LIMIT
    ensures Freed(bm, s, n + 1) ==
              Freed(bm, s, n) + (if U32(s + n) < MAX_PAGES && Used(bm, U32(s + n)) then {U32(s + n) as nat} else {})
  {
    forall p: nat | p < MAX_PAGES
      ensures Covers(s, n + 1, p) == (Covers(s, n, p) || p == U32(s + n))
    {
      CoversStep(s, n, p);
    }
  }

  /** One step of the pmm_free_pages loop keeps its description of the bitmap and of the count. */
  lemma FreeStep(bm0: seq<bv32>, cur: seq<bv32>, next: seq<bv32>, s: nat, i: nat)
    requires |bm0| == MAX_BLOCKS
    requires forall p :: Used(cur, p) == (Used(bm0, p) && !Covers(s, i, p))
    requires forall p :: Used(next, p) == (p != U32(s + i) && Used(cur, p))
    ensures forall p :: Used(next, p) == (Used(bm0, p) && !Covers(s, i + 1, p))
    ensures |Freed(bm0, s, i + 1)| == |Freed(bm0, s, i)| + (if Used(cur, U32(s + i)) then 1 else 0)
  {
    FreeStepBits(bm0, cur, next, s, i);
    FreeStepCount(bm0, cur, s, i);
  }

  lemma FreeStepBits(bm0: seq<bv32>, cur: seq<bv32>, next: seq<bv32>, s: nat, i: nat)
    requires |bm0| == MAX_BLOCKS
    requires forall p :: Used(cur, p) == (Used(bm0, p) && !Covers(s, i, p))
    requires forall p :: Used(next, p) == (p != U32(s + i) && Used(cur, p))
    ensures forall p :: Used(next, p) == (Used(bm0, p) && !Covers(s, i + 1, p))
  {
    if i >= U32_LIMIT {
      forall p ensures Covers(s, i + 1, p) && Covers(s, i, p) {
        CoversAll(s, i, p);
        CoversAll(s, i + 1, p);
      }
    } else {
      forall p ensures Used(next, p) == (Used(bm0, p) && !Covers(s, i + 1, p)) {
        if 0 <= p < MAX_PAGES {
          CoversStep(s, i, p);
        }
      }
    }
  }

  lemma FreeStepCount(bm0: seq<bv32>, cur: seq<bv32>, s: nat, i: nat)
    requires |bm0| == MAX_BLOCKS
    requires forall p :: Used(cur, p) == (Used(bm0, p) && !Covers(s, i, p))
    ensures |Freed(bm0, s, i + 1)| == |Freed(bm0, s, i)| + (if Used(cur, U32(s + i)) then 1 else 0)
  {
    var page := U32(s + i);
    if i >= U32_LIMIT {
      FreedSaturates(bm0, s, i);
      CoversAll(s, i, page);
    } else {
      FreedStep(bm0, s, i);
      if Used(cur, page) {
        assert page !in Freed(bm0, s, i);
      } else if page < MAX_PAGES && Used(bm0, page) {
        assert page in Freed(bm0, s, i);
      }
    }
  }

  lemma U64Increment(a: int, n: int)
    ensures U64(U64(a + n) + 1) == U64(a + (n + 1))
  {
  }

  lemma U64Decrement(a: int, n: int)
    ensures U64(U64(a - n) - 1) == U64(a - (n + 1))
  {
  }

  /** Number of frames below n that the bitmap marks used. */
  function CountUsed(bm: seq<bv32>, n: nat): (r: nat)
    ensures r <= n
  {
    if n == 0 then 0 else CountUsed(bm, n - 1) + (if Used(bm, n - 1) then 1 else 0)
  }

  /** Marking one free frame used raises the count of used frames below n by one exactly when it lies below n. */
  lemma {:induction false} CountUsedAfterSet(bm: seq<bv32>, bm2: seq<bv32>, q: int, n: nat)
    requires forall p :: Used(bm2, p) == (p == q || Used(bm, p))
    requires !Used(bm, q)
    ensures CountUsed(bm2, n) == CountUsed(bm, n) + (if 0 <= q < n then 1 else 0)
  {
    if n > 0 {
      CountUsedAfterSet(bm, bm2, q, n - 1);
    }
  }

  /** Marking one used frame free lowers the count of used frames below n by one exactly when it lies below n. */
  lemma {:induction false} CountUsedAfterClear(bm: seq<bv32>, bm2: seq<bv32>, q: int, n: nat)
    requires forall p :: Used(bm2, p) == (p != q && Used(bm, p))
    requires Used(bm, q)
    ensures CountUsed(bm2, n) + (if 0 <= q < n then 1 else 0) == CountUsed(bm, n)
  {
    if n > 0 {
      CountUsedAfterClear(bm, bm2, q, n - 1);
    }
  }

  /** When exactly the frames below k are used, k frames below n are counted. */
  lemma {:induction false} CountUsedPrefix(bm: seq<bv32>, k: nat, n: nat)
    requires k <= n
    requires forall p :: 0 <= p < n ==> (Used(bm, p) <==> p < k)
    ensures CountUsed(bm, n) == k
  {
    if n > k {
      CountUsedPrefix(bm, k, n - 1);
    } else if n > 0 {
      CountUsedAll(bm, n);
    }
  }

  lemma {:induction false} CountUsedAll(bm: seq<bv32>, n: nat)
    requires AllUsedBelow(bm, n)
    ensures CountUsed(bm, n) == n
  {
    if n > 0 {
      CountUsedAll(bm, n - 1);
    }
  }

  /** The lowest free frame is determined by the bitmap: first-fit has one answer. */
  lemma LowestFreeIsUnique(bm: seq<bv32>, p: int, q: int)
    requires 0 <= p && !Used(bm, p) && AllUsedBelow(bm, p)
    requires 0 <= q && !Used(bm, q) && AllUsedBelow(bm, q)
    ensures p == q
  {
  }

  /** While the first 16 MiB stay marked used, no allocation can hand out a reserved frame, frame 0 included. */
  lemma ReservedNeverAllocated(bm: seq<bv32>, page: int)
    requires AllUsedBelow(bm, KERNEL_PAGES)
    requires 0 <= page && !Used(bm, page)
    ensures page >= KERNEL_PAGES && page * PAGE_SIZE >= 0x100_0000
  {
  }

  class PhysicalMemory {
    /** memory_bitmap: one bit per frame, MAX_BLOCKS words. */
    var bitmap: array<bv32>
    var totalBlocks: nat
    var usedBlocks: u64
    var totalMemory: u64

    ghost predicate Valid()
      reads this
    {
      bitmap.Length == MAX_BLOCKS && totalBlocks <= MAX_BLOCKS
    }

    /** The statically allocated, zero-filled state before pmm_init runs. */
    constructor ()
      ensures Valid() && fresh(bitmap)
      ensures totalBlocks == 0 && usedBlocks == 0 && totalMemory == 0
      ensures forall p :: !Used(bitmap[..], p)
    {
      bitmap := new bv32[MAX_BLOCKS](_ => 0);
      totalBlocks := 0;
      usedBlocks := 0;
      totalMemory := 0;
    }

    /** bitmap_set: marks frame `bit` used; bits beyond the bitmap are ignored. */
    method BitmapSet(bit: u32)
      requires Valid()
      modifies bitmap
      ensures Valid()
      ensures forall p :: Used(bitmap[..], p) == ((p == bit && bit / 32 < MAX_BLOCKS) || Used(old(bitmap[..]), p))
    {
      var block := bit / 32;
      if block < MAX_BLOCKS {
        bitmap[block] := bitmap[block] | Mask(Offset(bit));
        assert bitmap[..] == old(bitmap[..])[block := old(bitmap[block]) | Mask(Offset(bit))];
        forall p
          ensures Used(bitmap[..], p) == (p == bit || Used(old(bitmap[..]), p))
        {
          SetInWord(old(bitmap[..]), bit, p);
        }
      }
    }

    /** bitmap_clear: marks frame `bit` free; bits beyond the bitmap are ignored. */
    method BitmapClear(bit: u32)
      requires Valid()
      modifies bitmap
      ensures Valid()
      ensures forall p :: Used(bitmap[..], p) == (p != bit && Used(old(bitmap[..]), p))
    {
      var block := bit / 32;
      if block < MAX_BLOCKS {
        bitmap[block] := bitmap[block] & !Mask(Offset(bit));
        assert bitmap[..] == old(bitmap[..])[block := old(bitmap[block]) & !Mask(Offset(bit))];
        forall p
          ensures Used(bitmap[..], p) == (p != bit && Used(old(bitmap[..]), p))
        {
          ClearInWord(old(bitmap[..]), bit, p);
        }
      }
    }

    /**
     * find_free_page: the lowest free frame among the first totalBlocks words,
     * or -1 when every one of them is in use.
     */
    method FindFreePage() returns (page: int)
      requires Valid()
      ensures page == -1 ==> AllUsedBelow(bitmap[..], totalBlocks * 32)
      ensures page != -1 ==> 0 <= page < totalBlocks * 32 && !Used(bitmap[..], page)
                              && AllUsedBelow(bitmap[..], page)
    {
      var i := 0;
      while i < totalBlocks
        invariant 0 <= i <= totalBlocks
        invariant AllUsedBelow(bitmap[..], i * 32)
      {
        if bitmap[i] != 0xFFFF_FFFF {
          var j := 0;
          while j < 32
            invariant 0 <= j <= 32
            invariant AllUsedBelow(bitmap[..], i * 32 + j)
          {
            PageSplit(i, j);
            if bitmap[i] & Mask(j as bv5) == 0 {
              return i * 32 + j;
            }
            j := j + 1;
          }
        } else {
          forall q | i * 32 <= q < i * 32 + 32
            ensures Used(bitmap[..], q)
          {
            PageSplit(i, q - i * 32);
            FullWord(Offset(q));
          }
        }
        i := i + 1;
      }
      return -1;
    }

    /**
     * find_free_pages: the start of the lowest run of `count` free frames that
     * ends inside the searched range, or -1 (always -1 for count 0).
     */
    method FindFreePages(count: u64) returns (start: int)
      requires Valid()
      ensures count == 0 ==> start == -1
      ensures count > 0 && start == -1 ==> NoRunBefore(bitmap[..], count, totalBlocks * 32)
      ensures start != -1 ==> 0 <= start && start + count <= totalBlocks * 32
                              && RunFree(bitmap[..], start, count)
                              && NoRunBefore(bitmap[..], count, start + count - 1)
    {
      if count == 0 {
        return -1;
      }
      ghost var bm := bitmap[..];
      var found := 0;
      start := -1;
      var page := 0;
      while page < totalBlocks * 32
        invariant page <= totalBlocks * 32 && found < count && bitmap[..] == bm
        invariant start == if found == 0 then -1 else page - found
        invariant Scanned(bm, count, page, found)
      {
        if !Used(bitmap[..], page) {
          ScanFree(bm, count, page, found);
          if start == -1 {
            start := page;
          }
          found := found + 1;
          if found == count {
            return;
          }
        } else {
          ScanUsed(bm, count, page, found);
          start := -1;
          found := 0;
        }
        page := page + 1;
      }
      return -1;
    }

    /**
     * pmm_init: marks the whole bitmap used, then frees every frame from
     * 16 MiB up to the end of memory. The frame index handed to bitmap_clear
     * is a uint32, so the exact layout is stated for memories of at most
     * 2^32 frames (16 TiB); the kernel's memory probe never reports more.
     */
    method Init(memSize: u64)
      requires Valid()
      modifies this, bitmap
      ensures Valid() && bitmap == old(bitmap)
      ensures totalMemory == memSize
      ensures totalBlocks == Min(memSize / PAGE_SIZE / PAGES_PER_BLOCK, MAX_BLOCKS)
      ensures usedBlocks == KERNEL_PAGES / PAGES_PER_BLOCK
      ensures memSize / PAGE_SIZE <= U32_LIMIT ==>
                forall p :: 0 <= p < MAX_PAGES ==>
                  (Used(bitmap[..], p) <==> !(KERNEL_PAGES <= p < memSize / PAGE_SIZE))
    {
      totalMemory := memSize;
      totalBlocks := memSize / PAGE_SIZE / PAGES_PER_BLOCK;
      if totalBlocks > MAX_BLOCKS {
        totalBlocks := MAX_BLOCKS;
      }
      var i := 0;
      while i < MAX_BLOCKS
        modifies bitmap
        invariant 0 <= i <= MAX_BLOCKS
        invariant Valid() && bitmap == old(bitmap)
        invariant forall k :: 0 <= k < i ==> bitmap[k] == 0xFFFF_FFFF
      {
        bitmap[i] := 0xFFFF_FFFF;
        i := i + 1;
      }
      forall p | 0 <= p < MAX_PAGES
        ensures Used(bitmap[..], p)
      {
        FullWord(Offset(p));
      }
      var totalPages := memSize / PAGE_SIZE;
      var page := KERNEL_PAGES;
      while page < totalPages
        modifies bitmap
        invariant Valid() && bitmap == old(bitmap)
        invariant KERNEL_PAGES <= page
        invariant page > KERNEL_PAGES ==> page <= totalPages
        invariant totalPages <= U32_LIMIT ==>
                    forall p :: 0 <= p < MAX_PAGES ==>
                      (Used(bitmap[..], p) <==> !(KERNEL_PAGES <= p < page))
      {
        BitmapClear(U32(page));
        page := page + 1;
      }
      usedBlocks := KERNEL_PAGES / PAGES_PER_BLOCK;
    }

    /** pmm_alloc_page: first-fit allocation of one frame; 0 when no frame is free. */
    method AllocPage() returns (addr: u64)
      requires Valid()
      modifies this, bitmap
      ensures Valid() && bitmap == old(bitmap)
      ensures totalBlocks == old(totalBlocks) && totalMemory == old(totalMemory)
      ensures AllUsedBelow(old(bitmap[..]), totalBlocks * 32) ==>
                addr == 0 && bitmap[..] == old(bitmap[..]) && usedBlocks == old(usedBlocks)
      ensures !AllUsedBelow(old(bitmap[..]), totalBlocks * 32) ==>
                addr % PAGE_SIZE == 0 && addr / PAGE_SIZE < totalBlocks * 32
                && !Used(old(bitmap[..]), addr / PAGE_SIZE)
                && AllUsedBelow(old(bitmap[..]), addr / PAGE_SIZE)
                && usedBlocks == U64(old(usedBlocks) + 1)
                && forall p :: Used(bitmap[..], p) == (p == addr / PAGE_SIZE || Used(old(bitmap[..]), p))
    {
      var page := FindFreePage();
      if page == -1 {
        return 0;
      }
      BitmapSet(page);
      usedBlocks := U64(usedBlocks + 1);
      addr := page * PAGE_SIZE;
    }

    /** pmm_free_page: frees the frame holding `addr` (its index taken as a uint32); 0 is ignored. */
    method FreePage(addr: u64)
      requires Valid()
      modifies this`usedBlocks, bitmap
      ensures Valid()
      ensures addr == 0 || !Used(old(bitmap[..]), U32(addr / PAGE_SIZE)) ==>
                bitmap[..] == old(bitmap[..]) && usedBlocks == old(usedBlocks)
      ensures addr != 0 && Used(old(bitmap[..]), U32(addr / PAGE_SIZE)) ==>
                usedBlocks == U64(old(usedBlocks) - 1)
                && forall p :: Used(bitmap[..], p) == (p != U32(addr / PAGE_SIZE) && Used(old(bitmap[..]), p))
    {
      if addr == 0 {
        return;
      }
      var page := U32(addr / PAGE_SIZE);
      var _ := TestAndClear(page);
    }

    /**
     * pmm_alloc_pages: first-fit allocation of `count` contiguous frames,
     * returning the address of the first; 0 when count is 0 or no run fits.
     */
    method AllocPages(count: u64) returns (addr: u64)
      requires Valid()
      modifies this`usedBlocks, bitmap
      ensures Valid()
      ensures count == 0 || NoRunBefore(old(bitmap[..]), count, totalBlocks * 32) ==>
                addr == 0 && bitmap[..] == old(bitmap[..]) && usedBlocks == old(usedBlocks)
      ensures count > 0 && !NoRunBefore(old(bitmap[..]), count, totalBlocks * 32) ==>
                addr % PAGE_SIZE == 0 && addr / PAGE_SIZE + count <= totalBlocks * 32
                && RunFree(old(bitmap[..]), addr / PAGE_SIZE, count)
                && NoRunBefore(old(bitmap[..]), count, addr / PAGE_SIZE + count - 1)
                && usedBlocks == U64(old(usedBlocks) + count)
                && forall p :: Used(bitmap[..], p) ==
                     (addr / PAGE_SIZE <= p < addr / PAGE_SIZE + count || Used(old(bitmap[..]), p))
    {
      if count == 0 {
        return 0;
      }
      var start := FindFreePages(count);
      if start == -1 {
        return 0;
      }
      MarkRun(start, count);
      addr := start * PAGE_SIZE;
    }

    /** The marking loop of pmm_alloc_pages: frames start to start + count - 1 set, used_blocks raised once per frame. */
    method MarkRun(start: nat, count: u64)
      requires Valid() && start + count <= totalBlocks * 32
      modifies this`usedBlocks, bitmap
      ensures Valid()
      ensures forall p :: Used(bitmap[..], p) == (start <= p < start + count || Used(old(bitmap[..]), p))
      ensures usedBlocks == U64(old(usedBlocks) + count)
    {
      ghost var bm0 := bitmap[..];
      var i := 0;
      while i < count
        invariant 0 <= i <= count
        invariant Valid()
        invariant forall p :: Used(bitmap[..], p) == (start <= p < start + i || Used(bm0, p))
        invariant usedBlocks == U64(old(usedBlocks) + i)
      {
        BitmapSet(U32(start + i));
        U64Increment(old(usedBlocks), i);
        usedBlocks := U64(usedBlocks + 1);
        i := i + 1;
      }
    }

    /**
     * pmm_free_pages: frees every in-use frame among the `count` uint32 frame
     * indices that follow the frame of `addr`; used_blocks drops once per frame
     * that actually changed.
     */
    method FreePages(addr: u64, count: u64)
      requires Valid()
      modifies this`usedBlocks, bitmap
      ensures Valid()
      ensures addr == 0 || count == 0 ==> bitmap[..] == old(bitmap[..]) && usedBlocks == old(usedBlocks)
      ensures addr != 0 && count != 0 ==>
                (forall p :: Used(bitmap[..], p) ==
                   (Used(old(bitmap[..]), p) && !Covers(U32(addr / PAGE_SIZE), count, p)))
                && usedBlocks == U64(old(usedBlocks) - |Freed(old(bitmap[..]), U32(addr / PAGE_SIZE), count)|)
    {
      if addr == 0 || count == 0 {
        return;
      }
      var startPage := U32(addr / PAGE_SIZE);
      ghost var bm0 := bitmap[..];
      var i := 0;
      while i < count
        invariant 0 <= i <= count
        invariant Valid()
        invariant forall p :: Used(bitmap[..], p) == (Used(bm0, p) && !Covers(startPage, i, p))
        invariant usedBlocks == U64(old(usedBlocks) - |Freed(bm0, startPage, i)|)
      {
        ghost var before := bitmap[..];
        ghost var n := |Freed(bm0, startPage, i)|;
        var page := U32(startPage + i);
        var cleared := TestAndClear(page);
        FreeStep(bm0, before, bitmap[..], startPage, i);
        if cleared {
          U64Decrement(old(usedBlocks), n);
        }
        i := i + 1;
      }
    }

    /** The body of the pmm_free_page/pmm_free_pages loops: clear the frame if it is in use. */
    method TestAndClear(page: u32) returns (cleared: bool)
      requires Valid()
      modifies this`usedBlocks, bitmap
      ensures Valid()
      ensures cleared == Used(old(bitmap[..]), page)
      ensures !cleared ==> bitmap[..] == old(bitmap[..])
      ensures forall p :: Used(bitmap[..], p) == (p != page && Used(old(bitmap[..]), p))
      ensures usedBlocks == if cleared then U64(old(usedBlocks) - 1) else old(usedBlocks)
    {
      cleared := Used(bitmap[..], page);
      if cleared {
        BitmapClear(page);
        usedBlocks := U64(usedBlocks - 1);
      }
    }

    /**
     * Used memory as the bitmap itself accounts it: one PAGE_SIZE per used
     * frame below the end of memory, for comparison with what
     * pmm_get_used_memory reports (see UsedMemoryDrift).
     */
    function UsedMemoryCorrected(): nat
      reads this, bitmap
    {
      CountUsed(bitmap[..], totalMemory / PAGE_SIZE) * PAGE_SIZE
    }

    /** pmm_get_used_memory: used_blocks read as a count of 32-frame blocks. */
    function UsedMemory(): (r: u64)
      reads this
      ensures r % (PAGES_PER_BLOCK * PAGE_SIZE) == 0
    {
      U64(usedBlocks * PAGES_PER_BLOCK * PAGE_SIZE)
    }

    /** pmm_get_free_memory: unsigned difference, so it wraps when used exceeds total. */
    function FreeMemory(): (r: u64)
      reads this
      ensures UsedMemory() <= totalMemory ==> r + UsedMemory() == totalMemory
      ensures UsedMemory() > totalMemory ==> r > totalMemory
    {
      U64(totalMemory - UsedMemory())
    }
  }

  /**
   * Boot scenario: with 64 MiB of memory the first allocation returns the
   * first frame past the reserved 16 MiB.
   */
  method FirstAllocationAfterInit() returns (addr: u64)
    ensures addr == 0x100_0000
  {
    var pm := new PhysicalMemory();
    pm.Init(0x400_0000);
    ghost var bm0 := pm.bitmap[..];
    assert !Used(bm0, KERNEL_PAGES) && AllUsedBelow(bm0, KERNEL_PAGES);
    addr := pm.AllocPage();
    LowestFreeIsUnique(bm0, addr / PAGE_SIZE, KERNEL_PAGES);
  }

  /**
   * pmm_alloc_page adds one to used_blocks per frame, while pmm_init set it
   * in 32-frame blocks and pmm_get_used_memory reads it as blocks: after boot
   * with 64 MiB and one allocation, 16 MiB + 128 KiB is reported although
   * 16 MiB + 4 KiB is in use.
   */
  method UsedMemoryDrift() returns (reported: u64, inUse: nat)
    ensures reported == 16_908_288 && inUse == 16_781_312
  {
    var pm := new PhysicalMemory();
    pm.Init(0x400_0000);
    ghost var bm0 := pm.bitmap[..];
    assert !Used(bm0, KERNEL_PAGES) && AllUsedBelow(bm0, KERNEL_PAGES);
    var addr := pm.AllocPage();
    LowestFreeIsUnique(bm0, addr / PAGE_SIZE, KERNEL_PAGES);
    forall p | 0 <= p < 0x4000
      ensures Used(pm.bitmap[..], p) <==> p < 0x1001
    {
    }
    CountUsedPrefix(pm.bitmap[..], 0x1001, 0x4000);
    reported := pm.UsedMemory();
    inUse := pm.UsedMemoryCorrected();
  }
}
