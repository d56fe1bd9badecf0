/*
 * The virtual memory manager (mm/vmm.c): a four-level x86-64 page-table
 * radix tree rooted at the kernel PML4.
 *
 * Tables live in physical frames obtained from the PMM; the model keeps them
 * in a map from frame address to the 512 entries of that frame. Entries and
 * addresses are unsigned 64-bit values held as integers: `e & PAGE_PRESENT`
 * is the low bit, `e & ~0xFFF` clears the twelve offset bits and `|` is
 * spelled out bit by bit (BitOr), so the model never converts between
 * integers and bit-vectors.
 *
 * A ghost `path` records, for every table, the indices that lead to it from
 * the root; the invariant TreeOK says that a present entry of a non-leaf
 * table points to a table whose path extends its parent's by that index.
 */
module Vmm {
  import opened Common
  import Pmm

  const ENTRIES: nat := 512
  const PRESENT: u64 := 1
  const WRITABLE: u64 := 2
  const USER: u64 := 4
  const WRITETHROUGH: u64 := 8
  const CACHE_DISABLE: u64 := 16
  /** PAGE_PRESENT | PAGE_WRITABLE: two distinct bits, so their OR is their sum. */
  const TABLE_FLAGS: u64 := PRESENT + WRITABLE
  /** vmm_init identity-maps the first 16 MiB. */
  const IDENTITY_LIMIT: nat := 0x100_0000
  const ADDRESS_LIMIT: nat := 0x1_0000_0000_0000

  // ---------------------------------------------------------------------
  // Bits of an entry
  // ---------------------------------------------------------------------

  /** The 64-bit `a | b`. */
  function Or64(a: u64, b: u64): (r: u64)
    ensures a % 4096 == 0 && b < 4096 ==> r == a + b
  {
    Pow2Values();
    BitOrBound(a, b, 64);
    if a % 4096 == 0 && b < 4096 then
      BitOrDisjoint(a, b, a / 4096, 12, 64);
      BitOr(a, b, 64)
    else
      BitOr(a, b, 64)
  }

  /** `e & PAGE_PRESENT` */
  predicate Present(e: int)
  {
    e % 2 == 1
  }

  /** `e & ~0xFFF`: the frame address an entry points to. */
  function Frame(e: u64): (r: u64)
    ensures r % 4096 == 0 && r <= e && e - r < 4096
  {
    e - e % 4096
  }

  /** Bits 39-47, 30-38, 21-29 and 12-20 of a virtual address, for levels 4 (PML4) down to 1 (PT). */
  function Index(v: u64, lvl: nat): (r: nat)
    requires 1 <= lvl <= 4
    ensures r < ENTRIES
  {
    if lvl == 4 then (v / 0x80_0000_0000) % 512
    else if lvl == 3 then (v / 0x4000_0000) % 512
    else if lvl == 2 then (v / 0x20_0000) % 512
    else (v / 0x1000) % 512
  }

  /** The four indices of `u` and `v` agree: both lie in the same virtual page. */
  predicate SamePage(u: u64, v: u64)
  {
    Index(u, 4) == Index(v, 4) && Index(u, 3) == Index(v, 3)
    && Index(u, 2) == Index(v, 2) && Index(u, 1) == Index(v, 1)
  }

  /** The four indices are the base-512 digits of the 36-bit page number. */
  lemma PageDigits(u: u64)
    requires u < ADDRESS_LIMIT
    ensures u / 4096 == Index(u, 1) + 0x200 * Index(u, 2) + 0x4_0000 * Index(u, 3) + 0x800_0000 * Index(u, 4)
  {
    var p := u / 4096;
    var q1 := p / 0x200;
    var q2 := q1 / 0x200;
    var q3 := q2 / 0x200;
    assert 4096 * p <= u < 4096 * p + 4096;
    assert 0x200 * q1 <= p < 0x200 * q1 + 0x200;
    assert 0x200 * q2 <= q1 < 0x200 * q2 + 0x200;
    assert 0x200 * q3 <= q2 < 0x200 * q3 + 0x200;
    assert u / 0x20_0000 == q1;
    assert u / 0x4000_0000 == q2;
    assert u / 0x80_0000_0000 == q3;
  }

  lemma SamePageIff(u: u64, v: u64)
    requires u < ADDRESS_LIMIT && v < ADDRESS_LIMIT
    ensures SamePage(u, v) <==> u / 4096 == v / 4096
  {
    PageDigits(u);
    PageDigits(v);
  }

  // ---------------------------------------------------------------------
  // The table tree and the walk
  // ---------------------------------------------------------------------

  type Tables = map<nat, seq<u64>>
  type Paths = map<nat, seq<nat>>

  function Zeros(): (z: seq<u64>)
    ensures |z| == ENTRIES && forall i :: 0 <= i < ENTRIES ==> z[i] == 0
  {
    seq(ENTRIES, _ => 0)
  }

  /** Entry `i` of the table in frame `t`; memory that holds no table reads as 0. */
  function Entry(tables: Tables, t: nat, i: nat): u64
  {
    if t in tables && i < |tables[t]| then tables[t][i] else 0
  }

  /** The tables after entry `j` of table `t` is overwritten with `x`. */
  function SetEntry(tables: Tables, t: nat, j: nat, x: u64): (r: Tables)
    requires t in tables && j < |tables[t]|
    ensures r.Keys == tables.Keys && |r[t]| == |tables[t]| && r[t][j] == x
  {
    var row: seq<u64> := tables[t][j := x];
    tables[t := row]
  }

  /** The physical address a leaf entry gives to `v`. */
  function LeafValue(e: u64, v: u64): u64
  {
    if Present(e) then Frame(e) + v % 4096 else 0
  }

  /** The walk of vmm_get_physical_address from table `t` at level `lvl`. */
  function WalkFrom(tables: Tables, t: nat, lvl: nat, v: u64): u64
    requires 1 <= lvl <= 4
    decreases lvl
  {
    var e := Entry(tables, t, Index(v, lvl));
    if lvl == 1 then LeafValue(e, v)
    else if !Present(e) then 0
    else WalkFrom(tables, Frame(e), lvl - 1, v)
  }

  function Lookup(tables: Tables, root: Option<nat>, v: u64): u64
  {
    match root
    case None => 0
    case Some(r) => WalkFrom(tables, r, 4, v)
  }

  /** The indices leading from the root to the level-(4 - d) table on the way to `v`. */
  function Prefix(v: u64, d: nat): (p: seq<nat>)
    requires d <= 3
    ensures |p| == d
  {
    if d == 0 then [] else Prefix(v, d - 1) + [Index(v, 5 - d)]
  }

  lemma PrefixDigits(v: u64)
    ensures Prefix(v, 0) == [] && Prefix(v, 1) == [Index(v, 4)]
    ensures Prefix(v, 2) == [Index(v, 4), Index(v, 3)]
    ensures Prefix(v, 3) == [Index(v, 4), Index(v, 3), Index(v, 2)]
  {
    assert Prefix(v, 1) == [Index(v, 4)];
    assert Prefix(v, 2) == [Index(v, 4), Index(v, 3)];
  }

  ghost predicate TreeOK(tables: Tables, path: Paths, root: Option<nat>)
  {
    && tables.Keys == path.Keys
    && (root.Some? ==> root.value in tables && path[root.value] == [])
    && (forall k :: k in tables ==> |tables[k]| == ENTRIES && |path[k]| <= 3)
    && (forall k, i :: k in tables && |path[k]| < 3 && 0 <= i < |tables[k]| && Present(tables[k][i]) ==>
          Frame(tables[k][i]) in tables && path[Frame(tables[k][i])] == path[k] + [i])
  }

  /** The PMM frame number of a 4096-aligned physical address. */
  function PageOf(k: nat): nat
  {
    k / 4096
  }

  /**
   * Every table frame is marked used in the PMM bitmap. The trigger keeps the
   * bitmap out of reasoning that never asks for a frame number.
   */
  ghost predicate Owned(tables: Tables, bm: seq<bv32>)
  {
    forall k {:trigger PageOf(k)} :: k in tables ==> k % 4096 == 0 && Pmm.Used(bm, PageOf(k))
  }

  /** Linking a fresh zeroed table under an absent entry keeps every translation. */
  lemma {:induction false} WalkAfterCreate(tables: Tables, path: Paths, root: Option<nat>,
                                           t: nat, i: nat, n: nat, k: nat, lvl: nat, v: u64)
    requires TreeOK(tables, path, root)
    requires t in tables && |path[t]| < 3 && i < ENTRIES && !Present(tables[t][i])
    requires n !in tables && n % 4096 == 0 && n < U64_LIMIT - 3
    requires k in tables && 1 <= lvl <= 4 && |path[k]| == 4 - lvl
    ensures WalkFrom(SetEntry(tables[n := Zeros()], t, i, n + 3), k, lvl, v) == WalkFrom(tables, k, lvl, v)
    decreases lvl
  {
    var tables' := SetEntry(tables[n := Zeros()], t, i, n + 3);
    var j := Index(v, lvl);
    if k == t && j == i {
      assert Frame(n + 3) == n;
      if lvl > 1 {
        assert Entry(tables', n, Index(v, lvl - 1)) == 0;
      }
    } else {
      assert Entry(tables', k, j) == Entry(tables, k, j);
      var e := Entry(tables, k, j);
      if lvl > 1 && Present(e) {
        assert tables[k][j] == e;
        assert Frame(e) in tables && path[Frame(e)] == path[k] + [j];
        WalkAfterCreate(tables, path, root, t, i, n, Frame(e), lvl - 1, v);
      }
    }
  }

  lemma CreateKeepsTree(tables: Tables, path: Paths, root: Option<nat>, t: nat, i: nat, n: nat)
    requires TreeOK(tables, path, root)
    requires t in tables && |path[t]| < 3 && i < ENTRIES
    requires n !in tables && n % 4096 == 0 && n < U64_LIMIT - 3
    ensures TreeOK(SetEntry(tables[n := Zeros()], t, i, n + 3), path[n := path[t] + [i]], root)
  {
    var tables' := SetEntry(tables[n := Zeros()], t, i, n + 3);
    var path' := path[n := path[t] + [i]];
    assert Frame(n + 3) == n;
    forall k, j | k in tables' && |path'[k]| < 3 && 0 <= j < |tables'[k]| && Present(tables'[k][j])
      ensures Frame(tables'[k][j]) in tables' && path'[Frame(tables'[k][j])] == path'[k] + [j]
    {
      if k != n && !(k == t && j == i) {
        assert tables'[k][j] == tables[k][j];
      }
    }
  }

  /** A write into a level-1 table that is not on `v`'s path leaves `v`'s walk alone. */
  lemma {:induction false} WalkAfterLeafWrite(tables: Tables, path: Paths, root: Option<nat>,
                                              pt: nat, j: nat, x: u64, k: nat, lvl: nat, v: u64)
    requires TreeOK(tables, path, root)
    requires pt in tables && |path[pt]| == 3 && j < ENTRIES
    requires k in tables && 1 <= lvl <= 4 && path[k] == Prefix(v, 4 - lvl)
    requires !(path[pt] == Prefix(v, 3) && j == Index(v, 1))
    ensures WalkFrom(SetEntry(tables, pt, j, x), k, lvl, v) == WalkFrom(tables, k, lvl, v)
    decreases lvl
  {
    var tables' := SetEntry(tables, pt, j, x);
    var idx := Index(v, lvl);
    assert Entry(tables', k, idx) == Entry(tables, k, idx);
    var e := Entry(tables, k, idx);
    if lvl > 1 && Present(e) {
      assert tables[k][idx] == e;
      assert Prefix(v, 5 - lvl) == Prefix(v, 4 - lvl) + [idx];
      WalkAfterLeafWrite(tables, path, root, pt, j, x, Frame(e), lvl - 1, v);
    }
  }

  lemma LeafWriteKeepsTree(tables: Tables, path: Paths, root: Option<nat>, pt: nat, j: nat, x: u64)
    requires TreeOK(tables, path, root)
    requires pt in tables && |path[pt]| == 3 && j < ENTRIES
    ensures TreeOK(SetEntry(tables, pt, j, x), path, root)
  {
    var tables' := SetEntry(tables, pt, j, x);
    forall k, i | k in tables' && |path[k]| < 3 && 0 <= i < |tables'[k]| && Present(tables'[k][i])
      ensures Frame(tables'[k][i]) in tables' && path[Frame(tables'[k][i])] == path[k] + [i]
    {
      assert tables'[k][i] == tables[k][i];
    }
  }

  /** The PML4, PDPT and PD entries on `v`'s way from `r` are present and lead to `pdpt`, `pd` and `pt`. */
  predicate ChainTo(tables: Tables, r: nat, v: u64, pdpt: nat, pd: nat, pt: nat)
  {
    && Present(Entry(tables, r, Index(v, 4))) && Frame(Entry(tables, r, Index(v, 4))) == pdpt
    && Present(Entry(tables, pdpt, Index(v, 3))) && Frame(Entry(tables, pdpt, Index(v, 3))) == pd
    && Present(Entry(tables, pd, Index(v, 2))) && Frame(Entry(tables, pd, Index(v, 2))) == pt
  }

  /** Every address of `v`'s page translates through entry Index(v, 1) of the PT the chain leads to. */
  lemma WalkThroughLeaf(tables: Tables, r: nat, pdpt: nat, pd: nat, pt: nat, v: u64, u: u64)
    requires ChainTo(tables, r, v, pdpt, pd, pt) && SamePage(u, v)
    ensures WalkFrom(tables, r, 4, u) == LeafValue(Entry(tables, pt, Index(v, 1)), u)
  {
  }

  /** When an upper entry on `v`'s way is absent, no address of `v`'s page translates. */
  lemma UnreachablePageIsUnmapped(tables: Tables, r: nat, v: u64)
    requires !Present(Entry(tables, r, Index(v, 4)))
             || !Present(Entry(tables, Frame(Entry(tables, r, Index(v, 4))), Index(v, 3)))
             || !Present(Entry(tables, Frame(Entry(tables, Frame(Entry(tables, r, Index(v, 4))), Index(v, 3))), Index(v, 2)))
    ensures forall u :: SamePage(u, v) ==> WalkFrom(tables, r, 4, u) == 0
  {
  }

  /** Linking a fresh zeroed table keeps the tree shape and every translation. */
  lemma CreateStep(tables: Tables, path: Paths, root: Option<nat>, t: nat, i: nat, n: nat,
                    tables': Tables, path': Paths)
    requires TreeOK(tables, path, root)
    requires t in tables && |path[t]| < 3 && i < ENTRIES && !Present(tables[t][i])
    requires n !in tables && n % 4096 == 0 && n < U64_LIMIT - 3
    requires tables' == SetEntry(tables[n := Zeros()], t, i, n + 3) && path' == path[n := path[t] + [i]]
    ensures TreeOK(tables', path', root)
    ensures forall v :: Lookup(tables', root, v) == Lookup(tables, root, v)
    ensures forall k :: k in tables ==> k in tables' && path'[k] == path[k]
    ensures forall k, j :: (k != t || j != i) && k in tables ==> Entry(tables', k, j) == Entry(tables, k, j)
    ensures n in tables' && path'[n] == path[t] + [i]
    ensures Present(Entry(tables', t, i)) && Frame(Entry(tables', t, i)) == n
  {
    AlignedSum(n, 3);
    CreateKeepsTree(tables, path, root, t, i, n);
    forall v ensures Lookup(tables', root, v) == Lookup(tables, root, v)
    {
      if root.Some? {
        WalkAfterCreate(tables, path, root, t, i, n, root.value, 4, v);
      }
    }
    forall k | k in tables
      ensures k in tables' && path'[k] == path[k]
    {
      assert k != n;
    }
  }

  /**
   * The effect of get_or_create_table on entry `i` of table `t`, taking
   * (tables, path) to (tables', path') and returning `next`: a present entry
   * yields its frame and changes nothing; otherwise either nothing changes and
   * there is no table, or a fresh frame `n` holds a zeroed table linked in with
   * PRESENT | WRITABLE.
   */
  ghost predicate Linked(tables: Tables, path: Paths, tables': Tables, path': Paths, t: nat, i: nat, next: Option<nat>)
    requires t in tables && t in path && i < |tables[t]|
  {
    if Present(tables[t][i]) then
      next == Some(Frame(tables[t][i])) && tables' == tables && path' == path
    else
      match next
      case None => tables' == tables && path' == path
      case Some(n) =>
        && n !in tables && n % 4096 == 0 && n < U32_LIMIT
        && tables' == SetEntry(tables[n := Zeros()], t, i, n + 3)
        && path' == path[n := path[t] + [i]]
  }

  /** The create branch of get_or_create_table keeps the tree shape and PMM ownership, and is a Linked step. */
  lemma CreateLinked(tables: Tables, path: Paths, root: Option<nat>, t: nat, i: nat, n: nat, bm: seq<bv32>)
    requires TreeOK(tables, path, root) && Owned(tables, bm)
    requires t in tables && |path[t]| < 3 && i < ENTRIES && !Present(tables[t][i])
    requires n !in tables && n % 4096 == 0 && n < U32_LIMIT && Pmm.Used(bm, PageOf(n))
    ensures TreeOK(SetEntry(tables[n := Zeros()], t, i, n + 3), path[n := path[t] + [i]], root)
    ensures Owned(SetEntry(tables[n := Zeros()], t, i, n + 3), bm)
    ensures Linked(tables, path, SetEntry(tables[n := Zeros()], t, i, n + 3), path[n := path[t] + [i]], t, i, Some(n))
  {
    CreateKeepsTree(tables, path, root, t, i, n);
    OwnedAdd(tables, bm, n, Zeros());
    OwnedSameKeys(tables[n := Zeros()], SetEntry(tables[n := Zeros()], t, i, n + 3), bm);
  }

  /** What callers of get_or_create_table rely on: shape, translations and other entries are kept. */
  lemma LinkedFacts(tables: Tables, path: Paths, root: Option<nat>, tables': Tables, path': Paths,
                    t: nat, i: nat, next: Option<nat>)
    requires TreeOK(tables, path, root) && t in tables && |path[t]| < 3 && i < ENTRIES
    requires Linked(tables, path, tables', path', t, i, next)
    ensures TreeOK(tables', path', root)
    ensures forall v :: Lookup(tables', root, v) == Lookup(tables, root, v)
    ensures forall k :: k in tables ==> k in tables' && path'[k] == path[k]
    ensures forall k, j :: (k != t || j != i) && k in tables ==> Entry(tables', k, j) == Entry(tables, k, j)
    ensures next.Some? ==>
              && next.value in tables' && path'[next.value] == path[t] + [i]
              && Present(Entry(tables', t, i)) && Frame(Entry(tables', t, i)) == next.value
  {
    if !Present(tables[t][i]) && next.Some? {
      CreateStep(tables, path, root, t, i, next.value, tables', path');
    }
  }

  /**
   * The outcome of vmm_map_page on `v` with leaf entry `x`, from tables `t0`
   * to `t'`: on -1 every translation is as before; on 0 `v`'s page
   * translates through `x` and every other page as before.
   */
  ghost predicate MapResult(t0: Tables, t': Tables, root: Option<nat>, v: u64, x: u64, result: int)
  {
    && (result == -1 ==> forall u :: Lookup(t', root, u) == Lookup(t0, root, u))
    && (result == 0 ==> forall u :: Lookup(t', root, u) ==
                          if SamePage(u, v) then LeafValue(x, u) else Lookup(t0, root, u))
  }

  /** A map that obtains the PDPT but not the PD changes no translation. */
  lemma MapFailsAtPd(t0: Tables, p0: Paths, t1: Tables, p1: Paths, r: nat, v: u64, pdpt: nat, x: u64)
    requires TreeOK(t0, p0, Some(r))
    requires Linked(t0, p0, t1, p1, r, Index(v, 4), Some(pdpt))
    ensures MapResult(t0, t1, Some(r), v, x, -1)
  {
    LinkedFacts(t0, p0, Some(r), t1, p1, r, Index(v, 4), Some(pdpt));
  }

  /**
   * The first two get_or_create_table steps of vmm_map_page keep the tree
   * and every translation, and leave `v`'s way present down to the PD.
   */
  lemma TwoLinks(t0: Tables, p0: Paths, t1: Tables, p1: Paths, t2: Tables, p2: Paths,
                 r: nat, v: u64, pdpt: nat, pd: nat)
    requires TreeOK(t0, p0, Some(r))
    requires Linked(t0, p0, t1, p1, r, Index(v, 4), Some(pdpt))
    requires pdpt in t1 && pdpt in p1 && |p1[pdpt]| < 3 && |t1[pdpt]| == ENTRIES
    requires Linked(t1, p1, t2, p2, pdpt, Index(v, 3), Some(pd))
    ensures TreeOK(t2, p2, Some(r))
    ensures forall u :: Lookup(t2, Some(r), u) == Lookup(t0, Some(r), u)
    ensures Present(Entry(t2, r, Index(v, 4))) && Frame(Entry(t2, r, Index(v, 4))) == pdpt
    ensures Present(Entry(t2, pdpt, Index(v, 3))) && Frame(Entry(t2, pdpt, Index(v, 3))) == pd
    ensures pd in t2 && p2[pd] == p1[pdpt] + [Index(v, 3)]
  {
    LinkedFacts(t0, p0, Some(r), t1, p1, r, Index(v, 4), Some(pdpt));
    LinkedFacts(t1, p1, Some(r), t2, p2, pdpt, Index(v, 3), Some(pd));
  }

  /** A map that obtains the PDPT and the PD but not the PT changes no translation. */
  lemma MapFailsAtPt(t0: Tables, p0: Paths, t1: Tables, p1: Paths, t2: Tables, p2: Paths,
                     r: nat, v: u64, pdpt: nat, pd: nat, x: u64)
    requires TreeOK(t0, p0, Some(r))
    requires Linked(t0, p0, t1, p1, r, Index(v, 4), Some(pdpt))
    requires pdpt in t1 && pdpt in p1 && |p1[pdpt]| < 3 && |t1[pdpt]| == ENTRIES
    requires Linked(t1, p1, t2, p2, pdpt, Index(v, 3), Some(pd))
    ensures MapResult(t0, t2, Some(r), v, x, -1)
  {
    TwoLinks(t0, p0, t1, p1, t2, p2, r, v, pdpt, pd);
  }

  /**
   * The three get_or_create_table steps of vmm_map_page followed by the leaf
   * write: `v`'s page gets the translation of `x`, every other page keeps the
   * translation it had before the first step.
   */
  lemma MapSteps(t0: Tables, p0: Paths, t1: Tables, p1: Paths, t2: Tables, p2: Paths, t3: Tables, p3: Paths,
                 r: nat, v: u64, pdpt: nat, pd: nat, pt: nat, x: u64, bm: seq<bv32>)
    requires TreeOK(t0, p0, Some(r))
    requires Linked(t0, p0, t1, p1, r, Index(v, 4), Some(pdpt))
    requires pdpt in t1 && pdpt in p1 && |p1[pdpt]| < 3 && |t1[pdpt]| == ENTRIES
    requires Linked(t1, p1, t2, p2, pdpt, Index(v, 3), Some(pd))
    requires pd in t2 && pd in p2 && |p2[pd]| < 3 && |t2[pd]| == ENTRIES
    requires Linked(t2, p2, t3, p3, pd, Index(v, 2), Some(pt))
    requires Owned(t3, bm)
    ensures pt in t3 && |t3[pt]| == ENTRIES
    ensures TreeOK(SetEntry(t3, pt, Index(v, 1), x), p3, Some(r))
    ensures Owned(SetEntry(t3, pt, Index(v, 1), x), bm)
    ensures MapResult(t0, SetEntry(t3, pt, Index(v, 1), x), Some(r), v, x, 0)
  {
    TwoLinks(t0, p0, t1, p1, t2, p2, r, v, pdpt, pd);
    LinkedFacts(t2, p2, Some(r), t3, p3, pd, Index(v, 2), Some(pt));
    assert ChainTo(t3, r, v, pdpt, pd, pt);
    LeafWriteStep(t3, p3, r, pdpt, pd, pt, v, x);
    OwnedSameKeys(t3, SetEntry(t3, pt, Index(v, 1), x), bm);
  }

  /**
   * The outcome of vmm_unmap_page on `v`: `v`'s page no longer translates and
   * every other page translates as before.
   */
  ghost predicate UnmapResult(t0: Tables, t': Tables, root: Option<nat>, v: u64)
  {
    forall u :: Lookup(t', root, u) == if SamePage(u, v) then 0 else Lookup(t0, root, u)
  }

  lemma UnmapUnreachable(tables: Tables, root: Option<nat>, v: u64)
    requires root.Some? ==>
               var r := root.value;
               !Present(Entry(tables, r, Index(v, 4)))
               || !Present(Entry(tables, Frame(Entry(tables, r, Index(v, 4))), Index(v, 3)))
               || !Present(Entry(tables, Frame(Entry(tables, Frame(Entry(tables, r, Index(v, 4))), Index(v, 3))), Index(v, 2)))
    ensures UnmapResult(tables, tables, root, v)
  {
    if root.Some? {
      UnreachablePageIsUnmapped(tables, root.value, v);
    }
  }

  lemma UnmapStep(tables: Tables, path: Paths, r: nat, pdpt: nat, pd: nat, pt: nat, v: u64)
    requires TreeOK(tables, path, Some(r))
    requires ChainTo(tables, r, v, pdpt, pd, pt)
    ensures pt in tables && |tables[pt]| == ENTRIES
    ensures TreeOK(SetEntry(tables, pt, Index(v, 1), 0), path, Some(r))
    ensures UnmapResult(tables, SetEntry(tables, pt, Index(v, 1), 0), Some(r), v)
  {
    LeafWriteStep(tables, path, r, pdpt, pd, pt, v, 0);
  }

  /** The tables a chain passes through sit at depths 1, 2 and 3 on `v`'s path. */
  lemma ChainPaths(tables: Tables, path: Paths, r: nat, pdpt: nat, pd: nat, pt: nat, v: u64)
    requires TreeOK(tables, path, Some(r))
    requires ChainTo(tables, r, v, pdpt, pd, pt)
    ensures pdpt in tables && path[pdpt] == Prefix(v, 1)
    ensures pd in tables && path[pd] == Prefix(v, 2)
    ensures pt in tables && path[pt] == Prefix(v, 3)
  {
    PrefixDigits(v);
    assert tables[r][Index(v, 4)] == Entry(tables, r, Index(v, 4));
    assert pdpt in tables && path[pdpt] == [Index(v, 4)];
    assert tables[pdpt][Index(v, 3)] == Entry(tables, pdpt, Index(v, 3));
    assert pd in tables && path[pd] == path[pdpt] + [Index(v, 3)];
    assert path[pd] == [Index(v, 4), Index(v, 3)];
    assert tables[pd][Index(v, 2)] == Entry(tables, pd, Index(v, 2));
    assert pt in tables && path[pt] == path[pd] + [Index(v, 2)];
  }

  /**
   * Overwriting the leaf entry on `v`'s way keeps the tree shape, gives `v`'s
   * page the translation of the new entry and leaves every other page alone.
   */
  lemma LeafWriteStep(tables: Tables, path: Paths, r: nat, pdpt: nat, pd: nat, pt: nat, v: u64, x: u64)
    requires TreeOK(tables, path, Some(r))
    requires ChainTo(tables, r, v, pdpt, pd, pt)
    ensures pt in tables && path[pt] == Prefix(v, 3)
    ensures TreeOK(SetEntry(tables, pt, Index(v, 1), x), path, Some(r))
    ensures forall u :: Lookup(SetEntry(tables, pt, Index(v, 1), x), Some(r), u) ==
                        (if SamePage(u, v) then LeafValue(x, u) else Lookup(tables, Some(r), u))
  {
    ChainPaths(tables, path, r, pdpt, pd, pt, v);
    LeafWriteKeepsTree(tables, path, Some(r), pt, Index(v, 1), x);
    forall u ensures Lookup(SetEntry(tables, pt, Index(v, 1), x), Some(r), u) ==
                     (if SamePage(u, v) then LeafValue(x, u) else Lookup(tables, Some(r), u))
    {
      LeafWriteAt(tables, path, r, pdpt, pd, pt, v, x, u);
    }
  }

  lemma LeafWriteAt(tables: Tables, path: Paths, r: nat, pdpt: nat, pd: nat, pt: nat, v: u64, x: u64, u: u64)
    requires TreeOK(tables, path, Some(r))
    requires ChainTo(tables, r, v, pdpt, pd, pt)
    requires pt in tables && path[pt] == Prefix(v, 3) && path[pd] == Prefix(v, 2) && path[pdpt] == Prefix(v, 1)
    ensures Lookup(SetEntry(tables, pt, Index(v, 1), x), Some(r), u) ==
            (if SamePage(u, v) then LeafValue(x, u) else Lookup(tables, Some(r), u))
  {
    var j := Index(v, 1);
    var after := SetEntry(tables, pt, j, x);
    PrefixDigits(u);
    PrefixDigits(v);
    if SamePage(u, v) {
      assert r != pt && pdpt != pt && pd != pt;
      assert ChainTo(after, r, v, pdpt, pd, pt);
      WalkThroughLeaf(after, r, pdpt, pd, pt, v, u);
    } else {
      WalkAfterLeafWrite(tables, path, Some(r), pt, j, x, r, 4, u);
    }
  }

  /** A fresh zeroed root gives a tree in which nothing translates. */
  lemma RootStep(tables: Tables, path: Paths, root: Option<nat>, n: nat)
    requires TreeOK(tables, path, root) && n !in tables
    ensures TreeOK(tables[n := Zeros()], path[n := []], Some(n))
  {
    var tables' := tables[n := Zeros()];
    var path' := path[n := []];
    forall k, i | k in tables' && |path'[k]| < 3 && 0 <= i < |tables'[k]| && Present(tables'[k][i])
      ensures Frame(tables'[k][i]) in tables' && path'[Frame(tables'[k][i])] == path'[k] + [i]
    {
      assert k != n;
    }
  }

  lemma AlignedStep(addr: nat)
    requires addr % 4096 == 0 && addr < IDENTITY_LIMIT
    ensures addr + 4096 <= IDENTITY_LIMIT && (addr + 4096) % 4096 == 0
  {
    var k := addr / 4096;
    assert addr == 4096 * k;
    assert addr + 4096 == 4096 * (k + 1);
  }

  /** One more identity-mapped page extends the identity below `addr` by a page. */
  lemma IdentityStep(tables: Tables, tables': Tables, root: Option<nat>, addr: u64)
    requires addr % 4096 == 0 && addr + 4096 <= IDENTITY_LIMIT
    requires MapResult(tables, tables', root, addr, Or64(Frame(addr), TABLE_FLAGS), 0)
    requires forall a: u64 :: a < addr ==> Lookup(tables, root, a) == a
    ensures forall a: u64 :: a < addr + 4096 ==> Lookup(tables', root, a) == a
  {
    forall a: u64 | a < addr + 4096
      ensures Lookup(tables', root, a) == a
    {
      SamePageIff(a, addr);
      if SamePage(a, addr) {
        MappedTranslation(addr, TABLE_FLAGS, a);
      }
    }
  }

  /** After mapping with PRESENT among flags below 0x1000, the page translates to the frame plus the offset. */
  lemma MappedTranslation(phys: u64, flags: u64, u: u64)
    requires flags < 4096 && Present(flags)
    ensures LeafValue(Or64(Frame(phys), flags), u) == Frame(phys) + u % 4096
  {
    AlignedSum(Frame(phys), flags);
  }

  /** Adding a value below 4096 to a 4096-aligned one fills exactly the offset bits. */
  lemma AlignedSum(a: nat, x: nat)
    requires a % 4096 == 0 && x < 4096
    ensures (a + x) % 4096 == x && (a + x) % 2 == x % 2
  {
    var k := a / 4096;
    assert a + x == 4096 * k + x;
    assert a + x == 2 * (2048 * k + x / 2) + x % 2;
  }

  /** An entry written as `frame | PAGE_PRESENT | PAGE_WRITABLE` is present and points back at the frame. */
  lemma LinkEntry(n: u64)
    requires n % 4096 == 0
    ensures Or64(n, TABLE_FLAGS) == n + 3 && Present(n + 3) && Frame(n + 3) == n
  {
    AlignedSum(n, 3);
  }

  /** The bitmap bm2 keeps every frame bm marks used. */
  ghost predicate Grows(bm: seq<bv32>, bm2: seq<bv32>)
  {
    forall p :: Pmm.Used(bm, p) ==> Pmm.Used(bm2, p)
  }

  /** A PMM with no free frame stays so while frames are only taken. */
  lemma ExhaustedGrows(bm: seq<bv32>, bm2: seq<bv32>, n: int)
    requires Pmm.AllUsedBelow(bm, n) && Grows(bm, bm2)
    ensures Pmm.AllUsedBelow(bm2, n)
  {
  }

  /** Frames the PMM marks used stay so when the bitmap only gains bits. */
  lemma OwnedGrows(tables: Tables, bm: seq<bv32>, bm2: seq<bv32>)
    requires Owned(tables, bm)
    requires forall p :: Pmm.Used(bm, p) ==> Pmm.Used(bm2, p)
    ensures Owned(tables, bm2)
  {
  }

  /** Rewriting entries, without adding or removing tables, keeps ownership. */
  lemma OwnedSameKeys(tables: Tables, tables': Tables, bm: seq<bv32>)
    requires Owned(tables, bm) && tables'.Keys == tables.Keys
    ensures Owned(tables', bm)
  {
    forall k | k in tables'
      ensures k % 4096 == 0 && Pmm.Used(bm, PageOf(k))
    {
      assert k in tables;
    }
  }

  lemma OwnedAdd(tables: Tables, bm: seq<bv32>, n: nat, z: seq<u64>)
    requires Owned(tables, bm) && n % 4096 == 0 && Pmm.Used(bm, PageOf(n))
    ensures Owned(tables[n := z], bm)
  {
  }

  // ---------------------------------------------------------------------
  // The address space
  // ---------------------------------------------------------------------

  class AddressSpace {
    /** The physical memory manager tables are allocated from. */
    const pmm: Pmm.PhysicalMemory
    /** kernel_pml4, as a frame address; None while it is NULL. */
    var root: Option<nat>
    /** The page tables, keyed by the frame that holds them. */
    var tables: Tables
    ghost var path: Paths

    /**
     * Frame 0 is in use, as pmm_init leaves it (the first 16 MiB are
     * reserved), so pmm_alloc_page returns 0 only when no frame is free.
     */
    ghost predicate Valid()
      reads this, pmm, pmm.bitmap
    {
      pmm.Valid() && Pmm.Used(pmm.bitmap[..], 0) && TreeOK(tables, path, root) && Owned(tables, pmm.bitmap[..])
    }

    /** Every frame the PMM manages is in use: pmm_alloc_page can only fail. */
    ghost predicate Exhausted()
      reads pmm, pmm.bitmap
    {
      Pmm.AllUsedBelow(pmm.bitmap[..], pmm.totalBlocks * 32)
    }

    /** vmm_get_physical_address; it reads state only. */
    function Translate(v: u64): (r: u64)
      reads this
      ensures root == None ==> r == 0
      ensures r != 0 ==> r % 4096 == v % 4096
    {
      Lookup(tables, root, v)
    }

    /** The state before vmm_init: kernel_pml4 is NULL and there are no tables. */
    constructor (pmm: Pmm.PhysicalMemory)
      requires pmm.Valid() && Pmm.Used(pmm.bitmap[..], 0)
      ensures Valid() && this.pmm == pmm
      ensures root == None && tables == map[]
    {
      this.pmm := pmm;
      root := None;
      tables := map[];
      path := map[];
    }

    /** pmm_alloc_page as the VMM uses it: 0 is failure, any other frame is new to the tables. */
    method AllocFrame() returns (n: u64)
      requires Valid()
      modifies pmm, pmm.bitmap
      ensures Valid() && pmm.totalBlocks == old(pmm.totalBlocks) && pmm.bitmap == old(pmm.bitmap)
      ensures n == 0 <==> old(Exhausted())
      ensures n == 0 ==> pmm.bitmap[..] == old(pmm.bitmap[..])
      ensures Grows(old(pmm.bitmap[..]), pmm.bitmap[..])
      ensures n != 0 ==> n !in tables && n % 4096 == 0 && n < U32_LIMIT && Pmm.Used(pmm.bitmap[..], PageOf(n))
    {
      ghost var bm0 := pmm.bitmap[..];
      n := pmm.AllocPage();
      forall p ensures Pmm.Used(bm0, p) ==> Pmm.Used(pmm.bitmap[..], p) {
      }
      OwnedGrows(tables, bm0, pmm.bitmap[..]);
      if !Pmm.AllUsedBelow(bm0, pmm.totalBlocks * 32) {
        assert !Pmm.Used(bm0, n / Pmm.PAGE_SIZE);
      }
      if n != 0 {
        assert !Pmm.Used(bm0, PageOf(n));
      }
    }

    /**
     * get_or_create_table for entry `i` of table `t` (see Linked); when the
     * entry is present the PMM is not called.
     */
    method GetOrCreateTable(t: nat, i: nat) returns (next: Option<nat>)
      requires Valid() && t in tables && |path[t]| < 3 && i < ENTRIES
      modifies this`tables, this`path, pmm, pmm.bitmap
      ensures Valid() && root == old(root) && pmm.bitmap == old(pmm.bitmap)
      ensures Linked(old(tables), old(path), tables, path, t, i, next)
      ensures pmm.totalBlocks == old(pmm.totalBlocks) && Grows(old(pmm.bitmap[..]), pmm.bitmap[..])
      ensures next.None? <==> !Present(old(tables)[t][i]) && old(Exhausted())
      ensures next.None? ==> Exhausted()
      ensures Present(old(tables)[t][i]) ==> unchanged(pmm) && pmm.bitmap[..] == old(pmm.bitmap[..])
      ensures next.Some? ==> next.value in tables && |path[next.value]| == |old(path)[t]| + 1
    {
      var e := tables[t][i];
      if Present(e) {
        assert Frame(e) in tables && path[Frame(e)] == path[t] + [i];
        return Some(Frame(e));
      }
      var physAddr := AllocFrame();
      if physAddr == 0 {
        return None;
      }
      var entry := Or64(physAddr, TABLE_FLAGS);
      LinkEntry(physAddr);
      CreateLinked(tables, path, root, t, i, physAddr, pmm.bitmap[..]);
      tables := SetEntry(tables[physAddr := Zeros()], t, i, entry);
      path := path[physAddr := path[t] + [i]];
      next := Some(physAddr);
    }

    /**
     * vmm_map_page: -1 without a root or when a level cannot be obtained,
     * else the leaf entry for `v` becomes (phys & ~0xFFF) | flags and the
     * result is 0 (see MapResult). Tables created on a failed attempt stay
     * linked but change no translation.
     */
    method MapPage(v: u64, phys: u64, flags: u64) returns (result: int)
      requires Valid()
      modifies this`tables, this`path, pmm, pmm.bitmap
      ensures Valid() && root == old(root) && pmm.bitmap == old(pmm.bitmap)
      ensures result == 0 || result == -1
      ensures root == None ==> result == -1 && tables == old(tables)
      ensures pmm.totalBlocks == old(pmm.totalBlocks) && Grows(old(pmm.bitmap[..]), pmm.bitmap[..])
      ensures result == -1 ==> root == None || Exhausted()
      ensures MapResult(old(tables), tables, root, v, Or64(Frame(phys), flags), result)
    {
      result := -1;
      if root.Some? {
        var r := root.value;
        ghost var tables0, path0 := tables, path;
        var pdpt := GetOrCreateTable(r, Index(v, 4));
        if pdpt.Some? {
          ghost var tables1, path1 := tables, path;
          var pd := GetOrCreateTable(pdpt.value, Index(v, 3));
          if pd.Some? {
            ghost var tables2, path2 := tables, path;
            var pt := GetOrCreateTable(pd.value, Index(v, 2));
            var x := Or64(Frame(phys), flags);
            if pt.Some? {
              MapSteps(tables0, path0, tables1, path1, tables2, path2, tables, path,
                       r, v, pdpt.value, pd.value, pt.value, x, pmm.bitmap[..]);
              tables := SetEntry(tables, pt.value, Index(v, 1), x);
              result := 0;
            } else {
              MapFailsAtPt(tables0, path0, tables1, path1, tables2, path2, r, v, pdpt.value, pd.value, x);
            }
          } else {
            MapFailsAtPd(tables0, path0, tables1, path1, r, v, pdpt.value, Or64(Frame(phys), flags));
          }
        }
      }
    }

    /**
     * vmm_unmap_page: when the three upper entries on `v`'s way are present,
     * the leaf entry becomes 0 (see UnmapResult); no table is freed and the
     * PMM is not called.
     */
    method UnmapPage(v: u64)
      requires Valid()
      modifies this`tables
      ensures Valid()
      ensures tables.Keys == old(tables).Keys
      ensures UnmapResult(old(tables), tables, root, v)
    {
      if root == None {
        UnmapUnreachable(tables, root, v);
        return;
      }
      var r := root.value;
      var e4 := Entry(tables, r, Index(v, 4));
      var e3 := Entry(tables, Frame(e4), Index(v, 3));
      var e2 := Entry(tables, Frame(e3), Index(v, 2));
      if !Present(e4) || !Present(e3) || !Present(e2) {
        UnmapUnreachable(tables, root, v);
        return;
      }
      UnmapStep(tables, path, r, Frame(e4), Frame(e3), Frame(e2), v);
      OwnedSameKeys(tables, SetEntry(tables, Frame(e2), Index(v, 1), 0), pmm.bitmap[..]);
      tables := SetEntry(tables, Frame(e2), Index(v, 1), 0);
    }

    /**
     * vmm_init: allocate and zero the PML4, then identity-map every page
     * below 16 MiB with PRESENT | WRITABLE, ignoring individual failures.
     * `allMapped` records that the root and every map call succeeded; each
     * failure leaves the PMM without a free frame.
     */
    method Init() returns (ghost allMapped: bool)
      requires Valid()
      modifies this`root, this`tables, this`path, pmm, pmm.bitmap
      ensures Valid()
      ensures old(Exhausted()) ==> root == old(root) && tables == old(tables) && !allMapped
      ensures allMapped ==> root.Some? && forall a: u64 :: a < IDENTITY_LIMIT ==> Translate(a) == a
      ensures !allMapped ==> Exhausted()
    {
      allMapped := false;
      var pml4 := AllocFrame();
      if pml4 != 0 {
        RootStep(tables, path, root, pml4);
        OwnedAdd(tables, pmm.bitmap[..], pml4, Zeros());
        root := Some(pml4);
        tables := tables[pml4 := Zeros()];
        path := path[pml4 := []];
        allMapped := IdentityMapLow();
      }
    }

    /** The loop of vmm_init: map every page below 16 MiB onto itself. */
    method IdentityMapLow() returns (ghost allMapped: bool)
      requires Valid() && root.Some?
      modifies this`tables, this`path, pmm, pmm.bitmap
      ensures Valid() && root == old(root) && pmm.bitmap == old(pmm.bitmap)
      ensures allMapped ==> forall a: u64 :: a < IDENTITY_LIMIT ==> Translate(a) == a
      ensures !allMapped ==> Exhausted()
    {
      allMapped := true;
      var addr: u64 := 0;
      while addr < IDENTITY_LIMIT
        invariant Valid() && root == old(root) && pmm.bitmap == old(pmm.bitmap)
        invariant addr % 4096 == 0 && addr <= IDENTITY_LIMIT
        invariant allMapped ==> forall a: u64 :: a < addr ==> Lookup(tables, root, a) == a
        invariant !allMapped ==> Exhausted()
      {
        AlignedStep(addr);
        ghost var before := tables;
        ghost var bm0 := pmm.bitmap[..];
        var result := MapPage(addr, addr, TABLE_FLAGS);
        if !allMapped {
          ExhaustedGrows(bm0, pmm.bitmap[..], pmm.totalBlocks * 32);
        }
        if result != 0 {
          allMapped := false;
        } else if allMapped {
          IdentityStep(before, tables, root, addr);
        }
        addr := addr + 4096;
      }
    }
  }
}
