/*
 * kernel/kernel.c: the two Multiboot2 walkers kernel_main uses to size
 * memory and find the initrd, the memory-management start-up order, and one
 * pass of the main loop over the TTY table. The banner, the console set-up
 * and the hardware initialisation calls are left out.
 */
module Kernel {
  import opened Common
  import opened Multiboot
  import Tty
  import Keyboard
  import Pmm
  import Vmm
  import Heap
  import Tarfs
  import Vfs

  /** What get_memory_size returns when no basic memory information tag comes before END: 128 MiB. */
  const DEFAULT_MEMORY: u64 := 128 * 1024 * 1024
  /** kernel_heap: 16 MiB. */
  const HEAP_SIZE: nat := 16 * 1024 * 1024

  /** mem_upper of a basic memory information tag: KiB of memory above 1 MiB. */
  function MemUpper(info: seq<byte>, off: nat): u32 { LE32(info, off + 12) }

  /** The memory size a basic memory information tag gives: `(uint64_t)(mem_upper + 1024) * 1024`, the sum taken in uint32. */
  function MemoryFrom(info: seq<byte>, off: nat): (r: u64)
    ensures r % 1024 == 0
    ensures MemUpper(info, off) + 1024 < U32_LIMIT ==> r == (MemUpper(info, off) + 1024) * 1024
  {
    Add32(MemUpper(info, off), 1024) * 1024
  }

  /** get_memory_size. */
  function MemorySize(info: seq<byte>): (r: u64)
    ensures r % 1024 == 0
  {
    match FindTag(info, FIRST_TAG, TAG_BASIC_MEMINFO)
    case Some(off) => MemoryFrom(info, off)
    case None => DEFAULT_MEMORY
  }

  /** The size comes from the first basic memory information tag of the walk, or is 128 MiB when there is none. */
  lemma MemorySizeFirst(info: seq<byte>)
    ensures var offs := Tags(info, FIRST_TAG);
      && ((forall k :: 0 <= k < |offs| ==> TagType(info, offs[k]) != TAG_BASIC_MEMINFO) ==> MemorySize(info) == DEFAULT_MEMORY)
      && (forall k: nat :: FirstOfType(info, offs, TAG_BASIC_MEMINFO, k) ==> MemorySize(info) == MemoryFrom(info, offs[k]))
  {
    var offs, r := Tags(info, FIRST_TAG), FindTag(info, FIRST_TAG, TAG_BASIC_MEMINFO);
    FindTagFirst(info, FIRST_TAG, TAG_BASIC_MEMINFO);
    assert FindsFirst(info, offs, TAG_BASIC_MEMINFO, r);
    FirstIsUnique(info, offs, TAG_BASIC_MEMINFO);
    if r.None? {
      assert MemorySize(info) == DEFAULT_MEMORY;
    } else {
      assert MemorySize(info) == MemoryFrom(info, r.value);
    }
  }

  /** A result that FindsFirst accepts is the tag at any position that is the first of type t. */
  lemma FoundIsFirst(info: seq<byte>, offs: seq<nat>, t: u32, r: Option<nat>, k: nat)
    requires FindsFirst(info, offs, t, r) && FirstOfType(info, offs, t, k)
    ensures r == Some(offs[k])
  {
    assert r.Some?;
    var j: nat :| FirstOfType(info, offs, t, j) && offs[j] == r.value;
    FirstIsUnique(info, offs, t);
  }

  /** At most one position is the first of a type. */
  lemma FirstIsUnique(info: seq<byte>, offs: seq<nat>, t: u32)
    ensures forall i: nat, j: nat :: FirstOfType(info, offs, t, i) && FirstOfType(info, offs, t, j) ==> i == j
  {
  }

  /** The initrd: the module's start address and mod_end - mod_start in uint32. */
  datatype Module = Module(start: u32, size: u32)

  /** get_initrd: the first module tag's start and size, or None (NULL, with the size untouched). */
  function Initrd(info: seq<byte>): (r: Option<Module>)
    ensures r.None? <==> FindTag(info, FIRST_TAG, TAG_MODULE).None?
    ensures r.Some? ==> var off := FindTag(info, FIRST_TAG, TAG_MODULE).value;
      LE32(info, off + 8) <= LE32(info, off + 12) ==> r.value.start + r.value.size == LE32(info, off + 12)
  {
    match FindTag(info, FIRST_TAG, TAG_MODULE)
    case Some(off) => Some(Module(LE32(info, off + 8), Sub32(LE32(info, off + 12), LE32(info, off + 8))))
    case None => None
  }

  /** There is no initrd exactly when the walk has no module tag. */
  lemma InitrdNone(info: seq<byte>)
    ensures var offs := Tags(info, FIRST_TAG);
      Initrd(info).None? <==> forall k :: 0 <= k < |offs| ==> TagType(info, offs[k]) != TAG_MODULE
  {
    FindTagFirst(info, FIRST_TAG, TAG_MODULE);
    assert FindsFirst(info, Tags(info, FIRST_TAG), TAG_MODULE, FindTag(info, FIRST_TAG, TAG_MODULE));
  }

  /** The initrd comes from the first module tag of the walk, and spans mod_start to mod_end when they are in order. */
  lemma InitrdFirst(info: seq<byte>, k: nat)
    requires FirstOfType(info, Tags(info, FIRST_TAG), TAG_MODULE, k)
    ensures var off := Tags(info, FIRST_TAG)[k];
      && Initrd(info).Some? && Initrd(info).value.start == LE32(info, off + 8)
      && (LE32(info, off + 8) <= LE32(info, off + 12) ==>
            Initrd(info).value.start + Initrd(info).value.size == LE32(info, off + 12))
  {
    var offs, r := Tags(info, FIRST_TAG), FindTag(info, FIRST_TAG, TAG_MODULE);
    FindTagFirst(info, FIRST_TAG, TAG_MODULE);
    FoundIsFirst(info, offs, TAG_MODULE, r, k);
  }

  /** kernel_main loads the initrd only when the module pointer is not NULL and its size is not zero. */
  predicate LoadsInitrd(info: seq<byte>)
  {
    Initrd(info).Some? && Initrd(info).value.start != 0 && Initrd(info).value.size > 0
  }

  /**
   * The memory part of kernel_main, in its order: pmm_init with the size
   * from the boot information, then vmm_init, then heap_init over the 16 MiB
   * kernel_heap.
   */
  method BootMemory(info: seq<byte>) returns (pmm: Pmm.PhysicalMemory, vmm: Vmm.AddressSpace, heap: Heap.KernelHeap, ghost allMapped: bool)
    ensures pmm.Valid() && vmm.Valid() && vmm.pmm == pmm
    ensures allMapped ==> vmm.root.Some? && forall a: u64 :: a < Vmm.IDENTITY_LIMIT ==> vmm.Translate(a) == a
    ensures heap.Valid() && heap.initialized && heap.totalSize == HEAP_SIZE && heap.usedSize == 0
    ensures heap.blocks == [Heap.Block(HEAP_SIZE - Heap.HEADER, true)]
    ensures !allMapped ==> vmm.Exhausted()
  {
    pmm := new Pmm.PhysicalMemory();
    pmm.Init(MemorySize(info));
    vmm := new Vmm.AddressSpace(pmm);
    allMapped := vmm.Init();
    var arena := new byte[HEAP_SIZE];
    heap := new Heap.KernelHeap(arena);
    heap.Init(HEAP_SIZE);
  }

  /** Tokens for shell_update, shell_draw, shell_handle_char and shell_handle_special_key. */
  const SHELL_UPDATE := Tty.Present(1)
  const SHELL_DRAW := Tty.Present(2)
  const SHELL_CHAR := Tty.Present(3)
  const SHELL_SPECIAL := Tty.Present(4)

  /** The record shell_init leaves in TTYs 0-5: tty_init's record registered in shell mode with the shell's callbacks. */
  const SHELL_RECORD := Tty.Registered(Tty.INIT_RECORD, Tty.ShellMode, SHELL_UPDATE, SHELL_DRAW, SHELL_CHAR, SHELL_SPECIAL)

  /** What tarfs_init gives kernel_main: no call when there is no initrd to load. */
  function InitrdMount(info: seq<byte>, initrd: seq<byte>): (r: Tarfs.InitResult)
    ensures !LoadsInitrd(info) ==> r == Tarfs.NullRoot
    ensures LoadsInitrd(info) ==> r == Tarfs.InitSpec(initrd)
  {
    if LoadsInitrd(info) then Tarfs.InitSpec(initrd) else Tarfs.NullRoot
  }

  /**
   * The filesystem part of kernel_main: vfs_init, then tarfs_init on the
   * initrd and vfs_mount_root when there is an initrd to load and it gives a
   * root. `initrd` is the memory the module occupies. When tarfs_init never
   * returns, `hung` is set and nothing is mounted.
   */
  method MountInitrd(fs: Vfs.FileSystem, info: seq<byte>, initrd: seq<byte>) returns (hung: bool)
    requires fs.Valid() && fs.root.None? && fs.cwd.None?
    requires LoadsInitrd(info) ==> |initrd| == Initrd(info).value.size
    modifies fs, fs.fds
    ensures fs.Valid() && forall k :: 0 <= k < Vfs.MAX_FD ==> fs.fds[k] == Vfs.EMPTY_FD
    ensures hung <==> InitrdMount(info, initrd).Spins?
    ensures fs.root == (if InitrdMount(info, initrd).Mounted? then Some(InitrdMount(info, initrd).root) else None)
    ensures fs.cwd == fs.root
  {
    fs.Init();
    hung := false;
    var m := Initrd(info);
    if m.Some? && m.value.start != 0 && m.value.size > 0 {
      var r := Tarfs.TarfsInit(initrd);
      if r.Spins? {
        hung := true;
        return;
      }
      if r.Mounted? {
        fs.MountRoot(Some(r.root));
      }
    }
  }

  /** tty_init, then shell_init's registration of TTYs 0-5 in shell mode with the shell's callbacks. */
  method InitTerminals(table: Tty.TtyTable)
    requires table.Valid()
    modifies table, table.ttys, table.buffers
    ensures table.Valid() && table.current == 0
    ensures forall t :: 0 <= t < Tty.MAX_TTYS ==> table.ttys[t] == (if t < 6 then SHELL_RECORD else Tty.INIT_RECORD)
  {
    table.Init();
    var i := 0;
    while i < 6
      invariant 0 <= i <= 6
      invariant table.Valid() && table.current == 0
      invariant forall t :: 0 <= t < Tty.MAX_TTYS ==> table.ttys[t] == (if t < i then SHELL_RECORD else Tty.INIT_RECORD)
    {
      table.Register(i, Tty.ShellMode, SHELL_UPDATE, SHELL_DRAW, SHELL_CHAR, SHELL_SPECIAL);
      i := i + 1;
    }
  }

  /**
   * kernel_main up to its main loop, in its order: the memory managers,
   * the filesystem and initrd, then the terminals. When tarfs_init never
   * returns, `hung` is set and the terminals are left as static storage
   * has them.
   */
  method Boot(info: seq<byte>, initrd: seq<byte>)
    returns (pmm: Pmm.PhysicalMemory, vmm: Vmm.AddressSpace, heap: Heap.KernelHeap, ghost allMapped: bool,
             fs: Vfs.FileSystem, table: Tty.TtyTable, hung: bool)
    requires LoadsInitrd(info) ==> |initrd| == Initrd(info).value.size
    ensures pmm.Valid() && vmm.Valid() && vmm.pmm == pmm && (!allMapped ==> vmm.Exhausted())
    ensures heap.Valid() && heap.totalSize == HEAP_SIZE && heap.blocks == [Heap.Block(HEAP_SIZE - Heap.HEADER, true)]
    ensures hung <==> InitrdMount(info, initrd).Spins?
    ensures fs.Valid() && fs.cwd == fs.root
    ensures fs.root == (if InitrdMount(info, initrd).Mounted? then Some(InitrdMount(info, initrd).root) else None)
    ensures table.Valid() && table.current == 0
    ensures hung ==> table.ttys[..] == seq(Tty.MAX_TTYS, _ => Tty.ZERO_RECORD)
    ensures !hung ==> forall t :: 0 <= t < Tty.MAX_TTYS ==> table.ttys[t] == (if t < 6 then SHELL_RECORD else Tty.INIT_RECORD)
  {
    pmm, vmm, heap, allMapped := BootMemory(info);
    fs := new Vfs.FileSystem();
    hung := MountInitrd(fs, info, initrd);
    table := new Tty.TtyTable();
    if !hung {
      InitTerminals(table);
    }
  }

  /** The update callbacks one main-loop pass calls, in TTY order: those of the initialized TTYs that have one. */
  function UpdateCalls(recs: seq<Tty.TtyRecord>): (ids: seq<nat>)
    ensures |ids| <= |recs|
    ensures forall id :: id in ids <==> exists k :: 0 <= k < |recs| && recs[k].initialized && recs[k].update == Tty.Present(id)
  {
    if recs == [] then []
    else
      var rest := UpdateCalls(recs[1..]);
      assert forall k :: 1 <= k < |recs| ==> recs[k] == recs[1..][k - 1];
      if recs[0].initialized && recs[0].update.Present? then [recs[0].update.id] + rest else rest
  }

  /** The current TTY is drawn when it has a draw callback and is in game mode or needs a redraw. */
  predicate Draws(r: Tty.TtyRecord)
  {
    r.draw.Present? && (r.mode == Tty.GameMode || r.needsRedraw)
  }

  /** The current TTY's record after the pass: a drawn shell-mode TTY no longer needs a redraw. */
  function AfterDraw(r: Tty.TtyRecord): (r': Tty.TtyRecord)
    ensures r'.needsRedraw <==> r.needsRedraw && !(Draws(r) && r.mode == Tty.ShellMode)
    ensures r'.(needsRedraw := r.needsRedraw) == r
  {
    if Draws(r) && r.mode == Tty.ShellMode then r.(needsRedraw := false) else r
  }

  /** A TTY in game mode keeps asking for redraws, and a shell-mode TTY that is drawn stops asking. */
  lemma RedrawRule(r: Tty.TtyRecord)
    ensures r.mode == Tty.GameMode ==> AfterDraw(r) == r
    ensures r.mode == Tty.ShellMode && r.draw.Present? ==> !AfterDraw(r).needsRedraw
    ensures r.mode == Tty.GameMode && r.draw.Present? ==> Draws(r)
  {
  }

  lemma {:induction false} UpdateCallsAppend(recs: seq<Tty.TtyRecord>, r: Tty.TtyRecord)
    ensures UpdateCalls(recs + [r]) == UpdateCalls(recs) + (if r.initialized && r.update.Present? then [r.update.id] else [])
    decreases |recs|
  {
    if recs == [] {
      assert [] + [r] == [r];
    } else {
      assert (recs + [r])[1..] == recs[1..] + [r];
      UpdateCallsAppend(recs[1..], r);
    }
  }

  /** The loop of the main pass that calls the update callbacks. */
  method CallUpdates(table: Tty.TtyTable) returns (ids: seq<nat>)
    requires table.Valid()
    ensures ids == UpdateCalls(table.ttys[..])
  {
    ids := [];
    var i := 0;
    while i < Tty.MAX_TTYS
      invariant 0 <= i <= Tty.MAX_TTYS
      invariant ids == UpdateCalls(table.ttys[..i])
    {
      assert table.ttys[..i + 1] == table.ttys[..i] + [table.ttys[i]];
      UpdateCallsAppend(table.ttys[..i], table.ttys[i]);
      if table.ttys[i].initialized && table.ttys[i].update.Present? {
        ids := ids + [table.ttys[i].update.id];
      }
      i := i + 1;
    }
    assert table.ttys[..i] == table.ttys[..];
  }

  /**
   * One pass of kernel_main's loop: tty_poll_input, the update callbacks
   * of every initialized TTY, then the current TTY's draw callback when
   * Draws holds, clearing its redraw flag in shell mode. The callbacks are
   * reported, in order, rather than run.
   */
  method MainLoopPass(table: Tty.TtyTable, kb: Keyboard.KeyboardDriver)
    returns (input: seq<Tty.Delivery>, updates: seq<nat>, draw: Option<nat>)
    requires table.Valid() && kb.Valid()
    modifies table, table.ttys, kb`bufferTail
    ensures table.Valid() && kb.Valid() && kb.Queue() == []
    ensures var routed := Tty.RouteAll(old(table.ttys[..]), old(table.current), old(kb.Queue()));
      && input == routed.out && table.current == routed.current
      && updates == UpdateCalls(routed.recs)
      && draw == (if Draws(routed.recs[table.current]) then Some(routed.recs[table.current].draw.id) else None)
      && table.ttys[..] == routed.recs[table.current := AfterDraw(routed.recs[table.current])]
  {
    input := table.PollInput(kb);
    updates := CallUpdates(table);
    var current := table.current;
    draw := None;
    if table.ttys[current].draw.Present? {
      if table.ttys[current].mode == Tty.GameMode || table.ttys[current].needsRedraw {
        draw := Some(table.ttys[current].draw.id);
        if table.ttys[current].mode == Tty.ShellMode {
          table.ttys[current] := table.ttys[current].(needsRedraw := false);
        }
      }
    }
  }
}
