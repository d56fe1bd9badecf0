/*
 * arch/x86_64/idt.c: the interrupt descriptor table and the two C-level
 * interrupt entry points. A gate is the 16-byte 64-bit IDT gate descriptor of
 * the Intel SDM (Volume 3A, section 6.14.1); idt_init clears all 256 gates,
 * then installs the 32 exception stubs and the 16 IRQ stubs. isr_handler
 * reports an exception on the console and halts for vectors 0 to 14;
 * irq_handler dispatches the timer and the keyboard and acknowledges the
 * PICs. Loading the table, the PIC and PIT set-up and `sti` are left out.
 */
module Idt {
  import opened Common
  import opened Digits
  import Console
  import Keyboard

  const IDT_ENTRIES: nat := 256
  /** The kernel code segment selector. */
  const KERNEL_CS: u16 := 0x08
  const IDT_FLAG_PRESENT: byte := 0x80
  const IDT_FLAG_INT_GATE: byte := 0x0E
  /** IDT_FLAG_PRESENT | IDT_FLAG_INT_GATE: a present ring-0 64-bit interrupt gate. */
  const INTERRUPT_GATE: byte := 0x8E

  /** sizeof(idt_entry_t): the packed field widths 2 + 2 + 1 + 1 + 2 + 4 + 4. */
  const ENTRY_SIZE: nat := 2 + 2 + 1 + 1 + 2 + 4 + 4
  /** idt_ptr.limit: `sizeof(idt_entry_t) * IDT_ENTRIES - 1`, the offset of the table's last byte. */
  const LIMIT: u16 := ENTRY_SIZE * IDT_ENTRIES - 1

  /** The present and gate-type bits do not overlap, so their OR is their sum, 0x8E. */
  lemma InterruptGateFlags()
    ensures BitOr(IDT_FLAG_PRESENT, IDT_FLAG_INT_GATE, 8) == INTERRUPT_GATE
  {
    assert Pow2(7) == 128 && Pow2(8) == 256;
    BitOrDisjoint(IDT_FLAG_PRESENT, IDT_FLAG_INT_GATE, 1, 7, 8);
  }

  /** The descriptor table holds 256 sixteen-byte gates and its limit is 4095. */
  lemma TableLimit()
    ensures ENTRY_SIZE == 16 && LIMIT == 4095 && LIMIT + 1 == ENTRY_SIZE * IDT_ENTRIES
  {
  }

  /** idt_entry_t. */
  datatype Gate = Gate(baseLow: u16, selector: u16, zero: byte, flags: byte, baseMid: u16, baseHigh: u32, reserved: u32)

  /** A cleared gate: not present. */
  const EMPTY_GATE := Gate(0, 0, 0, 0, 0, 0, 0)

  /**
   * The gate idt_set_gate stores: `base & 0xFFFF`, `(base >> 16) & 0xFFFF`
   * and `(base >> 32) & 0xFFFFFFFF` (a mask of low ones keeps the remainder),
   * the selector and the flags, with the zero and reserved fields cleared.
   */
  function MakeGate(base: u64, sel: u16, flags: byte): (g: Gate)
    ensures g.selector == sel && g.flags == flags && g.zero == 0 && g.reserved == 0
  {
    Gate(base % U16_LIMIT, sel, 0, flags, base / U16_LIMIT % U16_LIMIT, base / U32_LIMIT % U32_LIMIT, 0)
  }

  /** The handler address a gate holds, from its three pieces. */
  function GateBase(g: Gate): (base: nat)
    ensures base < U64_LIMIT
  {
    g.baseLow + g.baseMid * U16_LIMIT + g.baseHigh * U32_LIMIT
  }

  /** Dropping the low 16 bits twice drops the low 32. */
  lemma WordOfWords(x: nat)
    ensures x / U16_LIMIT / U16_LIMIT == x / U32_LIMIT
  {
  }

  /** The three pieces of a gate recombine into the address it was made from. */
  lemma GateRoundTrip(base: u64, sel: u16, flags: byte)
    ensures GateBase(MakeGate(base, sel, flags)) == base
  {
    var q := base / U16_LIMIT;
    WordOfWords(base);
    assert base / U32_LIMIT == q / U16_LIMIT;
    DivModUnique(base / U32_LIMIT, U32_LIMIT, 0, base / U32_LIMIT);
    assert q == q % U16_LIMIT + U16_LIMIT * (q / U16_LIMIT);
  }

  /** The other direction: every gate with its zero and reserved fields clear is the one made from its own address. */
  lemma GateFromFields(g: Gate)
    requires g.zero == 0 && g.reserved == 0
    ensures MakeGate(GateBase(g), g.selector, g.flags) == g
  {
    var base := GateBase(g);
    var q := g.baseMid + g.baseHigh * U16_LIMIT;
    DivModUnique(base, U16_LIMIT, q, g.baseLow);
    DivModUnique(q, U16_LIMIT, g.baseHigh, g.baseMid);
    WordOfWords(base);
    DivModUnique(g.baseHigh, U32_LIMIT, 0, g.baseHigh);
  }

  /** A gate made from address 0, selector 0 and flags 0 is all zero. */
  lemma ClearedGate()
    ensures MakeGate(0, 0, 0) == EMPTY_GATE
  {
  }

  /**
   * The gate at vector v once idt_init has run, given the addresses of the
   * 32 exception stubs and the 16 IRQ stubs: an installed stub where the
   * address is not NULL, else a cleared gate.
   */
  function Layout(isrs: seq<u64>, irqs: seq<u64>, v: nat): Gate
    requires |isrs| == 32 && |irqs| == 16
  {
    if v < 32 && isrs[v] != 0 then MakeGate(isrs[v], KERNEL_CS, INTERRUPT_GATE)
    else if 32 <= v < 48 && irqs[v - 32] != 0 then MakeGate(irqs[v - 32], KERNEL_CS, INTERRUPT_GATE)
    else EMPTY_GATE
  }

  /**
   * Vectors 0-31 lead to the exception stubs and 32-47 to the IRQ stubs, as
   * present ring-0 interrupt gates in the kernel code segment; every other
   * gate is all zero, so not present.
   */
  lemma LayoutGates(isrs: seq<u64>, irqs: seq<u64>, v: nat)
    requires |isrs| == 32 && |irqs| == 16 && v < IDT_ENTRIES
    ensures v < 32 && isrs[v] != 0 ==>
      Layout(isrs, irqs, v).selector == KERNEL_CS && Layout(isrs, irqs, v).flags == INTERRUPT_GATE
      && GateBase(Layout(isrs, irqs, v)) == isrs[v]
    ensures 32 <= v < 48 && irqs[v - 32] != 0 ==>
      Layout(isrs, irqs, v).selector == KERNEL_CS && Layout(isrs, irqs, v).flags == INTERRUPT_GATE
      && GateBase(Layout(isrs, irqs, v)) == irqs[v - 32]
    ensures v >= 48 ==> Layout(isrs, irqs, v) == Gate(0, 0, 0, 0, 0, 0, 0)
  {
    if v < 32 && isrs[v] != 0 {
      GateRoundTrip(isrs[v], KERNEL_CS, INTERRUPT_GATE);
    } else if 32 <= v < 48 && irqs[v - 32] != 0 {
      GateRoundTrip(irqs[v - 32], KERNEL_CS, INTERRUPT_GATE);
    }
  }

  class Table {
    /** idt[IDT_ENTRIES]. */
    const entries: array<Gate>
    /** idt_ptr.limit. */
    var limit: u16

    /** The static table before idt_init: zero-filled. */
    constructor ()
      ensures fresh(entries) && entries.Length == IDT_ENTRIES && limit == 0
      ensures forall v :: 0 <= v < IDT_ENTRIES ==> entries[v] == EMPTY_GATE
    {
      entries := new Gate[IDT_ENTRIES](_ => EMPTY_GATE);
      limit := 0;
    }

    /** idt_set_gate. */
    method SetGate(num: byte, base: u64, sel: u16, flags: byte)
      requires entries.Length == IDT_ENTRIES
      modifies entries
      ensures entries[..] == old(entries[..])[num := MakeGate(base, sel, flags)]
    {
      entries[num] := MakeGate(base, sel, flags);
    }

    /**
     * idt_init: the cyan banner, the limit, the three loops that clear the
     * table and install the stubs whose address is not NULL, then the
     * closing line and the classic colours.
     */
    method Init(con: Console.Terminal, isrs: seq<u64>, irqs: seq<u64>)
      requires entries.Length == IDT_ENTRIES && |isrs| == 32 && |irqs| == 16
      modifies this, entries, con
      ensures limit == LIMIT
      ensures forall v :: 0 <= v < IDT_ENTRIES ==> entries[v] == Layout(isrs, irqs, v)
      ensures con.out == old(con.out) + "[IDT] Initializing...\n" + "[IDT] Initialized with 256 entries\n"
      ensures con.colors == Console.PresetColors(Console.Classic)
    {
      con.SetColorPreset(Console.Cyan);
      con.Write(Some("[IDT] Initializing...\n"));
      limit := ENTRY_SIZE * IDT_ENTRIES - 1;
      ClearAll();
      InstallExceptions(isrs);
      InstallIrqs(isrs, irqs);
      con.Write(Some("[IDT] Initialized with 256 entries\n"));
      con.SetColorPreset(Console.Classic);
    }

    /** idt_init's first loop: every gate cleared. */
    method ClearAll()
      requires entries.Length == IDT_ENTRIES
      modifies entries
      ensures forall v :: 0 <= v < IDT_ENTRIES ==> entries[v] == EMPTY_GATE
    {
      var i := 0;
      while i < IDT_ENTRIES
        invariant 0 <= i <= IDT_ENTRIES
        invariant forall v :: 0 <= v < i ==> entries[v] == EMPTY_GATE
      {
        SetGate(i, 0, 0, 0);
        i := i + 1;
      }
    }

    /** idt_init's second loop: the exception stubs at vectors 0-31. */
    method InstallExceptions(isrs: seq<u64>)
      requires entries.Length == IDT_ENTRIES && |isrs| == 32
      requires forall v :: 0 <= v < IDT_ENTRIES ==> entries[v] == EMPTY_GATE
      modifies entries
      ensures forall v :: 0 <= v < 32 ==> entries[v] == if isrs[v] != 0 then MakeGate(isrs[v], KERNEL_CS, INTERRUPT_GATE) else EMPTY_GATE
      ensures forall v :: 32 <= v < IDT_ENTRIES ==> entries[v] == EMPTY_GATE
    {
      var i := 0;
      while i < 32
        invariant 0 <= i <= 32
        invariant forall v :: 0 <= v < i ==> entries[v] == if isrs[v] != 0 then MakeGate(isrs[v], KERNEL_CS, INTERRUPT_GATE) else EMPTY_GATE
        invariant forall v :: i <= v < IDT_ENTRIES ==> entries[v] == EMPTY_GATE
      {
        var isrAddr := isrs[i];
        if isrAddr != 0 {
          SetGate(i, isrAddr, KERNEL_CS, INTERRUPT_GATE);
        }
        i := i + 1;
      }
    }

    /** idt_init's third loop: IRQ stub i at vector 32 + i. */
    method InstallIrqs(isrs: seq<u64>, irqs: seq<u64>)
      requires entries.Length == IDT_ENTRIES && |isrs| == 32 && |irqs| == 16
      requires forall v :: 0 <= v < 32 ==> entries[v] == Layout(isrs, irqs, v)
      requires forall v :: 32 <= v < IDT_ENTRIES ==> entries[v] == EMPTY_GATE
      modifies entries
      ensures forall v :: 0 <= v < IDT_ENTRIES ==> entries[v] == Layout(isrs, irqs, v)
    {
      var i := 0;
      while i < 16
        invariant 0 <= i <= 16
        invariant forall v :: 0 <= v < 32 + i ==> entries[v] == Layout(isrs, irqs, v)
        invariant forall v :: 32 + i <= v < IDT_ENTRIES ==> entries[v] == EMPTY_GATE
      {
        var irqAddr := irqs[i];
        if irqAddr != 0 {
          SetGate(32 + i, irqAddr, KERNEL_CS, INTERRUPT_GATE);
        }
        i := i + 1;
      }
    }
  }

  /** get_exception_name's table, by vector. */
  const EXCEPTION_NAMES: seq<string> := [
    "Divide by zero", "Debug", "NMI", "Breakpoint", "Overflow",
    "Bound range exceeded", "Invalid opcode", "Device not available",
    "Double fault", "Coprocessor overrun", "Invalid TSS", "Segment not present",
    "Stack-segment fault", "General protection fault", "Page fault", "Reserved",
    "Floating point", "Alignment check", "Machine check", "SIMD floating point",
    "Virtualization", "Control protection", "Reserved", "Reserved",
    "Reserved", "Reserved", "Reserved", "Reserved", "Hypervisor injection",
    "VMM communication", "Security", "Reserved"]

  /** get_exception_name. */
  function ExceptionName(v: byte): (name: string)
    ensures |name| > 0
    ensures v >= 32 ==> name == "Unknown"
  {
    if v < 32 then EXCEPTION_NAMES[v] else "Unknown"
  }

  /** Only vectors past the table are "Unknown"; the faults the kernel cares most about have their own names. */
  lemma ExceptionNames(v: byte)
    ensures ExceptionName(v) == "Unknown" <==> v >= 32
    ensures ExceptionName(0) == "Divide by zero" && ExceptionName(8) == "Double fault"
    ensures ExceptionName(13) == "General protection fault" && ExceptionName(14) == "Page fault"
  {
    assert forall i :: 0 <= i < 32 ==> |EXCEPTION_NAMES[i]| != 7;
  }

  /** registers_t: what the interrupt stubs push. */
  datatype Registers = Registers(
    r15: u64, r14: u64, r13: u64, r12: u64, r11: u64, r10: u64, r9: u64, r8: u64,
    rdi: u64, rsi: u64, rbp: u64, rdx: u64, rcx: u64, rbx: u64, rax: u64,
    intNo: u64, errCode: u64,
    rip: u64, cs: u64, rflags: u64, rsp: u64, ss: u64)

  /** What console_write_hex64 prints. */
  function HexText(n: u64): string
  {
    "0x" + Hex(n, 16)
  }

  /**
   * A labelled value as isr_handler and dump_registers print it: the label,
   * the value in hexadecimal, then a separator.
   */
  function Field(name: string, value: u64, sep: string): string
  {
    name + HexText(value) + sep
  }

  /** dump_registers' text. */
  function Dump(regs: Registers): string
  {
    "Registers:\n"
    + Field("RAX: ", regs.rax, "  ") + Field("RBX: ", regs.rbx, "  ") + Field("RCX: ", regs.rcx, "\n")
    + Field("RDX: ", regs.rdx, "  ") + Field("RSI: ", regs.rsi, "  ") + Field("RDI: ", regs.rdi, "\n")
    + Field("RIP: ", regs.rip, "\n")
    + Field("RSP: ", regs.rsp, "\n")
  }

  /** The first line of an exception report: the exception's name and its vector in decimal. */
  function Headline(v: byte): string
  {
    "\n[ISR] Exception: " + ExceptionName(v) + " (" + Decimal(v) + ")\n"
  }

  /** A concatenation starts with its first part and ends with its last. */
  lemma Framed(h: string, m1: string, m2: string, d: string)
    ensures (h + m1 + m2 + d)[..|h|] == h && (h + m1 + m2 + d)[|h| + |m1| + |m2|..] == d
  {
    assert (h + m1 + m2 + d)[..|h|] == h;
    assert (h + m1 + m2 + d)[|h| + |m1| + |m2|..] == d;
  }

  /** isr_handler's report of an exception: the headline, the faulting address for a page fault, the error code and the registers. */
  function Report(regs: Registers, cr2: u64): (r: string)
    requires regs.intNo < 32
    ensures var h, d := Headline(regs.intNo), Dump(regs);
      |r| >= |h| + |d| && r[..|h|] == h && r[|r| - |d|..] == d
  {
    var h, d := Headline(regs.intNo), Dump(regs);
    var pf := if regs.intNo == 14 then Field("Page fault at address: ", cr2, "\n") else "";
    var e := Field("Error code: ", regs.errCode, "\n");
    Framed(h, pf, e, d);
    h + pf + e + d
  }

  /** dump_registers. */
  method DumpRegisters(con: Console.Terminal, regs: Registers)
    modifies con`out
    ensures con.out == old(con.out) + Dump(regs)
  {
    ghost var o := con.out;
    con.Write(Some("Registers:\n"));
    ghost var d: string := "Registers:\n";
    WriteField(con, "RAX: ", regs.rax, "  ");
    Console.Appended(o, d, Field("RAX: ", regs.rax, "  "));
    d := d + Field("RAX: ", regs.rax, "  ");
    WriteField(con, "RBX: ", regs.rbx, "  ");
    Console.Appended(o, d, Field("RBX: ", regs.rbx, "  "));
    d := d + Field("RBX: ", regs.rbx, "  ");
    WriteField(con, "RCX: ", regs.rcx, "\n");
    Console.Appended(o, d, Field("RCX: ", regs.rcx, "\n"));
    d := d + Field("RCX: ", regs.rcx, "\n");
    WriteField(con, "RDX: ", regs.rdx, "  ");
    Console.Appended(o, d, Field("RDX: ", regs.rdx, "  "));
    d := d + Field("RDX: ", regs.rdx, "  ");
    WriteField(con, "RSI: ", regs.rsi, "  ");
    Console.Appended(o, d, Field("RSI: ", regs.rsi, "  "));
    d := d + Field("RSI: ", regs.rsi, "  ");
    WriteField(con, "RDI: ", regs.rdi, "\n");
    Console.Appended(o, d, Field("RDI: ", regs.rdi, "\n"));
    d := d + Field("RDI: ", regs.rdi, "\n");
    WriteField(con, "RIP: ", regs.rip, "\n");
    Console.Appended(o, d, Field("RIP: ", regs.rip, "\n"));
    d := d + Field("RIP: ", regs.rip, "\n");
    WriteField(con, "RSP: ", regs.rsp, "\n");
    Console.Appended(o, d, Field("RSP: ", regs.rsp, "\n"));
  }

  /** `console_write(name); console_write_hex64(value); console_write(sep);` */
  method WriteField(con: Console.Terminal, name: string, value: u64, sep: string)
    modifies con`out
    ensures con.out == old(con.out) + Field(name, value, sep)
  {
    con.Write(Some(name));
    con.WriteHex64(value);
    con.Write(Some(sep));
  }

  /** isr_handler's first line. */
  method WriteHeadline(con: Console.Terminal, v: byte)
    requires v < 32
    modifies con`out
    ensures con.out == old(con.out) + Headline(v)
  {
    ghost var o := con.out;
    var name := ExceptionName(v);
    con.Write(Some("\n[ISR] Exception: "));
    con.Write(Some(name));
    Console.Appended(o, "\n[ISR] Exception: ", name);
    ghost var d := "\n[ISR] Exception: " + name;
    con.Write(Some(" ("));
    Console.Appended(o, d, " (");
    d := d + " (";
    con.WriteDec(v);
    Console.Appended(o, d, Decimal(v));
    d := d + Decimal(v);
    con.Write(Some(")\n"));
    Console.Appended(o, d, ")\n");
  }

  /** The last line isr_handler prints before it halts. */
  const HALT_MESSAGE := "System halted!\n"

  /**
   * isr_handler, with CR2 as a parameter: in red, the report for a CPU
   * exception; for vectors 0 to 14 the system then halts (`halted`, and
   * nothing after it runs), otherwise the classic colours come back.
   */
  method IsrHandler(con: Console.Terminal, regs: Registers, cr2: u64) returns (halted: bool)
    modifies con`out, con`colors
    ensures halted <==> regs.intNo <= 14
    ensures halted ==> con.colors == Console.PresetColors(Console.Red)
    ensures !halted ==> con.colors == Console.PresetColors(Console.Classic)
    ensures regs.intNo <= 14 ==> con.out == old(con.out) + Report(regs, cr2) + HALT_MESSAGE
    ensures 14 < regs.intNo < 32 ==> con.out == old(con.out) + Report(regs, cr2)
    ensures regs.intNo >= 32 ==> con.out == old(con.out)
  {
    con.SetColorPreset(Console.Red);
    halted := false;
    if regs.intNo < 32 {
      halted := ReportFault(con, regs, cr2);
      if halted {
        return;
      }
    }
    con.SetColorPreset(Console.Classic);
  }

  /** The exception branch of isr_handler: the report, then for vectors 0 to 14 the halt message. */
  method ReportFault(con: Console.Terminal, regs: Registers, cr2: u64) returns (halted: bool)
    requires regs.intNo < 32
    modifies con`out
    ensures halted <==> regs.intNo <= 14
    ensures halted ==> con.out == old(con.out) + Report(regs, cr2) + HALT_MESSAGE
    ensures !halted ==> con.out == old(con.out) + Report(regs, cr2)
  {
    ReportException(con, regs, cr2);
    halted := regs.intNo <= 14;
    if halted {
      con.Write(Some(HALT_MESSAGE));
    }
  }

  /** The report isr_handler prints for vectors below 32. */
  method ReportException(con: Console.Terminal, regs: Registers, cr2: u64)
    requires regs.intNo < 32
    modifies con`out
    ensures con.out == old(con.out) + Report(regs, cr2)
  {
    ghost var o := con.out;
    WriteHeadline(con, regs.intNo);
    ghost var d := Headline(regs.intNo);
    if regs.intNo == 14 {
      WriteField(con, "Page fault at address: ", cr2, "\n");
      Console.Appended(o, d, Field("Page fault at address: ", cr2, "\n"));
      d := d + Field("Page fault at address: ", cr2, "\n");
    } else {
      assert d == d + "";
    }
    assert con.out == o + d;
    assert d == Headline(regs.intNo) + (if regs.intNo == 14 then Field("Page fault at address: ", cr2, "\n") else "");
    WriteField(con, "Error code: ", regs.errCode, "\n");
    Console.Appended(o, d, Field("Error code: ", regs.errCode, "\n"));
    d := d + Field("Error code: ", regs.errCode, "\n");
    assert con.out == o + d;
    DumpRegisters(con, regs);
    Console.Appended(o, d, Dump(regs));
    assert d + Dump(regs) == Report(regs, cr2);
  }

  /** The PIC command ports and the end-of-interrupt command. */
  const PIC1_COMMAND: u16 := 0x20
  const PIC2_COMMAND: u16 := 0xA0
  const PIC_EOI: byte := 0x20

  /** The command ports irq_handler sends PIC_EOI to, in order. */
  function EoiPorts(v: u64): (ports: seq<u16>)
  {
    (if v >= 40 then [PIC2_COMMAND] else []) + [PIC1_COMMAND]
  }

  /**
   * The master PIC is always acknowledged, and last; the slave PIC is
   * acknowledged exactly for the vectors it raises (IRQ 8 onwards, from
   * vector 40), before the master.
   */
  lemma EoiRule(v: u64)
    ensures |EoiPorts(v)| >= 1 && EoiPorts(v)[|EoiPorts(v)| - 1] == PIC1_COMMAND
    ensures PIC2_COMMAND in EoiPorts(v) <==> v >= 40
    ensures forall k :: 0 <= k < |EoiPorts(v)| - 1 ==> EoiPorts(v)[k] == PIC2_COMMAND
  {
  }

  /**
   * irq_handler, with the keyboard's data port as a parameter: the timer
   * tick for vector 32 (pit_handler, reported in `tick`), the keyboard
   * handler for 33, then the end-of-interrupt writes.
   */
  method IrqHandler(kb: Keyboard.KeyboardDriver, intNo: u64, scancode: byte) returns (tick: bool, eoi: seq<u16>)
    requires kb.Valid()
    modifies kb, kb.keyBuffer
    ensures kb.Valid()
    ensures tick <==> intNo == 32
    ensures intNo == 33 ==> (kb.Mods() == Keyboard.Translate(old(kb.Mods()), scancode).mods
      && kb.Queue() == Keyboard.Offer(old(kb.Queue()), Keyboard.Translate(old(kb.Mods()), scancode).event))
    ensures intNo != 33 ==> unchanged(kb) && unchanged(kb.keyBuffer)
    ensures eoi == EoiPorts(intNo)
  {
    tick := false;
    if intNo == 32 {
      tick := true;
    } else if intNo == 33 {
      kb.Handler(scancode);
    }
    eoi := [];
    if intNo >= 40 {
      eoi := eoi + [PIC2_COMMAND];
    }
    eoi := eoi + [PIC1_COMMAND];
  }
}
