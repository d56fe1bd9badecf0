# lexyOS kernel core in Dafny

A Dafny model of the core of lexyOS, a small single-core x86_64 kernel. The
model has one module per core source file. Each state the C updates in place
is a class whose methods update it: the physical page bitmap, the page
tables, the heap arena, the file descriptor table, the TTY records and
their command buffers, the shell history, the framebuffer words, the VGA
cell array and the game boards. Each class is proved against specification
functions on values. Those functions in turn carry the lemmas that state
what the kernel promises.

- **Memory** (`pmm.dfy`, `vmm.dfy`, `heap.dfy`):
  - The physical page allocator over its frame bitmap: first fit for one page and for runs, frees that ignore frames already free, and the 16 MiB reservation.
  - The four-level page-table walk: map, unmap and translate. Tables come from the page allocator, and a table exhausted mid-walk is reported as a failure.
  - The first-fit heap over one arena. Blocks are split and merged in address order. kmalloc, kmalloc_aligned, kcalloc, krealloc and kfree are modelled, as are the used and free counters.
- **Boot** (`multiboot.dfy`, `kernel.dfy`): the Multiboot2 tag walks for the memory size and the initrd; kernel_main's start-up order up to its loop (the memory managers, vfs_init, the initrd mount, tty_init and the shell's TTY registration); and one pass of the main loop.
- **Files** (`tarfs.dfy`, `vfs.dfy`, `fs_node.dfy`):
  - The ustar archive reader: octal sizes, the header walk, reads, readdir and finddir.
  - The VFS: paths, the current directory, file descriptors and the dispatch to the node's operations.
- **Devices** (`serial.dfy`, `idt.dfy`, `keyboard.dfy`, `framebuffer.dfy`, `vga_text.dfy`):
  - COM1 output.
  - The IDT gate layout, the exception names and the IRQ and ISR rules.
  - The scancode translation and the event queue.
  - The framebuffer search, pixels and rectangles.
  - The VGA text cell array.
- **Console** (`console.dfy`, `digits.dfy`, `fb_console.dfy`):
  - Decimal and hexadecimal output with their round trips.
  - The colour presets.
  - decode_utf8, which trusts the lead byte and checks neither the continuation bytes nor overlong forms nor surrogates.
  - The cursor of the framebuffer console.
- **TTYs and shell** (`tty.dfy`, `shell.dfy`, `shell_text.dfy`, `shell_history.dfy`):
  - Eight TTY records, six of them reachable with Alt+F1..F6, with switching and input routing.
  - The line editor, with the Enter parser and command dispatch.
  - History and TAB completion.
- **Games** (`tetris.dfy`, `snake.dfy`): the Tetris board with its line clearing and the Snake body with its invariants.

Integer widths are explicit. Fixed-width values are kept in range with `U32`, `U64`, `Add32` and `ToInt32` (module `Common`), and every wrap-around the C relies on is written out.

Two memory counters in the code do not track the memory they report on, and the model keeps them as written:
- kmalloc adds the aligned request plus a header to used_size (mm/heap.c:121), while kfree subtracts the block's stored size plus a header (mm/heap.c:195). A block left unsplit is larger than its request, so heap_get_used and heap_get_free drift (see Findings).
- pmm_alloc_page and pmm_free_page count used_blocks one frame at a time (mm/pmm.c:130, 142), but pmm_get_used_memory multiplies it by 32 frames (mm/pmm.c:181-183), as `Pmm.UsedMemoryDrift` shows.

## Model

| member | source | states |
|---|---|---|
| Digits.HexChar | ui/console.c:42-48 | the digit table maps 0-9 to '0'-'9' and 10-15 to 'A'-'F', always an upper-case hexadecimal digit |
| Digits.Decimal | ui/console.c:22-39 | what the decimal writers print is a non-empty digit string that starts with '0' exactly when the number is 0 |
| Digits.DigitsRoundTrip | ui/console.c:31-38 | reading the digits of a positive number back gives the number |
| Digits.DecimalRoundTrip | drivers/serial/serial.c:72-89 | reading what the decimal writers print back gives the number, 0 included |
| Digits.CanonicalDigits | ui/console.c:31-38 | every digit string without a leading zero is exactly the digits printed for the number it denotes |
| Digits.CanonicalDecimal | drivers/serial/serial.c:72-89 | every canonical decimal string ("0" or no leading zero) is what the writers print for its value |
| Digits.DigitsLength | ui/console.c:28-34 | a number below 10^k has at most k digits |
| Digits.DecimalWidths | drivers/serial/serial.c:74-85 | a uint32 has at most 10 digits and a uint64 at most 20, so the 16- and 21-character buffers never overflow |
| Digits.FillDigits | ui/console.c:31-34 | the digit loop fills exactly as many characters as the number has digits, lowest first, so that emitting them backwards prints the digits |
| Digits.Reversed | ui/console.c:36-38 | the emitting order: the i-th character out is the buffer's (n-1-i)-th |
| Digits.Hex | ui/console.c:46-49 | k nibbles give exactly k characters |
| Digits.HexDigits | ui/console.c:46-49 | every character printed in hexadecimal is a hexadecimal digit |
| Digits.HexRoundTrip | ui/console.c:46-49 | reading k printed nibbles back gives the number modulo 16^k |
| Digits.Hex64RoundTrip | drivers/serial/serial.c:62-70 | the sixteen nibbles printed for a uint64 read back as the number itself |
| Digits.Hex32RoundTrip | ui/console.c:52-61 | the eight nibbles printed for a uint32 read back as the number itself |
| Digits.ShrNibble | ui/console.c:47 | shifting four more bits right divides by 16 |
| Digits.HexNext | ui/console.c:46-49 | the nibble `(num >> shift) & 0xF` is the next digit after those above it |
| Digits.HexAppend | drivers/serial/serial.c:67-69 | a writer that printed the nibbles above bit `shift` extends its text by the nibble at `shift` to the next prefix of the hexadecimal text |
| Digits.ShrBelow | drivers/serial/serial.c:67-68 | a number below 2^(b+m) shifted right by b bits is below 2^m |
| Digits.ShrAll | ui/console.c:46-49 | nothing is left of a uint64 shifted by 64 bits or of a uint32 shifted by 32, so the top nibble is the last one |
| Console.PresetColors | ui/console.c:78-108 | no preset draws text in its own background colour, and only the classic preset is white on black |
| Console.PresetsDistinct | ui/console.c:78-108 | two presets that select the same colours are the same preset |
| Console.ClassicIsStartup | ui/console.c:80-82 | the classic preset is white on black, the framebuffer console's start-up colours |
| Console.Init | ui/console.c:4-7 | a NULL framebuffer changes nothing; otherwise the framebuffer console is initialised on it, cursor home, scale 1 |
| Console.Terminal.constructor | ui/console.c:4-7 | nothing printed, white on black |
| Console.Terminal.PutChar | ui/console.c:13-15 | one character is appended to the output |
| Console.Terminal.Write | ui/console.c:17-20 | a NULL string prints nothing; otherwise the whole string is appended |
| Console.Terminal.WriteDec | ui/console.c:22-39 | the output grows by exactly the decimal text of the number ("0" for zero) |
| Console.Terminal.Emit | ui/console.c:36-38 | the filled buffer is printed back to front |
| Console.Terminal.WriteHex64 | ui/console.c:41-50 | the output grows by "0x" and the sixteen nibbles of the number, most significant first |
| Console.Terminal.WriteHex32 | ui/console.c:52-61 | the output grows by "0x" and the eight nibbles of the number, most significant first |
| Console.Terminal.WriteNibbles | ui/console.c:46-49 | the digit loop appends exactly the k low nibbles, most significant first |
| Console.Terminal.SetFg | ui/console.c:64-66 | only the foreground changes |
| Console.Terminal.SetBg | ui/console.c:68-70 | only the background changes |
| Console.Terminal.SetColors | ui/console.c:72-76 | the colours become exactly the given pair |
| Console.Terminal.SetColorPreset | ui/console.c:78-108 | the colours become the preset's pair |
| Serial.NulIndex | drivers/serial/serial.c:55 | the position of the first NUL, with no NUL before it |
| Serial.Crlf | drivers/serial/serial.c:53-60 | the line-feed expansion never shortens the text |
| Serial.Expand | drivers/serial/serial.c:56-58 | a character is sent last, after a carriage return exactly when it is a line feed |
| Serial.StripCrlf | drivers/serial/serial.c:55-59 | removing the carriage returns from what serial_write sends gives back text that had none of its own |
| Serial.StripCrAppend | drivers/serial/serial.c:55-59 | removing carriage returns distributes over concatenation |
| Serial.StripExpand | drivers/serial/serial.c:56-58 | removing carriage returns from one expanded character leaves the character |
| Serial.CrBeforeLf | drivers/serial/serial.c:56-58 | every line feed sent comes straight after a carriage return |
| Serial.PlainText | drivers/serial/serial.c:53-60 | text with neither a NUL nor a line feed is sent exactly as it is |
| Serial.Port.constructor | drivers/serial/serial.c:3 | before serial_init: not initialised, nothing written |
| Serial.Port.Init | drivers/serial/serial.c:24-35 | the seven configuration writes in order, then the port is initialised |
| Serial.Port.PutChar | drivers/serial/serial.c:42-51 | after initialisation the character is sent; before it nothing is |
| Serial.Port.Write | drivers/serial/serial.c:53-60 | sends the characters up to the terminator with a carriage return before each line feed, or nothing before initialisation |
| Serial.Port.WriteHex64 | drivers/serial/serial.c:62-70 | sends "0x" and the sixteen nibbles of the value, most significant first, or nothing before initialisation |
| Serial.Port.WriteNibbles | drivers/serial/serial.c:67-69 | the loop over shifts 60, 56, ..., 0 sends exactly the sixteen nibbles |
| Serial.Port.PutNibble | drivers/serial/serial.c:68 | one iteration extends the sent nibbles by the one at the current shift |
| Serial.Port.WriteDec | drivers/serial/serial.c:72-89 | sends exactly the decimal text of the value ("0" for zero), or nothing before initialisation |
| Serial.Port.Emit | drivers/serial/serial.c:87-88 | the filled buffer is sent back to front |
| Idt.InterruptGateFlags | include/arch/x86_64/idt.h:11-15 | present OR interrupt-gate is the flag byte 0x8E |
| Idt.TableLimit | arch/x86_64/idt.c:103-104 | a packed gate is 16 bytes, so the limit is 4095, the offset of the table's last byte |
| Idt.MakeGate | arch/x86_64/idt.c:36-44 | a gate keeps the selector and flags and clears the zero and reserved fields |
| Idt.GateBase | include/arch/x86_64/idt.h:19-27 | the three base fields reassemble to a 64-bit address |
| Idt.GateRoundTrip | arch/x86_64/idt.c:37-39 | splitting a base into low, middle and high fields and joining them again gives the base back |
| Idt.GateFromFields | arch/x86_64/idt.c:36-44 | every gate with zero and reserved cleared is the one idt_set_gate writes for its own base, selector and flags |
| Idt.WordOfWords | arch/x86_64/idt.c:38-39 | two 16-bit shifts are one 32-bit shift |
| Idt.ClearedGate | arch/x86_64/idt.c:107-109 | idt_set_gate(i, 0, 0, 0) writes an all-zero, not-present gate |
| Idt.LayoutGates | arch/x86_64/idt.c:107-127 | after idt_init, vectors 0-31 hold the exception stubs and 32-47 the IRQ stubs as present kernel interrupt gates where a stub exists, every other vector is cleared |
| Idt.Table.constructor | arch/x86_64/idt.c:9-10 | a zeroed static table of 256 gates |
| Idt.Table.SetGate | arch/x86_64/idt.c:36-44 | only entry `num` changes, to the gate for base, selector and flags |
| Idt.Table.Init | arch/x86_64/idt.c:98-141 | the limit is 4095, every vector holds its layout gate, the two progress lines are printed and the colours end classic |
| Idt.Table.ClearAll | arch/x86_64/idt.c:107-109 | every gate is cleared |
| Idt.Table.InstallExceptions | arch/x86_64/idt.c:112-118 | vectors 0-31 get their stub's gate where the stub exists, the rest stay cleared |
| Idt.Table.InstallIrqs | arch/x86_64/idt.c:121-127 | vectors 32-47 get their stub's gate where the stub exists, nothing else changes |
| Idt.ExceptionNames | arch/x86_64/idt.c:46-58 | the name is "Unknown" exactly for vectors 32 and above; vectors 0, 8, 13 and 14 have their architectural names |
| Idt.ExceptionName | arch/x86_64/idt.c:46-58 | every vector has a non-empty name, "Unknown" from 32 on |
| Idt.Report | arch/x86_64/idt.c:147-165 | the report starts with the headline and ends with the register dump |
| Idt.DumpRegisters | arch/x86_64/idt.c:60-70 | the output grows by the register dump: RAX, RBX, RCX on one line, RDX, RSI, RDI on the next, then RIP and RSP, each in 0x-prefixed hexadecimal |
| Idt.WriteField | arch/x86_64/idt.c:62 | one register: its name, its value in hexadecimal, its separator |
| Idt.WriteHeadline | arch/x86_64/idt.c:147-151 | the exception line: its name and its vector in decimal |
| Idt.IsrHandler | arch/x86_64/idt.c:143-174 | exceptions 0-14 print the report and "System halted!" and halt in red; 15-31 print the report and return to the classic colours; vectors 32 and above print nothing |
| Idt.ReportFault | arch/x86_64/idt.c:146-170 | the report of an exception, followed by the halt line exactly when the vector is 14 or below |
| Idt.ReportException | arch/x86_64/idt.c:147-165 | the report: the headline, the faulting address for a page fault only, the error code, the register dump |
| Idt.EoiRule | arch/x86_64/idt.c:186-190 | the master PIC always gets the end of interrupt, last; the slave gets it first exactly for vectors 40 and above |
| Idt.IrqHandler | arch/x86_64/idt.c:176-191 | vector 32 ticks the timer, vector 33 runs the keyboard handler on the scancode, no other vector touches the keyboard, and the end-of-interrupt writes follow the rule above |
| Keyboard.Translate | drivers/input/keyboard.c:65-161 | every event carries the scancode and the modifier flags as they were, and producing an event always clears the extended prefix |
| Keyboard.PrefixOnlyArms | drivers/input/keyboard.c:69-72 | 0xE0 only arms the extended flag and produces nothing |
| Keyboard.ReleaseClears | drivers/input/keyboard.c:75-89 | a release produces no event, clears the prefix and clears exactly the released modifier |
| Keyboard.Release | drivers/input/keyboard.c:75-88 | a release clears exactly the released modifier's flag and the extended prefix |
| Keyboard.Press | drivers/input/keyboard.c:91-104 | a modifier press sets exactly its flag and clears the extended prefix |
| Keyboard.ModifierPress | drivers/input/keyboard.c:92-104 | a modifier press sets exactly its flag, clears the prefix and produces no event |
| Keyboard.PressEvent | drivers/input/keyboard.c:107-151 | any other press produces one event, special exactly after the prefix or for Alt+F1..F6, and a special event carries no character |
| Keyboard.CtrlLetter | drivers/input/keyboard.c:146-148 | with Ctrl held a letter key gives its control code, 1 to 26 |
| Keyboard.ShiftTable | drivers/input/keyboard.c:137-143 | Shift selects the shifted table below scancode 58 only |
| Keyboard.Pending | drivers/input/keyboard.c:47-50 | the ring holds at most 31 events and is empty exactly when head equals tail |
| Keyboard.RoomIffNotFull | drivers/input/keyboard.c:156-157 | the next head differs from the tail exactly when fewer than 31 events are queued |
| Keyboard.PendingPush | drivers/input/keyboard.c:156-160 | storing at the head and advancing it appends the event to the queue |
| Keyboard.PendingPop | drivers/input/keyboard.c:176-177 | the slot at the tail is the oldest event, and advancing the tail removes exactly it |
| Keyboard.PopCount | drivers/input/keyboard.c:177 | advancing the tail of a non-empty ring shortens the queue by one |
| Keyboard.PopIndex | drivers/input/keyboard.c:177 | slot arithmetic of the advanced tail modulo 32 |
| Keyboard.OfferPreservesOrder | drivers/input/keyboard.c:156-160 | events offered while there is room are delivered first-in first-out |
| Keyboard.KeyboardDriver.constructor | drivers/input/keyboard.c:41-50 | the static state: empty queue, no modifiers |
| Keyboard.KeyboardDriver.Init | drivers/input/keyboard.c:52-62 | the queue is emptied and every modifier cleared |
| Keyboard.KeyboardDriver.Enqueue | drivers/input/keyboard.c:120-124 | the event is appended while fewer than 31 are queued and dropped otherwise |
| Keyboard.KeyboardDriver.Handler | drivers/input/keyboard.c:65-161 | the modifiers become the decoder's new state and the queue grows by the decoded event when there is one and room for it |
| Keyboard.KeyboardDriver.KeyChar | drivers/input/keyboard.c:135-148 | the character is the table entry for the shift state, folded to a control code under Ctrl |
| Keyboard.KeyboardDriver.PollEvent | drivers/input/keyboard.c:164-181 | an empty queue yields 0 and no event; otherwise 1 and the oldest event, which leaves the queue |
| Keyboard.KeyboardDriver.HasEvent | drivers/input/keyboard.c:184-190 | true exactly when an event is queued |
| Multiboot.PastEndIsZero | kernel/kernel.c:26 | a field wholly past the end of the information reads as zero, so a walk off the end meets an END tag |
| Multiboot.Align8 | kernel/kernel.c:32 | `(size + 7) & ~7` in uint32 is the size rounded up to a multiple of 8, except that it wraps to 0 for the seven largest sizes |
| Multiboot.Align8IsMask | kernel/kernel.c:32 | Align8 is the AND with ~7 of the wrapping sum, bit for bit |
| Multiboot.RoundUp8 | kernel/kernel.c:32 | without the wrap the stride is the least multiple of 8 not below the size |
| Multiboot.Tags | kernel/kernel.c:26-33 | the walk visits only tags that are not END, at or after its start, and steps over every tag but the last by a stride other than 0 |
| Multiboot.FindTag | kernel/kernel.c:26-33 | a tag that is found has the requested type; the walk is the C's, except that a tag with stride 0 ends it with nothing found where the C never returns |
| Multiboot.FindsFirstBehind | kernel/kernel.c:27-32 | a tag of another type in front of the walk does not change the first tag of the requested type |
| Multiboot.FindTagFirst | kernel/kernel.c:26-33 | the walk finds the first tag of the requested type, and finds nothing exactly when the walk has none |
| Multiboot.FindTagAsWritten | kernel/kernel.c:43-50 | the walk as written: a tag it reports has the requested type; None means the step bound ran out |
| Multiboot.ZeroSizeTagHangs | kernel/kernel.c:26-33 | a tag of size 0 leaves the walk as written at the same tag for ever |
| Multiboot.StuckTagHangs | kernel/kernel.c:26-33 | wherever the corrected walk gives up at a tag with stride 0, the walk as written stays on that tag for ever |
| Multiboot.ZeroSizeTagStops | kernel/kernel.c:26-33 | the corrected walk stops at that tag and finds nothing |
| Multiboot.FindTagAgrees | kernel/kernel.c:26-33 | where every stride before END is non-zero, the walk as written finishes within one step per tag and agrees with the corrected walk |
| Kernel.MemoryFrom | kernel/kernel.c:28-30 | the size is a multiple of 1 KiB and, when `mem_upper + 1024` does not wrap, is (mem_upper + 1024) KiB |
| Kernel.MemorySize | kernel/kernel.c:22-36 | the memory size is always a multiple of 1 KiB |
| Kernel.MemorySizeFirst | kernel/kernel.c:22-36 | the size comes from the first basic memory information tag of the walk, or is 128 MiB when there is none |
| Kernel.FoundIsFirst | kernel/kernel.c:27 | the walk's result is the tag at the position that is first of the requested type |
| Kernel.FirstIsUnique | kernel/kernel.c:26-27 | at most one position is the first of a type |
| Kernel.Initrd | kernel/kernel.c:39-53 | there is an initrd exactly when the walk finds a module tag, and when mod_start is not above mod_end its start plus its size is mod_end |
| Kernel.InitrdNone | kernel/kernel.c:39-53 | there is no initrd exactly when the walk has no module tag |
| Kernel.InitrdFirst | kernel/kernel.c:43-48 | the initrd starts at the first module tag's mod_start and, when the bounds are in order, ends at its mod_end |
| Kernel.BootMemory | kernel/kernel.c:97-100 | after pmm_init, vmm_init and heap_init the three allocators are consistent, the low 16 MiB are identity-mapped unless the PMM ran out of frames, and the heap is one free block over the 16 MiB arena |
| Kernel.InitrdMount | kernel/kernel.c:110-111 | tarfs_init runs, and its result counts, only when get_initrd gives a non-NULL module of non-zero size |
| Kernel.MountInitrd | kernel/kernel.c:103-119 | every descriptor is free; the root and the cwd become tarfs_init's root when it returns one and stay NULL otherwise; hung exactly when tarfs_init never returns |
| Kernel.InitTerminals | ui/shell/shell.c:262-270 | after tty_init, TTYs 0-5 are registered in shell mode with the shell's callbacks, TTYs 6 and 7 are as tty_init leaves them, and TTY 0 is current |
| Kernel.Boot | kernel/kernel.c:96-125 | in kernel_main's order: memory as BootMemory says, then the filesystem as MountInitrd says, then the terminals as InitTerminals says unless tarfs_init never returned, in which case they are still as static storage has them |
| Kernel.UpdateCalls | kernel/kernel.c:134-138 | the update callbacks called are exactly those of the initialized TTYs that have one, in TTY order |
| Kernel.UpdateCallsAppend | kernel/kernel.c:134-138 | one more TTY adds its callback at the end, or nothing |
| Kernel.AfterDraw | kernel/kernel.c:140-147 | the draw clears the redraw flag exactly of a drawn shell-mode TTY and changes nothing else |
| Kernel.RedrawRule | kernel/kernel.c:140-147 | a game-mode TTY with a draw callback is drawn on every pass and keeps its state; a drawn shell-mode TTY stops asking for a redraw |
| Kernel.CallUpdates | kernel/kernel.c:134-138 | the loop reports exactly UpdateCalls of the TTY table |
| Kernel.MainLoopPass | kernel/kernel.c:129-150 | one pass routes every queued key to the TTYs and empties the queue, calls the update callbacks of the routed table, draws the current TTY when Draws holds, and clears only its redraw flag |
| Pmm.ScanFree | mm/pmm.c:63-71 | a free frame extends the current run, which is either complete or still preceded by a used frame |
| Pmm.ScanUsed | mm/pmm.c:72-75 | a used frame restarts the count with no run missed |
| Pmm.SetBitEffect | mm/pmm.c:17 | OR-ing in `1 << j` sets bit j and no other |
| Pmm.ClearBitEffect | mm/pmm.c:26 | AND-ing with `~(1 << j)` clears bit j and no other |
| Pmm.OffsetInjective | mm/pmm.c:14-15 | two frames of one word share a bit exactly when they are the same frame |
| Pmm.PageSplit | mm/pmm.c:47 | `i * 32 + j` is frame j of word i |
| Pmm.SetInWord | mm/pmm.c:13-19 | setting a frame's bit marks that frame used and leaves every other frame as it was |
| Pmm.ClearInWord | mm/pmm.c:22-28 | clearing a frame's bit marks that frame free and leaves every other frame as it was |
| Pmm.CoversStep | mm/pmm.c:169-171 | the frames `start_page + i` visited so far grow by one uint32 frame index per step |
| Pmm.CoversNoWrap | mm/pmm.c:169-171 | without wrap-around the visited frames are the plain range |
| Pmm.CoversAll | mm/pmm.c:169-171 | a count of 2^32 or more visits every uint32 frame index |
| Pmm.FreedSaturates | mm/pmm.c:169-174 | once every index has been visited, further steps free nothing new |
| Pmm.FreeStep | mm/pmm.c:169-174 | one step of the free loop clears its frame and counts it exactly when it was in use |
| Pmm.FreeStepBits | mm/pmm.c:170-171 | the bitmap after one step of the free loop |
| Pmm.FreeStepCount | mm/pmm.c:170-172 | the number of frames freed after one step of the free loop |
| Pmm.CountUsed | mm/pmm.c:181-183 | the number of used frames below n is at most n |
| Pmm.CountUsedAfterSet | mm/pmm.c:129-130 | marking a free frame used raises the count by one when it lies in range |
| Pmm.CountUsedAfterClear | mm/pmm.c:140-142 | freeing a used frame lowers the count by one when it lies in range |
| Pmm.CountUsedPrefix | mm/pmm.c:94-102 | when exactly the first k frames are used the count is k |
| Pmm.CountUsedAll | mm/pmm.c:89-92 | when every frame below n is used the count is n |
| Pmm.LowestFreeIsUnique | mm/pmm.c:41-53 | the lowest free frame is unique, so first-fit is deterministic |
| Pmm.ReservedNeverAllocated | mm/pmm.c:94-100 | while the first 16 MiB stay marked used, no allocation can return a frame below 16 MiB, frame 0 included |
| Pmm.PhysicalMemory.constructor | mm/pmm.c:6-10 | the zero-filled static state: every frame free, all counters 0 |
| Pmm.PhysicalMemory.BitmapSet | mm/pmm.c:13-19 | exactly frame `bit` becomes used, when its word lies inside the bitmap |
| Pmm.PhysicalMemory.BitmapClear | mm/pmm.c:22-28 | exactly frame `bit` becomes free |
| Pmm.PhysicalMemory.FindFreePage | mm/pmm.c:41-53 | the lowest free frame among the searched words, or -1 exactly when all of them are used |
| Pmm.PhysicalMemory.FindFreePages | mm/pmm.c:56-79 | the start of the lowest run of count free frames inside the searched range, or -1 when there is none or count is 0 |
| Pmm.PhysicalMemory.Init | mm/pmm.c:81-102 | total_blocks is the memory's block count capped at MAX_BLOCKS, used_blocks is 128, and exactly the frames from 16 MiB to the end of memory are free |
| Pmm.PhysicalMemory.AllocPage | mm/pmm.c:122-133 | 0 and no change when every frame is used; otherwise the page-aligned address of the lowest free frame, which becomes used, and used_blocks grows by one |
| Pmm.PhysicalMemory.FreePage | mm/pmm.c:135-144 | address 0 or a free frame changes nothing; otherwise exactly that frame becomes free and used_blocks drops by one |
| Pmm.PhysicalMemory.AllocPages | mm/pmm.c:146-162 | 0 and no change for count 0 or when no run fits; otherwise the address of the lowest run of count free frames, all of which become used, and used_blocks grows by count |
| Pmm.PhysicalMemory.MarkRun | mm/pmm.c:155-159 | exactly the frames of the run become used and used_blocks grows by count |
| Pmm.PhysicalMemory.FreePages | mm/pmm.c:164-175 | every used frame among the count uint32 frame indices from the address's frame becomes free, and used_blocks drops by the number of frames that changed |
| Pmm.PhysicalMemory.TestAndClear | mm/pmm.c:140-143 | a used frame is freed and counted; a free one changes nothing |
| Pmm.FirstAllocationAfterInit | mm/pmm.c:81-133 | with 64 MiB of memory the first allocation returns 16 MiB, the first frame past the reserved region |
| Pmm.UsedMemoryDrift | mm/pmm.c:102 | after boot with 64 MiB and one allocation, 16 MiB + 128 KiB is reported used while 16 MiB + 4 KiB is in use (with lines 130, 181-183) |
| Pmm.PhysicalMemory.UsedMemory | mm/pmm.c:181-183 | the reported used memory is always a multiple of 32 frames |
| Pmm.PhysicalMemory.FreeMemory | mm/pmm.c:185-187 | used plus free is the total while used does not exceed it; otherwise the unsigned difference wraps above the total |
| Vmm.Or64 | mm/vmm.c:26 | OR-ing flags below 4096 into a page-aligned address adds them |
| Vmm.Frame | mm/vmm.c:11 | `e & ~0xFFF` is the largest page-aligned value not above e |
| Vmm.Index | mm/vmm.c:62-65 | each level's index `(v >> shift) & 0x1FF` is below 512 |
| Vmm.PageDigits | mm/vmm.c:62-65 | the four indices are the base-512 digits of a 48-bit address's page number |
| Vmm.SamePageIff | mm/vmm.c:116-120 | two 48-bit addresses have the same four indices exactly when they lie in the same page |
| Vmm.Zeros | mm/vmm.c:22-24 | a cleared table: 512 zero entries |
| Vmm.SetEntry | mm/vmm.c:26 | writing one entry changes that entry only and creates no table |
| Vmm.PrefixDigits | mm/vmm.c:62-65 | the index path to each level is the address's leading indices |
| Vmm.WalkAfterCreate | mm/vmm.c:9-28 | linking a new zeroed table into an absent entry changes no walk |
| Vmm.CreateKeepsTree | mm/vmm.c:9-28 | linking a new zeroed table keeps the tree shape, the new table one level deeper |
| Vmm.WalkAfterLeafWrite | mm/vmm.c:80 | a leaf write changes no walk other than the one through that leaf |
| Vmm.LeafWriteKeepsTree | mm/vmm.c:80 | a leaf write keeps the tree shape |
| Vmm.WalkThroughLeaf | mm/vmm.c:113-134 | a walk that reaches a page table translates every address of the page through the leaf entry |
| Vmm.UnreachablePageIsUnmapped | mm/vmm.c:122 | an absent PML4 entry leaves every address of the page unmapped |
| Vmm.CreateStep | mm/vmm.c:14-27 | get_or_create_table on an absent entry keeps the tree and every translation, links the new table and leaves every other entry alone |
| Vmm.CreateLinked | mm/vmm.c:14-27 | the same step, as the Linked outcome, keeping every table in a frame the PMM marks used |
| Vmm.LinkedFacts | mm/vmm.c:9-28 | whatever get_or_create_table does, the tree and every translation are kept, no other entry changes, and a returned table is the one the entry points to |
| Vmm.MapFailsAtPd | mm/vmm.c:72-73 | vmm_map_page that fails at the page directory changes no translation |
| Vmm.TwoLinks | mm/vmm.c:68-73 | after two successful steps the PML4 entry leads to the PDPT and the PDPT entry to the page directory, translations unchanged |
| Vmm.MapFailsAtPt | mm/vmm.c:76-77 | vmm_map_page that fails at the page table changes no translation |
| Vmm.MapSteps | mm/vmm.c:58-86 | a successful map translates the page through the new leaf and every other page as before |
| Vmm.UnmapUnreachable | mm/vmm.c:88-103 | an unmap that stops at an absent entry changes nothing, and that page was already unmapped |
| Vmm.UnmapStep | mm/vmm.c:104-107 | clearing the leaf unmaps exactly the page and keeps the tree |
| Vmm.ChainPaths | mm/vmm.c:97-104 | the tables on the walk of v are the ones at v's index prefixes |
| Vmm.LeafWriteStep | mm/vmm.c:80 | a leaf write changes the translation of v's page only |
| Vmm.LeafWriteAt | mm/vmm.c:80 | the translation of one address after a leaf write |
| Vmm.RootStep | mm/vmm.c:43-48 | a zeroed PML4 is a tree with nothing mapped |
| Vmm.AlignedStep | mm/vmm.c:51 | stepping a page-aligned address below 16 MiB by a page stays aligned and within 16 MiB |
| Vmm.IdentityStep | mm/vmm.c:51-53 | mapping the next page onto itself extends the identity map by one page |
| Vmm.MappedTranslation | mm/vmm.c:80-133 | a page mapped with present flags translates to the frame plus the offset in the page |
| Vmm.AlignedSum | mm/vmm.c:133 | adding an offset below 4096 to an aligned frame keeps the offset and the present bit |
| Vmm.LinkEntry | mm/vmm.c:26 | `phys | PRESENT | WRITABLE` is present and points to phys |
| Vmm.OwnedGrows | mm/vmm.c:15 | tables whose frames are marked used stay so when more frames are used |
| Vmm.OwnedSameKeys | mm/vmm.c:80 | entry writes keep every table in a used frame |
| Vmm.OwnedAdd | mm/vmm.c:15-21 | a table in a newly allocated frame is in a used frame |
| Vmm.AddressSpace.Translate | mm/vmm.c:113-134 | 0 before vmm_init, and a non-zero translation keeps the offset in the page |
| Vmm.AddressSpace.constructor | mm/vmm.c:6 | kernel_pml4 is NULL and there are no tables |
| Vmm.AddressSpace.AllocFrame | mm/vmm.c:15-18 | 0 exactly when every frame was already used, and then nothing changes; otherwise a page-aligned frame below 4 GiB that holds no table and is now marked used; no used frame is freed |
| Vmm.AddressSpace.GetOrCreateTable | mm/vmm.c:9-28 | a present entry returns its table and allocates nothing; an absent one links a fresh zeroed table, or returns NULL exactly when every frame is already used; every translation is kept |
| Vmm.AddressSpace.MapPage | mm/vmm.c:58-86 | -1 only before vmm_init or when the PMM has run out of frames, with every translation unchanged; 0 with v's page translating through `(phys & ~0xFFF) | flags` and every other page unchanged |
| Vmm.AddressSpace.UnmapPage | mm/vmm.c:88-111 | v's page no longer translates, every other page is unchanged, no table is created |
| Vmm.AddressSpace.Init | mm/vmm.c:30-56 | with no free frame nothing changes and the map is incomplete; an incomplete map means the PMM ran out of frames; when every step succeeds each address below 16 MiB translates to itself |
| Vmm.AddressSpace.IdentityMapLow | mm/vmm.c:51-53 | every address below 16 MiB translates to itself unless the PMM ran out of frames |
| Heap.AlignUpIsMask | mm/heap.c:129 | the rounding is `(size + alignment - 1) & ~(alignment - 1)` in size_t, bit for bit |
| Heap.AlignUpPow2 | mm/heap.c:129 | for a power-of-two alignment the mask clears the remainder of the wrapped sum |
| Heap.AlignUpRounds | mm/heap.c:129 | for a power-of-two alignment and no wrap, the result is the least multiple of the alignment not below the size |
| Heap.AlignUpZero | mm/heap.c:129 | alignment 0 makes the mask 0, so every request rounds to 0 |
| Heap.WrappedSmall | mm/heap.c:21-23 | a sum that wraps past 2^64 by less than 16 rounds to 0 |
| Heap.AlignSize | mm/heap.c:21-23 | align_size rounds up to a multiple of 16 when that fits in size_t, and wraps to 0 for the fifteen largest sizes |
| Heap.AlignSizeIsMask | mm/heap.c:21-23 | align_size is the AND-mask rounding with alignment 16 |
| Heap.FootprintAppend | mm/heap.c:43 | the arena span of two runs of blocks is the sum of their spans |
| Heap.BlockInside | mm/heap.c:43 | every block, header and payload, lies inside the arena span |
| Heap.AllocatedWithin | mm/heap.c:17-18 | the bytes of the live blocks never exceed the heap size |
| Heap.AllocsRange | mm/heap.c:124 | every live payload lies after its header and inside the heap |
| Heap.FirstFit | mm/heap.c:26-37 | the first free block at least as large as the request, and none before it fits; None when no block fits |
| Heap.SplitFacts | mm/heap.c:40-51 | a split keeps the span, the live allocations and the allocated bytes, and shrinks the block to the request exactly when the rest holds a header and 16 bytes |
| Heap.Split | mm/heap.c:40-51 | a block with room for the request, a header and 16 bytes becomes the request and a free remainder of the rest less a header; any other list is unchanged; the blocks before it never change |
| Heap.ReplaceMiddle | mm/heap.c:57-65 | replacing a run of free blocks by another of the same span changes neither the span nor the live allocations |
| Heap.FreeRun | mm/heap.c:57-65 | a run of free blocks only shifts the allocations after it |
| Heap.CoalesceFacts | mm/heap.c:54-66 | the merge pass keeps the span, the live allocations and the allocated bytes, and leaves no two adjacent free blocks |
| Heap.Coalesce | mm/heap.c:54-66 | the merge pass never adds blocks and never empties a non-empty list |
| Heap.CoalesceMergeAt | mm/heap.c:57-61 | merging block i with its free successor leaves the blocks before i and what the rest coalesces to unchanged |
| Heap.CoalesceKeepAt | mm/heap.c:62-64 | moving past a block that is not merged keeps it in place in front of the rest's coalescing |
| Heap.FreeAllocs | mm/heap.c:191-195 | marking a live block free removes exactly its payload from the live allocations |
| Heap.UseAllocs | mm/heap.c:120 | marking a free block used adds exactly its payload to the live allocations |
| Heap.AllocKeepsNoAdjacent | mm/heap.c:117-120 | allocation keeps the no-adjacent-free-blocks invariant |
| Heap.FindPayload | mm/heap.c:191 | the block found for a pointer is the one whose payload starts there |
| Heap.FindLive | mm/heap.c:191 | a pointer kmalloc returned and not yet freed finds its used block, of its size |
| Heap.AllocsDisjoint | mm/heap.c:40-51 | live payloads never overlap |
| Heap.AllocatedEmpty | mm/heap.c:17-18 | no bytes are allocated exactly when nothing is live |
| Heap.MinusBoth | mm/heap.c:179-180 | removing two different pointers in either order gives the same live set |
| Heap.KernelHeap.constructor | mm/heap.c:14-18 | the static state: no heap, nothing used |
| Heap.KernelHeap.Init | mm/heap.c:68-78 | one free block spanning the heap less one header, nothing live, total size set, used size 0 |
| Heap.KernelHeap.FindFreeBlock | mm/heap.c:26-37 | the list walk returns the first fitting block |
| Heap.KernelHeap.SplitBlock | mm/heap.c:40-51 | the list becomes the split list |
| Heap.KernelHeap.MergeFreeBlocks | mm/heap.c:54-66 | the list becomes the coalesced list |
| Heap.KernelHeap.Kmalloc | mm/heap.c:101-125 | NULL for size 0, before heap_init or when nothing fits; otherwise a new pointer whose payload holds the aligned request inside the heap, every other allocation kept, used_size raised by the aligned request plus a header |
| Heap.KernelHeap.Kfree | mm/heap.c:185-199 | NULL or before heap_init changes nothing; otherwise exactly the freed pointer leaves the live allocations, which merge, and used_size drops by the stored size plus a header |
| Heap.KernelHeap.KmallocAligned | mm/heap.c:127-131 | kmalloc of the request rounded to the alignment; alignment 0 always gives NULL |
| Heap.KernelHeap.Kcalloc | mm/heap.c:133-146 | kmalloc of the product in size_t, and on success the product's bytes are zero and nothing else in the arena changes |
| Heap.KernelHeap.Krealloc | mm/heap.c:148-183 | NULL is kmalloc; size 0 frees; a block already large enough is returned unchanged; otherwise a new block receives the old payload and the old one is freed, or NULL with nothing changed |
| Heap.KernelHeap.Grow | mm/heap.c:166-182 | the moving branch: allocate, copy the old payload, free the old block |
| Heap.KernelHeap.CopyPayload | mm/heap.c:172-177 | the n bytes are copied from src to dst and nothing else changes |
| Heap.KernelHeap.HeapUsed | mm/heap.c:201-203 | while used_size still matches the live blocks' bytes, the figure reported lies within the heap |
| Heap.KernelHeap.HeapFree | mm/heap.c:205-207 | used plus free is the heap size while used_size is within it; otherwise the size_t difference wraps above the heap size |
| Heap.KernelHeap.UsedCorrected | mm/heap.c:121 | the bytes the live blocks occupy never exceed the heap size and are 0 exactly when nothing is live (with line 195) |
| Heap.MallocFreeRoundTrip | mm/heap.c:101-199 | kmalloc followed by kfree of its result restores the live allocations and allocated bytes |
| Heap.UsedSizeDrift | mm/heap.c:121 | in a 56-byte heap, kmalloc(16) then kfree leaves used_size at 2^64 - 16 and heap_get_free at 72 with nothing allocated (with lines 195, 205-207) |
| Heap.HugeRequest | mm/heap.c:21-23 | kmalloc(SIZE_MAX) returns a block with a 0-byte payload (with line 107) |
| Heap.AlignSizeChecked | mm/heap.c:21-23 | the rounding rejects exactly the sizes whose rounding does not fit, and otherwise gives the least multiple of 16 not below the size |
| Tarfs.Field | fs/tarfs.c:7-25 | n bytes of the archive from an offset, zero past its end |
| Tarfs.OctalLen | fs/tarfs.c:37 | the length of the leading run of octal digits: all digits before it, a non-digit or the field's end after it |
| Tarfs.OctalLenIs | fs/tarfs.c:37 | a run of i digits followed by a non-digit has length i |
| Tarfs.OctalValue | fs/tarfs.c:35-41 | k digits denote a value below 8^k |
| Tarfs.WrapTimesEight | fs/tarfs.c:38 | reducing to uint32 at each step gives the uint32 reduction of the whole value |
| Tarfs.ParseOctal | fs/tarfs.c:35-41 | the uint32 reduction of the value of the leading octal digits |
| Tarfs.FileSize | fs/tarfs.c:110 | a size field that starts with no digit gives 0, and one whose value fits in uint32 gives that value |
| Tarfs.EncodeOctal | fs/tarfs.c:35-41 | w octal digits, most significant first |
| Tarfs.ParseEncoded | fs/tarfs.c:35-41 | a value below 8^w written in w octal digits parses back to itself |
| Tarfs.StepMatchesUint32 | fs/tarfs.c:118-119 | the step `512 + ((size + 511) / 512) * 512` evaluated in uint32 is Step: one record for the 511 largest sizes, 0 for the next 512, the rounded-up records otherwise |
| Tarfs.StepIsBlocks | fs/tarfs.c:118-119 | the step is a whole number of records, and at least one when it is not 0 |
| Tarfs.WalkOrdered | fs/tarfs.c:98-120 | the headers visited lie inside the archive, the first at the start, each at least one record after the previous one |
| Tarfs.WalkCons | fs/tarfs.c:98-120 | the walk either ends or spins at once, or visits this header and continues one step of at least a record further |
| Tarfs.OrderedCons | fs/tarfs.c:119 | a header one step of at least a record before an ordered walk extends it |
| Tarfs.CName | fs/tarfs.c:162-163 | the copied name has at most 255 characters |
| Tarfs.NodesCount | fs/tarfs.c:113-181 | the build makes one node per header the count loop counts |
| Tarfs.NodeAt | fs/tarfs.c:156-179 | the i-th node is built from the i-th qualifying header and numbered i |
| Tarfs.QualifyingAppend | fs/tarfs.c:113-115 | the qualifying headers of two runs are those of each |
| Tarfs.NodesAppend | fs/tarfs.c:147-186 | building over two runs of headers is building over each, numbering on |
| Tarfs.NodesConsistent | fs/tarfs.c:170-177 | every node built has the read operation and the file data it reads |
| Tarfs.InitSpec | fs/tarfs.c:89-210 | a mounted archive's root is a consistent directory with finddir |
| Tarfs.PrefixedTwice | fs/tarfs.c:98-120 | prefixing a walk twice is prefixing once with both |
| Tarfs.WalkStep | fs/tarfs.c:98-120 | a valid header with a non-zero step is visited and the walk continues after it |
| Tarfs.CheckMagic | fs/tarfs.c:105 | the strncmp with "ustar" over five bytes |
| Tarfs.WalkNext | fs/tarfs.c:147-186 | the second walk meets the same headers as the first, one step at a time |
| Tarfs.BuildStep | fs/tarfs.c:147-186 | one header of the second walk appends its node exactly when it qualifies |
| Tarfs.HeaderStep | fs/tarfs.c:110-119 | the step from a header, from its size field |
| Tarfs.CountHeaders | fs/tarfs.c:94-120 | the count of qualifying headers on the walk, or the header at which the pointer stops moving |
| Tarfs.BuildNodes | fs/tarfs.c:143-186 | the nodes for the walk's qualifying headers, in order, numbered from 0 |
| Tarfs.BuildOne | fs/tarfs.c:148-185 | one iteration: the header's node when it qualifies, then the next header of the walk |
| Tarfs.TarfsInit | fs/tarfs.c:89-210 | NULL for an empty archive or one without files or directories, the root over the built nodes otherwise, and a spin where the pointer stops moving |
| Tarfs.SpinDigits | fs/tarfs.c:110 | an 11-digit size field |
| Tarfs.SpinningArchive | fs/tarfs.c:7-25 | a single 512-byte header |
| Tarfs.Pow8Eleven | fs/tarfs.c:110 | eleven octal digits reach 2^33 |
| Tarfs.SpinningSize | fs/tarfs.c:110 | that header's size reads as 2^32 - 1023 |
| Tarfs.SpinningArchiveSpins | fs/tarfs.c:118-119 | the step from that header is 0, so tarfs_init never returns |
| Tarfs.StepCorrected | fs/tarfs.c:118-119 | the step without wrap-around is a whole number of records, at least one, and the as-written step wherever that does not wrap |
| Tarfs.WalkCorrected | fs/tarfs.c:98-120 | the corrected walk ends and visits headers inside the archive only |
| Tarfs.InitCorrected | fs/tarfs.c:89-210 | tarfs_init with the corrected step never spins, and a mounted root lists one node per qualifying header |
| Tarfs.ReadFile | fs/tarfs.c:44-61 | -1 exactly without file data; the count as a uint32 is the number of bytes copied, and they are the file's bytes from the offset |
| Tarfs.ReadWithinFile | fs/tarfs.c:50-55 | where `offset + size` does not wrap, the read copies min(size, file size - offset) bytes and never passes the end of the file |
| Tarfs.ReadWrapOverruns | fs/tarfs.c:53-58 | reading 0xFFFFFFFF bytes at offset 10 of a 100-byte file copies 0xFFFFFFFF bytes and returns -1 |
| Tarfs.ReadCorrected | fs/tarfs.c:44-61 | the read with the bound computed without wrap copies min(size, file size - offset) bytes of the file and never passes its end |
| Tarfs.ReadAgrees | fs/tarfs.c:53-55 | both reads agree wherever the sum does not wrap |
| Tarfs.Readdir | fs/tarfs.c:64-72 | the index-th node of the table exactly when the index is below the number of files |
| Tarfs.ReaddirMounted | fs/tarfs.c:64-72 | listing a mounted root yields at index i the node built from the i-th qualifying header, numbered i (with lines 156-179) |
| Tarfs.NameIndex | fs/tarfs.c:80-84 | the first position with that name, none before it |
| Tarfs.FinddirSpec | fs/tarfs.c:75-87 | a node found has the requested name and is consistent |
| Tarfs.Finddir | fs/tarfs.c:75-87 | the first node of the table with that name, or NULL exactly when none has it |
| Vfs.SplitFrom | fs/vfs.c:61-85 | whatever the path, at most max components, each non-empty, without '/' and at most 255 characters long |
| Vfs.Split | fs/vfs.c:61-85 | at most max components, each a non-empty run of at most 255 characters without '/' |
| Vfs.SplitPath | fs/vfs.c:61-85 | the one-pass loop of split_path computes Split |
| Vfs.ConsumeWord | fs/vfs.c:72-75 | reading a run of non-'/' characters extends the current component by exactly that run |
| Vfs.SplitJoin | fs/vfs.c:61-85 | splitting the rest of a path that is the joined form of components appends exactly those components |
| Vfs.SplitJoinRoundTrip | fs/vfs.c:61-85 | splitting "/c0/c1/..." gives back c0, c1, ... whenever there are at most max of them |
| Vfs.FindChild | fs/vfs.c:110-116 | a node found has the requested name, and is consistent when its parent is |
| Vfs.Follow | fs/vfs.c:103-120 | the node reached by the component loop is consistent |
| Vfs.Resolve | fs/vfs.c:87-121 | the node vfs_get_node returns is consistent |
| Vfs.AbsoluteIgnoresCwd | fs/vfs.c:96 | a path starting with '/' resolves the same from every current directory |
| Vfs.DotDotIsRoot | fs/vfs.c:106-108 | after a successful prefix, ".." continues from the root wherever the walk had got to |
| Vfs.DotStays | fs/vfs.c:104-105 | a trailing "." changes nothing |
| Vfs.TopLevelLookup | fs/vfs.c:87-121 | "/name" resolves to the root's finddir of that name |
| Vfs.MountedLookup | fs/vfs.c:87-121 | on a mounted archive, "/name" resolves to the first file of that name |
| Vfs.LowestFree | fs/vfs.c:128-134 | the first unused slot: every slot before it is used |
| Vfs.TableStaysValid | fs/vfs.c:139-153 | opening and closing keep every slot in use exactly when it holds a node |
| Vfs.OpenThenClose | fs/vfs.c:123-155 | closing the descriptor just opened restores every slot's use and node |
| Vfs.ReadStaysInFile | fs/vfs.c:157-174 | for a file below 2 GiB and a size that does not wrap when added to the position, a read advances the position by exactly the bytes delivered, which are the file's bytes from the old position, and never past its end |
| Vfs.ReadWrapReachesDescriptor | fs/vfs.c:157-174 | tarfs_read's wrap reaches vfs_read: 0xFFFFFFFF bytes asked at position 10 of a 100-byte file come back as that many bytes with a count of -1, and the position does not move |
| Vfs.DescriptorRead | fs/vfs.c:167-171 | only the position changes, by the count in uint32 when it is positive; for a file the count in uint32 is the number of bytes delivered |
| Vfs.DescriptorWrite | fs/vfs.c:187-190 | only the position changes, by the written count in uint32 when it is positive |
| Vfs.SeekPosition | fs/vfs.c:202-214 | no position exactly for an unknown whence |
| Vfs.SeekCurUndo | fs/vfs.c:206-208 | seeking forward by k and back by k from the current position returns to it |
| Vfs.SeekSetAndEnd | fs/vfs.c:203-211 | SEEK_SET to a non-negative offset lands there, SEEK_END by 0 lands on the size |
| Vfs.Readdir | fs/vfs.c:219-225 | a node only from a directory with a readdir |
| Vfs.Finddir | fs/vfs.c:227-233 | a node only from a directory with a finddir, and with the requested name |
| Vfs.MountedDirectoryOps | fs/vfs.c:219-233 | on a mounted archive's root the VFS lists and finds exactly what tarfs does |
| Vfs.CwdPathBytes | fs/vfs.c:47-58 | away from the root, exactly size characters with a NUL last |
| Vfs.CwdPathOverrun | fs/vfs.c:50-52 | at the root, a one-character buffer receives two characters |
| Vfs.CwdPathCorrected | fs/vfs.c:47-58 | never more than size characters, the last a NUL, and the as-written bytes whenever size is at least 2 |
| Vfs.FileSystem.constructor | fs/vfs.c:8-10 | no root, no cwd, every slot zero |
| Vfs.FileSystem.Init | fs/vfs.c:12-24 | every descriptor unused, without node, at position 0 with no flags |
| Vfs.FileSystem.MountRoot | fs/vfs.c:26-31 | root and cwd both become the node |
| Vfs.FileSystem.SetCwd | fs/vfs.c:41-45 | only a directory becomes the cwd; the root does not change |
| Vfs.FileSystem.Lookup | fs/vfs.c:87-121 | NULL without a root; a node returned is consistent |
| Vfs.FileSystem.GetNode | fs/vfs.c:87-121 | the loop computes Lookup |
| Vfs.FileSystem.Open | fs/vfs.c:123-145 | -1 exactly when the path resolves to nothing or every slot is used; otherwise the lowest free slot, now holding the node at position 0, and no other slot changes |
| Vfs.FileSystem.Close | fs/vfs.c:147-155 | -1 exactly for a descriptor out of range or unused, else 0 with the slot released |
| Vfs.FileSystem.Read | fs/vfs.c:157-174 | -1 and no change for a bad descriptor or a node without read; otherwise tarfs_read as written at the position, advancing it by a positive count |
| Vfs.FileSystem.Write | fs/vfs.c:176-193 | -1 and no change for a bad descriptor or a node without write; otherwise the node's result, advancing the position by a positive one |
| Vfs.FileSystem.Seek | fs/vfs.c:195-217 | -1 and no change for a bad descriptor or whence; otherwise the new position as an int, and only that slot's position changes |
| Framebuffer.Channel | drivers/video/framebuffer.c:13-15 | a zero channel contributes nothing |
| Framebuffer.ChannelScales | drivers/video/framebuffer.c:13-15 | for a field of at most 24 bits that fits in the word, the channel is c scaled from 0..255 to 0..2^size-1 and shifted to its position, and 255 fills the field |
| Framebuffer.MakeColorBlack | drivers/video/framebuffer.c:9-17 | black packs to 0 in every layout |
| Framebuffer.MakeColorRgb888 | drivers/video/framebuffer.c:9-17 | in the 8:8:8 layout at 16, 8 and 0 the colour is r * 0x10000 + g * 0x100 + b |
| Framebuffer.MakeColor | drivers/video/framebuffer.c:9-17 | the packed colour keeps every bit of each scaled channel, so it is at least each of them |
| Framebuffer.FindFramebuffer | drivers/video/framebuffer.c:19-63 | a framebuffer found has 32 bits per pixel |
| Framebuffer.FindFramebufferIsFirst | drivers/video/framebuffer.c:30-58 | what fb_init takes is the first framebuffer tag of the Multiboot2 walk, and only when it is direct RGB at 32 bits |
| Framebuffer.FindFramebufferAsWritten | drivers/video/framebuffer.c:30-62 | with the uint32 step as written, a framebuffer found still has 32 bits per pixel |
| Framebuffer.TagInfo | drivers/video/framebuffer.c:42-53 | the width, height and pitch are the tag's, and a tag fb_init accepts gives 32 bits per pixel |
| Framebuffer.HugeTagFields | drivers/video/framebuffer.c:25-27 | the example information has total size 32 and a first tag of type 1 and size 0xFFFFFFFF |
| Framebuffer.HugeTagHangs | drivers/video/framebuffer.c:60-61 | a tag of size 0xFFFFFFFF rounds to a step of 0, so the walk as written never ends |
| Framebuffer.HugeTagEnds | drivers/video/framebuffer.c:60-61 | with the step computed without wrap-around the same information ends the search with nothing found |
| Framebuffer.Device.constructor | drivers/video/framebuffer.c:6-7 | not initialized, no current framebuffer |
| Framebuffer.Device.Init | drivers/video/framebuffer.c:19-63 | initialized with the first acceptable framebuffer tag when there is one; otherwise nothing changes |
| Framebuffer.Device.RowInside | drivers/video/framebuffer.c:75-76 | every row of the screen lies inside the mapped words |
| Framebuffer.Device.PutPixel | drivers/video/framebuffer.c:65-79 | exactly the word of (x, y) gets the packed colour when initialized and on screen; nothing changes otherwise |
| Framebuffer.Device.Clear | drivers/video/framebuffer.c:81-93 | the first (pitch / 4) * height words, the count in uint32, take the colour, the rest keep theirs |
| Framebuffer.Device.FillRect | drivers/video/framebuffer.c:95-112 | the rectangle clipped to the screen is painted, and nothing when not initialized |
| Framebuffer.Device.FillRows | drivers/video/framebuffer.c:105-111 | the outer loop paints the clipped number of rows |
| Framebuffer.Device.FillSpan | drivers/video/framebuffer.c:109-110 | the inner loop paints the clipped run of one row |
| Framebuffer.Span | drivers/video/framebuffer.c:105-109 | at most w pixels, never past the limit, and all w unless the limit cuts them |
| Framebuffer.PaintRun | drivers/video/framebuffer.c:91-110 | the words from start on, n of them, take the colour and every other word keeps its own |
| Framebuffer.PaintRunStep | drivers/video/framebuffer.c:92-110 | painting one more word is one array update |
| Framebuffer.ClearCount | drivers/video/framebuffer.c:90 | the uint32 pixel count stays inside the mapped words |
| Framebuffer.PaintedNext | drivers/video/framebuffer.c:105-111 | painting the next row extends the painted rows by one |
| Framebuffer.RowOfPixel | drivers/video/framebuffer.c:106-110 | a word of a row's run is a pixel of that row in the run's columns, and conversely |
| Framebuffer.PaintedPixels | drivers/video/framebuffer.c:95-112 | fb_fill_rect paints exactly its rectangle: a pixel takes the colour if and only if it is in the painted rows and columns |
| FbConsole.LeadLength | ui/fb_console.c:261-277 | no sequence is longer than four bytes |
| FbConsole.LeadMasks | ui/fb_console.c:264-272 | the C's lead-byte masks select exactly the ranges 0xC0-0xDF, 0xE0-0xEF and 0xF0-0xF7, and its payload masks keep the low 6, 5, 4 and 3 bits |
| FbConsole.Payload | ui/fb_console.c:262-273 | the assembled code point is below 2^21 |
| FbConsole.DecodeAsWritten | ui/fb_console.c:251-280 | NUL gives 0 without advancing, a rejected lead byte gives U+FFFD and advances one, any other lead byte advances by its announced length whatever follows |
| FbConsole.Decode | ui/fb_console.c:251-280 | advances at least one and at most four bytes past a non-NUL byte, never over a NUL, and agrees with decode_utf8 whenever the sequence is not cut short by the terminator |
| FbConsole.DecodeSkipsTerminator | ui/fb_console.c:264-266 | on "\xC3" decode_utf8 reads the terminating NUL as a continuation byte and steps past it; the corrected decoder stops before it |
| FbConsole.Encode | ui/fb_console.c:261-273 | one to four bytes as the code point's range requires, every byte after the first a continuation byte |
| FbConsole.DecodeEncode | ui/fb_console.c:251-280 | decoding the UTF-8 encoding of a non-zero scalar value, by decode_utf8 as written or by the corrected decoder, gives it back and consumes exactly its bytes |
| FbConsole.DecodeTwo | ui/fb_console.c:264-266 | a two-byte encoding decodes to its code point |
| FbConsole.DecodeThree | ui/fb_console.c:267-269 | a three-byte encoding decodes to its code point |
| FbConsole.DecodeFour | ui/fb_console.c:270-273 | a four-byte encoding decodes to its code point |
| FbConsole.CodePoints | ui/fb_console.c:291-294 | the code points fb_console_write handles, decoded as written, are never 0, and a string that starts with NUL gives none |
| FbConsole.WriteReadsPastTerminator | ui/fb_console.c:264-266 | on the bytes C3 00 41 00 fb_console_write handles U+00C0 and then 'A', past the terminator |
| FbConsole.OverlongNulStops | ui/fb_console.c:291-294 | the overlong C0 80 decodes to 0 and ends the write |
| FbConsole.DecodeShift | ui/fb_console.c:251-280 | the decoder reads only the bytes from its index on |
| FbConsole.CodePointsShift | ui/fb_console.c:291-294 | a prefix does not change the code points read after it |
| FbConsole.CodePointsOfText | ui/fb_console.c:282-366 | fb_console_write reads back exactly the code points a NUL-terminated UTF-8 string encodes |
| FbConsole.LineFeed | ui/fb_console.c:205-212 | a new line always starts at column 0 |
| FbConsole.PutCharPos | ui/fb_console.c:195-248 | a byte that is not printable, '\n' or '\r' leaves the cursor where it was |
| FbConsole.WritePos | ui/fb_console.c:296-362 | a code point without a glyph that is not '\n' or '\r' leaves the cursor where it was |
| FbConsole.LineFeedInView | ui/fb_console.c:205-212 | from a visible row a new line is visible: the next row, or the last one after a scroll (with lines 123-151) |
| FbConsole.WriteAllInView | ui/fb_console.c:282-366 | on a screen with room for a cell, writing any text keeps a visible cursor visible |
| FbConsole.PutCharInView | ui/fb_console.c:195-248 | putchar keeps a visible cursor visible |
| FbConsole.Console.constructor | ui/fb_console.c:4-6 | no framebuffer, the cursor at the origin, scale 1 (with lines 368-369) |
| FbConsole.Console.Init | ui/fb_console.c:89-97 | attached to the framebuffer, the cursor at the origin, scale 1 |
| FbConsole.Console.Clear | ui/fb_console.c:99-103 | the cursor goes home, and nothing changes without a framebuffer |
| FbConsole.Console.SetScale | ui/fb_console.c:105-109 | only scales 1 to 8 are taken |
| FbConsole.Console.Scroll | ui/fb_console.c:123-151 | the cursor row becomes the last line, height minus a cell in uint32 |
| FbConsole.Console.Backspace | ui/fb_console.c:153-169 | one cell left exactly when a whole cell lies to the left |
| FbConsole.Console.SetCursorPos | ui/fb_console.c:186-193 | any position once there is a framebuffer, none before |
| FbConsole.Console.NewLine | ui/fb_console.c:205-212 | column 0, one cell down, and the last line when the next cell would not fit (with lines 297-303) |
| FbConsole.Console.NextCell | ui/fb_console.c:233-244 | one cell right, wrapping to a new line when the next cell would not fit |
| FbConsole.Console.PutChar | ui/fb_console.c:195-248 | the cursor moves as PutCharPos says, and not at all without a framebuffer |
| FbConsole.Console.Write | ui/fb_console.c:282-366 | the cursor moves over the code points decode_utf8 as written yields, as WriteAll says, and not at all for NULL or without a framebuffer |
| FbConsole.Console.MoveLeft | ui/fb_console.c:371-379 | one cell left exactly when a whole cell lies to the left |
| FbConsole.Console.MoveRight | ui/fb_console.c:381-391 | one cell right exactly when the new column is still on the screen |
| FbConsole.Console.SavePos | ui/fb_console.c:393-396 | the saved position is the cursor |
| FbConsole.Console.RestorePos | ui/fb_console.c:398-403 | the cursor is the saved position |
| VgaText.EntryColor | drivers/video/vga_text.c:18-20 | the foreground is the low nibble and the background the high nibble |
| VgaText.Entry | drivers/video/vga_text.c:22-24 | the character is the low byte and the attribute the high byte |
| VgaText.ColorIsOr | drivers/video/vga_text.c:19 | `fg \| bg << 4` is that packing |
| VgaText.EntryIsOr | drivers/video/vga_text.c:23 | `uc \| color << 8` is that packing |
| VgaText.Blanks | drivers/video/vga_text.c:56-90 | n blank cells in the attribute |
| VgaText.Scrolled | drivers/video/vga_text.c:82-92 | every row moves up one and the last row is blank |
| VgaText.RowMovedUp | drivers/video/vga_text.c:83-87 | copying one row up keeps the rows still to be copied intact |
| VgaText.LastRowBlanked | drivers/video/vga_text.c:89-91 | after the copy, blanking the last row completes the scroll |
| VgaText.CellIndex | drivers/video/vga_text.c:78-129 | a cell on the screen has an index inside the buffer |
| VgaText.NextRow | drivers/video/vga_text.c:95-111 | column 0 of the next row, or of the last row after a scroll |
| VgaText.Typed | drivers/video/vga_text.c:94-115 | the cursor stays on the screen |
| VgaText.TypedStores | drivers/video/vga_text.c:105-111 | a byte other than '\n' lands in the cell under the cursor (one row higher when the screen scrolled) and no other cell changes apart from the scroll |
| VgaText.Written | drivers/video/vga_text.c:117-120 | the cursor stays on the screen |
| VgaText.WrittenAppend | drivers/video/vga_text.c:117-120 | writing one more byte is one more terminal_putchar |
| VgaText.Erased | drivers/video/vga_text.c:126-133 | at column 0 nothing changes; otherwise one column left, that cell blank, and never to the previous row |
| VgaText.Terminal.CursorIndex | drivers/video/vga_text.c:40-47 | the 16-bit cursor position is row * 80 + column, with no truncation on the screen |
| VgaText.Terminal.constructor | drivers/video/vga_text.c:3-5 | the cursor at the origin, attribute 0 |
| VgaText.Terminal.SetColor | drivers/video/vga_text.c:73-75 | the attribute is set |
| VgaText.Terminal.BlankRow | drivers/video/vga_text.c:89-91 | 80 cells blanked and nothing else changed |
| VgaText.Terminal.Clear | drivers/video/vga_text.c:49-61 | every cell blank in the attribute, the cursor at the origin |
| VgaText.Terminal.Initialize | drivers/video/vga_text.c:64-71 | light grey on black, every cell blank, the cursor at the origin |
| VgaText.Terminal.PutEntryAt | drivers/video/vga_text.c:77-80 | exactly the cell at (x, y) changes |
| VgaText.Terminal.CopyRowUp | drivers/video/vga_text.c:84-86 | one row is copied from the row below and nothing else changes |
| VgaText.Terminal.Scroll | drivers/video/vga_text.c:82-92 | the buffer becomes Scrolled |
| VgaText.Terminal.NewRow | drivers/video/vga_text.c:95-100 | the screen becomes NextRow |
| VgaText.Terminal.PutChar | drivers/video/vga_text.c:94-115 | the screen becomes Typed |
| VgaText.Terminal.Write | drivers/video/vga_text.c:117-120 | the screen becomes Written |
| VgaText.Terminal.Backspace | drivers/video/vga_text.c:126-133 | the screen becomes Erased |
| Tty.RowPrefix | include/ui/tty/tty.h:35-36 | the first n characters of a TTY's command buffer |
| Tty.RestoreUndoesChange | ui/tty/tty.c:132-182 | restoring after a mode change gives a shell TTY back its mode, callbacks, line length and cursor, with only a redraw requested |
| Tty.Registered | ui/tty/tty.c:44-50 | the record takes the mode and the four callbacks, is initialized and asks for a redraw, and keeps its line length and cursor |
| Tty.Changed | ui/tty/tty.c:132-155 | the current record takes the new mode and callbacks, is initialized and asks for a redraw, and keeps its line length and cursor |
| Tty.Restored | ui/tty/tty.c:157-182 | the record is back in shell mode with the backup's callbacks, line length and cursor, initialized and asking for a redraw |
| Tty.SwitchSpec | ui/tty/tty.c:53-94 | -1 exactly for an out-of-range or uninitialized TTY, else 0 with that TTY current; a failed or same-TTY switch changes nothing, and no other TTY's record changes |
| Tty.SwitchTarget | ui/tty/tty.c:104-113 | only Alt+F1 to Alt+F6 for an initialized TTY selects a TTY, one of the first six |
| Tty.RouteAll | ui/tty/tty.c:100-128 | the current TTY stays in range whatever the events |
| Tty.AltFunctionSwitches | ui/tty/tty.c:105-111 | Alt+Fn for an initialized TTY makes it current and reaches no callback |
| Tty.OtherEventsForwarded | ui/tty/tty.c:115-126 | any other event goes to the current TTY's callback and changes no record |
| Tty.ForwardKinds | ui/tty/tty.c:118-126 | at most one callback runs: a character event reaches the char callback exactly when there is one, a special event the special callback |
| Tty.RouteFirst | ui/tty/tty.c:103 | routing a queue is the first event, then the rest from the state it leaves |
| Tty.RouteAppend | ui/tty/tty.c:103 | routing a queue and one more event is routing the queue, then that event |
| Tty.TtyTable.Line | include/ui/tty/tty.h:35-36 | the line shorter than the buffer and without NUL |
| Tty.TtyTable.constructor | ui/tty/tty.c:8-9 | every record zero, TTY 0 current (with line 130) |
| Tty.TtyTable.Init | ui/tty/tty.c:11-35 | every TTY in shell mode, uninitialized, without callbacks, needing a redraw, with an empty line; TTY 0 current |
| Tty.TtyTable.Register | ui/tty/tty.c:37-51 | an out-of-range TTY changes nothing; otherwise only that TTY gets the mode and callbacks and is initialized |
| Tty.TtyTable.Switch | ui/tty/tty.c:53-94 | the result, the current TTY and the records are SwitchSpec's |
| Tty.TtyTable.Route | ui/tty/tty.c:104-126 | one event routed as RouteAll says |
| Tty.TtyTable.PollInput | ui/tty/tty.c:100-128 | the keyboard queue is drained, and the switches and callback invocations are RouteAll's over it, in order |
| Tty.TtyTable.ChangeMode | ui/tty/tty.c:132-155 | the current record and its buffer go to the backup, and only the current record takes the new mode and callbacks |
| Tty.TtyTable.RestoreToShell | ui/tty/tty.c:157-182 | shell mode with the backup's callbacks, buffer, line length and cursor, and the line is the backup's |
| Tty.TtyTable.ChangeModeThenRestore | ui/tty/tty.c:132-182 | a mode change followed by a restore leaves the record as it was but for the redraw flag, and the line as it was |
| ShellText.SkipSpaces | ui/shell/shell.c:149-164 | the index reached by skipping spaces: only spaces lie between the start and it, and it stops at the end or at a non-space |
| ShellText.SkipWord | ui/shell/shell.c:160 | the index reached by skipping a word: only non-spaces lie between the start and it, and it stops at the end or at a space |
| ShellText.NonSpaces | ui/shell/shell_history.c:252-263 | the characters of a text that are not spaces: no longer than the text, with no space, and drawn from it |
| ShellText.SkipSpacesAppend | ui/shell/shell.c:149 | a character typed at the end moves the space scan only when the scan had reached the end, and then only past a space |
| ShellText.SkipWordAppend | ui/shell/shell.c:160 | a character typed at the end moves the word scan only when the scan had reached the end, and then only past a non-space |
| ShellText.StrLen | ui/shell/shell_history.c:93-124 | the length of a C string: no NUL before it, and a NUL at it unless it is the whole array |
| ShellText.CStr | ui/shell/shell_history.c:9-11 | the string a char array holds: without NUL and a prefix of the array (with lines 193-197) |
| ShellText.CStrOfPlain | ui/shell/shell_history.c:193-197 | an array without NUL holds itself as a string |
| ShellText.SkipSpacesAgree | ui/shell/shell.c:157 | two lines that share a prefix past where the space scan stops are scanned alike |
| ShellText.SkipWordAgree | ui/shell/shell.c:160 | two lines that share a prefix past where the word scan stops are scanned alike |
| ShellText.FirstWordAgree | ui/shell/shell.c:156-163 | two lines that share a prefix past the end of the first word have the same first word |
| ShellText.NonSpacesAppend | ui/shell/shell_history.c:252-263 | collecting the non-spaces of two texts joined is collecting each in turn |
| ShellText.NonSpacesOfSpaces | ui/shell/shell_history.c:252-256 | a run of spaces contributes nothing to the argument |
| ShellHistory.AddSpec | ui/shell/shell_history.c:36-54 | the history after adding a command never holds more than ten entries |
| ShellHistory.AddPutsNewestFirst | ui/shell/shell_history.c:44-53 | a new command becomes the newest entry, the older ones follow in order, and the oldest falls off a full history |
| ShellHistory.ShiftedRowIsAdd | ui/shell/shell_history.c:44-53 | the ten slots after the shift and the store, cut at the new count, are the history AddSpec describes |
| ShellHistory.AddKeepsNoRepeats | ui/shell/shell_history.c:38-42 | adding never makes an entry equal to the one next to it, so the history has no consecutive repeats |
| ShellHistory.Navigation | ui/shell/shell_history.c:56-96 | UP and DOWN keep the history position between -1 (the typed line) and the oldest entry |
| ShellHistory.UpShowsOlder | ui/shell/shell_history.c:59-91 | UP shows the next older entry, and the first UP saves the typed line |
| ShellHistory.UpThenDown | ui/shell/shell_history.c:59-81 | DOWN after UP returns to the previous position and shows its line again, the typed line included |
| ShellHistory.NavigationStops | ui/shell/shell_history.c:60-72 | UP does nothing at the oldest entry or with no history, DOWN does nothing on the typed line |
| ShellHistory.TabFoldMeaning | ui/shell/shell_history.c:252-266 | the parsing loop yields the first word as the command, the non-spaces after it as the argument, and an argument flag set exactly when something follows the word |
| ShellHistory.TabMeaningStep | ui/shell/shell_history.c:253-263 | one more character changes the meaning of the line as one pass of the loop does |
| ShellHistory.MatchingNames | ui/shell/shell_history.c:106-113 | the matching command names are at most all of them |
| ShellHistory.MatchingNamesMembers | ui/shell/shell_history.c:106-113 | a name is among the matches exactly when it is a command the partial text is a prefix of |
| ShellHistory.MatchingNamesAppend | ui/shell/shell_history.c:106-113 | the matches of two tables joined are the matches of each in turn |
| ShellHistory.ReaddirIsListing | ui/shell/shell_history.c:158-161 | reading the cwd by index yields the directory's entries in order and then nothing |
| ShellHistory.FileMatches | ui/shell/shell_history.c:161-169 | the matching entries are at most all of them |
| ShellHistory.FileMatchesMembers | ui/shell/shell_history.c:161-169 | an entry is among the matches exactly when its name starts with the partial argument |
| ShellHistory.FileMatchesAppend | ui/shell/shell_history.c:161-169 | the matches of two listings joined are the matches of each in turn |
| ShellHistory.FileMatchesSnoc | ui/shell/shell_history.c:161-168 | reading one more entry adds it to the matches exactly when it matches |
| ShellHistory.FileMatchesPrefix | ui/shell/shell_history.c:161-165 | stopping early keeps the first match of the whole listing and no more matches than it has |
| ShellHistory.CmdEndAsWritten | ui/shell/shell_history.c:176-184 | the C's insertion point lies within the line |
| ShellHistory.CompletedAsWritten | ui/shell/shell_history.c:176-206 | the completed line keeps the line up to the C's insertion point and then holds the name and, for a directory, a slash, with nothing dropped for the buffer's size |
| ShellHistory.CmdEnd | ui/shell/shell_history.c:176-184 | the corrected insertion point lies within the line |
| ShellHistory.CompletedFile | ui/shell/shell_history.c:186-206 | a completed line always fits the 256-byte command buffer and holds no NUL |
| ShellHistory.FileCompletion | ui/shell/shell_history.c:145-206 | file completion, when it happens, leaves a line that fits the buffer |
| ShellHistory.CommandsStorable | ui/shell/shell_history.c:20-23 | every command name fits the command buffer |
| ShellHistory.CommandCompletion | ui/shell/shell_history.c:100-126 | command completion, when it happens, leaves a line that fits the buffer |
| ShellHistory.TabResult | ui/shell/shell_history.c:238-287 | TAB, when it changes the line, leaves a line that fits the buffer |
| ShellHistory.CommandCompletionExtends | ui/shell/shell_history.c:115-125 | a completed command is one of the command names and extends what was typed |
| ShellHistory.FileCompletionNamesEntry | ui/shell/shell_history.c:171-206 | a file completion happens only for exactly one matching entry of the cwd, and puts its name, with a slash for a directory, after the command and its spaces |
| ShellHistory.FileCompletionKeepsCommand | ui/shell/shell_history.c:176-206 | the corrected completion keeps the command word of the line |
| ShellHistory.CompletionOverflows | ui/shell/shell_history.c:193-206 | a 203-character line accepted by the editor completes, as written, to 302 characters, beyond the 256-byte buffer, where the corrected completion declines |
| ShellHistory.LeadingSpaceDropsCommand | ui/shell/shell_history.c:176-184 | as written, a line that starts with a space gets the name right after its leading spaces |
| ShellHistory.LeadingSpaceLosesCommand | ui/shell/shell_history.c:176-206 | " cat RE" with README present becomes " README" as written and " cat README" corrected |
| ShellHistory.CompleteCommand | ui/shell/shell_history.c:100-126 | the line becomes CommandCompletion's, or nothing changes; only TTY t's line, length and cursor move |
| ShellHistory.CountCommandMatches | ui/shell/shell_history.c:103-113 | the count and the first of the matching command names |
| ShellHistory.CompleteFilesystemPath | ui/shell/shell_history.c:145-206 | the line becomes FileCompletion's, or nothing changes; only TTY t's line, length and cursor move |
| ShellHistory.FileCompletionText | ui/shell/shell_history.c:149-206 | completion is found exactly when FileCompletion gives a line, which is the kept start of the line plus a NUL-free completion that fits |
| ShellHistory.CountFileMatches | ui/shell/shell_history.c:152-169 | the number of matches, capped at 32, and the first match of the directory |
| ShellHistory.CommandEnd | ui/shell/shell_history.c:176-184 | the scan ends at CmdEnd, after leading spaces, the command and its spaces |
| ShellHistory.HandleTabCompletion | ui/shell/shell_history.c:238-287 | an out-of-range TTY or an empty line is left alone; otherwise the line becomes TabResult's, and nothing else changes |
| ShellHistory.History.Entries | ui/shell/shell_history.c:14-15 | TTY t's live entries, newest first, as many as its count |
| ShellHistory.History.Row | ui/shell/shell_history.c:14 | all ten history slots of TTY t |
| ShellHistory.History.constructor | ui/shell/shell_history.c:14-34 | every history empty, every TTY on its typed line, nothing saved |
| ShellHistory.History.Init | ui/shell/shell_history.c:25-34 | every count zero, every position -1, every slot and saved line empty |
| ShellHistory.History.Add | ui/shell/shell_history.c:36-54 | TTY t's history becomes AddSpec's; an out-of-range TTY or another TTY's history is untouched |
| ShellHistory.History.ShiftDown | ui/shell/shell_history.c:44-47 | each slot of TTY t after the first takes the previous one's entry; every other slot keeps its own |
| ShellHistory.History.Navigate | ui/shell/shell_history.c:56-96 | the position, saved line and shown line are Navigation's, written to TTY t's buffer with length and cursor at its end; no move changes nothing |
| ShellHistory.History.ResetPosition | ui/shell/shell.c:77 | the typed line is shown again, and the history is unchanged (with lines 201, 227) |
| ShellHistory.History.Move | ui/shell/shell_history.c:59-81 | the new position and saved line are Navigation's, the history is unchanged, and the shown line fits the buffer |
| Tty.TtyTable.ReplaceFrom | ui/shell/shell_history.c:89-94 | TTY t's line keeps its first characters up to the given point and then holds the new text; length and cursor sit at its end, and nothing else changes (with lines 119-126, 186-206) |
| Shell.Inserted | ui/shell/shell.c:211-216 | the line one longer, with the character at the cursor, the part before it kept and the tail shifted right by one |
| Shell.Removed | ui/shell/shell.c:55-58 | the line one shorter, the part before the position kept and the tail shifted left by one (with lines 130-133) |
| Shell.RemoveInserted | ui/shell/shell.c:128-140 | removing a character just inserted at the same place gives the line back (with lines 207-218) |
| Shell.InsertRemoved | ui/shell/shell.c:53-62 | reinserting a character just removed gives the line back (with lines 207-218) |
| Shell.CharEdit | ui/shell/shell.c:66-229 | every character keeps the cursor within a line that fits the buffer without NUL; Ctrl-A and Ctrl-E leave the line alone, and Ctrl-K keeps the part before the cursor with the cursor where it was |
| Shell.SpecialEdit | ui/shell/shell.c:20-64 | every special key keeps the cursor within a line that fits the buffer; only Delete changes the line, and Delete leaves the cursor where it was |
| Shell.TypeThenBackspace | ui/shell/shell.c:128-140 | typing a printable character into a line shorter than 255 and then Backspace restores line and cursor (with lines 207-218) |
| Shell.BackspaceThenRetype | ui/shell/shell.c:128-140 | Backspace and then typing the removed character restores line and cursor (with lines 207-218) |
| Shell.TypeLeftDelete | ui/shell/shell.c:29-34 | typing a character, Left and Delete restore line and cursor (with lines 53-62, 207-218) |
| Shell.DeleteThenRetype | ui/shell/shell.c:29-34 | Delete, typing the removed character and Left restore line and cursor (with lines 53-62, 207-218) |
| Shell.Stripped | ui/shell/shell.c:147-153 | the history entry Enter saves begins with the command word |
| Shell.Dispatch | ui/shell/shell.c:168-196 | an unknown word is reported under its own name, and echo, ls, cat and cd get the arguments of the line |
| Shell.DispatchedKnown | ui/shell/shell.c:171-188 | each of the 18 dispatched names runs a command |
| Shell.OthersUnknown | ui/shell/shell.c:189-195 | every other word is an unknown command |
| Shell.RebootCompletesButIsUnknown | ui/shell/shell.c:168-196 | "reboot" is offered by TAB completion but Enter reports it as unknown |
| Shell.SkipSpacesStopsAt | ui/shell/shell.c:157 | the space scan stops exactly at the first non-space |
| Shell.SkipWordStopsAt | ui/shell/shell.c:160 | the word scan stops exactly at the first space |
| Shell.ParseSplits | ui/shell/shell.c:156-165 | a line is its leading spaces, its command word, the spaces after it and its arguments, in that order and nothing else |
| Shell.ParsePieces | ui/shell/shell.c:156-165 | the leading run and the separator are spaces, the word has none, the arguments do not start with one, and a blank line has no arguments |
| Shell.ParseJoin | ui/shell/shell.c:156-165 | spaces, a word, spaces and arguments joined parse back into that word and those arguments |
| Shell.StrippedParsesAlike | ui/shell/shell.c:147-165 | the saved history entry parses into the same command and arguments as the line typed |
| Shell.State | include/ui/tty/tty.h:35-37 | a TTY's line and cursor, which fit the buffer, with the line as long as buffer_index |
| Shell.CursorHome | ui/shell/shell.c:41-89 | only the cursor moves, to the start; the line is unchanged |
| Shell.CursorEnd | ui/shell/shell.c:47-96 | only the cursor moves, to the end; the line is unchanged |
| Shell.RemoveAt | ui/shell/shell.c:53-61 | the line loses the character at the position, its length drops by one, the cursor is set as asked, and no cell outside the line changes (with lines 128-135) |
| Shell.InsertAt | ui/shell/shell.c:207-218 | the character is inserted at the cursor, length and cursor grow by one, and no cell outside the line changes |
| Shell.KillToEnd | ui/shell/shell.c:97-105 | the line is cut at the cursor, the cursor stays, and only the cell at the cursor changes, to NUL |
| Shell.ClearLine | ui/shell/shell.c:74-76 | the line is empty with length and cursor 0, and only its first cell changes (with lines 198-200) |
| Shell.SplitLine | ui/shell/shell.c:156-165 | the three scans end after the leading spaces, after the command word, and after the spaces that follow it |
| Shell.CutCommand | ui/shell/shell.c:161-163 | at most the cell that ends the command word changes, and every other TTY's line stays well formed |
| Shell.Remember | ui/shell/shell.c:147-153 | a non-blank line is added to TTY t's history as AddSpec says; other TTYs' histories are untouched |
| Shell.Enter | ui/shell/shell.c:142-204 | the command run is EnterCommand's for the line, the stripped line is added to the history, the line is emptied and the history position reset; no other TTY changes |
| Shell.ControlKey | ui/shell/shell.c:82-119 | Ctrl-A, Ctrl-E, Ctrl-K and Ctrl-U change line and cursor exactly as CharEdit says, and no other TTY |
| Shell.EditKey | ui/shell/shell.c:121-140 | TAB changes line and cursor as TabEdit says, Backspace and the ignored characters as CharEdit says, and no other TTY |
| Shell.TypeKey | ui/shell/shell.c:71-80 | Ctrl-C and printable characters change line and cursor as CharEdit says, and reset the history position exactly when they clear or insert (with lines 206-228) |
| Shell.HandleChar | ui/shell/shell.c:66-229 | the current TTY's line and cursor change as CharEdit (or TabEdit for TAB) says, Enter returns its command and adds to the history, and no other TTY changes |
| Shell.SpecialKey | ui/shell/shell.c:29-62 | Left, Right, Home, End and Delete change line and cursor as SpecialEdit says, and no other TTY |
| Shell.HandleSpecialKey | ui/shell/shell.c:20-64 | UP and DOWN show the line Navigation picks; the other keys act as SpecialEdit says; no other TTY changes |
| Tetris.EmptyRow | ui/terminal_games/game_tetris/game_tetris.c:64-67 | a row of ten empty cells |
| Tetris.EmptyRowNotFull | ui/terminal_games/game_tetris/game_tetris.c:49-67 | the cleared top row is never full |
| Tetris.Kept | ui/terminal_games/game_tetris/game_tetris.c:47-73 | the rows check_lines keeps: none full, no more than there were, ten cells wide when the board is |
| Tetris.FullCount | ui/terminal_games/game_tetris/game_tetris.c:47-73 | every row is either removed or kept |
| Tetris.LinePoints | ui/terminal_games/game_tetris/game_tetris.c:68 | at most 100 points per row |
| Tetris.LinePointsCount | ui/terminal_games/game_tetris/game_tetris.c:68 | the points are exactly 100 per removed row |
| Tetris.Cleared | ui/terminal_games/game_tetris/game_tetris.c:47-73 | the board after check_lines has as many rows as before, none of them full, each ten cells wide |
| Tetris.KeptAppend | ui/terminal_games/game_tetris/game_tetris.c:59-63 | the rows kept from two parts of the board, in order, are the rows kept from the whole: clearing keeps the order of the remaining rows |
| Tetris.KeptNoneFull | ui/terminal_games/game_tetris/game_tetris.c:47-57 | a board without full rows keeps every row |
| Tetris.ClearedIdempotent | ui/terminal_games/game_tetris/game_tetris.c:47-73 | a second check_lines changes nothing |
| Tetris.OneRowCanFill | ui/terminal_games/game_tetris/game_tetris.c:39-73 | when only the locked piece's row can be full, one line is removed exactly when that row is full, otherwise none |
| Tetris.SameRows | ui/terminal_games/game_tetris/game_tetris.c:11 | two boards with equal cells are equal |
| Tetris.Locked | ui/terminal_games/game_tetris/game_tetris.c:39-44 | only the piece's cell changes, to the piece type, and only when the piece is inside the board; every other cell and row keeps its value |
| Tetris.Landing | ui/terminal_games/game_tetris/game_tetris.c:219-221 | the hard drop passes only free cells and stops where the cell below is not free |
| Tetris.Spawned | ui/terminal_games/game_tetris/game_tetris.c:76-86 | a type-1 piece at (5, 0) with a redraw due; the game is over exactly when it was or the spawn cell is taken; score, running flag and counter unchanged |
| Tetris.Moved | ui/terminal_games/game_tetris/game_tetris.c:233-275 | a move happens only while the game is on and the target is free, and then shifts the piece, adds the bonus to the score and requests a redraw; game-over, running and counter never change |
| Tetris.Game.Rows | ui/terminal_games/game_tetris/game_tetris.c:11 | the board as twenty rows of ten cells |
| Tetris.Game.constructor | ui/terminal_games/game_tetris/game_tetris.c:11-22 | the static board is empty and the statics hold their initial values, not running |
| Tetris.Game.PositionOnRows | ui/terminal_games/game_tetris/game_tetris.c:25-36 | a position is valid exactly when it lies on the 10x20 board and its cell is empty |
| Tetris.Game.LockPiece | ui/terminal_games/game_tetris/game_tetris.c:39-44 | the board becomes Locked's |
| Tetris.Game.RowIsFull | ui/terminal_games/game_tetris/game_tetris.c:49-55 | true exactly when the row has no empty cell |
| Tetris.Game.DropRowsAbove | ui/terminal_games/game_tetris/game_tetris.c:58-67 | the row is removed, the rows above move down one, and an empty row enters at the top |
| Tetris.Game.RemoveRow | ui/terminal_games/game_tetris/game_tetris.c:57-71 | the row is removed as DropRowsAbove says, 100 points are added with 32-bit wrap-around, and a redraw is due |
| Tetris.Game.ScanRow | ui/terminal_games/game_tetris/game_tetris.c:48-72 | one pass of the scan keeps the scan invariant and makes progress, with the points gained so far and the redraw flag accounted for |
| Tetris.Game.CheckLines | ui/terminal_games/game_tetris/game_tetris.c:47-73 | the board becomes Cleared's, the score grows by LinePoints, and a redraw is due exactly when a row was full or one already was |
| Tetris.Game.SpawnNewPiece | ui/terminal_games/game_tetris/game_tetris.c:76-86 | the statics become Spawned's for the spawn cell's validity |
| Tetris.Game.Init | ui/terminal_games/game_tetris/game_tetris.c:152-168 | an empty board with score 0, running, not over, the piece at (5, 0), a redraw due |
| Tetris.Game.ClearBoard | ui/terminal_games/game_tetris/game_tetris.c:154-158 | every cell is empty |
| Tetris.Game.Settle | ui/terminal_games/game_tetris/game_tetris.c:190-194 | the piece is locked, full lines are cleared and scored, and a new piece spawns |
| Tetris.Game.LockAndClear | ui/terminal_games/game_tetris/game_tetris.c:191-224 | the board is the locked board cleared, has no full row, and the score grows by its line points |
| Tetris.Game.Update | ui/terminal_games/game_tetris/game_tetris.c:170-195 | a stopped game is untouched; only every 20th call acts: a finished game only requests a redraw, otherwise the piece falls one row or settles |
| Tetris.Game.Fall | ui/terminal_games/game_tetris/game_tetris.c:185-194 | the piece moves down one row when that cell is free, otherwise it settles as Settle says |
| Tetris.Game.Draw | ui/terminal_games/game_tetris/game_tetris.c:197-209 | after drawing the screen is set up and nothing is left to redraw |
| Tetris.Game.Move | ui/terminal_games/game_tetris/game_tetris.c:233-275 | the statics become Moved's for the target cell |
| Tetris.Game.HardDrop | ui/terminal_games/game_tetris/game_tetris.c:216-228 | the piece is locked at its landing row, lines are cleared and scored, 20 bonus points are added, and a new piece spawns |
| Tetris.Game.LockWithBonus | ui/terminal_games/game_tetris/game_tetris.c:223-227 | lock, clear, 20 bonus points and a new piece, at the current position |
| Tetris.Game.DropToBottom | ui/terminal_games/game_tetris/game_tetris.c:219-221 | the piece ends at its landing row, and the board is unchanged |
| Tetris.Game.PlayKey | ui/terminal_games/game_tetris/game_tetris.c:216-249 | space hard-drops only while the game is on; R restarts only a finished game; A, D and S move as Moved says, S with one point; every other key changes nothing |
| Tetris.Game.Input | ui/terminal_games/game_tetris/game_tetris.c:211-250 | Esc stops the game and restores the TTY to the shell; other keys play as PlayKey says and leave the TTYs alone |
| Tetris.Game.SpecialInput | ui/terminal_games/game_tetris/game_tetris.c:252-277 | the Left, Right and Down arrows move as Moved says, Down with one point; other scancodes change nothing |
| Tetris.ScanStep | ui/terminal_games/game_tetris/game_tetris.c:48-72 | a full row at the scan position is removed and scanned again; a row that is not full is kept and the scan moves up |
| Tetris.ScanDone | ui/terminal_games/game_tetris/game_tetris.c:48 | when the scan passes the top row the board is Cleared's |
| Snake.Crawled | ui/terminal_games/game_snake/game_snake.c:198-202 | the snake keeps its length, the head is the new cell, and every other segment takes the place of the one before it |
| Snake.Grown | ui/terminal_games/game_snake/game_snake.c:208-213 | below 800 segments the snake grows by one, a copy of its tail; at 800 it stays as it was |
| Snake.Advanced | ui/terminal_games/game_snake/game_snake.c:176-218 | a head on a wall or on the body ends the game and leaves the snake unchanged; otherwise the snake crawls, and eating food adds 10 points, grows it and places new food; the direction, running flag and counter never change |
| Snake.Started | ui/terminal_games/game_snake/game_snake.c:140-159 | the laid-out snake with food on a free cell inside the walls satisfies every game invariant |
| Snake.Turned | ui/terminal_games/game_snake/game_snake.c:247-276 | an arrow key selects one of the four directions but never the reverse of a unit direction; any other scancode keeps the direction |
| Snake.AdvancedSound | ui/terminal_games/game_snake/game_snake.c:176-218 | a move keeps the snake inside the walls, in one connected piece, off the food and within 800 segments, as long as spawn_food picks a free cell |
| Snake.UpdatedSound | ui/terminal_games/game_snake/game_snake.c:161-219 | every update keeps the game invariants |
| Snake.UpdatesCount | ui/terminal_games/game_snake/game_snake.c:164-168 | below the tenth call an update only counts, so a running snake moves on one call in ten |
| Snake.Game.constructor | ui/terminal_games/game_snake/game_snake.c:17-26 | the statics before the first snake_init: no snake, not running, a redraw due |
| Snake.Game.SpawnFood | ui/terminal_games/game_snake/game_snake.c:29-53 | the food lands on the chosen cell, which is inside the walls and off the snake |
| Snake.Game.Init | ui/terminal_games/game_snake/game_snake.c:140-159 | the game becomes Started's: the three-segment snake at (20, 10), (19, 10), (18, 10) heading right, score 0, running |
| Snake.Game.LayOut | ui/terminal_games/game_snake/game_snake.c:141-147 | three segments at (20, 10), (19, 10) and (18, 10) |
| Snake.Game.HitsBody | ui/terminal_games/game_snake/game_snake.c:189-196 | true exactly when the cell is one of segments 1 to length - 1 |
| Snake.Game.ShiftBody | ui/terminal_games/game_snake/game_snake.c:198-202 | the live segments become Crawled's, and the array beyond them is untouched |
| Snake.Game.Crawl | ui/terminal_games/game_snake/game_snake.c:176-218 | the game becomes Advanced's |
| Snake.Game.EndGame | ui/terminal_games/game_snake/game_snake.c:184-193 | the game is over and a redraw is due |
| Snake.Game.MoveTo | ui/terminal_games/game_snake/game_snake.c:198-218 | for an unblocked move the game becomes Advanced's |
| Snake.Game.Update | ui/terminal_games/game_snake/game_snake.c:161-219 | the game becomes Updated's: a stopped game is untouched, nine calls in ten only count, and a finished game only requests a redraw |
| Snake.Game.Draw | ui/terminal_games/game_snake/game_snake.c:221-233 | after drawing the screen is set up and nothing is left to redraw |
| Snake.Game.Input | ui/terminal_games/game_snake/game_snake.c:235-245 | Esc stops the game and restores the TTY to the shell; R restarts only a finished game; other keys change nothing |
| Snake.Game.SpecialInput | ui/terminal_games/game_snake/game_snake.c:247-276 | a finished game ignores the arrows; otherwise the direction becomes Turned's |

## Left out

- Port I/O is recorded as a sequence of writes; the UART's transmit-empty busy wait (drivers/serial/serial.c:47-48) is taken to drain at once, and serial_is_initialized is a plain field read.
- idt_load's `lidt`, the PIC and PIT programming, and `sti` (arch/x86_64/idt.c:129-137) are hardware effects; only the gate table and the interrupt rules are modelled.
- get_timer_ticks and sleep_ms (arch/x86_64/idt.c:193-202) depend on the timer interrupt firing; time is not modelled.
- Interrupt masking and concurrency between the IRQ handlers and the main loop are not modelled; each handler runs to completion between main-loop steps.
- vmm_switch_page_directory and `invlpg` load CR3 and flush the TLB; they are hardware effects.
- The console's thin forwarding wrappers (ui/console.c:9-11, 110-152) only call the framebuffer console.
- The messages and colour changes printed by keyboard_init, pmm_init, vmm_init, heap_init, vfs_init, the tty_switch banners (ui/tty/tty.c:65-91), the shell prompt and echo, shell_print_prompt, redraw_line_from_cursor and the completion match listings (ui/shell/shell_history.c:127-141, 208-235) are output only.
- shell_update and shell_draw have empty bodies. shell_init's banner, colour changes and first prompt are output only; its TTY registration is Kernel.InitTerminals.
- The draw_full_screen functions of Tetris and Snake and the Tetris score digits are drawing only; the game state they show is modelled.
- The framebuffer's volatile memory is an array of words; glyph drawing, the cursor underscore and the pixel copy of the framebuffer console's scroll are not modelled (the scroll's effect on the cursor is).
- fb_console set_fg_color, set_bg_color, show_cursor, get_cursor_pos, delete_char_at_cursor and insert_char_at_cursor are field updates and drawing.
- terminal_enable_cursor and the `outb` writes of the VGA cursor are hardware effects; only the cursor index they send is modelled. terminal_writestring is a loop over terminal_putchar.
- vga_text.h is not part of this model; the 80x25 text dimensions are constants here.
- vfs_get_root, vfs_get_cwd, pmm_get_total_memory (mm/pmm.c:177-179), fb_get_current and fb_is_initialized (drivers/video/framebuffer.c:114-122), snake_is_running (ui/terminal_games/game_snake/game_snake.c:278) and tetris_is_running (ui/terminal_games/game_tetris/game_tetris.c:279) are field reads; the node's write callback is a parameter, as its filesystems are not part of this model.
- Tarfs console messages are output only; a kmalloc failure inside tarfs_init is not modelled.
- The TTY's saved screen contents and tty_get_current (a field read) are not modelled.
- kernel_main's banner, console set-up and hardware initialisation (idt_init, pic_init, pit_init, pit_sleep, keyboard_init) are not modelled; Kernel.Boot starts at get_memory_size and stops before the main loop, whose passes are Kernel.MainLoopPass.
- Raw pointers are replaced by values and offsets into the memory they point at.
- lib/string and shell_commands.c are not part of this model: Enter yields the parsed Command value instead of running it.
- Snake's spawn_food retries random cells seeded by the timer; the model takes the free cell as a parameter (FoodSpot). On a board the snake fills (38 x 18 interior cells, below the 800-segment limit) there is no free cell and spawn_food (ui/terminal_games/game_snake/game_snake.c:29-52) never returns; the model does not reach that state.
- Pmm.PhysicalMemory.Init: the bitmap layout is stated only for memories of at most 2^32 frames, because the frame index handed to bitmap_clear is a uint32.
- Heap.KernelHeap.Kcalloc: the wrapped request must be below 2^64 - 15; the wrapped rounding of larger requests is shown separately by Heap.HugeRequest.
- Heap.KernelHeap.Krealloc: a request that moves a block must be below 2^64 - 15, for the same reason.
- Multiboot.FindTagAsWritten: bounded by a fuel argument, since the code as written need not terminate.
- Framebuffer.FindFramebufferAsWritten: bounded by a fuel argument, since the code as written need not terminate.
- ShellHistory.CompleteFilesystemPath: models the corrected completion (CompletedFile), not the line the code builds with a leading space or past the buffer.
- ShellHistory.HandleTabCompletion: models the corrected completion, as CompleteFilesystemPath does.
- Shell.Enter: yields the command instead of running it, and empties the line after the command is chosen. A command that calls tty_change_mode (snake, tetris) runs before the line is emptied in the C, so the backup it takes holds the command line, and a later tty_restore_to_shell brings that line back; the model's shell has an empty line there.
- Tty.TtyTable.PollInput: names the callback each event goes to instead of running it, so every queued event is routed with the table as it was before the callbacks ran. With Esc then 'x' queued while Snake is current, the C's Esc callback restores the shell and 'x' reaches shell_handle_char; the model hands both to Snake.
- Kernel.MainLoopPass: routes input as Tty.TtyTable.PollInput does, and names the update and draw callbacks instead of running them, so their effects on the TTY table within the pass are not modelled.
- Framebuffer.Device.Init: steps over tags by the size rounded up without wrap-around; where fb_init's uint32 stride wraps to 0 the C never returns (Framebuffer.HugeTagHangs).
- Vfs.ReadStaysInFile: holds only when the requested size does not wrap when added to the position; the wrapping case is Vfs.ReadWrapReachesDescriptor.
- Heap.KernelHeap.Kfree: requires the pointer to be a live allocation once the heap is initialised; a double free or a foreign pointer, which mm/heap.c:185-199 would accept and subtract from used_size again, is undefined behaviour and not modelled.
- Pmm.UsedMemoryDrift: shows that pmm_get_used_memory over-reports after an allocation; no corrected counter is proved, since the intended granularity is not evident.

## Findings

| source | as written | input that shows it | evidently intended | confidence | as-written member | corrected member |
|---|---|---|---|---|---|---|
| fs/tarfs.c:53-55 | `offset + size > node->length` is evaluated in uint32 | a 100-byte file read at offset 10 with size 0xFFFFFFFF: the sum wraps to 9, 0xFFFFFFFF bytes are copied and -1 is returned | the read is clipped to the bytes after the offset | not executed | Tarfs.ReadWrapOverruns | Tarfs.ReadAgrees |
| fs/tarfs.c:118-119 | the step to the next header is computed in uint32 | a header whose size field rounds the step up to 2^32, so the step is 0 and tarfs_init reads the same header forever | every step moves at least one 512-byte header forward | not executed | Tarfs.SpinningArchiveSpins | Tarfs.InitCorrected |
| fs/vfs.c:50-52 | the root path "/" is written without checking the buffer size | cwd is the root and size is 1: two characters are written into a one-byte buffer | nothing beyond size bytes is written | not executed | Vfs.CwdPathOverrun | Vfs.CwdPathCorrected |
| ui/fb_console.c:251-280 | continuation bytes are consumed without checking for the terminator | the bytes C3 00: the decoder steps past the NUL and yields U+00C0 with length 2 | a missing continuation byte yields U+FFFD with length 1 | not executed | FbConsole.DecodeSkipsTerminator | FbConsole.Decode |
| kernel/kernel.c:26-33 | the tag walk advances by the aligned tag size | a tag of type 1 with size 0: the walk never advances | the walk stops at a tag it cannot step over (stride 0) | not executed | Multiboot.ZeroSizeTagHangs | Multiboot.ZeroSizeTagStops |
| drivers/video/framebuffer.c:60-61 | the aligned tag size is computed in uint32 | a tag size of 0xFFFFFFFF: the aligned stride wraps to 0 | the walk ends at the end of the boot information | not executed | Framebuffer.HugeTagHangs | Framebuffer.HugeTagEnds |
| mm/heap.c:195 | kfree subtracts the block's stored size from used_size, while kmalloc (line 121) adds the aligned request | a 56-byte heap, kmalloc(16) then kfree: used_size wraps to 2^64-16 and 72 bytes are reported free with nothing allocated | used_size is the bytes, headers included, of the allocated blocks | not executed | Heap.UsedSizeDrift | Heap.KernelHeap.UsedCorrected |
| mm/heap.c:21-23 | align_size rounds up in size_t | kmalloc(SIZE_MAX): the rounded size wraps to 0 and a block of size 0 is returned | a request that cannot be rounded fails | not executed | Heap.HugeRequest | Heap.AlignSizeChecked |
| ui/shell/shell_history.c:176-184 | the command is copied up to the first space of the line | " cat RE" with README in the cwd becomes " README" | " cat README" | not executed | ShellHistory.LeadingSpaceLosesCommand | ShellHistory.FileCompletionKeepsCommand |
| ui/shell/shell_history.c:193-206 | the completed line is written without checking the 256-byte buffer | "ls" + 200 spaces + "r" with one file named "r" followed by 99 x's: 302 characters are written | a completion that does not fit is not applied | not executed | ShellHistory.CompletionOverflows | ShellHistory.CompletedFile |
