/*
 * Virtual terminals (ui/tty/tty.c): a table of eight TTY records, the
 * current TTY, a backup record per TTY for tty_change_mode and
 * tty_restore_to_shell, and the routing of keyboard events to the current
 * TTY's input callbacks.
 *
 * Each record's 256-byte command buffer is a row of `buffers` (and of
 * `backupBuffers` for the backups); the other fields of the C struct are a
 * TtyRecord value. Callbacks are opaque tokens: routing records which
 * callback would receive which input instead of running it. Console output
 * (clearing, cursor visibility, banners, the prompt) is not modelled.
 */
module Tty {
  import opened Common
  import Keyboard

  const MAX_TTYS: nat := 8
  const BUFFER_SIZE: nat := 256

  datatype Mode = ShellMode | GameMode | TextMode

  /** A function pointer: Absent is NULL, Present(id) some function identified by id. */
  datatype Callback = Absent | Present(id: nat)

  /** tty_t without its command buffer; the screen-persistence fields are never set and are left out. */
  datatype TtyRecord = TtyRecord(
    mode: Mode,
    update: Callback, draw: Callback, charInput: Callback, specialInput: Callback,
    initialized: bool, needsRedraw: bool,
    bufferIndex: u16, cursorPosition: u32)

  /** The all-zero record of static storage. */
  const ZERO_RECORD := TtyRecord(ShellMode, Absent, Absent, Absent, Absent, false, false, 0, 0)

  /** The record tty_init leaves in every slot. */
  const INIT_RECORD := TtyRecord(ShellMode, Absent, Absent, Absent, Absent, false, true, 0, 0)

  /** An input handed to a callback by tty_poll_input. */
  datatype Delivery = CharTo(callback: nat, character: char) | SpecialTo(callback: nat, scancode: byte)

  /**
   * The line-editing invariant the shell keeps for a record and its buffer
   * row: the line occupies the first bufferIndex cells, holds no NUL, is
   * NUL-terminated and fits the buffer with its terminator; the cursor lies
   * within it.
   */
  ghost predicate LineOk(r: TtyRecord, buf: array2<char>, t: int)
    requires 0 <= t < buf.Length0 && buf.Length1 == BUFFER_SIZE
    reads buf
  {
    && r.bufferIndex < BUFFER_SIZE
    && r.cursorPosition <= r.bufferIndex
    && buf[t, r.bufferIndex] == '\0'
    && forall i :: 0 <= i < r.bufferIndex ==> buf[t, i] != '\0'
  }

  /** The first n characters of row t. */
  function RowPrefix(buf: array2<char>, t: int, n: nat): (s: seq<char>)
    requires 0 <= t < buf.Length0 && n <= buf.Length1
    reads buf
    ensures |s| == n && forall i :: 0 <= i < n ==> s[i] == buf[t, i]
  {
    seq(n, i requires 0 <= i < n reads buf => buf[t, i])
  }

  // ---------------------------------------------------------------------
  // Record-level effects of the operations
  // ---------------------------------------------------------------------

  /** tty_register's effect on the record. */
  function Registered(r: TtyRecord, mode: Mode, update: Callback, draw: Callback,
                      charInput: Callback, specialInput: Callback): (r': TtyRecord)
    ensures r'.initialized && r'.needsRedraw && r'.mode == mode
    ensures r'.update == update && r'.draw == draw && r'.charInput == charInput && r'.specialInput == specialInput
    ensures r'.bufferIndex == r.bufferIndex && r'.cursorPosition == r.cursorPosition
  {
    r.(mode := mode, update := update, draw := draw, charInput := charInput,
       specialInput := specialInput, initialized := true, needsRedraw := true)
  }

  /** tty_change_mode's effect on the current record (the backup takes the old record). */
  function Changed(r: TtyRecord, mode: Mode, update: Callback, draw: Callback,
                   charInput: Callback, specialInput: Callback): (r': TtyRecord)
    ensures r'.initialized && r'.needsRedraw && r'.mode == mode
    ensures r'.update == update && r'.draw == draw && r'.charInput == charInput && r'.specialInput == specialInput
    ensures r'.bufferIndex == r.bufferIndex && r'.cursorPosition == r.cursorPosition
  {
    r.(mode := mode, update := update, draw := draw, charInput := charInput,
       specialInput := specialInput, needsRedraw := true, initialized := true)
  }

  /** tty_restore_to_shell's effect on the current record, given its backup. */
  function Restored(r: TtyRecord, b: TtyRecord): (r': TtyRecord)
    ensures r'.initialized && r'.needsRedraw && r'.mode == ShellMode
    ensures r'.update == b.update && r'.draw == b.draw && r'.charInput == b.charInput && r'.specialInput == b.specialInput
    ensures r'.bufferIndex == b.bufferIndex && r'.cursorPosition == b.cursorPosition
  {
    r.(mode := ShellMode, update := b.update, draw := b.draw, charInput := b.charInput,
       specialInput := b.specialInput, needsRedraw := true, initialized := true,
       bufferIndex := b.bufferIndex, cursorPosition := b.cursorPosition)
  }

  /** Restoring after a mode change gives back the shell's callbacks and line state. */
  lemma RestoreUndoesChange(r: TtyRecord, mode: Mode, update: Callback, draw: Callback,
                            charInput: Callback, specialInput: Callback)
    requires r.mode == ShellMode && r.initialized
    ensures Restored(Changed(r, mode, update, draw, charInput, specialInput), r) == r.(needsRedraw := true)
  {
  }

  /** tty_switch as a function of the table: its result, the new current TTY and the new records. */
  datatype Switched = Switched(result: int, current: int, recs: seq<TtyRecord>)

  function SwitchSpec(recs: seq<TtyRecord>, current: int, n: int): (s: Switched)
    requires |recs| == MAX_TTYS
    ensures s.result == -1 <==> !(0 <= n < MAX_TTYS && recs[n].initialized)
    ensures s.result == -1 || s.result == 0
    ensures s.result == 0 ==> s.current == n
    ensures s.result == -1 || n == current ==> s.current == current && s.recs == recs
    ensures |s.recs| == MAX_TTYS
    ensures forall k :: 0 <= k < MAX_TTYS && k != n ==> s.recs[k] == recs[k]
  {
    if !(0 <= n < MAX_TTYS) || !recs[n].initialized then Switched(-1, current, recs)
    else if n == current then Switched(0, current, recs)
    else Switched(0, n, recs[n := recs[n].(needsRedraw := true)])
  }

  /** The TTY an Alt+Fn event asks for, if the event is one and that TTY is initialized. */
  function SwitchTarget(recs: seq<TtyRecord>, e: Keyboard.KeyEvent): (n: Option<nat>)
    requires |recs| == MAX_TTYS
    ensures n.Some? ==> n.value < 6 && recs[n.value].initialized
  {
    if e.kind == Keyboard.SpecialEvent && e.alt && 0x3B <= e.scancode <= 0x40
       && e.scancode - 0x3B < MAX_TTYS && recs[e.scancode - 0x3B].initialized
    then Some(e.scancode - 0x3B)
    else None
  }

  /** The callback invocation an event turns into on TTY `r`, if it has the callback. */
  function Forward(r: TtyRecord, e: Keyboard.KeyEvent): seq<Delivery>
  {
    if e.kind == Keyboard.CharEvent then
      (if r.charInput.Present? then [CharTo(r.charInput.id, e.character)] else [])
    else
      (if r.specialInput.Present? then [SpecialTo(r.specialInput.id, e.scancode)] else [])
  }

  datatype Routed = Routed(recs: seq<TtyRecord>, current: int, out: seq<Delivery>)

  /** tty_poll_input over a queue of events: switches and the deliveries, in order. */
  function RouteAll(recs: seq<TtyRecord>, current: int, es: seq<Keyboard.KeyEvent>): (r: Routed)
    requires |recs| == MAX_TTYS && 0 <= current < MAX_TTYS
    ensures |r.recs| == MAX_TTYS && 0 <= r.current < MAX_TTYS
    decreases |es|
  {
    if es == [] then Routed(recs, current, [])
    else
      var target := SwitchTarget(recs, es[0]);
      if target.Some? then
        var s := SwitchSpec(recs, current, target.value);
        RouteAll(s.recs, s.current, es[1..])
      else
        var rest := RouteAll(recs, current, es[1..]);
        Routed(rest.recs, rest.current, Forward(recs[current], es[0]) + rest.out)
  }

  /** An Alt+Fn event for an initialized TTY makes it current and reaches no callback. */
  lemma AltFunctionSwitches(recs: seq<TtyRecord>, current: int, e: Keyboard.KeyEvent)
    requires |recs| == MAX_TTYS && 0 <= current < MAX_TTYS
    requires e.kind == Keyboard.SpecialEvent && e.alt && 0x3B <= e.scancode <= 0x40
    requires recs[e.scancode - 0x3B].initialized
    ensures RouteAll(recs, current, [e]).current == e.scancode - 0x3B
    ensures RouteAll(recs, current, [e]).out == []
  {
    assert [e][1..] == [];
  }

  /** Any other event goes to the current TTY's callback and changes nothing else. */
  lemma OtherEventsForwarded(recs: seq<TtyRecord>, current: int, e: Keyboard.KeyEvent)
    requires |recs| == MAX_TTYS && 0 <= current < MAX_TTYS
    requires SwitchTarget(recs, e).None?
    ensures RouteAll(recs, current, [e]) == Routed(recs, current, Forward(recs[current], e))
  {
    assert [e][1..] == [];
  }

  /** An event with a character reaches only a char callback, a special event only a special one. */
  lemma ForwardKinds(r: TtyRecord, e: Keyboard.KeyEvent)
    ensures |Forward(r, e)| <= 1
    ensures e.kind == Keyboard.CharEvent ==>
      (Forward(r, e) != [] <==> r.charInput.Present?) &&
      forall d :: d in Forward(r, e) ==> d == CharTo(r.charInput.id, e.character)
    ensures e.kind == Keyboard.SpecialEvent ==>
      (Forward(r, e) != [] <==> r.specialInput.Present?) &&
      forall d :: d in Forward(r, e) ==> d == SpecialTo(r.specialInput.id, e.scancode)
  {
  }

  /** Routing a non-empty queue: the first event, then the rest from the state it leaves. */
  lemma RouteFirst(recs: seq<TtyRecord>, current: int, es: seq<Keyboard.KeyEvent>)
    requires |recs| == MAX_TTYS && 0 <= current < MAX_TTYS && es != []
    ensures var a := RouteAll(recs, current, [es[0]]);
      var b := RouteAll(a.recs, a.current, es[1..]);
      RouteAll(recs, current, es) == Routed(b.recs, b.current, a.out + b.out)
  {
    assert [es[0]][1..] == [];
  }

  /** Routing a queue is routing its first events, then the rest from the state they leave. */
  lemma {:induction false} RouteAppend(recs: seq<TtyRecord>, current: int, es: seq<Keyboard.KeyEvent>, e: Keyboard.KeyEvent)
    requires |recs| == MAX_TTYS && 0 <= current < MAX_TTYS
    ensures var a := RouteAll(recs, current, es);
      var b := RouteAll(a.recs, a.current, [e]);
      RouteAll(recs, current, es + [e]) == Routed(b.recs, b.current, a.out + b.out)
    decreases |es|
  {
    if es == [] {
      assert es + [e] == [e];
    } else {
      assert (es + [e])[1..] == es[1..] + [e];
      var target := SwitchTarget(recs, es[0]);
      if target.Some? {
        var s := SwitchSpec(recs, current, target.value);
        RouteAppend(s.recs, s.current, es[1..], e);
      } else {
        RouteAppend(recs, current, es[1..], e);
      }
    }
  }

  class TtyTable {
    const ttys: array<TtyRecord>
    const buffers: array2<char>
    const backup: array<TtyRecord>
    const backupBuffers: array2<char>
    var current: int

    /** The shapes of the tables, which every operation keeps. */
    ghost predicate Shaped()
      reads this
    {
      && ttys.Length == MAX_TTYS && backup.Length == MAX_TTYS && ttys != backup
      && buffers.Length0 == MAX_TTYS && buffers.Length1 == BUFFER_SIZE
      && backupBuffers.Length0 == MAX_TTYS && backupBuffers.Length1 == BUFFER_SIZE
      && buffers != backupBuffers
      && 0 <= current < MAX_TTYS
    }

    ghost predicate Valid()
      reads this, ttys, buffers, backup, backupBuffers
    {
      && Shaped()
      && (forall t :: 0 <= t < MAX_TTYS ==> LineOk(ttys[t], buffers, t))
      && (forall t :: 0 <= t < MAX_TTYS ==> LineOk(backup[t], backupBuffers, t))
    }

    /** The line being edited on TTY t: the buffer up to its NUL. */
    function Line(t: int): (s: seq<char>)
      requires Valid() && 0 <= t < MAX_TTYS
      reads this, ttys, buffers, backup, backupBuffers
      ensures |s| < BUFFER_SIZE && '\0' !in s
    {
      RowPrefix(buffers, t, ttys[t].bufferIndex)
    }

    /** The tables as static storage leaves them: every field zero. */
    constructor()
      ensures Valid() && fresh(ttys) && fresh(buffers) && fresh(backup) && fresh(backupBuffers)
      ensures current == 0 && ttys[..] == seq(MAX_TTYS, _ => ZERO_RECORD)
    {
      ttys := new TtyRecord[MAX_TTYS](_ => ZERO_RECORD);
      backup := new TtyRecord[MAX_TTYS](_ => ZERO_RECORD);
      buffers := new char[MAX_TTYS, BUFFER_SIZE]((_, _) => '\0');
      backupBuffers := new char[MAX_TTYS, BUFFER_SIZE]((_, _) => '\0');
      current := 0;
    }

    /** tty_init: every TTY in shell mode, uninitialized, without callbacks, with an empty line. */
    method Init()
      requires Valid()
      modifies this, ttys, buffers
      ensures Valid() && current == 0
      ensures forall t :: 0 <= t < MAX_TTYS ==> ttys[t] == INIT_RECORD && Line(t) == []
    {
      for i := 0 to MAX_TTYS
        invariant forall t :: 0 <= t < i ==> ttys[t] == INIT_RECORD && buffers[t, 0] == '\0'
        invariant forall t :: i <= t < MAX_TTYS ==> ttys[t] == old(ttys[t])
        invariant forall t, k :: 0 <= t < MAX_TTYS && 0 < k < BUFFER_SIZE ==> buffers[t, k] == old(buffers[t, k])
        invariant forall t :: i <= t < MAX_TTYS ==> buffers[t, 0] == old(buffers[t, 0])
      {
        ttys[i] := INIT_RECORD;
        buffers[i, 0] := '\0';
      }
      current := 0;
    }

    /** tty_register: installs a mode and callbacks on an in-range TTY and marks it initialized. */
    method Register(n: int, mode: Mode, update: Callback, draw: Callback,
                    charInput: Callback, specialInput: Callback)
      requires Valid()
      modifies ttys
      ensures Valid()
      ensures !(0 <= n < MAX_TTYS) ==> ttys[..] == old(ttys[..])
      ensures 0 <= n < MAX_TTYS ==>
        ttys[..] == old(ttys[..])[n := Registered(old(ttys[n]), mode, update, draw, charInput, specialInput)]
    {
      if n < 0 || n >= MAX_TTYS {
        return;
      }
      ttys[n] := Registered(ttys[n], mode, update, draw, charInput, specialInput);
    }

    /** tty_switch. */
    method Switch(n: int) returns (r: int)
      requires Valid()
      modifies this, ttys
      ensures Valid()
      ensures Switched(r, current, ttys[..]) == SwitchSpec(old(ttys[..]), old(current), n)
    {
      if n < 0 || n >= MAX_TTYS || !ttys[n].initialized {
        return -1;
      }
      if n == current {
        return 0;
      }
      current := n;
      ttys[current] := ttys[current].(needsRedraw := true);
      return 0;
    }

    /** One event of tty_poll_input's loop: an Alt+Fn switch, or the current TTY's callback. */
    method Route(e: Keyboard.KeyEvent) returns (d: seq<Delivery>)
      requires Valid()
      modifies this, ttys
      ensures Valid()
      ensures Routed(ttys[..], current, d) == RouteAll(old(ttys[..]), old(current), [e])
    {
      assert [e][1..] == [];
      if e.kind == Keyboard.SpecialEvent && e.alt && 0x3B <= e.scancode <= 0x40 {
        var n := e.scancode - 0x3B;
        if n < MAX_TTYS && ttys[n].initialized {
          var _ := Switch(n);
          return [];
        }
      }
      d := Forward(ttys[current], e);
    }

    /** tty_poll_input: drains the keyboard queue, switching TTYs and collecting the callback invocations. */
    method PollInput(kb: Keyboard.KeyboardDriver) returns (out: seq<Delivery>)
      requires Valid() && kb.Valid()
      modifies this, ttys, kb`bufferTail
      ensures Valid() && kb.Valid() && kb.Queue() == []
      ensures Routed(ttys[..], current, out) == RouteAll(old(ttys[..]), old(current), old(kb.Queue()))
    {
      out := [];
      ghost var all := RouteAll(ttys[..], current, kb.Queue());
      while true
        invariant Valid() && kb.Valid()
        invariant RouteAll(ttys[..], current, kb.Queue()).recs == all.recs
        invariant RouteAll(ttys[..], current, kb.Queue()).current == all.current
        invariant out + RouteAll(ttys[..], current, kb.Queue()).out == all.out
        decreases |kb.Queue()|
      {
        ghost var q := kb.Queue();
        ghost var recs, cur := ttys[..], current;
        var r, event := kb.PollEvent();
        if r == 0 {
          return;
        }
        ghost var rest := kb.Queue();
        RouteFirst(recs, cur, q);
        var d := Route(event.value);
        assert kb.Queue() == rest;
        ghost var b := RouteAll(ttys[..], current, rest);
        assert RouteAll(recs, cur, q) == Routed(b.recs, b.current, d + b.out);
        out := out + d;
        assert out + b.out == all.out;
      }
    }

    /** tty_change_mode: the current record (with its buffer) goes to the backup, then the new mode and callbacks are installed. */
    method ChangeMode(mode: Mode, update: Callback, draw: Callback, charInput: Callback, specialInput: Callback)
      requires Valid()
      modifies ttys, backup, backupBuffers
      ensures Valid()
      ensures backup[..] == old(backup[..])[current := old(ttys[current])]
      ensures forall t, i :: 0 <= t < MAX_TTYS && 0 <= i < BUFFER_SIZE ==>
        backupBuffers[t, i] == if t == current then buffers[t, i] else old(backupBuffers[t, i])
      ensures ttys[..] == old(ttys[..])[current := Changed(old(ttys[current]), mode, update, draw, charInput, specialInput)]
    {
      var n := current;
      backup[n] := ttys[n];
      for i := 0 to BUFFER_SIZE
        invariant backup[..] == old(backup[..])[n := old(ttys[n])] && ttys[..] == old(ttys[..])
        invariant forall t, k :: 0 <= t < MAX_TTYS && 0 <= k < BUFFER_SIZE ==>
          backupBuffers[t, k] == if t == n && k < i then buffers[t, k] else old(backupBuffers[t, k])
      {
        backupBuffers[n, i] := buffers[n, i];
      }
      ttys[n] := Changed(ttys[n], mode, update, draw, charInput, specialInput);
    }

    /** tty_restore_to_shell: shell mode, and the callbacks, buffer and line state of the backup. */
    method RestoreToShell()
      requires Valid()
      modifies ttys, buffers
      ensures Valid()
      ensures ttys[..] == old(ttys[..])[current := Restored(old(ttys[current]), backup[current])]
      ensures forall t, i :: 0 <= t < MAX_TTYS && 0 <= i < BUFFER_SIZE ==>
        buffers[t, i] == if t == current then backupBuffers[t, i] else old(buffers[t, i])
      ensures Line(current) == RowPrefix(backupBuffers, current, backup[current].bufferIndex)
    {
      var n := current;
      ttys[n] := ttys[n].(mode := ShellMode, update := backup[n].update, draw := backup[n].draw,
                          charInput := backup[n].charInput, specialInput := backup[n].specialInput,
                          needsRedraw := true, initialized := true);
      ghost var mid := ttys[..];
      for i := 0 to BUFFER_SIZE
        invariant ttys[..] == mid
        invariant forall t, k :: 0 <= t < MAX_TTYS && 0 <= k < BUFFER_SIZE ==>
          buffers[t, k] == if t == n && k < i then backupBuffers[t, k] else old(buffers[t, k])
      {
        buffers[n, i] := backupBuffers[n, i];
      }
      ttys[n] := ttys[n].(bufferIndex := backup[n].bufferIndex, cursorPosition := backup[n].cursorPosition);
    }

    /** A game launched from the shell and then left returns the shell's callbacks, line and cursor. */
    method ChangeModeThenRestore(mode: Mode, update: Callback, draw: Callback, charInput: Callback, specialInput: Callback)
      requires Valid() && ttys[current].mode == ShellMode && ttys[current].initialized
      modifies ttys, buffers, backup, backupBuffers
      ensures Valid()
      ensures ttys[..] == old(ttys[..])[current := old(ttys[current]).(needsRedraw := true)]
      ensures Line(current) == old(Line(current))
    {
      ChangeMode(mode, update, draw, charInput, specialInput);
      RestoreToShell();
      RestoreUndoesChange(old(ttys[current]), mode, update, draw, charInput, specialInput);
    }

    /**
     * The shell's way of setting a line: characters written into the buffer
     * from `start`, a NUL after them, and buffer_index and the cursor moved
     * to the end.
     */
    method ReplaceFrom(t: int, start: nat, s: seq<char>)
      requires Valid() && 0 <= t < MAX_TTYS && start <= ttys[t].bufferIndex
      requires start + |s| < BUFFER_SIZE && '\0' !in s
      modifies ttys, buffers
      ensures Valid()
      ensures Line(t) == old(Line(t))[..start] + s
      ensures ttys[..] == old(ttys[..])[t := old(ttys[t]).(bufferIndex := start + |s|, cursorPosition := start + |s|)]
      ensures forall u, k :: 0 <= u < MAX_TTYS && 0 <= k < BUFFER_SIZE && (u != t || k > start + |s|) ==>
        buffers[u, k] == old(buffers[u, k])
    {
      ghost var line := Line(t);
      for i := 0 to |s|
        invariant ttys[..] == old(ttys[..])
        invariant forall u, k :: 0 <= u < MAX_TTYS && 0 <= k < BUFFER_SIZE ==>
          buffers[u, k] == if u == t && start <= k < start + i then s[k - start] else old(buffers[u, k])
      {
        buffers[t, start + i] := s[i];
      }
      buffers[t, start + |s|] := '\0';
      ttys[t] := ttys[t].(bufferIndex := start + |s|, cursorPosition := start + |s|);
      forall u | 0 <= u < MAX_TTYS
        ensures LineOk(ttys[u], buffers, u)
      {
        if u == t {
          assert old(LineOk(ttys[t], buffers, t));
          forall k | 0 <= k < start + |s|
            ensures buffers[t, k] != '\0'
          {
            if k >= start {
              assert buffers[t, k] == s[k - start];
            }
          }
        } else {
          assert old(LineOk(ttys[u], buffers, u));
          assert ttys[u] == old(ttys[u]);
        }
      }
      assert forall u :: 0 <= u < MAX_TTYS ==> LineOk(backup[u], backupBuffers, u);
      assert forall k :: 0 <= k < start ==> buffers[t, k] == line[k];
      assert Line(t) == line[..start] + s;
    }
  }
}
