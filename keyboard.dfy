/*
 * PS/2 keyboard driver (drivers/input/keyboard.c): a scancode-set-1 decoder
 * with modifier state, feeding a 32-slot ring buffer of key events that the
 * TTY layer polls. The port read is replaced by the scancode parameter of
 * Handler; interrupt masking around the queue is not modelled.
 */
module Keyboard {
  import opened Common

  const KEY_BUFFER_SIZE: nat := 32

  const SCANCODE_LSHIFT: byte := 0x2A
  const SCANCODE_RSHIFT: byte := 0x36
  const SCANCODE_LCTRL: byte := 0x1D
  const SCANCODE_LALT: byte := 0x38
  const EXTENDED_PREFIX: byte := 0xE0
  /** F1 and F6: Alt with a scancode in this range switches TTYs. */
  const SCANCODE_F1: byte := 0x3B
  const SCANCODE_F6: byte := 0x40

  /** Scancodes of the special keys the shell acts on (after the 0xE0 prefix). */
  const KEY_UP: byte := 0x48
  const KEY_DOWN: byte := 0x50
  const KEY_LEFT: byte := 0x4B
  const KEY_RIGHT: byte := 0x4D
  const KEY_HOME: byte := 0x47
  const KEY_END: byte := 0x4F
  const KEY_DELETE: byte := 0x53

  datatype EventType = CharEvent | SpecialEvent

  /** keyboard_event_t: the modifier fields are 0/1 flags in C. */
  datatype KeyEvent = KeyEvent(kind: EventType, character: char, scancode: byte,
                               shift: bool, ctrl: bool, alt: bool)

  /** The decoder's modifier and prefix state. */
  datatype Modifiers = Modifiers(shift: bool, ctrl: bool, alt: bool, extended: bool)

  const NO_MODIFIERS := Modifiers(false, false, false, false)

  /** US QWERTY, set 1, unshifted; the C array has 128 entries, zero past the initializer. */
  const PLAIN: seq<char> :=
    ['\0', '\U{1B}', '1', '2', '3', '4', '5', '6', '7', '8', '9', '0', '-', '=', '\U{8}',
     '\t', 'q', 'w', 'e', 'r', 't', 'y', 'u', 'i', 'o', 'p', '[', ']', '\n',
     '\0',
     'a', 's', 'd', 'f', 'g', 'h', 'j', 'k', 'l', ';', '\'', '`',
     '\0',
     '\\', 'z', 'x', 'c', 'v', 'b', 'n', 'm', ',', '.', '/',
     '\0', '*', '\0', ' ', '\0',
     '\0', '\0', '\0', '\0', '\0', '\0', '\0', '\0', '\0', '\0',
     '\0', '\0', '\0', '\0', '\0', '-', '\0', '\0', '\0', '+', '\0', '\0', '\0', '\0', '\0',
     '\0', '\0', '\0', '\0',
     '\0', '\0', '\0', '\0', '\0', '\0', '\0', '\0', '\0', '\0',
     '\0', '\0', '\0', '\0', '\0', '\0', '\0', '\0', '\0', '\0',
     '\0', '\0', '\0', '\0', '\0', '\0', '\0', '\0', '\0', '\0',
     '\0', '\0', '\0', '\0', '\0', '\0', '\0', '\0', '\0', '\0']

  /** The shifted table; only its first 58 entries are ever consulted. */
  const SHIFTED: seq<char> :=
    ['\0', '\U{1B}', '!', '@', '#', '$', '%', '^', '&', '*', '(', ')', '_', '+', '\U{8}',
     '\t', 'Q', 'W', 'E', 'R', 'T', 'Y', 'U', 'I', 'O', 'P', '{', '}', '\n',
     '\0', 'A', 'S', 'D', 'F', 'G', 'H', 'J', 'K', 'L', ':', '"', '~',
     '\0', '|', 'Z', 'X', 'C', 'V', 'B', 'N', 'M', '<', '>', '?',
     '\0', '*', '\0', ' ',
     '\0', '\0', '\0', '\0', '\0', '\0', '\0', '\0', '\0', '\0',
     '\0', '\0', '\0', '\0', '\0', '\0', '\0', '\0', '\0', '\0',
     '\0', '\0', '\0', '\0', '\0', '\0', '\0', '\0', '\0', '\0',
     '\0', '\0', '\0', '\0', '\0', '\0', '\0', '\0', '\0', '\0',
     '\0', '\0', '\0', '\0', '\0', '\0', '\0', '\0', '\0', '\0',
     '\0', '\0', '\0', '\0', '\0', '\0', '\0', '\0', '\0', '\0',
     '\0', '\0', '\0', '\0', '\0', '\0', '\0', '\0', '\0', '\0']

  predicate IsModifier(s: byte)
  {
    s == SCANCODE_LSHIFT || s == SCANCODE_RSHIFT || s == SCANCODE_LCTRL || s == SCANCODE_LALT
  }

  /** Modifier state after a key with this scancode (bit 7 cleared) is released. */
  function Release(m: Modifiers, code: byte): (r: Modifiers)
    ensures r.shift == (m.shift && code != SCANCODE_LSHIFT && code != SCANCODE_RSHIFT)
    ensures r.ctrl == (m.ctrl && code != SCANCODE_LCTRL) && r.alt == (m.alt && code != SCANCODE_LALT)
    ensures !r.extended
  {
    var m1 :=
      if code == SCANCODE_LSHIFT || code == SCANCODE_RSHIFT then m.(shift := false)
      else if code == SCANCODE_LCTRL then m.(ctrl := false)
      else if code == SCANCODE_LALT then m.(alt := false)
      else m;
    m1.(extended := false)
  }

  /** Modifier state after a modifier key is pressed. */
  function Press(m: Modifiers, code: byte): (r: Modifiers)
    requires IsModifier(code)
    ensures r.shift == (m.shift || code == SCANCODE_LSHIFT || code == SCANCODE_RSHIFT)
    ensures r.ctrl == (m.ctrl || code == SCANCODE_LCTRL) && r.alt == (m.alt || code == SCANCODE_LALT)
    ensures !r.extended
  {
    var m1 :=
      if code == SCANCODE_LSHIFT || code == SCANCODE_RSHIFT then m.(shift := true)
      else if code == SCANCODE_LCTRL then m.(ctrl := true)
      else m.(alt := true);
    m1.(extended := false)
  }

  /** The character of a non-extended key press, before the Ctrl mapping. */
  function TableChar(shift: bool, code: byte): char
  {
    if shift && code < 58 then SHIFTED[code]
    else if code < 128 then PLAIN[code]
    else '\0'
  }

  /** Ctrl folds 'a'..'z' onto the control codes 1..26. */
  function CtrlFold(ctrl: bool, c: char): char
  {
    if ctrl && 'a' <= c <= 'z' then (c as int - 'a' as int + 1) as char else c
  }

  /** The state change and the event (if any) produced by one scancode. */
  datatype Decoded = Decoded(mods: Modifiers, event: Option<KeyEvent>)

  /** keyboard_handler's decoding, apart from the queue. */
  function Translate(m: Modifiers, scancode: byte): (r: Decoded)
    ensures r.event.Some? ==> !r.mods.extended && r.mods == m.(extended := false)
    ensures r.event.Some? ==> r.event.value.scancode == scancode
    ensures r.event.Some? ==> r.event.value.shift == m.shift && r.event.value.ctrl == m.ctrl && r.event.value.alt == m.alt
  {
    if scancode == EXTENDED_PREFIX then
      Decoded(m.(extended := true), None)
    else if scancode >= 0x80 then
      Decoded(Release(m, scancode - 0x80), None)
    else if IsModifier(scancode) then
      Decoded(Press(m, scancode), None)
    else if m.alt && SCANCODE_F1 <= scancode <= SCANCODE_F6 then
      Decoded(m.(extended := false),
              Some(KeyEvent(SpecialEvent, '\0', scancode, m.shift, m.ctrl, m.alt)))
    else if m.extended then
      Decoded(m.(extended := false),
              Some(KeyEvent(SpecialEvent, '\0', scancode, m.shift, m.ctrl, m.alt)))
    else
      Decoded(m.(extended := false),
              Some(KeyEvent(CharEvent, CtrlFold(m.ctrl, TableChar(m.shift, scancode)),
                            scancode, m.shift, m.ctrl, m.alt)))
  }

  /** The 0xE0 prefix only arms the extended flag. */
  lemma PrefixOnlyArms(m: Modifiers)
    ensures Translate(m, EXTENDED_PREFIX) == Decoded(m.(extended := true), None)
  {
  }

  /** A release never produces an event, clears the prefix, and clears exactly the released modifier. */
  lemma ReleaseClears(m: Modifiers, scancode: byte)
    requires scancode >= 0x80 && scancode != EXTENDED_PREFIX
    ensures var r := Translate(m, scancode);
      && r.event.None? && !r.mods.extended
      && (r.mods.shift <==> m.shift && scancode - 0x80 != SCANCODE_LSHIFT && scancode - 0x80 != SCANCODE_RSHIFT)
      && (r.mods.ctrl <==> m.ctrl && scancode - 0x80 != SCANCODE_LCTRL)
      && (r.mods.alt <==> m.alt && scancode - 0x80 != SCANCODE_LALT)
  {
  }

  /** A modifier press sets its flag, clears the prefix and produces no event. */
  lemma ModifierPress(m: Modifiers, scancode: byte)
    requires IsModifier(scancode)
    ensures var r := Translate(m, scancode);
      && r.event.None? && !r.mods.extended
      && (r.mods.shift <==> m.shift || scancode == SCANCODE_LSHIFT || scancode == SCANCODE_RSHIFT)
      && (r.mods.ctrl <==> m.ctrl || scancode == SCANCODE_LCTRL)
      && (r.mods.alt <==> m.alt || scancode == SCANCODE_LALT)
  {
  }

  /** Any other press produces exactly one event; Alt+F1..F6 and extended keys are SPECIAL with no character. */
  lemma PressEvent(m: Modifiers, scancode: byte)
    requires scancode < 0x80 && !IsModifier(scancode)
    ensures var r := Translate(m, scancode);
      && r.event.Some?
      && (r.event.value.kind == SpecialEvent <==> m.extended || (m.alt && 0x3B <= scancode <= 0x40))
      && (r.event.value.kind == SpecialEvent ==> r.event.value.character == '\0')
  {
  }

  /** With Ctrl held, a letter key yields the control code 1..26 of that letter. */
  lemma CtrlLetter(m: Modifiers, scancode: byte)
    requires scancode < 0x80 && !IsModifier(scancode) && !m.extended && m.ctrl && !m.shift
    requires !(m.alt && 0x3B <= scancode <= 0x40)
    requires 'a' <= PLAIN[scancode] <= 'z'
    ensures var e := Translate(m, scancode).event.value;
      e.kind == CharEvent && 1 <= e.character as int <= 26
      && e.character as int == PLAIN[scancode] as int - 'a' as int + 1
  {
  }

  /** Shift selects the shifted table below scancode 58 only. */
  lemma ShiftTable(m: Modifiers, scancode: byte)
    requires scancode < 0x80 && !IsModifier(scancode) && !m.extended && !m.ctrl
    requires !(m.alt && 0x3B <= scancode <= 0x40)
    ensures var e := Translate(m, scancode).event.value;
      e.kind == CharEvent
      && e.character == (if m.shift && scancode < 58 then SHIFTED[scancode] else PLAIN[scancode])
  {
  }

  /*
   * The ring buffer. Slots tail, tail+1, ... up to (but excluding) head,
   * taken modulo 32, hold the queued events, oldest first.
   */
  function Pending(b: seq<KeyEvent>, head: nat, tail: nat): (q: seq<KeyEvent>)
    requires |b| == KEY_BUFFER_SIZE && head < KEY_BUFFER_SIZE && tail < KEY_BUFFER_SIZE
    ensures |q| < KEY_BUFFER_SIZE
    ensures |q| == 0 <==> head == tail
  {
    seq((head - tail) % KEY_BUFFER_SIZE, i requires 0 <= i < (head - tail) % KEY_BUFFER_SIZE =>
      b[(tail + i) % KEY_BUFFER_SIZE])
  }

  /** The enqueue test: advancing head would not meet tail exactly when fewer than 31 events are held. */
  lemma RoomIffNotFull(b: seq<KeyEvent>, head: nat, tail: nat)
    requires |b| == KEY_BUFFER_SIZE && head < KEY_BUFFER_SIZE && tail < KEY_BUFFER_SIZE
    ensures (head + 1) % KEY_BUFFER_SIZE != tail <==> |Pending(b, head, tail)| < KEY_BUFFER_SIZE - 1
  {
    if head >= tail {
      assert (head - tail) % 32 == head - tail;
    } else {
      assert (head - tail) % 32 == head - tail + 32;
    }
  }

  /** Writing the event at head and advancing head appends it to the queue. */
  lemma PendingPush(b: seq<KeyEvent>, head: nat, tail: nat, e: KeyEvent)
    requires |b| == KEY_BUFFER_SIZE && head < KEY_BUFFER_SIZE && tail < KEY_BUFFER_SIZE
    requires (head + 1) % KEY_BUFFER_SIZE != tail
    ensures Pending(b[head := e], (head + 1) % KEY_BUFFER_SIZE, tail) == Pending(b, head, tail) + [e]
  {
    var n := (head - tail) % 32;
    if head >= tail {
      assert n == head - tail;
    } else {
      assert n == head - tail + 32;
    }
    var head' := (head + 1) % 32;
    assert (head' - tail) % 32 == n + 1;
    var p, p' := Pending(b, head, tail), Pending(b[head := e], head', tail);
    forall i | 0 <= i < n + 1
      ensures p'[i] == (p + [e])[i]
    {
      if i < n {
        assert (tail + i) % 32 != head;
      } else {
        assert (tail + i) % 32 == head;
      }
    }
  }

  /** Taking the slot at tail and advancing tail removes the oldest event. */
  lemma PendingPop(b: seq<KeyEvent>, head: nat, tail: nat)
    requires |b| == KEY_BUFFER_SIZE && head < KEY_BUFFER_SIZE && tail < KEY_BUFFER_SIZE
    requires head != tail
    ensures Pending(b, head, tail)[0] == b[tail]
    ensures Pending(b, head, (tail + 1) % KEY_BUFFER_SIZE) == Pending(b, head, tail)[1..]
  {
    var n := (head - tail) % 32;
    var tail' := (tail + 1) % 32;
    PopCount(head, tail);
    var p, p' := Pending(b, head, tail), Pending(b, head, tail');
    assert |p'| == n - 1 == |p[1..]|;
    forall i | 0 <= i < n - 1
      ensures p'[i] == p[1..][i]
    {
      PopIndex(tail, i);
    }
    assert p' == p[1..];
  }

  /** Advancing tail past a slot shortens the queue by one. */
  lemma PopCount(head: nat, tail: nat)
    requires head < KEY_BUFFER_SIZE && tail < KEY_BUFFER_SIZE && head != tail
    ensures (head - tail) % 32 >= 1
    ensures (head - (tail + 1) % 32) % 32 == (head - tail) % 32 - 1
  {
    if head > tail {
      assert (head - tail) % 32 == head - tail;
    } else if tail < 31 {
      assert (head - tail) % 32 == head - tail + 32;
    } else {
      assert (head - tail) % 32 == head + 1;
    }
  }

  /** Slot i after the new tail is slot i + 1 after the old one. */
  lemma PopIndex(tail: nat, i: nat)
    requires tail < KEY_BUFFER_SIZE && i < KEY_BUFFER_SIZE
    ensures ((tail + 1) % 32 + i) % 32 == (tail + (i + 1)) % 32
  {
  }

  /** The queue as a sequence: an offered event is kept only while fewer than 31 are held. */
  function Offer(q: seq<KeyEvent>, e: Option<KeyEvent>): seq<KeyEvent>
  {
    if e.Some? && |q| < KEY_BUFFER_SIZE - 1 then q + [e.value] else q
  }

  class KeyboardDriver {
    var shiftPressed: bool
    var ctrlPressed: bool
    var altPressed: bool
    var extendedKey: bool
    const keyBuffer: array<KeyEvent>
    var bufferHead: nat
    var bufferTail: nat

    ghost predicate Valid()
      reads this
    {
      keyBuffer.Length == KEY_BUFFER_SIZE && bufferHead < KEY_BUFFER_SIZE && bufferTail < KEY_BUFFER_SIZE
    }

    function Mods(): Modifiers
      reads this
    {
      Modifiers(shiftPressed, ctrlPressed, altPressed, extendedKey)
    }

    /** The queued events, oldest first. */
    function Queue(): seq<KeyEvent>
      requires Valid()
      reads this, keyBuffer
    {
      Pending(keyBuffer[..], bufferHead, bufferTail)
    }

    /** The static buffer and state as the kernel image starts them: all zero. */
    constructor()
      ensures Valid() && fresh(keyBuffer)
      ensures Queue() == [] && Mods() == NO_MODIFIERS
    {
      keyBuffer := new KeyEvent[KEY_BUFFER_SIZE](_ => KeyEvent(CharEvent, '\0', 0, false, false, false));
      bufferHead, bufferTail := 0, 0;
      shiftPressed, ctrlPressed, altPressed, extendedKey := false, false, false, false;
    }

    /** keyboard_init: empties the queue and clears every modifier. */
    method Init()
      requires Valid()
      modifies this
      ensures Valid() && Queue() == [] && Mods() == NO_MODIFIERS
    {
      bufferHead := 0;
      bufferTail := 0;
      shiftPressed := false;
      ctrlPressed := false;
      altPressed := false;
      extendedKey := false;
    }

    /** The enqueue step shared by both event paths: the event is dropped when the ring is full. */
    method Enqueue(e: KeyEvent)
      requires Valid()
      modifies keyBuffer, `bufferHead
      ensures Valid() && Queue() == Offer(old(Queue()), Some(e))
    {
      RoomIffNotFull(keyBuffer[..], bufferHead, bufferTail);
      var nextHead := (bufferHead + 1) % KEY_BUFFER_SIZE;
      if nextHead != bufferTail {
        PendingPush(keyBuffer[..], bufferHead, bufferTail, e);
        keyBuffer[bufferHead] := e;
        assert keyBuffer[..] == old(keyBuffer[..])[old(bufferHead) := e];
        bufferHead := nextHead;
      }
    }

    /** keyboard_handler for one scancode read from the data port. */
    method Handler(scancode: byte)
      requires Valid()
      modifies this, keyBuffer
      ensures Valid()
      ensures Mods() == Translate(old(Mods()), scancode).mods
      ensures Queue() == Offer(old(Queue()), Translate(old(Mods()), scancode).event)
    {
      if scancode == EXTENDED_PREFIX {
        extendedKey := true;
        return;
      }
      if scancode >= 0x80 {
        var code := scancode - 0x80;
        if code == SCANCODE_LSHIFT || code == SCANCODE_RSHIFT {
          shiftPressed := false;
        } else if code == SCANCODE_LCTRL {
          ctrlPressed := false;
        } else if code == SCANCODE_LALT {
          altPressed := false;
        }
        extendedKey := false;
        return;
      }
      if scancode == SCANCODE_LSHIFT || scancode == SCANCODE_RSHIFT {
        shiftPressed := true;
        extendedKey := false;
        return;
      } else if scancode == SCANCODE_LCTRL {
        ctrlPressed := true;
        extendedKey := false;
        return;
      } else if scancode == SCANCODE_LALT {
        altPressed := true;
        extendedKey := false;
        return;
      }
      if altPressed && SCANCODE_F1 <= scancode <= SCANCODE_F6 {
        var event := KeyEvent(SpecialEvent, '\0', scancode, shiftPressed, ctrlPressed, altPressed);
        extendedKey := false;
        Enqueue(event);
        return;
      }
      var kind := if extendedKey then SpecialEvent else CharEvent;
      var character := '\0';
      if kind == CharEvent {
        character := KeyChar(shiftPressed, ctrlPressed, scancode);
      }
      var event := KeyEvent(kind, character, scancode, shiftPressed, ctrlPressed, altPressed);
      extendedKey := false;
      Enqueue(event);
    }

    /** The CHAR path of keyboard_handler: table lookup, then the Ctrl mapping. */
    static method KeyChar(shift: bool, ctrl: bool, scancode: byte) returns (character: char)
      ensures character == CtrlFold(ctrl, TableChar(shift, scancode))
    {
      character := '\0';
      if shift && scancode < 58 {
        character := SHIFTED[scancode];
      } else if scancode < 128 {
        character := PLAIN[scancode];
      }
      if ctrl && 'a' <= character <= 'z' {
        character := (character as int - 'a' as int + 1) as char;
      }
    }

    /** keyboard_poll_event: the oldest queued event, or None when the queue is empty. */
    method PollEvent() returns (r: int, event: Option<KeyEvent>)
      requires Valid()
      modifies `bufferTail
      ensures Valid()
      ensures old(Queue()) == [] ==> r == 0 && event.None? && Queue() == []
      ensures old(Queue()) != [] ==> r == 1 && event == Some(old(Queue())[0]) && Queue() == old(Queue())[1..]
    {
      if bufferTail == bufferHead {
        return 0, None;
      }
      PendingPop(keyBuffer[..], bufferHead, bufferTail);
      event := Some(keyBuffer[bufferTail]);
      bufferTail := (bufferTail + 1) % KEY_BUFFER_SIZE;
      r := 1;
    }

    /** keyboard_has_event. */
    method HasEvent() returns (r: bool)
      requires Valid()
      ensures r <==> Queue() != []
    {
      r := bufferTail != bufferHead;
    }
  }

  /** Events are delivered in the order they were offered: polling a queue built by offers yields them first-in first-out. */
  lemma {:induction false} OfferPreservesOrder(q: seq<KeyEvent>, es: seq<KeyEvent>)
    requires |q| + |es| < KEY_BUFFER_SIZE
    ensures OfferAll(q, es) == q + es
    decreases |es|
  {
    if es != [] {
      OfferPreservesOrder(q + [es[0]], es[1..]);
      assert q + [es[0]] + es[1..] == q + es;
    }
  }

  /** The queue after offering each event of es in turn. */
  function OfferAll(q: seq<KeyEvent>, es: seq<KeyEvent>): seq<KeyEvent>
    decreases |es|
  {
    if es == [] then q else OfferAll(Offer(q, Some(es[0])), es[1..])
  }
}
