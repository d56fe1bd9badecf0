/*
 * The shell's line editor and command dispatch (ui/shell/shell.c): each
 * character or special key delivered to the current TTY edits that TTY's
 * command buffer in place, and Enter splits the line into a command word
 * and its arguments and picks the command to run.
 *
 * The edits are specified as functions on a line and its cursor (Edit);
 * the handlers work on the TTY table's buffer rows and are proved to
 * produce exactly those edits. Echoing to the console, the prompt and the
 * commands themselves (ui/shell/shell_commands.c) are not modelled: Enter
 * returns the command it would run.
 */
module Shell {
  import opened Common
  import opened ShellText
  import opened FsNode
  import Keyboard
  import Tty
  import ShellHistory

  const CTRL_A: char := 1 as char
  const CTRL_C: char := 3 as char
  const CTRL_E: char := 5 as char
  const CTRL_K: char := 11 as char
  const CTRL_U: char := 21 as char
  const BACKSPACE: char := 8 as char
  const DEL: char := 127 as char

  /** The characters shell_handle_char inserts: ASCII 32..126. */
  predicate Printable(c: char)
  {
    ' ' <= c <= '~'
  }

  // ---------------------------------------------------------------------
  // The edits, as functions on a line and its cursor
  // ---------------------------------------------------------------------

  /** A TTY's line (its buffer up to buffer_index) and cursor_position. */
  datatype Edit = Edit(line: seq<char>, cursor: nat)

  /** What every edit keeps: the line and its NUL fit the buffer, the line holds no NUL, and the cursor lies within it. */
  predicate Fits(e: Edit)
  {
    Storable(e.line) && e.cursor <= |e.line|
  }

  /** s with c placed before position k. */
  function Inserted(s: seq<char>, k: nat, c: char): (r: seq<char>)
    requires k <= |s|
    ensures |r| == |s| + 1 && r[k] == c
    ensures forall i :: 0 <= i < k ==> r[i] == s[i]
    ensures forall i :: k < i < |r| ==> r[i] == s[i - 1]
  {
    s[..k] + [c] + s[k..]
  }

  /** s without its character at position k. */
  function Removed(s: seq<char>, k: nat): (r: seq<char>)
    requires k < |s|
    ensures |r| == |s| - 1
    ensures forall i :: 0 <= i < k ==> r[i] == s[i]
    ensures forall i :: k <= i < |r| ==> r[i] == s[i + 1]
  {
    s[..k] + s[k + 1..]
  }

  /** Removing what was just inserted gives the line back. */
  lemma RemoveInserted(s: seq<char>, k: nat, c: char)
    requires k <= |s|
    ensures Removed(Inserted(s, k, c), k) == s
  {
    var r := Removed(Inserted(s, k, c), k);
    assert forall i :: 0 <= i < |s| ==> r[i] == s[i];
  }

  /** Inserting what was just removed gives the line back. */
  lemma InsertRemoved(s: seq<char>, k: nat)
    requires k < |s|
    ensures Inserted(Removed(s, k), k, s[k]) == s
  {
    var r := Inserted(Removed(s, k), k, s[k]);
    assert forall i :: 0 <= i < |s| ==> r[i] == s[i];
  }

  /**
   * shell_handle_char's effect on the line and cursor, for every character
   * but TAB (completion, see ShellHistory.TabResult): Ctrl-C, Ctrl-U and
   * Enter empty the line; Ctrl-A and Ctrl-E move to its ends; Ctrl-K cuts
   * it at the cursor; Backspace removes the character before the cursor;
   * a printable character is inserted at the cursor while the line is
   * shorter than 255. Anything else leaves both alone.
   */
  function CharEdit(e: Edit, c: char): (r: Edit)
    requires Fits(e)
    ensures Fits(r)
    ensures c == CTRL_A || c == CTRL_E ==> r.line == e.line
    ensures c == CTRL_K ==> StartsWith(e.line, r.line) && r.cursor == e.cursor
  {
    if c == CTRL_C || c == CTRL_U || c == '\n' || c == '\r' then Edit([], 0)
    else if c == CTRL_A then e.(cursor := 0)
    else if c == CTRL_E then e.(cursor := |e.line|)
    else if c == CTRL_K then Edit(e.line[..e.cursor], e.cursor)
    else if c == BACKSPACE || c == DEL then
      if e.cursor > 0 then Edit(Removed(e.line, e.cursor - 1), e.cursor - 1) else e
    else if Printable(c) && |e.line| < SHELL_BUFFER_SIZE - 1 then
      Edit(Inserted(e.line, e.cursor, c), e.cursor + 1)
    else e
  }

  /**
   * shell_handle_special_key's effect for the keys that edit in place:
   * Left and Right move one step within the line, Home and End go to its
   * ends, Delete removes the character under the cursor. UP and DOWN are
   * history navigation (ShellHistory.Navigation).
   */
  function SpecialEdit(e: Edit, scancode: byte): (r: Edit)
    requires Fits(e)
    ensures Fits(r)
    ensures scancode != Keyboard.KEY_DELETE ==> r.line == e.line
    ensures scancode == Keyboard.KEY_DELETE ==> r.cursor == e.cursor
  {
    if scancode == Keyboard.KEY_LEFT then
      if e.cursor > 0 then e.(cursor := e.cursor - 1) else e
    else if scancode == Keyboard.KEY_RIGHT then
      if e.cursor < |e.line| then e.(cursor := e.cursor + 1) else e
    else if scancode == Keyboard.KEY_HOME then e.(cursor := 0)
    else if scancode == Keyboard.KEY_END then e.(cursor := |e.line|)
    else if scancode == Keyboard.KEY_DELETE then
      if e.cursor < |e.line| then e.(line := Removed(e.line, e.cursor)) else e
    else e
  }

  /** Backspace undoes a typed character. */
  lemma TypeThenBackspace(e: Edit, c: char)
    requires Fits(e) && Printable(c) && |e.line| < SHELL_BUFFER_SIZE - 1
    ensures CharEdit(CharEdit(e, c), BACKSPACE) == e
  {
    RemoveInserted(e.line, e.cursor, c);
  }

  /** Retyping the character Backspace removed restores the line and cursor. */
  lemma BackspaceThenRetype(e: Edit)
    requires Fits(e) && e.cursor > 0 && Printable(e.line[e.cursor - 1])
    ensures CharEdit(CharEdit(e, BACKSPACE), e.line[e.cursor - 1]) == e
  {
    InsertRemoved(e.line, e.cursor - 1);
  }

  /** A typed character, Left and Delete cancel out. */
  lemma TypeLeftDelete(e: Edit, c: char)
    requires Fits(e) && Printable(c) && |e.line| < SHELL_BUFFER_SIZE - 1
    ensures SpecialEdit(SpecialEdit(CharEdit(e, c), Keyboard.KEY_LEFT), Keyboard.KEY_DELETE) == e
  {
    var typed := CharEdit(e, c);
    var left := SpecialEdit(typed, Keyboard.KEY_LEFT);
    assert left == Edit(Inserted(e.line, e.cursor, c), e.cursor);
    RemoveInserted(e.line, e.cursor, c);
  }

  /** Retyping the character Delete removed, then Left, restores the line and cursor. */
  lemma DeleteThenRetype(e: Edit)
    requires Fits(e) && e.cursor < |e.line| && Printable(e.line[e.cursor])
    ensures SpecialEdit(CharEdit(SpecialEdit(e, Keyboard.KEY_DELETE), e.line[e.cursor]), Keyboard.KEY_LEFT) == e
  {
    InsertRemoved(e.line, e.cursor);
  }

  // ---------------------------------------------------------------------
  // Enter: splitting the line and choosing the command
  // ---------------------------------------------------------------------

  /** The line with its leading spaces dropped: what Enter saves to the history. */
  function Stripped(line: seq<char>): (r: seq<char>)
    ensures StartsWith(r, FirstWord(line))
  {
    line[SkipSpaces(line, 0)..]
  }

  /** The arguments: what follows the command word and the spaces after it. */
  function Args(line: seq<char>): seq<char>
  {
    line[ShellHistory.CmdEnd(line)..]
  }

  /** The commands Enter can run; Unknown is the "Unknown command" message. */
  datatype Command =
    | Help | Clear | About | Lfetch | Version | Uptime | Echo(args: seq<char>) | Colors
    | ShowHistory(tty: int) | CuteGirl | Miko | Snake | Tetris | Meminfo
    | Ls(args: seq<char>) | Cat(args: seq<char>) | Cd(args: seq<char>) | Pwd
    | Unknown(name: seq<char>)

  /** The names shell_handle_char dispatches on. */
  const DISPATCHED: seq<seq<char>> :=
    ["help", "clear", "about", "lfetch", "version", "uptime", "echo", "colors", "history",
     "cute-girl", "miko", "snake", "tetris", "meminfo", "ls", "cat", "cd", "pwd"]

  /** The strcmp chain of shell_handle_char, for the command word of TTY t's line. */
  function Dispatch(name: seq<char>, args: seq<char>, t: int): (r: Command)
    ensures r.Unknown? ==> r.name == name
    ensures r.Echo? || r.Ls? || r.Cat? || r.Cd? ==> r.args == args
  {
    if name == "help" then Help
    else if name == "clear" then Clear
    else if name == "about" then About
    else if name == "lfetch" then Lfetch
    else if name == "version" then Version
    else if name == "uptime" then Uptime
    else if name == "echo" then Echo(args)
    else if name == "colors" then Colors
    else if name == "history" then ShowHistory(t)
    else if name == "cute-girl" then CuteGirl
    else if name == "miko" then Miko
    else if name == "snake" then Snake
    else if name == "tetris" then Tetris
    else if name == "meminfo" then Meminfo
    else if name == "ls" then Ls(args)
    else if name == "cat" then Cat(args)
    else if name == "cd" then Cd(args)
    else if name == "pwd" then Pwd
    else Unknown(name)
  }

  /** What Enter runs for a line: nothing for a blank line, else the command word dispatched with its arguments. */
  function EnterCommand(line: seq<char>, t: int): Option<Command>
  {
    if FirstWord(line) == [] then None else Some(Dispatch(FirstWord(line), Args(line), t))
  }

  /** Each of the 18 names runs its own command. */
  lemma DispatchedKnown(name: seq<char>, args: seq<char>, t: int)
    requires name in DISPATCHED
    ensures !Dispatch(name, args, t).Unknown?
  {
  }

  /** Any other word is reported as an unknown command. */
  lemma OthersUnknown(name: seq<char>, args: seq<char>, t: int)
    requires name !in DISPATCHED
    ensures Dispatch(name, args, t) == Unknown(name)
  {
  }

  /** The name TAB completes that Enter does not know. */
  lemma RebootCompletesButIsUnknown(args: seq<char>, t: int)
    ensures "reboot" in ShellHistory.COMMANDS
    ensures Dispatch("reboot", args, t) == Unknown("reboot")
  {
    assert ShellHistory.COMMANDS[10] == "reboot";
    OthersUnknown("reboot", args, t);
  }

  /** SkipSpaces stops at the first non-space. */
  lemma {:induction false} SkipSpacesStopsAt(s: seq<char>, i: nat, j: nat)
    requires i <= j <= |s|
    requires forall k :: i <= k < j ==> s[k] == ' '
    requires j == |s| || s[j] != ' '
    ensures SkipSpaces(s, i) == j
    decreases j - i
  {
    if i < j {
      SkipSpacesStopsAt(s, i + 1, j);
    }
  }

  /** SkipWord stops at the first space. */
  lemma {:induction false} SkipWordStopsAt(s: seq<char>, i: nat, j: nat)
    requires i <= j <= |s|
    requires forall k :: i <= k < j ==> s[k] != ' '
    requires j == |s| || s[j] == ' '
    ensures SkipWord(s, i) == j
    decreases j - i
  {
    if i < j {
      SkipWordStopsAt(s, i + 1, j);
    }
  }

  /** Every line is its leading spaces, the command word, the spaces after it and the arguments. */
  lemma ParseSplits(line: seq<char>)
    ensures var p := SkipSpaces(line, 0);
      var q := SkipWord(line, p);
      && p <= q <= ShellHistory.CmdEnd(line)
      && line == line[..p] + FirstWord(line) + line[q..ShellHistory.CmdEnd(line)] + Args(line)
  {
    var p := SkipSpaces(line, 0);
    var q := SkipWord(line, p);
    var e := ShellHistory.CmdEnd(line);
    assert line[..q] == line[..p] + line[p..q];
    assert line[..e] == line[..q] + line[q..e];
    assert line == line[..e] + line[e..];
  }

  /**
   * The pieces: the leading run and the run after the word are spaces, the
   * word has no space, the arguments do not start with one, and a blank
   * command word comes with no arguments.
   */
  lemma ParsePieces(line: seq<char>)
    ensures var p := SkipSpaces(line, 0);
      var q := SkipWord(line, p);
      && (forall k :: 0 <= k < p ==> line[k] == ' ')
      && ' ' !in FirstWord(line)
      && (forall k :: q <= k < ShellHistory.CmdEnd(line) ==> line[k] == ' ')
      && (Args(line) != [] ==> q < ShellHistory.CmdEnd(line) && Args(line)[0] != ' ')
      && (FirstWord(line) == [] ==> Args(line) == [])
  {
    var p := SkipSpaces(line, 0);
    var q := SkipWord(line, p);
    var w := FirstWord(line);
    forall k | 0 <= k < |w|
      ensures w[k] != ' '
    {
      assert w[k] == line[p + k];
    }
  }

  /** Joining leading spaces, a command word, spaces and arguments parses back into that word and those arguments. */
  lemma ParseJoin(lead: seq<char>, word: seq<char>, sep: seq<char>, args: seq<char>)
    requires forall k :: 0 <= k < |lead| ==> lead[k] == ' '
    requires word != [] && ' ' !in word
    requires forall k :: 0 <= k < |sep| ==> sep[k] == ' '
    requires args != [] ==> sep != [] && args[0] != ' '
    ensures FirstWord(lead + word + sep + args) == word
    ensures Args(lead + word + sep + args) == args
    ensures Stripped(lead + word + sep + args) == word + sep + args
  {
    var line := lead + word + sep + args;
    var p, q, e := |lead|, |lead| + |word|, |lead| + |word| + |sep|;
    assert forall k :: 0 <= k < p ==> line[k] == lead[k];
    assert forall k :: p <= k < q ==> line[k] == word[k - p];
    assert forall k :: q <= k < e ==> line[k] == sep[k - q];
    assert line[p] == word[0];
    SkipSpacesStopsAt(line, 0, p);
    SkipWordStopsAt(line, p, q);
    if args != [] {
      assert line[e] == args[0];
    }
    SkipSpacesStopsAt(line, q, e);
    assert line[p..q] == word;
    assert line[e..] == args;
    assert line[p..] == word + sep + args;
  }

  /** A line recalled from the history runs the same command with the same arguments as the line that was saved. */
  lemma StrippedParsesAlike(line: seq<char>)
    ensures FirstWord(Stripped(line)) == FirstWord(line)
    ensures Args(Stripped(line)) == Args(line)
  {
    ParseSplits(line);
    ParsePieces(line);
    var p := SkipSpaces(line, 0);
    var q := SkipWord(line, p);
    var e := ShellHistory.CmdEnd(line);
    if FirstWord(line) == [] {
      assert Stripped(line) == [];
    } else {
      ParseJoin(line[..p], FirstWord(line), line[q..e], Args(line));
    }
  }

  // ---------------------------------------------------------------------
  // The handlers, on the TTY table's buffer rows
  // ---------------------------------------------------------------------

  /** The line and cursor of TTY t. */
  function State(table: Tty.TtyTable, t: int): (e: Edit)
    requires table.Valid() && 0 <= t < Tty.MAX_TTYS
    reads table, table.ttys, table.buffers, table.backup, table.backupBuffers
    ensures Fits(e) && |e.line| == table.ttys[t].bufferIndex
  {
    Edit(table.Line(t), table.ttys[t].cursorPosition)
  }

  /** The Home and Ctrl-A loop: the cursor steps left to 0. */
  method CursorHome(table: Tty.TtyTable, t: int)
    requires table.Valid() && 0 <= t < Tty.MAX_TTYS
    modifies table.ttys
    ensures table.Valid()
    ensures table.ttys[..] == old(table.ttys[..])[t := old(table.ttys[t]).(cursorPosition := 0)]
    ensures State(table, t) == old(State(table, t)).(cursor := 0)
  {
    while table.ttys[t].cursorPosition > 0
      invariant table.Valid()
      invariant table.ttys[..] == old(table.ttys[..])[t := old(table.ttys[t]).(cursorPosition := table.ttys[t].cursorPosition)]
      decreases table.ttys[t].cursorPosition
    {
      table.ttys[t] := table.ttys[t].(cursorPosition := table.ttys[t].cursorPosition - 1);
    }
  }

  /** The End and Ctrl-E loop: the cursor steps right to buffer_index. */
  method CursorEnd(table: Tty.TtyTable, t: int)
    requires table.Valid() && 0 <= t < Tty.MAX_TTYS
    modifies table.ttys
    ensures table.Valid()
    ensures table.ttys[..] == old(table.ttys[..])[t := old(table.ttys[t]).(cursorPosition := old(table.ttys[t].bufferIndex))]
    ensures State(table, t) == old(State(table, t)).(cursor := |old(table.Line(t))|)
  {
    while table.ttys[t].cursorPosition < table.ttys[t].bufferIndex
      invariant table.Valid()
      invariant table.ttys[..] == old(table.ttys[..])[t := old(table.ttys[t]).(cursorPosition := table.ttys[t].cursorPosition)]
      decreases table.ttys[t].bufferIndex - table.ttys[t].cursorPosition
    {
      table.ttys[t] := table.ttys[t].(cursorPosition := table.ttys[t].cursorPosition + 1);
    }
  }

  /**
   * The Backspace and Delete shift: the characters after position k move
   * one cell left, buffer_index drops by one and the NUL follows it; the
   * cursor ends at `cursor`.
   */
  method RemoveAt(table: Tty.TtyTable, t: int, k: nat, cursor: nat)
    requires table.Valid() && 0 <= t < Tty.MAX_TTYS
    requires k < table.ttys[t].bufferIndex && cursor < table.ttys[t].bufferIndex
    modifies table.ttys, table.buffers
    ensures table.Valid()
    ensures table.Line(t) == Removed(old(table.Line(t)), k)
    ensures table.ttys[..] == old(table.ttys[..])[t := old(table.ttys[t]).(bufferIndex := old(table.ttys[t].bufferIndex) - 1, cursorPosition := cursor)]
    ensures forall u, j :: 0 <= u < Tty.MAX_TTYS && 0 <= j < Tty.BUFFER_SIZE && (u != t || j >= old(table.ttys[t].bufferIndex)) ==>
      table.buffers[u, j] == old(table.buffers[u, j])
    ensures State(table, t) == Edit(Removed(old(table.Line(t)), k), cursor)
  {
    ghost var line := table.Line(t);
    var n := table.ttys[t].bufferIndex;
    var i := k;
    while i < n - 1
      invariant k <= i <= n - 1
      invariant table.ttys[..] == old(table.ttys[..])
      invariant forall u, j :: 0 <= u < Tty.MAX_TTYS && 0 <= j < Tty.BUFFER_SIZE ==>
        table.buffers[u, j] == if u == t && k <= j < i then old(table.buffers[t, j + 1]) else old(table.buffers[u, j])
    {
      table.buffers[t, i] := table.buffers[t, i + 1];
      i := i + 1;
    }
    table.ttys[t] := table.ttys[t].(bufferIndex := n - 1, cursorPosition := cursor);
    table.buffers[t, n - 1] := '\0';
    forall u | 0 <= u < Tty.MAX_TTYS
      ensures Tty.LineOk(table.ttys[u], table.buffers, u)
    {
      assert old(Tty.LineOk(table.ttys[u], table.buffers, u));
      if u == t {
        forall j | 0 <= j < n - 1
          ensures table.buffers[t, j] != '\0'
        {
          if j >= k {
            assert table.buffers[t, j] == old(table.buffers[t, j + 1]);
          }
        }
      } else {
        assert table.ttys[u] == old(table.ttys[u]);
      }
    }
    assert forall u :: 0 <= u < Tty.MAX_TTYS ==> Tty.LineOk(table.backup[u], table.backupBuffers, u);
    assert forall j :: 0 <= j < n - 1 ==> table.buffers[t, j] == Removed(line, k)[j];
  }

  /**
   * The printable-character shift: the characters from the cursor on move
   * one cell right, c goes in at the cursor, buffer_index and the cursor
   * advance, and the NUL follows.
   */
  method InsertAt(table: Tty.TtyTable, t: int, c: char)
    requires table.Valid() && 0 <= t < Tty.MAX_TTYS
    requires table.ttys[t].bufferIndex < SHELL_BUFFER_SIZE - 1 && c != '\0'
    modifies table.ttys, table.buffers
    ensures table.Valid()
    ensures table.Line(t) == Inserted(old(table.Line(t)), old(table.ttys[t].cursorPosition), c)
    ensures table.ttys[..] == old(table.ttys[..])[t := old(table.ttys[t]).(bufferIndex := old(table.ttys[t].bufferIndex) + 1,
                                                                          cursorPosition := old(table.ttys[t].cursorPosition) + 1)]
    ensures forall u, j :: 0 <= u < Tty.MAX_TTYS && 0 <= j < Tty.BUFFER_SIZE && (u != t || j > old(table.ttys[t].bufferIndex) + 1) ==>
      table.buffers[u, j] == old(table.buffers[u, j])
    ensures State(table, t) == Edit(Inserted(old(table.Line(t)), old(table.ttys[t].cursorPosition), c), old(table.ttys[t].cursorPosition) + 1)
  {
    ghost var line := table.Line(t);
    var n := table.ttys[t].bufferIndex;
    var cur := table.ttys[t].cursorPosition;
    var i := n;
    while i > cur
      invariant cur <= i <= n
      invariant table.ttys[..] == old(table.ttys[..])
      invariant forall u, j :: 0 <= u < Tty.MAX_TTYS && 0 <= j < Tty.BUFFER_SIZE ==>
        table.buffers[u, j] == if u == t && i < j <= n then old(table.buffers[t, j - 1]) else old(table.buffers[u, j])
    {
      table.buffers[t, i] := table.buffers[t, i - 1];
      i := i - 1;
    }
    table.buffers[t, cur] := c;
    table.ttys[t] := table.ttys[t].(bufferIndex := n + 1, cursorPosition := cur + 1);
    table.buffers[t, n + 1] := '\0';
    forall u | 0 <= u < Tty.MAX_TTYS
      ensures Tty.LineOk(table.ttys[u], table.buffers, u)
    {
      assert old(Tty.LineOk(table.ttys[u], table.buffers, u));
      if u == t {
        forall j | 0 <= j < n + 1
          ensures table.buffers[t, j] != '\0'
        {
          if j > cur {
            assert table.buffers[t, j] == old(table.buffers[t, j - 1]);
          }
        }
      } else {
        assert table.ttys[u] == old(table.ttys[u]);
      }
    }
    assert forall u :: 0 <= u < Tty.MAX_TTYS ==> Tty.LineOk(table.backup[u], table.backupBuffers, u);
    assert forall j :: 0 <= j < n + 1 ==> table.buffers[t, j] == Inserted(line, cur, c)[j];
  }

  /** The Ctrl-K loop: buffer_index counts down to the cursor, then a NUL is stored at the cursor. */
  method KillToEnd(table: Tty.TtyTable, t: int)
    requires table.Valid() && 0 <= t < Tty.MAX_TTYS
    modifies table.ttys, table.buffers
    ensures table.Valid()
    ensures table.Line(t) == old(table.Line(t))[..old(table.ttys[t].cursorPosition)]
    ensures table.ttys[..] == old(table.ttys[..])[t := old(table.ttys[t]).(bufferIndex := old(table.ttys[t].cursorPosition))]
    ensures forall u, j :: 0 <= u < Tty.MAX_TTYS && 0 <= j < Tty.BUFFER_SIZE && (u != t || j != old(table.ttys[t].cursorPosition)) ==>
      table.buffers[u, j] == old(table.buffers[u, j])
    ensures State(table, t) == Edit(old(table.Line(t))[..old(table.ttys[t].cursorPosition)], old(table.ttys[t].cursorPosition))
  {
    ghost var line := table.Line(t);
    while table.ttys[t].cursorPosition < table.ttys[t].bufferIndex
      invariant table.ttys[t].cursorPosition <= table.ttys[t].bufferIndex <= old(table.ttys[t].bufferIndex)
      invariant table.ttys[..] == old(table.ttys[..])[t := old(table.ttys[t]).(bufferIndex := table.ttys[t].bufferIndex)]
      invariant unchanged(table.buffers)
      decreases table.ttys[t].bufferIndex - table.ttys[t].cursorPosition
    {
      table.ttys[t] := table.ttys[t].(bufferIndex := table.ttys[t].bufferIndex - 1);
    }
    var cur := table.ttys[t].cursorPosition;
    table.buffers[t, cur] := '\0';
    forall u | 0 <= u < Tty.MAX_TTYS
      ensures Tty.LineOk(table.ttys[u], table.buffers, u)
    {
      assert old(Tty.LineOk(table.ttys[u], table.buffers, u));
      if u != t {
        assert table.ttys[u] == old(table.ttys[u]);
      }
    }
    assert forall u :: 0 <= u < Tty.MAX_TTYS ==> Tty.LineOk(table.backup[u], table.backupBuffers, u);
    assert forall j :: 0 <= j < cur ==> table.buffers[t, j] == line[j];
  }

  /** The line invariant for every TTY but t, and for the saved lines: what emptying line t needs. */
  ghost predicate OthersOk(table: Tty.TtyTable, t: int)
    reads table, table.ttys, table.buffers, table.backup, table.backupBuffers
  {
    && table.Shaped() && 0 <= t < Tty.MAX_TTYS
    && (forall u :: 0 <= u < Tty.MAX_TTYS && u != t ==> Tty.LineOk(table.ttys[u], table.buffers, u))
    && (forall u :: 0 <= u < Tty.MAX_TTYS ==> Tty.LineOk(table.backup[u], table.backupBuffers, u))
  }

  /** Ctrl-C and the end of Enter: buffer_index and the cursor to 0 and a NUL in the first cell. */
  method ClearLine(table: Tty.TtyTable, t: int)
    requires OthersOk(table, t)
    modifies table.ttys, table.buffers
    ensures table.Valid() && table.Line(t) == []
    ensures table.ttys[..] == old(table.ttys[..])[t := old(table.ttys[t]).(bufferIndex := 0, cursorPosition := 0)]
    ensures forall u, j :: 0 <= u < Tty.MAX_TTYS && 0 <= j < Tty.BUFFER_SIZE && (u != t || j != 0) ==>
      table.buffers[u, j] == old(table.buffers[u, j])
  {
    table.ttys[t] := table.ttys[t].(bufferIndex := 0, cursorPosition := 0);
    table.buffers[t, 0] := '\0';
    forall u | 0 <= u < Tty.MAX_TTYS && u != t
      ensures Tty.LineOk(table.ttys[u], table.buffers, u)
    {
      assert old(Tty.LineOk(table.ttys[u], table.buffers, u));
      assert table.ttys[u] == old(table.ttys[u]);
    }
  }

  /**
   * Enter's scans of the line: p past the leading spaces, q past the
   * command word, a past the spaces after it (the C stops each scan at the
   * NUL).
   */
  method SplitLine(table: Tty.TtyTable, t: int) returns (p: nat, q: nat, a: nat)
    requires table.Valid() && 0 <= t < Tty.MAX_TTYS
    ensures p == SkipSpaces(table.Line(t), 0)
    ensures q == SkipWord(table.Line(t), p)
    ensures a == ShellHistory.CmdEnd(table.Line(t))
  {
    ghost var line := table.Line(t);
    ghost var n := table.ttys[t].bufferIndex;
    p := 0;
    while table.buffers[t, p] == ' '
      invariant p <= n && SkipSpaces(line, p) == SkipSpaces(line, 0)
      decreases n - p
    {
      p := p + 1;
    }
    q := p;
    while table.buffers[t, q] != '\0' && table.buffers[t, q] != ' '
      invariant p <= q <= n && SkipWord(line, q) == SkipWord(line, p)
      decreases n - q
    {
      q := q + 1;
    }
    a := q;
    if table.buffers[t, q] != '\0' {
      a := q + 1;
      while table.buffers[t, a] == ' '
        invariant q < a <= n && SkipSpaces(line, a) == SkipSpaces(line, q)
        decreases n - a
      {
        a := a + 1;
      }
    }
  }

  /** Enter's cut: a NUL over the space that ends the command word, if the word does not end the line. */
  method CutCommand(table: Tty.TtyTable, t: int, q: nat)
    requires table.Valid() && 0 <= t < Tty.MAX_TTYS && q <= table.ttys[t].bufferIndex
    modifies table.buffers
    ensures OthersOk(table, t)
    ensures forall u, j :: 0 <= u < Tty.MAX_TTYS && 0 <= j < Tty.BUFFER_SIZE && (u != t || j != q) ==>
      table.buffers[u, j] == old(table.buffers[u, j])
  {
    if table.buffers[t, q] != '\0' {
      table.buffers[t, q] := '\0';
      forall u | 0 <= u < Tty.MAX_TTYS && u != t
        ensures Tty.LineOk(table.ttys[u], table.buffers, u)
      {
        assert old(Tty.LineOk(table.ttys[u], table.buffers, u));
      }
    }
  }

  /** Enter's add_to_history call, made only for a line that is not blank. */
  method Remember(hist: ShellHistory.History, t: int, stripped: seq<char>)
    requires hist.Valid() && 0 <= t < Tty.MAX_TTYS && Storable(stripped)
    modifies hist.entries, hist.count
    ensures hist.Valid()
    ensures hist.Entries(t) == ShellHistory.AddSpec(old(hist.Entries(t)), stripped)
    ensures forall u :: 0 <= u < Tty.MAX_TTYS && u != t ==> hist.count[u] == old(hist.count[u])
    ensures forall u, j :: 0 <= u < Tty.MAX_TTYS && u != t && 0 <= j < ShellHistory.HISTORY_SIZE ==>
      hist.entries[u, j] == old(hist.entries[u, j])
  {
    if stripped != [] {
      hist.Add(t, stripped);
    }
  }

  /**
   * Enter: the line without its leading spaces goes to the history when it
   * is not blank; the command word is cut off with a NUL and the arguments
   * start after the spaces that follow it; the command is chosen; then the
   * line is emptied and the history position reset.
   */
  method Enter(table: Tty.TtyTable, hist: ShellHistory.History, t: int) returns (run: Option<Command>)
    requires table.Valid() && hist.Valid() && 0 <= t < Tty.MAX_TTYS
    modifies table.ttys, table.buffers, hist.entries, hist.count, hist.index
    ensures table.Valid() && hist.Valid()
    ensures run == EnterCommand(old(table.Line(t)), t)
    ensures table.ttys[..] == old(table.ttys[..])[t := old(table.ttys[t]).(bufferIndex := 0, cursorPosition := 0)]
    ensures forall u, j :: 0 <= u < Tty.MAX_TTYS && u != t && 0 <= j < Tty.BUFFER_SIZE ==>
      table.buffers[u, j] == old(table.buffers[u, j])
    ensures hist.Entries(t) == ShellHistory.AddSpec(old(hist.Entries(t)), Stripped(old(table.Line(t))))
    ensures hist.index[..] == old(hist.index[..])[t := -1]
    ensures forall u :: 0 <= u < Tty.MAX_TTYS && u != t ==> hist.count[u] == old(hist.count[u])
    ensures forall u, j :: 0 <= u < Tty.MAX_TTYS && u != t && 0 <= j < ShellHistory.HISTORY_SIZE ==>
      hist.entries[u, j] == old(hist.entries[u, j])
  {
    // The C first stores a NUL at buffer_index, where the line invariant keeps one already.
    var line := table.Line(t);
    var p, q, a := SplitLine(table, t);
    assert line[p..] == Stripped(line);
    Remember(hist, t, line[p..]);
    // The command scan skips the same leading spaces again and so starts at p.
    CutCommand(table, t, q);
    run := None;
    if p < q {
      run := Some(Dispatch(line[p..q], line[a..], t));
    }
    ClearLine(table, t);
    hist.ResetPosition(t);
  }

  /** TAB's effect on the line and cursor: a completed line with the cursor at its end, or no change. */
  function TabEdit(e: Edit, cwd: Option<Node>): Edit
    requires Fits(e)
  {
    match ShellHistory.TabResult(e.line, cwd)
    case None => e
    case Some(l) => Edit(l, |l|)
  }

  /** UP and DOWN's effect on the line and cursor: the line shown with the cursor at its end, or no change. */
  function NavEdit(e: Edit, nav: ShellHistory.Nav): Edit
  {
    if nav.Moved? then Edit(nav.line, |nav.line|) else e
  }

  /** Ctrl-A, Ctrl-E, Ctrl-K and Ctrl-U: the cursor loops and the kills. */
  method ControlKey(table: Tty.TtyTable, t: int, c: char)
    requires table.Valid() && 0 <= t < Tty.MAX_TTYS
    requires c == CTRL_A || c == CTRL_E || c == CTRL_K || c == CTRL_U
    modifies table.ttys, table.buffers
    ensures table.Valid()
    ensures State(table, t) == CharEdit(old(State(table, t)), c)
    ensures table.ttys[..] == old(table.ttys[..])[t := old(table.ttys[t]).(bufferIndex := table.ttys[t].bufferIndex,
                                                                          cursorPosition := table.ttys[t].cursorPosition)]
    ensures forall u, j :: 0 <= u < Tty.MAX_TTYS && u != t && 0 <= j < Tty.BUFFER_SIZE ==>
      table.buffers[u, j] == old(table.buffers[u, j])
  {
    if c == CTRL_A {
      CursorHome(table, t);
    } else if c == CTRL_E {
      CursorEnd(table, t);
    } else if c == CTRL_K {
      KillToEnd(table, t);
    } else {
      // The C steps the cursor to 0, counts buffer_index down to 0 and
      // stores a NUL in the first cell: the Ctrl-K loop from cursor 0.
      CursorHome(table, t);
      KillToEnd(table, t);
    }
  }

  /** TAB, Backspace, and the characters shell_handle_char ignores. */
  method EditKey(table: Tty.TtyTable, t: int, c: char, cwd: Option<Node>)
    requires table.Valid() && 0 <= t < Tty.MAX_TTYS
    requires c != CTRL_C && c != CTRL_A && c != CTRL_E && c != CTRL_K && c != CTRL_U
    requires c != '\n' && c != '\r' && !Printable(c)
    requires cwd.Some? ==> Consistent(cwd.value)
    requires |ShellHistory.Listing(cwd)| < U32_LIMIT
    modifies table.ttys, table.buffers
    ensures table.Valid()
    ensures State(table, t) == if c == '\t' then TabEdit(old(State(table, t)), cwd) else CharEdit(old(State(table, t)), c)
    ensures table.ttys[..] == old(table.ttys[..])[t := old(table.ttys[t]).(bufferIndex := table.ttys[t].bufferIndex,
                                                                          cursorPosition := table.ttys[t].cursorPosition)]
    ensures forall u, j :: 0 <= u < Tty.MAX_TTYS && u != t && 0 <= j < Tty.BUFFER_SIZE ==>
      table.buffers[u, j] == old(table.buffers[u, j])
  {
    if c == '\t' {
      var _ := ShellHistory.HandleTabCompletion(table, t, cwd);
    } else if c == BACKSPACE || c == DEL {
      var cur := table.ttys[t].cursorPosition;
      if cur > 0 {
        RemoveAt(table, t, cur - 1, cur - 1);
      }
    }
  }

  /** Whether a character shows the typed line again (history_index = -1): Ctrl-C, Enter, or a character that is inserted. */
  predicate LeavesHistory(e: Edit, c: char)
  {
    c == CTRL_C || c == '\n' || c == '\r' || (Printable(c) && |e.line| < SHELL_BUFFER_SIZE - 1)
  }

  /** Ctrl-C, which empties the line, and a printable character, inserted while the line is shorter than 255; both reset the history position. */
  method TypeKey(table: Tty.TtyTable, hist: ShellHistory.History, t: int, c: char)
    requires table.Valid() && hist.Valid() && 0 <= t < Tty.MAX_TTYS
    requires c == CTRL_C || Printable(c)
    modifies table.ttys, table.buffers, hist.index
    ensures table.Valid() && hist.Valid()
    ensures State(table, t) == CharEdit(old(State(table, t)), c)
    ensures table.ttys[..] == old(table.ttys[..])[t := old(table.ttys[t]).(bufferIndex := table.ttys[t].bufferIndex,
                                                                          cursorPosition := table.ttys[t].cursorPosition)]
    ensures forall u, j :: 0 <= u < Tty.MAX_TTYS && u != t && 0 <= j < Tty.BUFFER_SIZE ==>
      table.buffers[u, j] == old(table.buffers[u, j])
    ensures hist.index[..] == if LeavesHistory(old(State(table, t)), c) then old(hist.index[..])[t := -1] else old(hist.index[..])
  {
    if c == CTRL_C {
      ClearLine(table, t);
      hist.ResetPosition(t);
    } else if table.ttys[t].bufferIndex < SHELL_BUFFER_SIZE - 1 {
      // The C first clamps the cursor to buffer_index, which the line invariant already ensures.
      InsertAt(table, t, c);
      hist.ResetPosition(t);
    }
  }

  /**
   * shell_handle_char for the current TTY: the line and cursor change as
   * CharEdit (TabEdit for TAB) says, Enter returns the command to run and
   * saves the line, and the history position is reset where the C resets
   * it. Nothing of the other TTYs changes.
   */
  method HandleChar(table: Tty.TtyTable, hist: ShellHistory.History, c: char, cwd: Option<Node>)
    returns (run: Option<Command>)
    requires table.Valid() && hist.Valid()
    requires cwd.Some? ==> Consistent(cwd.value)
    requires |ShellHistory.Listing(cwd)| < U32_LIMIT
    modifies table.ttys, table.buffers, hist.entries, hist.count, hist.index
    ensures table.Valid() && hist.Valid()
    ensures var t := table.current;
      State(table, t) == if c == '\t' then TabEdit(old(State(table, t)), cwd) else CharEdit(old(State(table, t)), c)
    ensures run == if c == '\n' || c == '\r' then EnterCommand(old(table.Line(table.current)), table.current) else None
    ensures var t := table.current;
      table.ttys[..] == old(table.ttys[..])[t := old(table.ttys[t]).(bufferIndex := table.ttys[t].bufferIndex,
                                                                    cursorPosition := table.ttys[t].cursorPosition)]
    ensures forall u, j :: 0 <= u < Tty.MAX_TTYS && u != table.current && 0 <= j < Tty.BUFFER_SIZE ==>
      table.buffers[u, j] == old(table.buffers[u, j])
    ensures var t := table.current;
      hist.Entries(t) == if c == '\n' || c == '\r' then ShellHistory.AddSpec(old(hist.Entries(t)), Stripped(old(table.Line(t))))
                         else old(hist.Entries(t))
    ensures var t := table.current;
      hist.index[..] == if LeavesHistory(old(State(table, t)), c) then old(hist.index[..])[t := -1] else old(hist.index[..])
    ensures forall u :: 0 <= u < Tty.MAX_TTYS && u != table.current ==> hist.count[u] == old(hist.count[u])
    ensures forall u, j :: 0 <= u < Tty.MAX_TTYS && u != table.current && 0 <= j < ShellHistory.HISTORY_SIZE ==>
      hist.entries[u, j] == old(hist.entries[u, j])
  {
    var t := table.current;
    run := None;
    if c == CTRL_C || Printable(c) {
      TypeKey(table, hist, t, c);
    } else if c == CTRL_A || c == CTRL_E || c == CTRL_K || c == CTRL_U {
      ControlKey(table, t, c);
    } else if c == '\n' || c == '\r' {
      run := Enter(table, hist, t);
    } else {
      EditKey(table, t, c, cwd);
    }
  }

  /** The special keys that edit in place: Left, Right, Home, End and Delete; other scancodes are ignored. */
  method SpecialKey(table: Tty.TtyTable, t: int, scancode: byte)
    requires table.Valid() && 0 <= t < Tty.MAX_TTYS
    modifies table.ttys, table.buffers
    ensures table.Valid()
    ensures State(table, t) == SpecialEdit(old(State(table, t)), scancode)
    ensures table.ttys[..] == old(table.ttys[..])[t := old(table.ttys[t]).(bufferIndex := table.ttys[t].bufferIndex,
                                                                          cursorPosition := table.ttys[t].cursorPosition)]
    ensures forall u, j :: 0 <= u < Tty.MAX_TTYS && u != t && 0 <= j < Tty.BUFFER_SIZE ==>
      table.buffers[u, j] == old(table.buffers[u, j])
  {
    if scancode == Keyboard.KEY_LEFT {
      if table.ttys[t].cursorPosition > 0 {
        table.ttys[t] := table.ttys[t].(cursorPosition := table.ttys[t].cursorPosition - 1);
      }
    } else if scancode == Keyboard.KEY_RIGHT {
      if table.ttys[t].cursorPosition < table.ttys[t].bufferIndex {
        table.ttys[t] := table.ttys[t].(cursorPosition := table.ttys[t].cursorPosition + 1);
      }
    } else if scancode == Keyboard.KEY_HOME {
      CursorHome(table, t);
    } else if scancode == Keyboard.KEY_END {
      CursorEnd(table, t);
    } else if scancode == Keyboard.KEY_DELETE {
      var cur := table.ttys[t].cursorPosition;
      if cur < table.ttys[t].bufferIndex {
        RemoveAt(table, t, cur, cur);
      }
    }
  }

  /**
   * shell_handle_special_key for the current TTY: UP and DOWN navigate the
   * history, the other keys edit as SpecialEdit says. Nothing of the other
   * TTYs changes, and the history entries stay as they are.
   */
  method HandleSpecialKey(table: Tty.TtyTable, hist: ShellHistory.History, scancode: byte)
    requires table.Valid() && hist.Valid()
    modifies table.ttys, table.buffers, hist.index, hist.temp
    ensures table.Valid() && hist.Valid()
    ensures var t := table.current;
      State(table, t) ==
        if scancode == Keyboard.KEY_UP || scancode == Keyboard.KEY_DOWN then
          NavEdit(old(State(table, t)), ShellHistory.Navigation(old(hist.Entries(t)), old(hist.index[t]), old(hist.temp[t]),
                                                                old(table.Line(t)), scancode))
        else SpecialEdit(old(State(table, t)), scancode)
    ensures var t := table.current;
      table.ttys[..] == old(table.ttys[..])[t := old(table.ttys[t]).(bufferIndex := table.ttys[t].bufferIndex,
                                                                    cursorPosition := table.ttys[t].cursorPosition)]
    ensures forall u, j :: 0 <= u < Tty.MAX_TTYS && u != table.current && 0 <= j < Tty.BUFFER_SIZE ==>
      table.buffers[u, j] == old(table.buffers[u, j])
    ensures !(scancode == Keyboard.KEY_UP || scancode == Keyboard.KEY_DOWN) ==> unchanged(hist.index) && unchanged(hist.temp)
  {
    var t := table.current;
    if scancode == Keyboard.KEY_UP || scancode == Keyboard.KEY_DOWN {
      var _ := hist.Navigate(table, t, scancode);
    } else {
      SpecialKey(table, t, scancode);
    }
  }
}
