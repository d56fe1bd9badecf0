/*
 * Shell history and completion (ui/shell/shell_history.c): a bounded
 * most-recent-first history per TTY, UP/DOWN navigation through it with
 * the line being typed kept aside, and TAB completion of command names and
 * of the names in the current directory.
 *
 * History entries and the saved line are strings (the C copies them with
 * strcpy into 256-byte arrays); the line being edited is the TTY's buffer
 * row. Listing matches and redrawing the line are console output and are
 * not modelled.
 */
module ShellHistory {
  import opened Common
  import opened ShellText
  import opened FsNode
  import Keyboard
  import Tty
  import Vfs

  const HISTORY_SIZE: nat := 10
  /** complete_filesystem_path keeps at most this many matches. */
  const MAX_MATCHES: nat := 32

  /** The names TAB completes at the start of a line. */
  const COMMANDS: seq<seq<char>> :=
    ["help", "clear", "about", "lfetch", "version", "uptime", "echo", "colors",
     "cute-girl", "history", "reboot", "miko", "snake", "tetris", "meminfo"]

  /** Commands whose argument TAB completes from the current directory. */
  const FILE_COMMANDS: seq<seq<char>> := ["ls", "cat", "cd"]

  // ---------------------------------------------------------------------
  // add_to_history
  // ---------------------------------------------------------------------

  /** The history after add_to_history(cmd): cmd in front, at most ten entries, unless cmd is empty or repeats the newest. */
  function AddSpec(h: seq<seq<char>>, cmd: seq<char>): (r: seq<seq<char>>)
    requires |h| <= HISTORY_SIZE
    ensures |r| <= HISTORY_SIZE
  {
    if cmd == [] || (|h| > 0 && h[0] == cmd) then h
    else ([cmd] + h)[..Min(|h| + 1, HISTORY_SIZE)]
  }

  /** No entry repeats the one just before it. */
  predicate NoRepeats(h: seq<seq<char>>)
  {
    forall j :: 0 <= j < |h| - 1 ==> h[j] != h[j + 1]
  }

  /** A new command goes in front; older entries keep their order, the oldest falling off a full history. */
  lemma AddPutsNewestFirst(h: seq<seq<char>>, cmd: seq<char>)
    requires |h| <= HISTORY_SIZE && cmd != [] && (|h| == 0 || h[0] != cmd)
    ensures |AddSpec(h, cmd)| == Min(|h| + 1, HISTORY_SIZE)
    ensures AddSpec(h, cmd)[0] == cmd
    ensures AddSpec(h, cmd)[1..] == h[..Min(|h|, HISTORY_SIZE - 1)]
  {
    var r := AddSpec(h, cmd);
    assert r == ([cmd] + h)[..Min(|h| + 1, HISTORY_SIZE)];
    assert r[1..] == ([cmd] + h)[1..Min(|h| + 1, HISTORY_SIZE)];
    assert ([cmd] + h)[1..] == h;
  }

  /** add_to_history's shift and store, on a whole row of slots, give AddSpec on the live part. */
  lemma ShiftedRowIsAdd(h: seq<seq<char>>, oldRow: seq<seq<char>>, row: seq<seq<char>>, cmd: seq<char>)
    requires |oldRow| == HISTORY_SIZE && |row| == HISTORY_SIZE && |h| <= HISTORY_SIZE && h == oldRow[..|h|]
    requires cmd != [] && (|h| == 0 || h[0] != cmd)
    requires row[0] == cmd && forall j :: 0 < j < HISTORY_SIZE ==> row[j] == oldRow[j - 1]
    ensures row[..Min(|h| + 1, HISTORY_SIZE)] == AddSpec(h, cmd)
  {
    AddPutsNewestFirst(h, cmd);
    var r := AddSpec(h, cmd);
    forall j | 0 <= j < |r|
      ensures row[j] == r[j]
    {
      if j > 0 {
        assert r[j] == r[1..][j - 1];
      }
    }
  }

  /** The history never holds the same command twice in a row. */
  lemma AddKeepsNoRepeats(h: seq<seq<char>>, cmd: seq<char>)
    requires |h| <= HISTORY_SIZE && NoRepeats(h)
    ensures NoRepeats(AddSpec(h, cmd))
  {
    if !(cmd == [] || (|h| > 0 && h[0] == cmd)) {
      var r := AddSpec(h, cmd);
      AddPutsNewestFirst(h, cmd);
      forall j | 0 <= j < |r| - 1
        ensures r[j] != r[j + 1]
      {
        if j > 0 {
          assert r[j] == h[j - 1] && r[j + 1] == h[j];
        } else {
          assert r[1] == h[0];
        }
      }
    }
  }

  // ---------------------------------------------------------------------
  // handle_history_navigation
  // ---------------------------------------------------------------------

  /** The outcome of one UP or DOWN: nothing, or the new position, saved line and line shown. */
  datatype Nav = Unmoved | Moved(index: int, temp: seq<char>, line: seq<char>)

  function Navigation(h: seq<seq<char>>, index: int, temp: seq<char>, line: seq<char>, scancode: byte): (r: Nav)
    requires -1 <= index < |h|
    ensures r.Moved? ==> -1 <= r.index < |h|
  {
    if scancode == Keyboard.KEY_UP then
      if |h| == 0 then Unmoved
      else if index == -1 then Moved(0, line, h[0])
      else if index < |h| - 1 then Moved(index + 1, temp, h[index + 1])
      else Unmoved
    else if scancode == Keyboard.KEY_DOWN then
      if index == -1 then Unmoved
      else if index == 0 then Moved(-1, temp, temp)
      else Moved(index - 1, temp, h[index - 1])
    else Moved(index, temp, line)
  }

  /** UP shows the next older entry; leaving the typed line saves it first. */
  lemma UpShowsOlder(h: seq<seq<char>>, index: int, temp: seq<char>, line: seq<char>)
    requires -1 <= index < |h| - 1
    ensures Navigation(h, index, temp, line, Keyboard.KEY_UP)
         == Moved(index + 1, if index == -1 then line else temp, h[index + 1])
  {
  }

  /** DOWN undoes UP: the position comes back, and from the newest entry the typed line comes back. */
  lemma UpThenDown(h: seq<seq<char>>, index: int, temp: seq<char>, line: seq<char>)
    requires -1 <= index < |h|
    requires Navigation(h, index, temp, line, Keyboard.KEY_UP).Moved?
    ensures var up := Navigation(h, index, temp, line, Keyboard.KEY_UP);
      Navigation(h, up.index, up.temp, up.line, Keyboard.KEY_DOWN)
        == Moved(index, up.temp, if index == -1 then line else h[index])
  {
  }

  /** UP stops at the oldest entry, DOWN at the typed line. */
  lemma NavigationStops(h: seq<seq<char>>, temp: seq<char>, line: seq<char>)
    ensures |h| > 0 ==> Navigation(h, |h| - 1, temp, line, Keyboard.KEY_UP) == Unmoved
    ensures Navigation(h, -1, temp, line, Keyboard.KEY_DOWN) == Unmoved
    ensures Navigation([], -1, temp, line, Keyboard.KEY_UP) == Unmoved
  {
  }

  // ---------------------------------------------------------------------
  // handle_tab_completion: parsing the line
  // ---------------------------------------------------------------------

  /** The command word, the argument characters, and whether a space followed the command. */
  datatype TabParse = TabParse(cmd: seq<char>, arg: seq<char>, parsingArg: bool)

  /** One character of the parsing loop. */
  function TabStep(p: TabParse, c: char): TabParse
  {
    if c == ' ' then (if |p.cmd| > 0 then p.(parsingArg := true) else p)
    else if !p.parsingArg then (if |p.cmd| < 255 then p.(cmd := p.cmd + [c]) else p)
    else (if |p.arg| < 255 then p.(arg := p.arg + [c]) else p)
  }

  /** The parsing loop over a whole line. */
  function TabFold(s: seq<char>): TabParse
  {
    if s == [] then TabParse([], [], false) else TabStep(TabFold(s[..|s| - 1]), s[|s| - 1])
  }

  /** The parse TabFold should produce for a line. */
  function TabMeaning(s: seq<char>): TabParse
  {
    var q := SkipWord(s, SkipSpaces(s, 0));
    TabParse(FirstWord(s), NonSpaces(s[q..]), q < |s|)
  }

  /**
   * What the parse means: the command is the first word, the argument is
   * every non-space character after it (joined), and a space must follow
   * the word for an argument to be parsed.
   */
  lemma {:induction false} TabFoldMeaning(s: seq<char>)
    requires |s| < SHELL_BUFFER_SIZE
    ensures TabFold(s) == TabMeaning(s)
    decreases |s|
  {
    if s != [] {
      var s', c := s[..|s| - 1], s[|s| - 1];
      assert s == s' + [c];
      TabFoldMeaning(s');
      TabMeaningStep(s', c);
    }
  }

  /** Appending one character moves TabMeaning as one step of the loop does. */
  lemma TabMeaningStep(s: seq<char>, c: char)
    requires |s| < SHELL_BUFFER_SIZE - 1
    ensures TabMeaning(s + [c]) == TabStep(TabMeaning(s), c)
  {
    var p := SkipSpaces(s, 0);
    var q := SkipWord(s, p);
    SkipSpacesAppend(s, 0, c);
    if p < |s| {
      SkipWordAppend(s, p, c);
      if q < |s| {
        TabStepInArgument(s, c, p, q);
      } else {
        TabStepInWord(s, c, p);
      }
    } else {
      TabStepInSpaces(s, c);
    }
  }

  lemma TabStepInArgument(s: seq<char>, c: char, p: nat, q: nat)
    requires |s| < SHELL_BUFFER_SIZE - 1
    requires p == SkipSpaces(s, 0) && p < |s| && q == SkipWord(s, p) && q < |s|
    requires SkipSpaces(s + [c], 0) == p && SkipWord(s + [c], p) == q
    ensures TabMeaning(s + [c]) == TabStep(TabMeaning(s), c)
  {
    var t := s + [c];
    assert t[q..] == s[q..] + [c];
    NonSpacesAppend(s[q..], [c]);
    assert NonSpaces([c]) == NonSpaces([]) + (if c == ' ' then [] else [c]);
    assert t[p..q] == s[p..q];
    assert |s[p..q]| > 0;
  }

  lemma TabStepInWord(s: seq<char>, c: char, p: nat)
    requires |s| < SHELL_BUFFER_SIZE - 1
    requires p == SkipSpaces(s, 0) && p < |s| && SkipWord(s, p) == |s|
    requires SkipSpaces(s + [c], 0) == p
    requires SkipWord(s + [c], p) == if c != ' ' then |s| + 1 else |s|
    ensures TabMeaning(s + [c]) == TabStep(TabMeaning(s), c)
  {
    var t := s + [c];
    assert s[|s|..] == [];
    if c == ' ' {
      assert t[|s|..] == [' '];
      assert NonSpaces([' ']) == NonSpaces([]);
      assert t[p..|s|] == s[p..|s|];
    } else {
      assert t[|t|..] == [];
      assert t[p..|t|] == s[p..|s|] + [c];
    }
  }

  lemma TabStepInSpaces(s: seq<char>, c: char)
    requires |s| < SHELL_BUFFER_SIZE - 1
    requires SkipSpaces(s, 0) == |s|
    requires SkipSpaces(s + [c], 0) == if c == ' ' then |s| + 1 else |s|
    ensures TabMeaning(s + [c]) == TabStep(TabMeaning(s), c)
  {
    var t := s + [c];
    assert s[|s|..] == [];
    assert SkipWord(s, |s|) == |s|;
    if c == ' ' {
      assert SkipWord(t, |t|) == |t|;
      assert t[|t|..] == [];
    } else {
      assert SkipWord(t, |s|) == |t| by {
        assert SkipWord(t, |t|) == |t|;
      }
      assert t[|t|..] == [];
      assert t[|s|..|t|] == [c];
    }
  }

  // ---------------------------------------------------------------------
  // Completion results
  // ---------------------------------------------------------------------

  /** The command names the partial line is a prefix of, in table order. */
  function CommandMatches(partial: seq<char>): seq<seq<char>>
  {
    MatchingNames(COMMANDS, partial)
  }

  function MatchingNames(names: seq<seq<char>>, partial: seq<char>): (r: seq<seq<char>>)
    ensures |r| <= |names|
  {
    if names == [] then []
    else (if StartsWith(names[0], partial) then [names[0]] else []) + MatchingNames(names[1..], partial)
  }

  /** The matches are exactly the names the partial text is a prefix of. */
  lemma {:induction false} MatchingNamesMembers(names: seq<seq<char>>, partial: seq<char>)
    ensures forall n :: n in MatchingNames(names, partial) <==> n in names && StartsWith(n, partial)
    decreases |names|
  {
    if names != [] {
      MatchingNamesMembers(names[1..], partial);
      assert names == [names[0]] + names[1..];
    }
  }

  /** The directory entries readdir hands out for the cwd, in order. */
  function Listing(cwd: Option<Node>): seq<Node>
  {
    if cwd.Some? && cwd.value.kind == VFS_DIRECTORY && cwd.value.readdir.TarReaddir? && cwd.value.impl.DirData?
    then cwd.value.impl.files else []
  }

  /** vfs_readdir on the cwd yields exactly the listing, then NULL. */
  lemma ReaddirIsListing(cwd: Option<Node>, i: u32)
    requires cwd.Some? ==> Consistent(cwd.value)
    ensures Vfs.Readdir(cwd, i) == if i < |Listing(cwd)| then Some(Listing(cwd)[i]) else None
  {
  }

  /** The entries whose name starts with the partial argument, in directory order. */
  function FileMatches(files: seq<Node>, partial: seq<char>): (r: seq<Node>)
    ensures |r| <= |files|
  {
    if files == [] then []
    else (if StartsWith(CStr(files[0].name), partial) then [files[0]] else []) + FileMatches(files[1..], partial)
  }

  /** The matches are exactly the entries whose name (up to its NUL) starts with the partial text. */
  lemma {:induction false} FileMatchesMembers(files: seq<Node>, partial: seq<char>)
    ensures forall n :: n in FileMatches(files, partial) <==> n in files && StartsWith(CStr(n.name), partial)
    decreases |files|
  {
    if files != [] {
      FileMatchesMembers(files[1..], partial);
      assert files == [files[0]] + files[1..];
    }
  }

  lemma {:induction false} FileMatchesAppend(a: seq<Node>, b: seq<Node>, partial: seq<char>)
    ensures FileMatches(a + b, partial) == FileMatches(a, partial) + FileMatches(b, partial)
    decreases |a|
  {
    if a == [] {
      assert a + b == b;
    } else {
      assert (a + b)[0] == a[0] && (a + b)[1..] == a[1..] + b;
      FileMatchesAppend(a[1..], b, partial);
      var x := if StartsWith(CStr(a[0].name), partial) then [a[0]] else [];
      var m1, m2 := FileMatches(a[1..], partial), FileMatches(b, partial);
      assert FileMatches(a + b, partial) == x + (m1 + m2);
      assert x + (m1 + m2) == (x + m1) + m2;
    }
  }

  function Slash(n: Node): seq<char>
  {
    if n.kind == VFS_DIRECTORY then "/" else ""
  }

  /** Where completion puts the name, as written: after the first run of non-spaces from the start and the spaces after it. */
  function CmdEndAsWritten(line: seq<char>): nat
    ensures CmdEndAsWritten(line) <= |line|
  {
    SkipSpaces(line, SkipWord(line, 0))
  }

  /** complete_filesystem_path's new line for a single match, as written (it can exceed the buffer). */
  function CompletedAsWritten(line: seq<char>, n: Node): (r: seq<char>)
    ensures |r| == CmdEndAsWritten(line) + |CStr(n.name)| + |Slash(n)|
    ensures r[..CmdEndAsWritten(line)] == line[..CmdEndAsWritten(line)]
  {
    line[..CmdEndAsWritten(line)] + (CStr(n.name) + Slash(n))
  }

  /** Where completion puts the name: after the leading spaces, the command word and the spaces after it. */
  function CmdEnd(line: seq<char>): nat
    ensures CmdEnd(line) <= |line|
  {
    SkipSpaces(line, SkipWord(line, SkipSpaces(line, 0)))
  }

  /** The corrected completion: the command is kept, and a line that would not fit is left alone. */
  function CompletedFile(line: seq<char>, n: Node): (r: Option<seq<char>>)
    requires Storable(line)
    ensures r.Some? ==> Storable(r.value)
  {
    var s := line[..CmdEnd(line)] + (CStr(n.name) + Slash(n));
    if |s| < SHELL_BUFFER_SIZE then Some(s) else None
  }

  function FileCompletion(line: seq<char>, cwd: Option<Node>, partial: seq<char>): (r: Option<seq<char>>)
    requires Storable(line)
    ensures r.Some? ==> Storable(r.value)
  {
    if cwd.None? then None
    else
      var ms := FileMatches(Listing(cwd), partial);
      if |ms| == 1 then CompletedFile(line, ms[0]) else None
  }

  lemma CommandsStorable(n: seq<char>)
    requires n in COMMANDS
    ensures Storable(n)
  {
  }

  function CommandCompletion(line: seq<char>): (r: Option<seq<char>>)
    ensures r.Some? ==> Storable(r.value)
  {
    var cs := CommandMatches(line);
    if |cs| == 1 then
      assert cs[0] in cs;
      MatchingNamesMembers(COMMANDS, line);
      CommandsStorable(cs[0]);
      Some(cs[0])
    else None
  }

  /** The line after TAB, or None when TAB leaves it unchanged. */
  function TabResult(line: seq<char>, cwd: Option<Node>): (r: Option<seq<char>>)
    requires Storable(line)
    ensures r.Some? ==> Storable(r.value)
  {
    if line == [] then None
    else
      var p := TabFold(line);
      if |p.cmd| > 0 && p.parsingArg && p.cmd in FILE_COMMANDS then FileCompletion(line, cwd, p.arg)
      else CommandCompletion(line)
  }

  /** Completing a command keeps what was typed as its prefix and yields one of the command names. */
  lemma CommandCompletionExtends(line: seq<char>)
    requires CommandCompletion(line).Some?
    ensures var r := CommandCompletion(line).value;
      r in COMMANDS && StartsWith(r, line)
  {
    var cs := CommandMatches(line);
    assert cs[0] in cs;
    MatchingNamesMembers(COMMANDS, line);
  }

  /** A file completion puts, after the command, the name of the one entry the partial argument starts. */
  lemma FileCompletionNamesEntry(line: seq<char>, cwd: Option<Node>, partial: seq<char>)
    requires Storable(line) && FileCompletion(line, cwd, partial).Some?
    ensures var ms := FileMatches(Listing(cwd), partial);
      && |ms| == 1 && ms[0] in Listing(cwd) && StartsWith(CStr(ms[0].name), partial)
      && FileCompletion(line, cwd, partial).value == line[..CmdEnd(line)] + (CStr(ms[0].name) + Slash(ms[0]))
  {
    var ms := FileMatches(Listing(cwd), partial);
    FileMatchesMembers(Listing(cwd), partial);
    assert ms[0] in ms;
  }

  /** Completing a file name keeps the command word, which is what the C loses after leading spaces. */
  lemma FileCompletionKeepsCommand(line: seq<char>, n: Node)
    requires Storable(line) && CompletedFile(line, n).Some?
    requires SkipWord(line, SkipSpaces(line, 0)) < |line|
    ensures FirstWord(CompletedFile(line, n).value) == FirstWord(line)
  {
    var m := CmdEnd(line);
    var r := line[..m] + (CStr(n.name) + Slash(n));
    assert CompletedFile(line, n).value == r;
    assert r[..m] == line[..m];
    FirstWordAgree(line, r, m);
  }

  // ---------------------------------------------------------------------
  // Findings: complete_filesystem_path as written
  // ---------------------------------------------------------------------

  /** A file named like the argument: "r" followed by 99 x's (a full ustar name field). */
  function LongNamedFile(): Node
  {
    Node("r" + seq(99, _ => 'x'), VFS_FILE, 0, 0, TarRead, NoWrite, NoReaddir, NoFinddir, NoImpl)
  }

  /**
   * "ls", 200 spaces and "r" (203 characters, accepted by the editor),
   * with one entry starting with "r" in the cwd: the C completion writes a
   * 302-character line and its NUL into the 256-byte command buffer.
   */
  lemma CompletionOverflows()
    ensures var line := "ls" + seq(200, _ => ' ') + "r";
      && Storable(line)
      && TabFold(line) == TabParse("ls", "r", true)
      && |CompletedAsWritten(line, LongNamedFile())| == 302
      && CompletedFile(line, LongNamedFile()) == None
  {
    var spaces := seq(200, _ => ' ');
    var line := "ls" + spaces + "r";
    var n := LongNamedFile();
    assert |line| == 203 && line[0] == 'l' && line[1] == 's' && line[2] == ' ' && line[202] == 'r';
    assert forall k :: 2 <= k < 202 ==> line[k] == ' ';
    assert '\0' !in line;
    assert SkipSpaces(line, 0) == 0;
    assert SkipWord(line, 0) == 2;
    assert SkipSpaces(line, 2) == 202;
    TabFoldMeaning(line);
    assert line[2..] == spaces + "r";
    NonSpacesAppend(spaces, "r");
    NonSpacesOfSpaces(spaces);
    assert NonSpaces("r") == NonSpaces([]) + "r";
    assert FirstWord(line) == "ls";
    assert '\0' !in n.name;
    CStrOfPlain(n.name);
    assert CmdEndAsWritten(line) == 202;
    assert CmdEnd(line) == 202;
  }

  /** As written, a line starting with a space loses everything from the command word on: the name goes right after the leading spaces. */
  lemma LeadingSpaceDropsCommand(line: seq<char>, n: Node)
    requires |line| > 0 && line[0] == ' '
    ensures CmdEndAsWritten(line) == SkipSpaces(line, 0)
    ensures CompletedAsWritten(line, n) == line[..SkipSpaces(line, 0)] + (CStr(n.name) + Slash(n))
  {
    assert SkipWord(line, 0) == 0;
  }

  /**
   * " cat RE" with README in the cwd (TAB parses it as command "cat" and
   * argument "RE", see CatLineScan): the C line becomes " README"; the
   * corrected one is " cat README".
   */
  lemma LeadingSpaceLosesCommand(line: seq<char>, readme: Node)
    requires line == " cat RE"
    requires readme == Node("README", VFS_FILE, 0, 0, TarRead, NoWrite, NoReaddir, NoFinddir, NoImpl)
    ensures CompletedFile(line, readme) == Some(" cat README")
    ensures CompletedAsWritten(line, readme) == " README"
  {
    assert Storable(line);
    CatLineScan(line);
    CStrOfPlain(readme.name);
    assert Slash(readme) == [];
    CompletedFromParts(line, readme, 5, "README");
    assert " cat " + "README" == " cat README";
    assert " " + "README" == " README";
  }

  /** The completed lines, given where the name goes and the name itself (for a non-directory). */
  lemma CompletedFromParts(line: seq<char>, n: Node, c: nat, name: seq<char>)
    requires Storable(line) && CmdEnd(line) == c && CStr(n.name) == name && Slash(n) == []
    requires c + |name| < SHELL_BUFFER_SIZE
    ensures CompletedFile(line, n) == Some(line[..c] + name)
    ensures CompletedAsWritten(line, n) == line[..CmdEndAsWritten(line)] + name
  {
    assert name + [] == name;
  }

  lemma CatLineScan(line: seq<char>)
    requires line == " cat RE"
    ensures TabFold(line) == TabParse("cat", "RE", true)
    ensures CmdEnd(line) == 5 && CmdEndAsWritten(line) == 1
    ensures line[..1] == " " && line[..5] == " cat "
  {
    assert line[0] == ' ' && line[1] == 'c' && line[3] == 't' && line[4] == ' ' && line[5] == 'R' && line[6] == 'E';
    assert SkipSpaces(line, 0) == 1 && SkipWord(line, 1) == 4 && SkipSpaces(line, 4) == 5;
    assert SkipWord(line, 0) == 0;
    TabFoldMeaning(line);
    assert line[4..] == " RE";
    assert NonSpaces(" RE") == "RE" by {
      assert NonSpaces(" R") == NonSpaces(" ") + "R";
      assert NonSpaces(" ") == NonSpaces([]);
    }
  }

  // ---------------------------------------------------------------------
  // Buffer helpers and the completion procedures
  // ---------------------------------------------------------------------

  /** complete_command: a unique command match replaces the line; otherwise the matches are only listed. */
  method CompleteCommand(table: Tty.TtyTable, t: int, partial: seq<char>) returns (completed: Option<seq<char>>)
    requires table.Valid() && 0 <= t < Tty.MAX_TTYS && partial == table.Line(t)
    modifies table.ttys, table.buffers
    ensures completed == CommandCompletion(partial)
    ensures table.Valid()
    ensures completed.None? ==> unchanged(table.ttys) && unchanged(table.buffers)
    ensures completed.Some? ==>
      && table.Line(t) == completed.value
      && table.ttys[..] == old(table.ttys[..])[t := old(table.ttys[t]).(bufferIndex := |completed.value|, cursorPosition := |completed.value|)]
      && forall u, k :: 0 <= u < Tty.MAX_TTYS && 0 <= k < Tty.BUFFER_SIZE && (u != t || k > |completed.value|) ==>
           table.buffers[u, k] == old(table.buffers[u, k])
  {
    var matchCount, firstMatch := CountCommandMatches(partial);
    if matchCount == 0 {
      return None;
    }
    completed := None;
    if matchCount == 1 {
      assert firstMatch in CommandMatches(partial);
      MatchingNamesMembers(COMMANDS, partial);
      CommandsStorable(firstMatch);
      table.ReplaceFrom(t, 0, firstMatch);
      completed := Some(firstMatch);
    }
  }

  /** complete_command's counting loop over the command table. */
  method CountCommandMatches(partial: seq<char>) returns (matchCount: nat, firstMatch: seq<char>)
    ensures matchCount == |CommandMatches(partial)|
    ensures matchCount > 0 ==> firstMatch == CommandMatches(partial)[0]
  {
    matchCount := 0;
    firstMatch := [];
    for i := 0 to |COMMANDS|
      invariant matchCount == |MatchingNames(COMMANDS[..i], partial)|
      invariant matchCount > 0 ==> firstMatch == MatchingNames(COMMANDS[..i], partial)[0]
    {
      MatchingNamesAppend(COMMANDS[..i], [COMMANDS[i]], partial);
      assert COMMANDS[..i + 1] == COMMANDS[..i] + [COMMANDS[i]];
      if StartsWith(COMMANDS[i], partial) {
        matchCount := matchCount + 1;
        if matchCount == 1 {
          firstMatch := COMMANDS[i];
        }
      }
    }
    assert COMMANDS[..|COMMANDS|] == COMMANDS;
  }

  lemma {:induction false} MatchingNamesAppend(a: seq<seq<char>>, b: seq<seq<char>>, partial: seq<char>)
    ensures MatchingNames(a + b, partial) == MatchingNames(a, partial) + MatchingNames(b, partial)
    decreases |a|
  {
    if a == [] {
      assert a + b == b;
    } else {
      assert (a + b)[0] == a[0] && (a + b)[1..] == a[1..] + b;
      MatchingNamesAppend(a[1..], b, partial);
      var x := if StartsWith(a[0], partial) then [a[0]] else [];
      var m1, m2 := MatchingNames(a[1..], partial), MatchingNames(b, partial);
      assert MatchingNames(a + b, partial) == x + (m1 + m2);
      assert x + (m1 + m2) == (x + m1) + m2;
    }
  }

  /** complete_filesystem_path with the corrected placement and bound (see CompletedFile). */
  method CompleteFilesystemPath(table: Tty.TtyTable, t: int, cwd: Option<Node>, partial: seq<char>)
    returns (completed: Option<seq<char>>)
    requires table.Valid() && 0 <= t < Tty.MAX_TTYS
    requires cwd.Some? ==> Consistent(cwd.value)
    requires |Listing(cwd)| < U32_LIMIT
    modifies table.ttys, table.buffers
    ensures completed == FileCompletion(old(table.Line(t)), cwd, partial)
    ensures table.Valid()
    ensures completed.None? ==> unchanged(table.ttys) && unchanged(table.buffers)
    ensures completed.Some? ==>
      && table.Line(t) == completed.value
      && table.ttys[..] == old(table.ttys[..])[t := old(table.ttys[t]).(bufferIndex := |completed.value|, cursorPosition := |completed.value|)]
      && forall u, k :: 0 <= u < Tty.MAX_TTYS && 0 <= k < Tty.BUFFER_SIZE && (u != t || k > |completed.value|) ==>
           table.buffers[u, k] == old(table.buffers[u, k])
  {
    var found, cmdEnd, completion := FileCompletionText(table, t, cwd, partial);
    if !found {
      return None;
    }
    table.ReplaceFrom(t, cmdEnd, completion);
    completed := Some(table.Line(t));
  }

  /** The part of complete_filesystem_path that reads: the single match, where it goes, and the fit check. */
  method FileCompletionText(table: Tty.TtyTable, t: int, cwd: Option<Node>, partial: seq<char>)
    returns (found: bool, cmdEnd: nat, completion: seq<char>)
    requires table.Valid() && 0 <= t < Tty.MAX_TTYS
    requires cwd.Some? ==> Consistent(cwd.value)
    requires |Listing(cwd)| < U32_LIMIT
    ensures found <==> FileCompletion(table.Line(t), cwd, partial).Some?
    ensures found ==> cmdEnd <= table.ttys[t].bufferIndex && cmdEnd + |completion| < SHELL_BUFFER_SIZE && '\0' !in completion
    ensures found ==> FileCompletion(table.Line(t), cwd, partial) == Some(table.Line(t)[..cmdEnd] + completion)
  {
    if cwd.None? {
      return false, 0, [];
    }
    var matchCount, firstMatch := CountFileMatches(cwd, partial);
    if matchCount != 1 {
      return false, 0, [];
    }
    var n := firstMatch.value;
    ghost var line := table.Line(t);
    cmdEnd := CommandEnd(table, t);
    var name := CStr(n.name);
    completion := name + Slash(n);
    assert |line[..cmdEnd] + completion| == cmdEnd + |completion|;
    // The bound the C does not check.
    if cmdEnd + |completion| >= SHELL_BUFFER_SIZE {
      return false, 0, [];
    }
    found := true;
  }

  /** complete_filesystem_path's counting loop: readdir until NULL or 32 matches. */
  method CountFileMatches(cwd: Option<Node>, partial: seq<char>) returns (matchCount: nat, firstMatch: Option<Node>)
    requires cwd.Some? ==> Consistent(cwd.value)
    requires |Listing(cwd)| < U32_LIMIT
    ensures matchCount == Min(|FileMatches(Listing(cwd), partial)|, MAX_MATCHES)
    ensures matchCount > 0 ==> firstMatch == Some(FileMatches(Listing(cwd), partial)[0])
  {
    ghost var files := Listing(cwd);
    matchCount := 0;
    firstMatch := None;
    var index: nat := 0;
    while true
      invariant index <= |files|
      invariant matchCount == |FileMatches(files[..index], partial)| <= MAX_MATCHES
      invariant firstMatch == if matchCount > 0 then Some(FileMatches(files[..index], partial)[0]) else None
      decreases |files| - index
    {
      ReaddirIsListing(cwd, index);
      var node := Vfs.Readdir(cwd, index);
      if node.None? || matchCount >= MAX_MATCHES {
        FileMatchesPrefix(files, index, partial);
        if node.None? {
          assert files[..index] == files;
        }
        return;
      }
      FileMatchesSnoc(files, index, partial);
      if StartsWith(CStr(node.value.name), partial) {
        matchCount := matchCount + 1;
        if firstMatch.None? {
          firstMatch := node;
        }
      }
      index := index + 1;
    }
  }

  /** One more entry read: the matches grow by that entry if it matches. */
  lemma FileMatchesSnoc(files: seq<Node>, i: nat, partial: seq<char>)
    requires i < |files|
    ensures FileMatches(files[..i + 1], partial)
         == FileMatches(files[..i], partial) + if StartsWith(CStr(files[i].name), partial) then [files[i]] else []
  {
    FileMatchesAppend(files[..i], [files[i]], partial);
    assert files[..i + 1] == files[..i] + [files[i]];
    assert [files[i]][1..] == [];
  }

  /** The matches in a prefix of the listing begin the matches of the whole listing. */
  lemma FileMatchesPrefix(files: seq<Node>, i: nat, partial: seq<char>)
    requires i <= |files|
    ensures |FileMatches(files[..i], partial)| <= |FileMatches(files, partial)|
    ensures FileMatches(files[..i], partial) != [] ==> FileMatches(files, partial)[0] == FileMatches(files[..i], partial)[0]
  {
    FileMatchesAppend(files[..i], files[i..], partial);
    assert files[..i] + files[i..] == files;
  }

  /** The cmd_end scan of complete_filesystem_path, corrected to pass leading spaces first. */
  method CommandEnd(table: Tty.TtyTable, t: int) returns (cmdEnd: nat)
    requires table.Valid() && 0 <= t < Tty.MAX_TTYS
    ensures cmdEnd == CmdEnd(table.Line(t))
  {
    var line := table.Line(t);
    var bufferIndex := table.ttys[t].bufferIndex;
    cmdEnd := 0;
    // Leading spaces are skipped first (the C starts at the command word's first character).
    while cmdEnd < bufferIndex && table.buffers[t, cmdEnd] == ' '
      invariant cmdEnd <= bufferIndex && SkipSpaces(line, cmdEnd) == SkipSpaces(line, 0)
    {
      cmdEnd := cmdEnd + 1;
    }
    ghost var p := cmdEnd;
    while cmdEnd < bufferIndex && table.buffers[t, cmdEnd] != ' '
      invariant p <= cmdEnd <= bufferIndex && SkipWord(line, cmdEnd) == SkipWord(line, p)
    {
      cmdEnd := cmdEnd + 1;
    }
    ghost var q := cmdEnd;
    while cmdEnd < bufferIndex && table.buffers[t, cmdEnd] == ' '
      invariant q <= cmdEnd <= bufferIndex && SkipSpaces(line, cmdEnd) == SkipSpaces(line, q)
    {
      cmdEnd := cmdEnd + 1;
    }
  }

  /** handle_tab_completion. */
  method HandleTabCompletion(table: Tty.TtyTable, t: int, cwd: Option<Node>) returns (completed: Option<seq<char>>)
    requires table.Valid()
    requires cwd.Some? ==> Consistent(cwd.value)
    requires |Listing(cwd)| < U32_LIMIT
    modifies table.ttys, table.buffers
    ensures !(0 <= t < Tty.MAX_TTYS) ==> completed == None
    ensures 0 <= t < Tty.MAX_TTYS ==> completed == TabResult(old(table.Line(t)), cwd)
    ensures table.Valid()
    ensures completed.None? ==> unchanged(table.ttys) && unchanged(table.buffers)
    ensures completed.Some? ==>
      && 0 <= t < Tty.MAX_TTYS
      && table.Line(t) == completed.value
      && table.ttys[..] == old(table.ttys[..])[t := old(table.ttys[t]).(bufferIndex := |completed.value|, cursorPosition := |completed.value|)]
      && forall u, k :: 0 <= u < Tty.MAX_TTYS && 0 <= k < Tty.BUFFER_SIZE && (u != t || k > |completed.value|) ==>
           table.buffers[u, k] == old(table.buffers[u, k])
  {
    if t < 0 || t >= Tty.MAX_TTYS {
      return None;
    }
    if table.ttys[t].bufferIndex == 0 {
      return None;
    }
    ghost var line := table.Line(t);
    var cmd: seq<char> := [];
    var arg: seq<char> := [];
    var parsingArg := false;
    for i := 0 to table.ttys[t].bufferIndex
      invariant unchanged(table.ttys) && unchanged(table.buffers)
      invariant TabParse(cmd, arg, parsingArg) == TabFold(line[..i])
    {
      var c := table.buffers[t, i];
      assert line[..i + 1] == line[..i] + [c];
      if c == ' ' {
        if |cmd| > 0 {
          parsingArg := true;
        }
      } else if !parsingArg {
        if |cmd| < 255 {
          cmd := cmd + [c];
        }
      } else {
        if |arg| < 255 {
          arg := arg + [c];
        }
      }
    }
    assert line[..|line|] == line;
    var completeFiles := |cmd| > 0 && parsingArg && cmd in FILE_COMMANDS;
    if completeFiles {
      completed := CompleteFilesystemPath(table, t, cwd, arg);
    } else {
      completed := CompleteCommand(table, t, table.Line(t));
    }
  }

  // ---------------------------------------------------------------------
  // The history tables
  // ---------------------------------------------------------------------

  class History {
    /** command_history: ten entries per TTY, newest first. */
    const entries: array2<seq<char>>
    const count: array<int>
    /** The entry being shown, or -1 while the typed line is shown. */
    const index: array<int>
    /** temp_buffer: the typed line saved on the first UP. */
    const temp: array<seq<char>>

    ghost predicate Shaped()
      reads this
    {
      && entries.Length0 == Tty.MAX_TTYS && entries.Length1 == HISTORY_SIZE
      && count.Length == Tty.MAX_TTYS && index.Length == Tty.MAX_TTYS && temp.Length == Tty.MAX_TTYS
      && count != index
    }

    ghost predicate Valid()
      reads this, entries, count, index, temp
    {
      && Shaped()
      && (forall t :: 0 <= t < Tty.MAX_TTYS ==> 0 <= count[t] <= HISTORY_SIZE && -1 <= index[t] < count[t])
      && (forall t, j :: 0 <= t < Tty.MAX_TTYS && 0 <= j < HISTORY_SIZE ==> Storable(entries[t, j]))
      && (forall t :: 0 <= t < Tty.MAX_TTYS ==> Storable(temp[t]))
    }

    /** The live history of TTY t, newest first. */
    function Entries(t: int): (h: seq<seq<char>>)
      requires Valid() && 0 <= t < Tty.MAX_TTYS
      reads this, entries, count, index, temp
      ensures |h| == count[t] && forall j :: 0 <= j < |h| ==> h[j] == entries[t, j]
    {
      var n := count[t];
      seq(n, j requires 0 <= j < n reads entries => entries[t, j])
    }

    /** All ten slots of TTY t, live or not. */
    function Row(t: int): (row: seq<seq<char>>)
      requires Shaped() && 0 <= t < Tty.MAX_TTYS
      reads this, entries
      ensures |row| == HISTORY_SIZE && forall j :: 0 <= j < HISTORY_SIZE ==> row[j] == entries[t, j]
    {
      seq(HISTORY_SIZE, j requires 0 <= j < HISTORY_SIZE reads entries => entries[t, j])
    }

    /** The arrays as static storage holds them, then init_shell_history. */
    constructor()
      ensures Valid() && fresh(entries) && fresh(count) && fresh(index) && fresh(temp)
      ensures forall t :: 0 <= t < Tty.MAX_TTYS ==> Entries(t) == [] && index[t] == -1 && temp[t] == []
    {
      entries := new seq<char>[Tty.MAX_TTYS, HISTORY_SIZE]((_, _) => []);
      count := new int[Tty.MAX_TTYS](_ => 0);
      index := new int[Tty.MAX_TTYS](t => if t == 0 then -1 else 0);
      temp := new seq<char>[Tty.MAX_TTYS](_ => []);
      new;
      Init();
    }

    /** init_shell_history: every history empty, every TTY showing its typed line. */
    method Init()
      requires Shaped()
      modifies entries, count, index, temp
      ensures Valid()
      ensures forall t :: 0 <= t < Tty.MAX_TTYS ==> count[t] == 0 && index[t] == -1 && temp[t] == []
      ensures forall t, j :: 0 <= t < Tty.MAX_TTYS && 0 <= j < HISTORY_SIZE ==> entries[t, j] == []
    {
      for i := 0 to Tty.MAX_TTYS
        invariant forall t :: 0 <= t < i ==> count[t] == 0 && index[t] == -1 && temp[t] == []
        invariant forall t, j :: 0 <= t < i && 0 <= j < HISTORY_SIZE ==> entries[t, j] == []
      {
        count[i] := 0;
        index[i] := -1;
        for j := 0 to HISTORY_SIZE
          invariant forall t :: 0 <= t < i ==> count[t] == 0 && index[t] == -1 && temp[t] == []
          invariant count[i] == 0 && index[i] == -1
          invariant forall u, k :: 0 <= u < Tty.MAX_TTYS && 0 <= k < HISTORY_SIZE && (u < i || (u == i && k < j)) ==> entries[u, k] == []
        {
          entries[i, j] := [];
        }
        temp[i] := [];
      }
    }

    /** add_to_history. */
    method Add(t: int, cmd: seq<char>)
      requires Valid() && Storable(cmd)
      modifies entries, count
      ensures Valid()
      ensures !(0 <= t < Tty.MAX_TTYS) ==> unchanged(entries) && unchanged(count)
      ensures 0 <= t < Tty.MAX_TTYS ==> Entries(t) == AddSpec(old(Entries(t)), cmd)
      ensures forall u :: 0 <= u < Tty.MAX_TTYS && u != t ==> count[u] == old(count[u])
      ensures forall u, j :: 0 <= u < Tty.MAX_TTYS && u != t && 0 <= j < HISTORY_SIZE ==> entries[u, j] == old(entries[u, j])
    {
      if t < 0 || t >= Tty.MAX_TTYS || cmd == [] || (count[t] > 0 && entries[t, 0] == cmd) {
        return;
      }
      ghost var h := Entries(t);
      ghost var oldRow := Row(t);
      ShiftDown(t);
      entries[t, 0] := cmd;
      if count[t] < HISTORY_SIZE {
        count[t] := count[t] + 1;
      }
      assert Valid();
      ShiftedRowIsAdd(h, oldRow, Row(t), cmd);
      assert Entries(t) == Row(t)[..count[t]];
    }

    /** add_to_history's shift: every slot of TTY t takes the one before it; slot 0 keeps its value. */
    method ShiftDown(t: int)
      requires Shaped() && 0 <= t < Tty.MAX_TTYS
      modifies entries
      ensures forall u, j :: 0 <= u < Tty.MAX_TTYS && 0 <= j < HISTORY_SIZE ==>
        entries[u, j] == if u == t && j > 0 then old(entries[u, j - 1]) else old(entries[u, j])
    {
      var i := HISTORY_SIZE - 1;
      while i > 0
        invariant 0 <= i < HISTORY_SIZE
        invariant forall u, j :: 0 <= u < Tty.MAX_TTYS && 0 <= j < HISTORY_SIZE ==>
          entries[u, j] == if u == t && j > i then old(entries[u, j - 1]) else old(entries[u, j])
      {
        entries[t, i] := entries[t, i - 1];
        i := i - 1;
      }
    }

    /** handle_history_navigation for the UP and DOWN keys. */
    method Navigate(table: Tty.TtyTable, t: int, scancode: byte) returns (nav: Nav)
      requires Valid() && table.Valid() && 0 <= t < Tty.MAX_TTYS
      modifies table.ttys, table.buffers, index, temp
      ensures nav == Navigation(old(Entries(t)), old(index[t]), old(temp[t]), old(table.Line(t)), scancode)
      ensures Valid() && table.Valid()
      ensures nav.Unmoved? ==> unchanged(table.ttys) && unchanged(table.buffers) && unchanged(index) && unchanged(temp)
      ensures nav.Moved? ==>
        && index[..] == old(index[..])[t := nav.index]
        && temp[..] == old(temp[..])[t := nav.temp]
        && table.Line(t) == nav.line
        && table.ttys[..] == old(table.ttys[..])[t := old(table.ttys[t]).(bufferIndex := |nav.line|, cursorPosition := |nav.line|)]
        && forall u, k :: 0 <= u < Tty.MAX_TTYS && 0 <= k < Tty.BUFFER_SIZE && (u != t || k > |nav.line|) ==>
             table.buffers[u, k] == old(table.buffers[u, k])
    {
      nav := Move(t, table.Line(t), scancode);
      if nav.Moved? {
        // The C copies the line shown into the buffer (strcpy), echoes
        // backspaces while counting buffer_index down, and sets buffer_index
        // and the cursor to the strlen of the buffer.
        table.ReplaceFrom(t, 0, nav.line);
      }
    }

    /** history_index[t] = -1, as the shell does on Ctrl-C, Enter and a typed character: the typed line is shown again. */
    method ResetPosition(t: int)
      requires Valid() && 0 <= t < Tty.MAX_TTYS
      modifies index
      ensures Valid() && Entries(t) == old(Entries(t))
      ensures index[..] == old(index[..])[t := -1]
    {
      index[t] := -1;
    }

    /** The history-side half of handle_history_navigation: the new position and saved line, and the line to show. */
    method Move(t: int, line: seq<char>, scancode: byte) returns (nav: Nav)
      requires Valid() && 0 <= t < Tty.MAX_TTYS && Storable(line)
      modifies index, temp
      ensures nav == Navigation(old(Entries(t)), old(index[t]), old(temp[t]), line, scancode)
      ensures Valid() && Entries(t) == old(Entries(t))
      ensures nav.Unmoved? ==> unchanged(index) && unchanged(temp)
      ensures nav.Moved? ==>
        && Storable(nav.line)
        && index[..] == old(index[..])[t := nav.index]
        && temp[..] == old(temp[..])[t := nav.temp]
    {
      if scancode == Keyboard.KEY_UP {
        if count[t] == 0 {
          return Unmoved;
        }
        if index[t] == -1 {
          temp[t] := line;
          index[t] := 0;
        } else if index[t] < count[t] - 1 {
          index[t] := index[t] + 1;
        } else {
          return Unmoved;
        }
        nav := Moved(index[t], temp[t], entries[t, index[t]]);
      } else if scancode == Keyboard.KEY_DOWN {
        if index[t] == -1 {
          return Unmoved;
        }
        if index[t] == 0 {
          index[t] := -1;
          nav := Moved(-1, temp[t], temp[t]);
        } else {
          index[t] := index[t] - 1;
          nav := Moved(index[t], temp[t], entries[t, index[t]]);
        }
      } else {
        nav := Moved(index[t], temp[t], line);
      }
    }
  }
}
