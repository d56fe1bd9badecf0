/*
 * Character scanning shared by the shell's Enter parser (ui/shell/shell.c)
 * and the history and completion code (ui/shell/shell_history.c). A line is
 * the command buffer up to its NUL terminator, so it holds no NUL itself.
 */
module ShellText {

  const SHELL_BUFFER_SIZE: nat := 256

  /** A string that strcpy can place in a 256-byte shell buffer. */
  predicate Storable(s: seq<char>)
  {
    |s| < SHELL_BUFFER_SIZE && '\0' !in s
  }

  /** The index of the first non-space at or after i (|s| if none). */
  function SkipSpaces(s: seq<char>, i: nat): (j: nat)
    requires i <= |s|
    ensures i <= j <= |s|
    ensures forall k :: i <= k < j ==> s[k] == ' '
    ensures j < |s| ==> s[j] != ' '
    decreases |s| - i
  {
    if i < |s| && s[i] == ' ' then SkipSpaces(s, i + 1) else i
  }

  /** The index of the first space at or after i (|s| if none). */
  function SkipWord(s: seq<char>, i: nat): (j: nat)
    requires i <= |s|
    ensures i <= j <= |s|
    ensures forall k :: i <= k < j ==> s[k] != ' '
    ensures j < |s| ==> s[j] == ' '
    decreases |s| - i
  {
    if i < |s| && s[i] != ' ' then SkipWord(s, i + 1) else i
  }

  /** The characters of s other than spaces, in order. */
  function NonSpaces(s: seq<char>): (r: seq<char>)
    ensures |r| <= |s| && ' ' !in r
    ensures forall c :: c in r ==> c in s
  {
    if s == [] then []
    else NonSpaces(s[..|s| - 1]) + (if s[|s| - 1] == ' ' then [] else [s[|s| - 1]])
  }

  /** starts_with: strncmp over the prefix's length, i.e. `prefix` is a prefix of `str`. */
  predicate StartsWith(str: seq<char>, prefix: seq<char>)
  {
    |prefix| <= |str| && str[..|prefix|] == prefix
  }

  /** SkipSpaces does not look past the first non-space, so appending leaves a found one in place. */
  lemma {:induction false} SkipSpacesAppend(s: seq<char>, i: nat, c: char)
    requires i <= |s|
    ensures SkipSpaces(s, i) < |s| ==> SkipSpaces(s + [c], i) == SkipSpaces(s, i)
    ensures SkipSpaces(s, i) == |s| ==> SkipSpaces(s + [c], i) == if c == ' ' then |s| + 1 else |s|
    decreases |s| - i
  {
    if i < |s| && s[i] == ' ' {
      assert (s + [c])[i] == ' ';
      SkipSpacesAppend(s, i + 1, c);
    } else if i < |s| {
      assert (s + [c])[i] == s[i];
    }
  }

  /** The same for SkipWord and the first space. */
  lemma {:induction false} SkipWordAppend(s: seq<char>, i: nat, c: char)
    requires i <= |s|
    ensures SkipWord(s, i) < |s| ==> SkipWord(s + [c], i) == SkipWord(s, i)
    ensures SkipWord(s, i) == |s| ==> SkipWord(s + [c], i) == if c != ' ' then |s| + 1 else |s|
    decreases |s| - i
  {
    if i < |s| && s[i] != ' ' {
      assert (s + [c])[i] == s[i];
      SkipWordAppend(s, i + 1, c);
    } else if i < |s| {
      assert (s + [c])[i] == s[i];
    }
  }

  /** The first space-free word after the leading spaces. */
  function FirstWord(s: seq<char>): seq<char>
  {
    s[SkipSpaces(s, 0)..SkipWord(s, SkipSpaces(s, 0))]
  }

  /** The length of a C string held in s: the characters before the first NUL. */
  function StrLen(s: seq<char>): (n: nat)
    ensures n <= |s| && '\0' !in s[..n]
    ensures n < |s| ==> s[n] == '\0'
  {
    if s == [] then 0
    else if s[0] == '\0' then 0
    else 1 + StrLen(s[1..])
  }

  /** The C string held in s. */
  function CStr(s: seq<char>): (r: seq<char>)
    ensures '\0' !in r && StartsWith(s, r)
  {
    s[..StrLen(s)]
  }

  /** A string without NUL is its own C string. */
  lemma CStrOfPlain(s: seq<char>)
    requires '\0' !in s
    ensures CStr(s) == s
  {
    if StrLen(s) < |s| {
      assert false;
    }
  }

  /** Scanning only looks at the characters it passes: two strings that agree up to m scan alike below m. */
  lemma {:induction false} SkipSpacesAgree(s: seq<char>, r: seq<char>, i: nat, m: nat)
    requires i <= m <= |s| && m <= |r| && s[..m] == r[..m]
    requires SkipSpaces(s, i) < m
    ensures SkipSpaces(r, i) == SkipSpaces(s, i)
    decreases |s| - i
  {
    assert s[i] == s[..m][i] == r[..m][i] == r[i];
    if s[i] == ' ' {
      SkipSpacesAgree(s, r, i + 1, m);
    }
  }

  lemma {:induction false} SkipWordAgree(s: seq<char>, r: seq<char>, i: nat, m: nat)
    requires i <= m <= |s| && m <= |r| && s[..m] == r[..m]
    requires SkipWord(s, i) < m
    ensures SkipWord(r, i) == SkipWord(s, i)
    decreases |s| - i
  {
    assert s[i] == s[..m][i] == r[..m][i] == r[i];
    if s[i] != ' ' {
      SkipWordAgree(s, r, i + 1, m);
    }
  }

  /** Two strings that agree past the end of the first word have the same first word. */
  lemma FirstWordAgree(s: seq<char>, r: seq<char>, m: nat)
    requires m <= |s| && m <= |r| && s[..m] == r[..m]
    requires SkipWord(s, SkipSpaces(s, 0)) < m
    ensures FirstWord(r) == FirstWord(s)
  {
    var p := SkipSpaces(s, 0);
    var q := SkipWord(s, p);
    SkipSpacesAgree(s, r, 0, m);
    SkipWordAgree(s, r, p, m);
    assert forall k :: 0 <= k < m ==> s[k] == s[..m][k] == r[..m][k] == r[k];
    assert s[p..q] == r[p..q];
  }

  /** NonSpaces distributes over concatenation. */
  lemma {:induction false} NonSpacesAppend(a: seq<char>, b: seq<char>)
    ensures NonSpaces(a + b) == NonSpaces(a) + NonSpaces(b)
    decreases |b|
  {
    if b != [] {
      var b' := b[..|b| - 1];
      assert (a + b)[..|a + b| - 1] == a + b';
      NonSpacesAppend(a, b');
    } else {
      assert a + b == a;
    }
  }

  /** A run of spaces has no non-space characters. */
  lemma {:induction false} NonSpacesOfSpaces(s: seq<char>)
    requires forall k :: 0 <= k < |s| ==> s[k] == ' '
    ensures NonSpaces(s) == []
    decreases |s|
  {
    if s != [] {
      NonSpacesOfSpaces(s[..|s| - 1]);
    }
  }
}
