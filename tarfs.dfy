/*
 * The initrd file system (fs/tarfs.c): a walk over the 512-byte records of
 * a ustar archive (the ustar Interchange Format of the pax utility,
 * POSIX.1-2017) that builds one node per regular file or directory, plus
 * the root node's readdir/finddir and the files' read.
 *
 * The archive is a byte sequence; a header field that runs past its end
 * reads as zero bytes.
 */
module Tarfs {
  import opened Common
  import opened FsNode

  const BLOCK: nat := 512
  const SIZE_OFF: nat := 124
  const SIZE_DIGITS: nat := 11
  const TYPE_OFF: nat := 156
  const MAGIC_OFF: nat := 257

  /** "ustar" */
  const USTAR: seq<byte> := [0x75, 0x73, 0x74, 0x61, 0x72]

  /** `n` bytes of the archive starting at `off`. */
  function Field(tar: seq<byte>, off: nat, n: nat): (r: seq<byte>)
    ensures |r| == n && forall k :: 0 <= k < n ==> r[k] == ByteAt(tar, off + k)
  {
    seq<byte>(n, k => ByteAt(tar, off + k))
  }

  // ---------------------------------------------------------------------
  // parse_octal
  // ---------------------------------------------------------------------

  predicate IsOctal(b: byte)
  {
    '0' as int <= b <= '7' as int
  }

  function Digit(b: byte): (d: nat)
    ensures d < 8
  {
    if IsOctal(b) then b - '0' as int else 0
  }

  /** How many leading characters of `s` are octal digits. */
  function OctalLen(s: seq<byte>): (r: nat)
    ensures r <= |s|
    ensures forall k :: 0 <= k < r ==> IsOctal(s[k])
    ensures r < |s| ==> !IsOctal(s[r])
  {
    if |s| == 0 || !IsOctal(s[0]) then 0 else 1 + OctalLen(s[1..])
  }

  /** The base-8 value of a digit string, most significant digit first. */
  function OctalValue(ds: seq<byte>): (v: nat)
    ensures v < Pow8(|ds|)
  {
    if |ds| == 0 then 0 else OctalValue(ds[..|ds| - 1]) * 8 + Digit(ds[|ds| - 1])
  }

  lemma {:induction false} OctalLenIs(s: seq<byte>, i: nat)
    requires i <= |s| && (forall k :: 0 <= k < i ==> IsOctal(s[k])) && (i < |s| ==> !IsOctal(s[i]))
    ensures OctalLen(s) == i
    decreases i
  {
    if i > 0 {
      OctalLenIs(s[1..], i - 1);
    }
  }

  lemma WrapTimesEight(a: int, d: int)
    ensures U32(U32(a) * 8 + d) == U32(a * 8 + d)
  {
    var q := a / 0x1_0000_0000;
    assert a == 0x1_0000_0000 * q + U32(a);
    assert a * 8 + d == U32(a) * 8 + d + 0x1_0000_0000 * (8 * q);
    U32Shift(U32(a) * 8 + d, 8 * q);
  }

  /**
   * parse_octal(str, |str|): reads while the characters are octal digits and
   * returns the value of that prefix, wrapped to uint32.
   */
  method ParseOctal(str: seq<byte>) returns (r: u32)
    ensures r == U32(OctalValue(str[..OctalLen(str)]))
  {
    r := 0;
    var i := 0;
    while i < |str| && IsOctal(str[i])
      invariant i <= |str| && forall k :: 0 <= k < i ==> IsOctal(str[k])
      invariant r == U32(OctalValue(str[..i]))
    {
      assert str[..i + 1][..i] == str[..i];
      WrapTimesEight(OctalValue(str[..i]), str[i] - '0' as int);
      r := U32(r * 8 + (str[i] - '0' as int));
      i := i + 1;
    }
    OctalLenIs(str, i);
  }

  function Pow8(n: nat): (r: nat)
    ensures r >= 1
  {
    if n == 0 then 1 else 8 * Pow8(n - 1)
  }

  /** The `w`-digit octal numeral of v, with leading zeros, as tar writers fill the size field. */
  function EncodeOctal(v: nat, w: nat): (r: seq<byte>)
    ensures |r| == w
  {
    if w == 0 then [] else EncodeOctal(v / 8, w - 1) + ['0' as int + v % 8]
  }

  /** parse_octal recovers every value a w-digit numeral can hold. */
  lemma {:induction false} ParseEncoded(v: nat, w: nat)
    requires v < Pow8(w)
    ensures OctalLen(EncodeOctal(v, w)) == w
    ensures OctalValue(EncodeOctal(v, w)) == v
    decreases w
  {
    if w > 0 {
      var e := EncodeOctal(v, w);
      ParseEncoded(v / 8, w - 1);
      assert e[..w - 1] == EncodeOctal(v / 8, w - 1);
      forall k | 0 <= k < w
        ensures IsOctal(e[k])
      {
        if k < w - 1 {
          assert e[k] == e[..w - 1][k];
        }
      }
      OctalLenIs(e, w);
    }
  }

  // ---------------------------------------------------------------------
  // The header walk
  // ---------------------------------------------------------------------

  /** The size field of the header at h as parse_octal(header->size, 11) reads it. */
  function FileSize(tar: seq<byte>, h: nat): (size: u32)
    ensures var f := Field(tar, h + SIZE_OFF, SIZE_DIGITS);
      && (OctalLen(f) == 0 ==> size == 0)
      && (OctalValue(f[..OctalLen(f)]) < U32_LIMIT ==> size == OctalValue(f[..OctalLen(f)]))
  {
    var f := Field(tar, h + SIZE_OFF, SIZE_DIGITS);
    U32(OctalValue(f[..OctalLen(f)]))
  }

  /**
   * The distance from one header to the next, `512 + ((size + 511) / 512) * 512`
   * with every operation in uint32 (StepMatchesUint32 replays them one by one).
   * For the last 511 sizes `size + 511` wraps and one record remains; for
   * sizes from 2^32 - 1023 to 2^32 - 512 the final addition reaches 2^32 and
   * wraps to 0.
   */
  function Step(size: u32): u32
  {
    if size + 511 >= U32_LIMIT then BLOCK
    else if size + 511 >= U32_LIMIT - BLOCK then 0
    else (size + 511) / BLOCK * BLOCK + BLOCK
  }

  /** Step is the uint32 expression of tarfs_init. */
  lemma StepMatchesUint32(size: u32)
    ensures U32(BLOCK + U32((U32(size + 511) / BLOCK) * BLOCK)) == Step(size)
  {
    var s := size + 511;
    if s >= U32_LIMIT {
      DivModUnique(s, U32_LIMIT, 1, s - U32_LIMIT);
      assert U32(s) == s - U32_LIMIT < BLOCK;
    } else {
      var b := s / BLOCK;
      assert b * BLOCK <= s;
      if s >= U32_LIMIT - BLOCK {
        DivModUnique(s, BLOCK, 0x7F_FFFF, s - (U32_LIMIT - BLOCK));
        assert BLOCK + b * BLOCK == U32_LIMIT;
      } else {
        assert b < 0x7F_FFFF;
        assert BLOCK + b * BLOCK < U32_LIMIT;
      }
    }
  }

  /** strncmp(header->magic, "ustar", 5) == 0 */
  predicate HasMagic(tar: seq<byte>, h: nat)
  {
    && ByteAt(tar, h + MAGIC_OFF) == USTAR[0]
    && ByteAt(tar, h + MAGIC_OFF + 1) == USTAR[1]
    && ByteAt(tar, h + MAGIC_OFF + 2) == USTAR[2]
    && ByteAt(tar, h + MAGIC_OFF + 3) == USTAR[3]
    && ByteAt(tar, h + MAGIC_OFF + 4) == USTAR[4]
  }

  /** Type '0', NUL or '5': a regular file or a directory gets a node. */
  predicate Qualifies(tar: seq<byte>, h: nat)
  {
    var t := ByteAt(tar, h + TYPE_OFF);
    t == '0' as int || t == 0 || t == '5' as int
  }

  /** The walk's outcome: the header offsets visited, or the offset at which the pointer stops moving. */
  datatype Walk = Done(headers: seq<nat>) | Loops(at: nat)

  /**
   * The header walk of tarfs_init from `ptr`: stop at the archive end, at a
   * header whose name starts with NUL or at one without the "ustar" magic;
   * otherwise step by Step(size). A step of 0 leaves the pointer in place
   * for ever, which the walk reports as Loops.
   */
  function WalkFrom(tar: seq<byte>, ptr: nat): Walk
    decreases |tar| - ptr
  {
    if ptr >= |tar| || ByteAt(tar, ptr) == 0 || !HasMagic(tar, ptr) then Done([])
    else
      var step := Step(FileSize(tar, ptr));
      if step == 0 then Loops(ptr)
      else match WalkFrom(tar, ptr + step)
        case Done(hs) => Done([ptr] + hs)
        case Loops(a) => Loops(a)
  }

  /** Offsets inside [ptr, len), the first at ptr, each at least one record after the previous one. */
  predicate Ordered(hs: seq<nat>, ptr: nat, len: nat)
  {
    && (forall k :: 0 <= k < |hs| ==> ptr <= hs[k] < len)
    && (|hs| > 0 ==> hs[0] == ptr)
    && (forall k :: 0 <= k < |hs| - 1 ==> hs[k] + BLOCK <= hs[k + 1])
  }

  /** Headers visited lie inside the archive, the first at ptr, each at least one record after the previous one. */
  lemma {:induction false} WalkOrdered(tar: seq<byte>, ptr: nat)
    ensures WalkFrom(tar, ptr).Done? ==> Ordered(WalkFrom(tar, ptr).headers, ptr, |tar|)
    decreases |tar| - ptr
  {
    var step := WalkCons(tar, ptr);
    if step > 0 {
      WalkOrdered(tar, ptr + step);
      if WalkFrom(tar, ptr + step).Done? {
        OrderedCons(ptr, step, WalkFrom(tar, ptr + step).headers, |tar|);
      }
    }
  }

  /** One step of the walk: it ends there (step 0), or moves on by at least one record and puts ptr in front. */
  lemma WalkCons(tar: seq<byte>, ptr: nat) returns (step: nat)
    ensures step == 0 ==> WalkFrom(tar, ptr) == Done([]) || WalkFrom(tar, ptr).Loops?
    ensures step > 0 ==> ptr < |tar| && step >= BLOCK && step == Step(FileSize(tar, ptr))
    ensures step > 0 ==> WalkFrom(tar, ptr) == match WalkFrom(tar, ptr + step)
                                              case Done(hs) => Done([ptr] + hs)
                                              case Loops(a) => Loops(a)
  {
    step := 0;
    if ptr < |tar| && ByteAt(tar, ptr) != 0 && HasMagic(tar, ptr) {
      var s := Step(FileSize(tar, ptr));
      if s != 0 {
        StepIsBlocks(FileSize(tar, ptr));
        step := s;
      }
    }
  }

  /** A header in front of an ordered walk that starts one step of at least a record later keeps it ordered. */
  lemma OrderedCons(ptr: nat, step: nat, tail: seq<nat>, len: nat)
    requires ptr < len && step >= BLOCK && Ordered(tail, ptr + step, len)
    ensures Ordered([ptr] + tail, ptr, len)
  {
    var hs := [ptr] + tail;
    forall k | 0 < k < |hs|
      ensures ptr <= hs[k] < len
    {
      assert hs[k] == tail[k - 1];
    }
    forall k | 0 <= k < |hs| - 1
      ensures hs[k] + BLOCK <= hs[k + 1]
    {
      if k > 0 {
        assert hs[k] == tail[k - 1] && hs[k + 1] == tail[k];
      }
    }
  }

  /** A non-zero step is a whole number of 512-byte records, at least one. */
  lemma StepIsBlocks(size: u32)
    ensures Step(size) % BLOCK == 0
    ensures Step(size) != 0 ==> Step(size) >= BLOCK
  {
    if size + 511 < U32_LIMIT - BLOCK {
      var b := (size + 511) / BLOCK;
      DivModUnique(b * BLOCK + BLOCK, BLOCK, b + 1, 0);
    }
  }

  // ---------------------------------------------------------------------
  // Nodes
  // ---------------------------------------------------------------------

  /** The C string at `off`, at most `max` characters (strncpy into a 256-byte name). */
  function CName(tar: seq<byte>, off: nat, max: nat): (r: seq<char>)
    ensures |r| <= max
    decreases max
  {
    if max == 0 || ByteAt(tar, off) == 0 then [] else [ByteAt(tar, off) as char] + CName(tar, off + 1, max - 1)
  }

  /** The node tarfs_init builds for the header at h, the idx-th qualifying one. */
  function MakeNode(tar: seq<byte>, h: nat, idx: nat): Node
  {
    Node(CName(tar, h, NAME_MAX),
         if ByteAt(tar, h + TYPE_OFF) == '5' as int then VFS_DIRECTORY else VFS_FILE,
         FileSize(tar, h), U32(idx),
         TarRead, NoWrite, NoReaddir, NoFinddir,
         FileData(tar, h + BLOCK))
  }

  /** The qualifying headers among hs, in order. */
  function Qualifying(tar: seq<byte>, hs: seq<nat>): seq<nat>
  {
    if |hs| == 0 then []
    else (if Qualifies(tar, hs[0]) then [hs[0]] else []) + Qualifying(tar, hs[1..])
  }

  /** The nodes for the headers hs, numbered from idx. */
  function NodesFrom(tar: seq<byte>, hs: seq<nat>, idx: nat): seq<Node>
  {
    if |hs| == 0 then []
    else if Qualifies(tar, hs[0]) then [MakeNode(tar, hs[0], idx)] + NodesFrom(tar, hs[1..], idx + 1)
    else NodesFrom(tar, hs[1..], idx)
  }

  /** One node per qualifying header. */
  lemma {:induction false} NodesCount(tar: seq<byte>, hs: seq<nat>, idx: nat)
    ensures |NodesFrom(tar, hs, idx)| == |Qualifying(tar, hs)|
    decreases |hs|
  {
    if |hs| > 0 {
      NodesCount(tar, hs[1..], if Qualifies(tar, hs[0]) then idx + 1 else idx);
    }
  }

  /** The i-th node is made from the i-th qualifying header and numbered k == idx + i. */
  lemma {:induction false} NodeAt(tar: seq<byte>, hs: seq<nat>, idx: nat, i: nat, k: nat)
    requires i < |Qualifying(tar, hs)| && k == idx + i
    ensures i < |NodesFrom(tar, hs, idx)|
    ensures NodesFrom(tar, hs, idx)[i] == MakeNode(tar, Qualifying(tar, hs)[i], k)
    decreases |hs|
  {
    NodesCount(tar, hs, idx);
    var q, rest := Qualifying(tar, hs), Qualifying(tar, hs[1..]);
    var ns := NodesFrom(tar, hs, idx);
    if Qualifies(tar, hs[0]) {
      var tail := NodesFrom(tar, hs[1..], idx + 1);
      assert q == [hs[0]] + rest;
      assert ns == [MakeNode(tar, hs[0], idx)] + tail;
      if i > 0 {
        NodeAt(tar, hs[1..], idx + 1, i - 1, k);
        assert ns[i] == tail[i - 1];
        assert q[i] == rest[i - 1];
      } else {
        assert q[0] == hs[0];
      }
    } else {
      assert q == rest;
      assert ns == NodesFrom(tar, hs[1..], idx);
      NodeAt(tar, hs[1..], idx, i, k);
    }
  }

  /** Qualifying distributes over concatenation. */
  lemma {:induction false} QualifyingAppend(tar: seq<byte>, a: seq<nat>, b: seq<nat>)
    ensures Qualifying(tar, a + b) == Qualifying(tar, a) + Qualifying(tar, b)
    decreases |a|
  {
    if |a| == 0 {
      assert a + b == b;
    } else {
      assert (a + b)[1..] == a[1..] + b;
      QualifyingAppend(tar, a[1..], b);
    }
  }

  /** The nodes of a + b: those of a, then those of b numbered on from where a stopped (k). */
  lemma {:induction false} NodesAppend(tar: seq<byte>, a: seq<nat>, b: seq<nat>, idx: nat, k: nat)
    requires k == idx + |NodesFrom(tar, a, idx)|
    ensures NodesFrom(tar, a + b, idx) == NodesFrom(tar, a, idx) + NodesFrom(tar, b, k)
    decreases |a|
  {
    if |a| == 0 {
      assert a + b == b;
    } else {
      assert (a + b)[1..] == a[1..] + b;
      if Qualifies(tar, a[0]) {
        NodesAppend(tar, a[1..], b, idx + 1, k);
      } else {
        NodesAppend(tar, a[1..], b, idx, k);
      }
    }
  }

  /** Every node tarfs_init builds is consistent. */
  lemma {:induction false} NodesConsistent(tar: seq<byte>, hs: seq<nat>, idx: nat)
    ensures forall k :: 0 <= k < |NodesFrom(tar, hs, idx)| ==> Consistent(NodesFrom(tar, hs, idx)[k])
    decreases |hs|
  {
    if |hs| > 0 {
      NodesConsistent(tar, hs[1..], idx + 1);
      NodesConsistent(tar, hs[1..], idx);
    }
  }

  /** The root tarfs_init returns: "/", a directory with readdir and finddir over the file table, no read. */
  function RootNode(files: seq<Node>): Node
  {
    Node("/", VFS_DIRECTORY, 0, 0, NoRead, NoWrite, TarReaddir, TarFinddir, DirData(files))
  }

  /** tarfs_init's result: NULL, a pointer that never leaves one header, or the root. */
  datatype InitResult = NullRoot | Spins(at: nat) | Mounted(root: Node)

  function InitSpec(tar: seq<byte>): (r: InitResult)
    ensures r.Mounted? ==> Consistent(r.root) && r.root.kind == VFS_DIRECTORY && r.root.finddir.TarFinddir?
  {
    if |tar| == 0 then NullRoot
    else match WalkFrom(tar, 0)
      case Loops(a) => Spins(a)
      case Done(hs) =>
        var files := NodesFrom(tar, hs, 0);
        NodesConsistent(tar, hs, 0);
        if |files| == 0 then NullRoot else Mounted(RootNode(files))
  }

  function Prefixed(seen: seq<nat>, w: Walk): Walk
  {
    match w
    case Done(hs) => Done(seen + hs)
    case Loops(a) => Loops(a)
  }

  /** Prefixing twice is prefixing by the concatenation. */
  lemma PrefixedTwice(a: seq<nat>, b: seq<nat>, w: Walk)
    ensures Prefixed(a, Prefixed(b, w)) == Prefixed(a + b, w)
  {
    if w.Done? {
      assert a + (b + w.headers) == (a + b) + w.headers;
    }
  }

  /** One step of the walk from a header that neither ends the archive nor stops the pointer. */
  lemma WalkStep(tar: seq<byte>, ptr: nat, step: u32)
    requires ptr < |tar| && tar[ptr] != 0 && HasMagic(tar, ptr)
    requires step == Step(FileSize(tar, ptr)) && step != 0
    ensures WalkFrom(tar, ptr) == Prefixed([ptr], WalkFrom(tar, ptr + step))
  {
  }

  /** The strncmp of the magic field against "ustar". */
  method CheckMagic(tar: seq<byte>, h: nat) returns (ok: bool)
    ensures ok == HasMagic(tar, h)
  {
    var k := 0;
    while k < |USTAR| && ByteAt(tar, h + MAGIC_OFF + k) == USTAR[k]
      invariant k <= |USTAR| && forall m :: 0 <= m < k ==> ByteAt(tar, h + MAGIC_OFF + m) == USTAR[m]
    {
      k := k + 1;
    }
    ok := k == |USTAR|;
  }

  /** A walk that visits a header continues, one step on, with the remaining headers. */
  lemma WalkNext(tar: seq<byte>, ptr: nat, hs: seq<nat>)
    requires WalkFrom(tar, ptr) == Done(hs) && |hs| > 0
    ensures hs[0] == ptr && Step(FileSize(tar, ptr)) != 0
    ensures WalkFrom(tar, ptr + Step(FileSize(tar, ptr))) == Done(hs[1..])
  {
  }

  /** One turn of the building loop: the header at ptr is hs[j], and its node (if any) comes next. */
  lemma BuildStep(tar: seq<byte>, hs: seq<nat>, j: nat, ptr: nat, files: seq<Node>)
    requires j < |hs| && WalkFrom(tar, ptr) == Done(hs[j..]) && files == NodesFrom(tar, hs[..j], 0)
    ensures Step(FileSize(tar, ptr)) != 0 && WalkFrom(tar, ptr + Step(FileSize(tar, ptr))) == Done(hs[j + 1..])
    ensures NodesFrom(tar, hs[..j + 1], 0) == files + if Qualifies(tar, ptr) then [MakeNode(tar, ptr, |files|)] else []
  {
    WalkNext(tar, ptr, hs[j..]);
    assert hs[j + 1..] == hs[j..][1..];
    NodesAppend(tar, hs[..j], [ptr], 0, |files|);
    assert hs[..j + 1] == hs[..j] + [ptr];
  }

  /** The distance to the next header, as both loops of tarfs_init compute it. */
  method HeaderStep(tar: seq<byte>, ptr: nat) returns (step: u32)
    ensures step == Step(FileSize(tar, ptr))
  {
    var size := ParseOctal(Field(tar, ptr + SIZE_OFF, SIZE_DIGITS));
    var sum := size as int + 511;
    var blocks: nat := U32(sum) / BLOCK;
    step := U32(BLOCK + U32(blocks * BLOCK));
    StepMatchesUint32(size);
  }

  /**
   * The counting loop of tarfs_init: the number of qualifying headers on the
   * walk, or the header at which the pointer stops moving.
   */
  method CountHeaders(tar: seq<byte>) returns (count: nat, stuck: Option<nat>)
    ensures WalkFrom(tar, 0).Loops? ==> stuck == Some(WalkFrom(tar, 0).at)
    ensures WalkFrom(tar, 0).Done? ==> stuck == None && count == |Qualifying(tar, WalkFrom(tar, 0).headers)|
  {
    count := 0;
    var ptr := 0;
    ghost var seen: seq<nat> := [];
    while ptr < |tar|
      invariant WalkFrom(tar, 0) == Prefixed(seen, WalkFrom(tar, ptr))
      invariant count == |Qualifying(tar, seen)|
      decreases |tar| - ptr
    {
      var magic := CheckMagic(tar, ptr);
      if tar[ptr] == 0 || !magic {
        break;
      }
      var step := HeaderStep(tar, ptr);
      QualifyingAppend(tar, seen, [ptr]);
      if Qualifies(tar, ptr) {
        count := count + 1;
      }
      if step == 0 {
        return count, Some(ptr);
      }
      ghost var rest := WalkFrom(tar, ptr + step);
      WalkStep(tar, ptr, step);
      PrefixedTwice(seen, [ptr], rest);
      assert WalkFrom(tar, 0) == Prefixed(seen + [ptr], rest);
      seen := seen + [ptr];
      ptr := ptr + step;
    }
    assert seen + [] == seen;
    stuck := None;
  }

  /**
   * The building loop of tarfs_init: walk again, making one node per
   * qualifying header, until `count` nodes exist. It does not re-check the
   * magic; it needs not, because it stops after the last counted header.
   */
  method BuildNodes(tar: seq<byte>, count: nat, ghost hs: seq<nat>) returns (files: seq<Node>)
    requires WalkFrom(tar, 0) == Done(hs) && count == |Qualifying(tar, hs)|
    ensures files == NodesFrom(tar, hs, 0)
  {
    NodesCount(tar, hs, 0);
    assert hs[..|hs|] == hs && hs[0..] == hs;
    var ptr := 0;
    var idx := 0;
    files := [];
    ghost var j := 0;
    while ptr < |tar| && idx < count
      invariant 0 <= j <= |hs|
      invariant WalkFrom(tar, ptr) == Done(hs[j..])
      invariant files == NodesFrom(tar, hs[..j], 0) && idx == |files|
      invariant j == |hs| ==> idx == count
      decreases |tar| - ptr
    {
      if tar[ptr] == 0 {
        break;
      }
      files, idx, ptr := BuildOne(tar, ptr, idx, files, hs, j);
      j := j + 1;
    }
    NodesAppend(tar, hs[..j], hs[j..], 0, idx);
    assert hs[..j] + hs[j..] == hs;
  }

  /** The body of the building loop: a node for the header at ptr when it qualifies, then the step to the next header. */
  method BuildOne(tar: seq<byte>, ptr: nat, idx: nat, files: seq<Node>, ghost hs: seq<nat>, ghost j: nat)
    returns (files': seq<Node>, idx': nat, next: nat)
    requires j < |hs| && WalkFrom(tar, ptr) == Done(hs[j..]) && files == NodesFrom(tar, hs[..j], 0) && idx == |files|
    ensures next > ptr && WalkFrom(tar, next) == Done(hs[j + 1..])
    ensures files' == NodesFrom(tar, hs[..j + 1], 0) && idx' == |files'|
  {
    var step := HeaderStep(tar, ptr);
    BuildStep(tar, hs, j, ptr, files);
    files', idx' := files, idx;
    if Qualifies(tar, ptr) {
      files' := files + [MakeNode(tar, ptr, idx)];
      idx' := idx + 1;
    }
    next := ptr + step;
  }

  /**
   * tarfs_init: count the qualifying headers, then walk again building one
   * node per qualifying header until that many are built, and wrap them in
   * the root. NULL for an empty archive or when nothing qualifies.
   */
  method TarfsInit(tar: seq<byte>) returns (r: InitResult)
    ensures r == InitSpec(tar)
  {
    if |tar| == 0 {
      return NullRoot;
    }
    var count, stuck := CountHeaders(tar);
    if stuck.Some? {
      return Spins(stuck.value);
    }
    ghost var hs := WalkFrom(tar, 0).headers;
    NodesCount(tar, hs, 0);
    if count == 0 {
      return NullRoot;
    }
    var files := BuildNodes(tar, count, hs);
    r := Mounted(RootNode(files));
  }

  // ---------------------------------------------------------------------
  // The uint32 step that stops the walk (as written, and corrected)
  // ---------------------------------------------------------------------

  /** The size 2^32 - 1023, octal 37777776001: the smallest whose step wraps to 0. */
  const SPIN_SIZE: nat := 0xFFFF_FC01

  /** The digits of SPIN_SIZE as an 11-digit size field. */
  function SpinDigits(): (r: seq<byte>)
    ensures |r| == SIZE_DIGITS
  {
    EncodeOctal(SPIN_SIZE, SIZE_DIGITS)
  }

  /** Byte k of SpinningArchive. */
  function SpinByte(k: int): byte
  {
    if k == 0 then 'a' as int
    else if SIZE_OFF <= k < SIZE_OFF + SIZE_DIGITS then SpinDigits()[k - SIZE_OFF]
    else if MAGIC_OFF <= k < MAGIC_OFF + |USTAR| then USTAR[k - MAGIC_OFF]
    else 0
  }

  /** A one-record archive: a name "a", the magic, type NUL and SPIN_SIZE in the size field. */
  function SpinningArchive(): (tar: seq<byte>)
    ensures |tar| == BLOCK && forall k :: 0 <= k < BLOCK ==> tar[k] == SpinByte(k)
  {
    seq<byte>(BLOCK, k => SpinByte(k))
  }

  lemma Pow8Eleven()
    ensures Pow8(SIZE_DIGITS) == 0x2_0000_0000
  {
    assert Pow8(4) == 0x1000;
    assert Pow8(8) == 0x100_0000 by {
      assert Pow8(8) == 8 * 8 * 8 * 8 * Pow8(4);
    }
    assert Pow8(11) == 8 * 8 * 8 * Pow8(8);
  }

  /** The size field of SpinningArchive's header reads as SPIN_SIZE. */
  lemma SpinningSize()
    ensures FileSize(SpinningArchive(), 0) == SPIN_SIZE
  {
    var tar := SpinningArchive();
    var digits := SpinDigits();
    var f := Field(tar, SIZE_OFF, SIZE_DIGITS);
    forall k | 0 <= k < SIZE_DIGITS
      ensures f[k] == digits[k]
    {
      assert f[k] == tar[SIZE_OFF + k] == SpinByte(SIZE_OFF + k);
    }
    assert f == digits;
    Pow8Eleven();
    ParseEncoded(SPIN_SIZE, SIZE_DIGITS);
    assert f[..OctalLen(f)] == f;
  }

  /**
   * tarfs_init as written never returns for SpinningArchive: the step from
   * its only header is 0, so the counting loop re-reads that header for ever.
   */
  lemma SpinningArchiveSpins()
    ensures Step(FileSize(SpinningArchive(), 0)) == 0
    ensures InitSpec(SpinningArchive()) == Spins(0)
  {
    var tar := SpinningArchive();
    SpinningSize();
    assert tar[0] == SpinByte(0);
    assert HasMagic(tar, 0) by {
      assert tar[MAGIC_OFF] == SpinByte(MAGIC_OFF) && tar[MAGIC_OFF + 1] == SpinByte(MAGIC_OFF + 1);
      assert tar[MAGIC_OFF + 2] == SpinByte(MAGIC_OFF + 2) && tar[MAGIC_OFF + 3] == SpinByte(MAGIC_OFF + 3);
      assert tar[MAGIC_OFF + 4] == SpinByte(MAGIC_OFF + 4);
    }
  }

  /** The step in unbounded (or 64-bit) arithmetic: at least one record, and the as-written step wherever that one does not wrap. */
  function StepCorrected(size: u32): (r: nat)
    ensures r >= BLOCK && r % BLOCK == 0
    ensures size + 511 < U32_LIMIT - BLOCK ==> r == Step(size)
  {
    var b := (size + 511) / BLOCK;
    DivModUnique(b * BLOCK + BLOCK, BLOCK, b + 1, 0);
    BLOCK + b * BLOCK
  }

  /** The header walk with the corrected step: it always ends, because every step advances. */
  function WalkCorrected(tar: seq<byte>, ptr: nat): (hs: seq<nat>)
    ensures forall k :: 0 <= k < |hs| ==> ptr <= hs[k] < |tar|
    decreases |tar| - ptr
  {
    if ptr >= |tar| || ByteAt(tar, ptr) == 0 || !HasMagic(tar, ptr) then []
    else [ptr] + WalkCorrected(tar, ptr + StepCorrected(FileSize(tar, ptr)))
  }

  /** tarfs_init with the corrected step: it mounts or returns NULL, and never spins. */
  function InitCorrected(tar: seq<byte>): (r: InitResult)
    ensures !r.Spins?
    ensures r.Mounted? ==> r.root.impl.DirData? && |r.root.impl.files| == |Qualifying(tar, WalkCorrected(tar, 0))|
  {
    if |tar| == 0 then NullRoot
    else
      var files := NodesFrom(tar, WalkCorrected(tar, 0), 0);
      NodesCount(tar, WalkCorrected(tar, 0), 0);
      if |files| == 0 then NullRoot else Mounted(RootNode(files))
  }

  // ---------------------------------------------------------------------
  // tarfs_read
  // ---------------------------------------------------------------------

  /** A read's return value and the bytes it copies into the caller's buffer. */
  datatype ReadResult = ReadResult(count: int, data: seq<byte>)

  /**
   * tarfs_read as written: -1 without file data, 0 from the end of the file
   * on; otherwise `size` bytes, cut back to the end of the file when
   * `offset + size`, computed in uint32, passes it. The count goes back as a
   * C int; the bytes come from the archive at the file's data plus offset.
   */
  function ReadFile(node: Node, offset: u32, size: u32): (r: ReadResult)
    requires !node.impl.DirData?
    ensures node.impl.NoImpl? <==> r.count == -1 && r.data == [] && node.impl.NoImpl?
    ensures node.impl.FileData? ==> U32(r.count) == |r.data|
    ensures node.impl.FileData? ==> forall k :: 0 <= k < |r.data| ==>
              r.data[k] == ByteAt(node.impl.archive, node.impl.start + offset + k)
  {
    match node.impl
    case NoImpl => ReadResult(-1, [])
    case FileData(archive, start) =>
      if offset >= node.size then ReadResult(0, [])
      else
        var n: u32 := if U32(offset + size) > node.size then node.size - offset else size;
        ReadResult(ToInt32(n), Field(archive, start + offset, n))
  }

  /**
   * Where `offset + size` fits in uint32, tarfs_read copies exactly the
   * requested bytes that lie inside the file: min(size, file size - offset).
   */
  lemma ReadWithinFile(node: Node, offset: u32, size: u32)
    requires node.impl.FileData? && offset + size < U32_LIMIT
    ensures var r := ReadFile(node, offset, size);
            && |r.data| <= size
            && (offset < node.size ==> offset + |r.data| <= node.size)
            && (|r.data| == size || offset + |r.data| == node.size || offset >= node.size)
  {
  }

  /**
   * The wrap in tarfs_read: reading 0xFFFFFFFF bytes at offset 10 of a
   * 100-byte file wraps `offset + size` to 9, so nothing is cut back: the
   * copy runs 0xFFFFFFFF bytes past the file's 90 remaining, and the count
   * returned as an int is -1.
   */
  lemma ReadWrapOverruns(archive: seq<byte>)
    ensures var node := Node("f", VFS_FILE, 100, 0, TarRead, NoWrite, NoReaddir, NoFinddir, FileData(archive, 0));
            var r := ReadFile(node, 10, 0xFFFF_FFFF);
            |r.data| == 0xFFFF_FFFF && r.count == -1
  {
  }

  /** tarfs_read with the bound computed without wrap-around: min(size, file size - offset) bytes. */
  function ReadCorrected(node: Node, offset: u32, size: u32): (r: ReadResult)
    requires !node.impl.DirData?
    ensures node.impl.NoImpl? ==> r.count == -1 && r.data == []
    ensures node.impl.FileData? ==>
              && U32(r.count) == |r.data|
              && |r.data| <= size
              && (offset < node.size ==> offset + |r.data| <= node.size)
              && (|r.data| == size || offset + |r.data| == node.size || offset >= node.size)
              && forall k :: 0 <= k < |r.data| ==> r.data[k] == ByteAt(node.impl.archive, node.impl.start + offset + k)
  {
    match node.impl
    case NoImpl => ReadResult(-1, [])
    case FileData(archive, start) =>
      if offset >= node.size then ReadResult(0, [])
      else
        var n: u32 := Min(size, node.size - offset);
        ReadResult(ToInt32(n), Field(archive, start + offset, n))
  }

  /** The two reads agree wherever the as-written sum does not wrap. */
  lemma ReadAgrees(node: Node, offset: u32, size: u32)
    requires !node.impl.DirData? && offset + size < U32_LIMIT
    ensures ReadFile(node, offset, size) == ReadCorrected(node, offset, size)
  {
  }

  // ---------------------------------------------------------------------
  // tarfs_readdir and tarfs_finddir
  // ---------------------------------------------------------------------

  /** tarfs_readdir: the index-th node of the file table, NULL past its end or without one. */
  function Readdir(node: Node, index: u32): (r: Option<Node>)
    requires !node.impl.FileData?
    ensures r.Some? <==> node.impl.DirData? && index < |node.impl.files|
    ensures r.Some? ==> r.value == node.impl.files[index]
  {
    match node.impl
    case NoImpl => None
    case DirData(files) => if index < |files| then Some(files[index]) else None
  }

  /**
   * Listing a mounted archive's root yields, at index i, the node built from
   * the i-th regular file or directory header on the walk, numbered i.
   */
  lemma ReaddirMounted(tar: seq<byte>, i: u32)
    requires InitSpec(tar).Mounted?
    ensures var hs := WalkFrom(tar, 0).headers;
            && (Readdir(InitSpec(tar).root, i).Some? <==> i < |Qualifying(tar, hs)|)
            && (i < |Qualifying(tar, hs)| ==> Readdir(InitSpec(tar).root, i) == Some(MakeNode(tar, Qualifying(tar, hs)[i], i)))
  {
    var hs := WalkFrom(tar, 0).headers;
    NodesCount(tar, hs, 0);
    if i < |Qualifying(tar, hs)| {
      NodeAt(tar, hs, 0, i, i);
    }
  }

  /** The position of the first node named `name`, or |files| when there is none. */
  function NameIndex(files: seq<Node>, name: seq<char>): (i: nat)
    ensures i <= |files|
    ensures forall k :: 0 <= k < i ==> files[k].name != name
    ensures i < |files| ==> files[i].name == name
  {
    if |files| == 0 then 0
    else if files[0].name == name then 0
    else 1 + NameIndex(files[1..], name)
  }

  /** What tarfs_finddir returns: the first node of the table with that name, NULL when none has it. */
  function FinddirSpec(node: Node, name: seq<char>): (r: Option<Node>)
    ensures r.Some? ==> r.value.name == name
    ensures r.Some? && Consistent(node) ==> Consistent(r.value)
  {
    if !node.impl.DirData? then None
    else
      var i := NameIndex(node.impl.files, name);
      if i < |node.impl.files| then Some(node.impl.files[i]) else None
  }

  /** tarfs_finddir: a linear search of the file table for the name. */
  method Finddir(node: Node, name: seq<char>) returns (r: Option<Node>)
    requires !node.impl.FileData?
    ensures r == FinddirSpec(node, name)
    ensures r.Some? ==> r.value.name == name
    ensures r.None? && node.impl.DirData? ==> forall k :: 0 <= k < |node.impl.files| ==> node.impl.files[k].name != name
  {
    if node.impl.NoImpl? {
      return None;
    }
    var files := node.impl.files;
    var i := 0;
    while i < |files|
      invariant i <= |files| && forall k :: 0 <= k < i ==> files[k].name != name
    {
      if files[i].name == name {
        return Some(files[i]);
      }
      i := i + 1;
    }
    return None;
  }
}
