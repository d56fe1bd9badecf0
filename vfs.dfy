/*
 * The virtual file system layer (fs/vfs.c): path splitting and resolution,
 * the current directory, and the table of 32 file descriptors with open,
 * close, read, write and seek. Nodes are values; an operation a node
 * carries dispatches to the tarfs model, the only file system the kernel
 * mounts.
 */
module Vfs {
  import opened Common
  import opened FsNode
  import Tarfs

  const MAX_FD: nat := 32
  /** vfs_get_node splits a path into at most this many components. */
  const MAX_COMPONENTS: nat := 16
  /** Characters kept of one component (char components[][256]). */
  const COMPONENT_MAX: nat := 255

  const SEEK_SET: int := 0
  const SEEK_CUR: int := 1
  const SEEK_END: int := 2

  // ---------------------------------------------------------------------
  // split_path
  // ---------------------------------------------------------------------

  /** What split_path can produce: a non-empty run of at most 255 characters without '/'. */
  predicate IsComponent(c: seq<char>)
  {
    0 < |c| <= COMPONENT_MAX && forall k :: 0 <= k < |c| ==> c[k] != '/'
  }

  predicate NoSlash(s: seq<char>)
  {
    forall k :: 0 <= k < |s| ==> s[k] != '/'
  }

  /**
   * split_path from character i, with the components found so far and the
   * current one: '/' closes a non-empty component, other characters extend
   * it up to 255, and the scan stops at the end or once max components exist.
   */
  function SplitFrom(path: seq<char>, i: nat, comps: seq<seq<char>>, cur: seq<char>, max: nat): (r: seq<seq<char>>)
    requires |comps| <= max && (forall k :: 0 <= k < |comps| ==> IsComponent(comps[k]))
    requires |cur| <= COMPONENT_MAX && NoSlash(cur)
    ensures |r| <= max && forall k :: 0 <= k < |r| ==> IsComponent(r[k])
    decreases |path| - i
  {
    if i >= |path| || |comps| >= max then
      if |cur| > 0 && |comps| < max then comps + [cur] else comps
    else if path[i] == '/' then
      if |cur| > 0 then SplitFrom(path, i + 1, comps + [cur], [], max)
      else SplitFrom(path, i + 1, comps, [], max)
    else if |cur| < COMPONENT_MAX then SplitFrom(path, i + 1, comps, cur + [path[i]], max)
    else SplitFrom(path, i + 1, comps, cur, max)
  }

  function Split(path: seq<char>, max: nat): (r: seq<seq<char>>)
    ensures |r| <= max && forall k :: 0 <= k < |r| ==> IsComponent(r[k])
  {
    SplitFrom(path, 0, [], [], max)
  }

  /** split_path: one pass over the characters, building the current component in place. */
  method SplitPath(path: seq<char>, max: nat) returns (comps: seq<seq<char>>)
    ensures comps == Split(path, max)
  {
    comps := [];
    var cur: seq<char> := [];
    var i := 0;
    while i < |path| && |comps| < max
      invariant i <= |path| && |comps| <= max
      invariant forall k :: 0 <= k < |comps| ==> IsComponent(comps[k])
      invariant |cur| <= COMPONENT_MAX && NoSlash(cur)
      invariant SplitFrom(path, i, comps, cur, max) == Split(path, max)
    {
      if path[i] == '/' {
        if |cur| > 0 {
          comps := comps + [cur];
          cur := [];
        }
      } else if |cur| < COMPONENT_MAX {
        cur := cur + [path[i]];
      }
      i := i + 1;
    }
    if |cur| > 0 && |comps| < max {
      comps := comps + [cur];
    }
  }

  /** The absolute path "/c0/c1/..." of a component list. */
  function Join(cs: seq<seq<char>>): seq<char>
  {
    if |cs| == 0 then [] else "/" + cs[0] + Join(cs[1..])
  }

  /** Reading a run of w's characters (no '/') extends the current component by w. */
  lemma {:induction false} ConsumeWord(p: seq<char>, j: nat, w: seq<char>, comps: seq<seq<char>>, cur: seq<char>, max: nat)
    requires j + |w| <= |p| && p[j..j + |w|] == w && NoSlash(w)
    requires |comps| < max && (forall k :: 0 <= k < |comps| ==> IsComponent(comps[k]))
    requires |cur| + |w| <= COMPONENT_MAX && NoSlash(cur)
    ensures NoSlash(cur + w)
    ensures SplitFrom(p, j, comps, cur, max) == SplitFrom(p, j + |w|, comps, cur + w, max)
    decreases |w|
  {
    if |w| > 0 {
      assert p[j] == w[0];
      assert p[j + 1..j + |w|] == w[1..];
      ConsumeWord(p, j + 1, w[1..], comps, cur + [w[0]], max);
      assert cur + [w[0]] + w[1..] == cur + w;
    } else {
      assert cur + w == cur;
    }
  }

  /** Where a joined path starts at i: a '/', the first component, then the rest joined. */
  lemma JoinSlices(p: seq<char>, i: nat, cs: seq<seq<char>>)
    requires i <= |p| && p[i..] == Join(cs) && |cs| > 0
    ensures i + 1 + |cs[0]| <= |p| && p[i] == '/'
    ensures p[i + 1..i + 1 + |cs[0]|] == cs[0] && p[i + 1 + |cs[0]|..] == Join(cs[1..])
  {
    var c, j, rest := cs[0], Join(cs), Join(cs[1..]);
    assert j == "/" + c + rest;
    assert forall k :: 0 <= k < |j| ==> p[i + k] == j[k];
    assert forall k :: 0 <= k < |c| ==> p[i + 1 + k] == c[k];
    assert forall k :: 0 <= k < |rest| ==> p[i + 1 + |c| + k] == rest[k];
  }

  /** Splitting the rest of a joined path appends its components to those found so far. */
  lemma {:induction false} SplitJoin(p: seq<char>, i: nat, cs: seq<seq<char>>, comps: seq<seq<char>>, cur: seq<char>, max: nat)
    requires i <= |p| && p[i..] == Join(cs) && forall k :: 0 <= k < |cs| ==> IsComponent(cs[k])
    requires forall k :: 0 <= k < |comps| ==> IsComponent(comps[k])
    requires cur == [] || IsComponent(cur)
    requires |comps| + (if |cur| > 0 then 1 else 0) + |cs| <= max
    ensures SplitFrom(p, i, comps, cur, max) == comps + (if |cur| > 0 then [cur] else []) + cs
    decreases |cs|
  {
    var closed := comps + if |cur| > 0 then [cur] else [];
    if |cs| == 0 {
      assert |p[i..]| == 0;
      assert closed + cs == closed;
    } else {
      var c := cs[0];
      JoinSlices(p, i, cs);
      assert |comps| < max;
      assert |cur| == 0 ==> closed == comps;
      assert SplitFrom(p, i, comps, cur, max) == SplitFrom(p, i + 1, closed, [], max);
      ConsumeWord(p, i + 1, c, closed, [], max);
      assert [] + c == c;
      SplitJoin(p, i + 1 + |c|, cs[1..], closed, c, max);
      assert closed + [c] + cs[1..] == closed + cs;
    }
  }

  /** split_path inverts Join: a path written from well-formed components splits back into them. */
  lemma SplitJoinRoundTrip(cs: seq<seq<char>>, max: nat)
    requires |cs| <= max && forall k :: 0 <= k < |cs| ==> IsComponent(cs[k])
    ensures Split(Join(cs), max) == cs
  {
    var p := Join(cs);
    assert p[0..] == p;
    SplitJoin(p, 0, cs, [], [], max);
    assert [] + cs == cs;
  }

  // ---------------------------------------------------------------------
  // vfs_get_node
  // ---------------------------------------------------------------------

  /** current->finddir(current, name) when the node has a finddir, NULL otherwise. */
  function FindChild(cur: Node, name: seq<char>): (r: Option<Node>)
    ensures r.Some? ==> r.value.name == name
    ensures r.Some? && Consistent(cur) ==> Consistent(r.value)
  {
    if cur.finddir.TarFinddir? then Tarfs.FinddirSpec(cur, name) else None
  }

  /** The component loop of vfs_get_node: "." stays, ".." goes to the root, anything else is looked up. */
  function Follow(root: Node, cur: Node, comps: seq<seq<char>>): (r: Option<Node>)
    requires Consistent(root) && Consistent(cur)
    ensures r.Some? ==> Consistent(r.value)
    decreases |comps|
  {
    if |comps| == 0 then Some(cur)
    else if comps[0] == "." then Follow(root, cur, comps[1..])
    else if comps[0] == ".." then Follow(root, root, comps[1..])
    else match FindChild(cur, comps[0])
      case None => None
      case Some(next) => Follow(root, next, comps[1..])
  }

  /** vfs_get_node with a mounted root: "/" is the root, an absolute path starts there, any other at the cwd. */
  function Resolve(root: Node, cwd: Node, path: seq<char>): (r: Option<Node>)
    requires Consistent(root) && Consistent(cwd)
    ensures r.Some? ==> Consistent(r.value)
  {
    if path == "/" then Some(root)
    else Follow(root, if |path| > 0 && path[0] == '/' then root else cwd, Split(path, MAX_COMPONENTS))
  }

  /** An absolute path means the same from every current directory. */
  lemma AbsoluteIgnoresCwd(root: Node, cwd1: Node, cwd2: Node, path: seq<char>)
    requires Consistent(root) && Consistent(cwd1) && Consistent(cwd2)
    requires |path| > 0 && path[0] == '/'
    ensures Resolve(root, cwd1, path) == Resolve(root, cwd2, path)
  {
  }

  /** ".." goes to the root from wherever the walk has got to. */
  lemma {:induction false} DotDotIsRoot(root: Node, cur: Node, comps: seq<seq<char>>, rest: seq<seq<char>>)
    requires Consistent(root) && Consistent(cur)
    requires Follow(root, cur, comps).Some?
    ensures Follow(root, cur, comps + [".."] + rest) == Follow(root, root, rest)
    decreases |comps|
  {
    if |comps| == 0 {
      assert comps + [".."] + rest == [".."] + rest;
    } else {
      assert (comps + [".."] + rest)[1..] == comps[1..] + [".."] + rest;
      if comps[0] == "." {
        DotDotIsRoot(root, cur, comps[1..], rest);
      } else if comps[0] == ".." {
        DotDotIsRoot(root, root, comps[1..], rest);
      } else {
        DotDotIsRoot(root, FindChild(cur, comps[0]).value, comps[1..], rest);
      }
    }
  }

  /** A trailing "." changes nothing. */
  lemma {:induction false} DotStays(root: Node, cur: Node, comps: seq<seq<char>>)
    requires Consistent(root) && Consistent(cur)
    ensures Follow(root, cur, comps + ["."]) == Follow(root, cur, comps)
    decreases |comps|
  {
    if |comps| == 0 {
      assert comps + ["."] == ["."];
    } else {
      assert (comps + ["."])[1..] == comps[1..] + ["."];
      if comps[0] == "." {
        DotStays(root, cur, comps[1..]);
      } else if comps[0] == ".." {
        DotStays(root, root, comps[1..]);
      } else if FindChild(cur, comps[0]).Some? {
        DotStays(root, FindChild(cur, comps[0]).value, comps[1..]);
      }
    }
  }

  /** "/name" resolves to the root's finddir of name. */
  lemma TopLevelLookup(root: Node, cwd: Node, name: seq<char>)
    requires Consistent(root) && Consistent(cwd) && root.finddir.TarFinddir?
    requires IsComponent(name) && name != "." && name != ".."
    ensures Resolve(root, cwd, "/" + name) == Tarfs.FinddirSpec(root, name)
  {
    var path := "/" + name;
    assert Join([name]) == path by {
      assert Join([name]) == "/" + name + Join([]);
    }
    SplitJoinRoundTrip([name], MAX_COMPONENTS);
    assert path[0] == '/' && path != "/" by {
      assert |path| > 1;
    }
    assert [name][1..] == [];
    var found := Tarfs.FinddirSpec(root, name);
    assert Split(path, MAX_COMPONENTS) == [name];
    assert FindChild(root, name) == found;
    assert Follow(root, root, [name]) == found by {
      if found.Some? {
        assert Follow(root, found.value, []) == found;
      }
    }
  }

  /** A mounted archive's root resolves "/name" to its first file of that name. */
  lemma MountedLookup(tar: seq<byte>, name: seq<char>)
    requires Tarfs.InitSpec(tar).Mounted?
    requires IsComponent(name) && name != "." && name != ".."
    ensures var root := Tarfs.InitSpec(tar).root;
            Resolve(root, root, "/" + name) == Tarfs.FinddirSpec(root, name)
  {
    var root := Tarfs.InitSpec(tar).root;
    TopLevelLookup(root, root, name);
  }

  // ---------------------------------------------------------------------
  // The descriptor table
  // ---------------------------------------------------------------------

  datatype Fd = Fd(node: Option<Node>, position: u32, flags: u32, used: bool)

  const EMPTY_FD: Fd := Fd(None, 0, 0, false)

  /** A slot is in use exactly when it holds a node, and that node is consistent. */
  predicate SlotValid(d: Fd)
  {
    (d.used <==> d.node.Some?) && (d.node.Some? ==> Consistent(d.node.value))
  }

  /** The lowest unused slot, or |s| when every slot is used. */
  function LowestFree(s: seq<Fd>): (i: nat)
    ensures i <= |s|
    ensures forall k :: 0 <= k < i ==> s[k].used
    ensures i < |s| ==> !s[i].used
  {
    if |s| == 0 || !s[0].used then 0 else 1 + LowestFree(s[1..])
  }

  /** The table after a successful lookup is opened: the lowest free slot gets the node at position 0. */
  function OpenTable(s: seq<Fd>, node: Node, flags: u32): seq<Fd>
  {
    var i := LowestFree(s);
    if i == |s| then s else s[i := Fd(Some(node), 0, flags, true)]
  }

  /** The table after vfs_close(fd): a used slot is released and its node cleared. */
  function CloseTable(s: seq<Fd>, fd: int): seq<Fd>
  {
    if 0 <= fd < |s| && s[fd].used then s[fd := s[fd].(used := false, node := None)] else s
  }

  /** Opening and closing keep every slot valid. */
  lemma TableStaysValid(s: seq<Fd>, node: Node, flags: u32, fd: int)
    requires Consistent(node) && forall k :: 0 <= k < |s| ==> SlotValid(s[k])
    ensures var o := OpenTable(s, node, flags); |o| == |s| && forall k :: 0 <= k < |o| ==> SlotValid(o[k])
    ensures var c := CloseTable(s, fd); |c| == |s| && forall k :: 0 <= k < |c| ==> SlotValid(c[k])
  {
  }

  /** Closing the descriptor just opened gives back the slots' use and nodes as they were. */
  lemma OpenThenClose(s: seq<Fd>, node: Node, flags: u32)
    requires forall k :: 0 <= k < |s| ==> SlotValid(s[k])
    requires LowestFree(s) < |s|
    ensures var c := CloseTable(OpenTable(s, node, flags), LowestFree(s));
            |c| == |s| && forall k :: 0 <= k < |s| ==> c[k].used == s[k].used && c[k].node == s[k].node
  {
  }

  /** vfs_read on a descriptor whose node reads: tarfs_read at the position, which moves on by a positive count. */
  function DescriptorRead(d: Fd, size: u64): (r: (Fd, Tarfs.ReadResult))
    requires d.node.Some? && d.node.value.read.TarRead? && Consistent(d.node.value)
    ensures r.0.(position := d.position) == d
    ensures r.1.count > 0 ==> r.0.position == U32(d.position + r.1.count)
    ensures r.1.count <= 0 ==> r.0 == d
    ensures d.node.value.impl.FileData? ==> U32(r.1.count) == |r.1.data|
  {
    var res := Tarfs.ReadFile(d.node.value, d.position, U32(size));
    (if res.count > 0 then d.(position := U32(d.position + res.count)) else d, res)
  }

  /**
   * Reading a file of less than 2 GiB, with a size that does not wrap when
   * added to the position, never takes the position past its end: the
   * position advances by exactly the bytes delivered, which are the file's
   * bytes from the old position on.
   */
  lemma ReadStaysInFile(d: Fd, size: u64)
    requires d.node.Some? && d.node.value.read.TarRead? && Consistent(d.node.value)
    requires d.node.value.impl.FileData? && d.node.value.size < 0x8000_0000 && d.position <= d.node.value.size
    requires d.position + U32(size) < U32_LIMIT
    ensures var (d', res) := DescriptorRead(d, size);
            && d'.position == d.position + |res.data| <= d.node.value.size
            && res.count == |res.data|
            && forall k :: 0 <= k < |res.data| ==>
                 res.data[k] == ByteAt(d.node.value.impl.archive, d.node.value.impl.start + d.position + k)
  {
    Tarfs.ReadAgrees(d.node.value, d.position, U32(size));
  }

  /**
   * The wrap of tarfs_read reaches vfs_read: 0xFFFFFFFF bytes asked at
   * position 10 of a 100-byte file come back as 0xFFFFFFFF bytes with a
   * count of -1, and the position stays where it was.
   */
  lemma ReadWrapReachesDescriptor(archive: seq<byte>)
    ensures var node := Node("f", VFS_FILE, 100, 0, TarRead, NoWrite, NoReaddir, NoFinddir, FileData(archive, 0));
            var (d', res) := DescriptorRead(Fd(Some(node), 10, 0, true), 0xFFFF_FFFF);
            |res.data| == 0xFFFF_FFFF && res.count == -1 && d'.position == 10
  {
    Tarfs.ReadWrapOverruns(archive);
  }

  /** vfs_write on a descriptor whose node writes; `written` is what the node's write returned. */
  function DescriptorWrite(d: Fd, written: int): (r: Fd)
    ensures r.(position := d.position) == d
    ensures written > 0 ==> r.position == U32(d.position + written)
    ensures written <= 0 ==> r == d
  {
    if written > 0 then d.(position := U32(d.position + written)) else d
  }

  /** The position vfs_seek sets, None for an unknown whence. */
  function SeekPosition(d: Fd, offset: int, whence: int): (r: Option<u32>)
    requires whence == SEEK_END ==> d.node.Some?
    ensures r.None? <==> whence !in {SEEK_SET, SEEK_CUR, SEEK_END}
  {
    if whence == SEEK_SET then Some(U32(offset))
    else if whence == SEEK_CUR then Some(U32(d.position + offset))
    else if whence == SEEK_END then Some(U32(d.node.value.size + offset))
    else None
  }

  /** Seeking forward by k and back by k from the current position returns to where it was. */
  lemma SeekCurUndo(d: Fd, k: int)
    ensures var p := SeekPosition(d, k, SEEK_CUR).value;
            SeekPosition(d.(position := p), -k, SEEK_CUR) == Some(d.position)
  {
    U32Cancel(d.position, k);
  }

  /** SEEK_SET to a non-negative int lands exactly there, and SEEK_END by 0 lands on the size. */
  lemma SeekSetAndEnd(d: Fd, offset: int)
    requires 0 <= offset < 0x8000_0000 && d.node.Some?
    ensures SeekPosition(d, offset, SEEK_SET) == Some(offset)
    ensures SeekPosition(d, 0, SEEK_END) == Some(d.node.value.size)
  {
  }

  // ---------------------------------------------------------------------
  // vfs_readdir, vfs_finddir, vfs_get_cwd_path
  // ---------------------------------------------------------------------

  /** vfs_readdir: NULL unless the node is a directory with a readdir. */
  function Readdir(node: Option<Node>, index: u32): (r: Option<Node>)
    requires node.Some? ==> Consistent(node.value)
    ensures r.Some? ==> node.Some? && node.value.kind == VFS_DIRECTORY && node.value.readdir.TarReaddir?
  {
    if node.None? || node.value.kind != VFS_DIRECTORY || node.value.readdir.NoReaddir? then None
    else Tarfs.Readdir(node.value, index)
  }

  /** vfs_finddir: NULL unless the node is a directory with a finddir. */
  function Finddir(node: Option<Node>, name: seq<char>): (r: Option<Node>)
    ensures r.Some? ==> node.Some? && node.value.kind == VFS_DIRECTORY && r.value.name == name
  {
    if node.None? || node.value.kind != VFS_DIRECTORY || node.value.finddir.NoFinddir? then None
    else Tarfs.FinddirSpec(node.value, name)
  }

  /** Through the VFS, a mounted archive's root lists and finds exactly what tarfs does. */
  lemma MountedDirectoryOps(tar: seq<byte>, index: u32, name: seq<char>)
    requires Tarfs.InitSpec(tar).Mounted?
    ensures var root := Tarfs.InitSpec(tar).root;
            && Readdir(Some(root), index) == Tarfs.Readdir(root, index)
            && Finddir(Some(root), name) == Tarfs.FinddirSpec(root, name)
  {
  }

  /**
   * The characters vfs_get_cwd_path stores, as written: "/" and its NUL
   * whenever the cwd is the root, whatever the buffer size; otherwise
   * strncpy of the name into size - 1 characters (NUL padded) and a NUL in
   * the last one. Nothing for a zero size.
   */
  function CwdPathBytes(root: Option<Node>, cwd: Option<Node>, size: nat): (r: seq<char>)
    requires root != cwd ==> cwd.Some?
    ensures root != cwd && size > 0 ==> |r| == size && r[size - 1] == '\0'
  {
    if size == 0 then []
    else if cwd == root then ['/', '\0']
    else
      var name := cwd.value.name;
      var n := Min(|name|, size - 1);
      name[..n] + seq(size - n, _ => '\0')
  }

  /** The overrun: with the cwd at the root, a one-character buffer receives two characters. */
  lemma CwdPathOverrun(root: Option<Node>)
    ensures |CwdPathBytes(root, root, 1)| == 2
  {
  }

  /** vfs_get_cwd_path writing "/" only when it fits: never more than `size` characters, the last a NUL. */
  function CwdPathCorrected(root: Option<Node>, cwd: Option<Node>, size: nat): (r: seq<char>)
    requires root != cwd ==> cwd.Some?
    ensures |r| <= size && (size > 0 ==> |r| > 0 && r[|r| - 1] == '\0')
    ensures size >= 2 ==> r == CwdPathBytes(root, cwd, size)
  {
    if size == 1 && cwd == root then ['\0'] else CwdPathBytes(root, cwd, size)
  }

  // ---------------------------------------------------------------------
  // The VFS state
  // ---------------------------------------------------------------------

  class FileSystem {
    /** vfs_root */
    var root: Option<Node>
    /** current_dir */
    var cwd: Option<Node>
    /** file_descriptors[MAX_FD] */
    const fds: array<Fd>

    /** The cwd is set whenever a root is, and all nodes held are consistent. */
    ghost predicate DirsValid()
      reads this
    {
      && (root.Some? ==> cwd.Some? && Consistent(root.value))
      && (cwd.Some? ==> Consistent(cwd.value))
    }

    ghost predicate Valid()
      reads this, fds
    {
      && DirsValid()
      && fds.Length == MAX_FD
      && forall k :: 0 <= k < MAX_FD ==> SlotValid(fds[k])
    }

    /** The static state before vfs_init: no root, no cwd, every slot zero. */
    constructor ()
      ensures Valid() && root.None? && cwd.None? && fresh(fds)
      ensures forall k :: 0 <= k < MAX_FD ==> fds[k] == EMPTY_FD
    {
      root := None;
      cwd := None;
      fds := new Fd[MAX_FD](_ => EMPTY_FD);
    }

    /** vfs_init: every descriptor unused, without node, at position 0 with no flags. */
    method Init()
      requires Valid()
      modifies fds
      ensures Valid() && forall k :: 0 <= k < MAX_FD ==> fds[k] == EMPTY_FD
    {
      var i := 0;
      while i < MAX_FD
        invariant i <= MAX_FD && forall k :: 0 <= k < i ==> fds[k] == EMPTY_FD
        invariant forall k :: 0 <= k < MAX_FD ==> SlotValid(fds[k])
      {
        fds[i] := EMPTY_FD;
        i := i + 1;
      }
    }

    /** vfs_mount_root: root and cwd both become the given node (NULL included). */
    method MountRoot(r: Option<Node>)
      requires Valid() && (r.Some? ==> Consistent(r.value))
      modifies this
      ensures Valid() && root == r && cwd == r
    {
      root := r;
      cwd := r;
    }

    /** vfs_set_cwd: only a directory node becomes the cwd. */
    method SetCwd(node: Option<Node>)
      requires Valid() && (node.Some? ==> Consistent(node.value))
      modifies this
      ensures Valid() && root == old(root)
      ensures cwd == if node.Some? && node.value.kind == VFS_DIRECTORY then node else old(cwd)
    {
      if node.Some? && node.value.kind == VFS_DIRECTORY {
        cwd := node;
      }
    }

    /** What vfs_get_node(path) returns: NULL without a root. */
    function Lookup(path: seq<char>): (r: Option<Node>)
      reads this
      requires DirsValid()
      ensures r.Some? ==> root.Some? && Consistent(r.value)
    {
      if root.None? then None else Resolve(root.value, cwd.value, path)
    }

    /** vfs_get_node: split the path, then walk the components from the root or the cwd. */
    method GetNode(path: seq<char>) returns (r: Option<Node>)
      requires DirsValid()
      ensures r == Lookup(path)
    {
      if root.None? {
        return None;
      }
      if path == "/" {
        return root;
      }
      var cur := if |path| > 0 && path[0] == '/' then root.value else cwd.value;
      var comps := SplitPath(path, MAX_COMPONENTS);
      var i := 0;
      while i < |comps|
        invariant i <= |comps| && Consistent(cur)
        invariant Follow(root.value, cur, comps[i..]) == Lookup(path)
      {
        assert comps[i..][1..] == comps[i + 1..];
        if comps[i] == "." {
        } else if comps[i] == ".." {
          cur := root.value;
        } else if cur.finddir.TarFinddir? {
          var next := Tarfs.Finddir(cur, comps[i]);
          if next.None? {
            return None;
          }
          cur := next.value;
        } else {
          return None;
        }
        i := i + 1;
      }
      return Some(cur);
    }

    /** vfs_open: the lowest unused descriptor for the node the path names, or -1. */
    method Open(path: seq<char>, flags: u32) returns (fd: int)
      requires Valid()
      modifies fds
      ensures Valid()
      ensures fd == -1 <==> Lookup(path).None? || LowestFree(old(fds[..])) == MAX_FD
      ensures fd == -1 ==> fds[..] == old(fds[..])
      ensures fd != -1 ==> fd == LowestFree(old(fds[..])) && fds[..] == OpenTable(old(fds[..]), Lookup(path).value, flags)
    {
      var node := GetNode(path);
      if node.None? {
        return -1;
      }
      var i := 0;
      while i < MAX_FD && fds[i].used
        invariant i <= MAX_FD && forall k :: 0 <= k < i ==> fds[k].used
      {
        i := i + 1;
      }
      if i == MAX_FD {
        return -1;
      }
      fds[i] := Fd(node, 0, flags, true);
      fd := i;
    }

    /** vfs_close: -1 for a descriptor out of range or unused; otherwise release it and return 0. */
    method Close(fd: int) returns (r: int)
      requires Valid()
      modifies fds
      ensures Valid()
      ensures r == -1 <==> !(0 <= fd < MAX_FD) || !old(fds[fd].used)
      ensures r != -1 ==> r == 0
      ensures fds[..] == CloseTable(old(fds[..]), fd)
    {
      if fd < 0 || fd >= MAX_FD || !fds[fd].used {
        return -1;
      }
      fds[fd] := fds[fd].(used := false, node := None);
      return 0;
    }

    /** A descriptor in range and in use. */
    predicate IsOpen(fd: int)
      reads this, fds
    {
      0 <= fd < fds.Length && fds[fd].used
    }

    /** vfs_read reaches the node: the descriptor is open and its node has a read. */
    predicate CanRead(fd: int)
      reads this, fds
      requires Valid()
    {
      IsOpen(fd) && fds[fd].node.value.read.TarRead?
    }

    /** vfs_write reaches the node: the descriptor is open and its node has a write. */
    predicate CanWrite(fd: int)
      reads this, fds
      requires Valid()
    {
      IsOpen(fd) && fds[fd].node.value.write.HasWrite?
    }

    /**
     * vfs_read: -1 for a bad descriptor or a node without read; otherwise the
     * node's read at the descriptor's position of `size` (as uint32) bytes,
     * moving the position on by a positive result.
     */
    method Read(fd: int, size: u64) returns (r: int, data: seq<byte>)
      requires Valid()
      modifies fds
      ensures Valid()
      ensures old(CanRead(fd)) ==>
                var (d, res) := DescriptorRead(old(fds[fd]), size);
                r == res.count && data == res.data && fds[..] == old(fds[..])[fd := d]
      ensures !old(CanRead(fd)) ==> r == -1 && data == [] && fds[..] == old(fds[..])
    {
      if fd < 0 || fd >= MAX_FD || !fds[fd].used {
        return -1, [];
      }
      var desc := fds[fd];
      if desc.node.None? || desc.node.value.read.NoRead? {
        return -1, [];
      }
      var res := Tarfs.ReadFile(desc.node.value, desc.position, U32(size));
      if res.count > 0 {
        fds[fd] := desc.(position := U32(desc.position + res.count));
      }
      return res.count, res.data;
    }

    /**
     * vfs_write: -1 for a bad descriptor or a node without write; otherwise
     * what the node's write returned (`written`), moving the position on by
     * a positive result.
     */
    method Write(fd: int, size: u64, written: int) returns (r: int)
      requires Valid() && -0x8000_0000 <= written < 0x8000_0000
      modifies fds
      ensures Valid()
      ensures old(CanWrite(fd)) ==> r == written && fds[..] == old(fds[..])[fd := DescriptorWrite(old(fds[fd]), written)]
      ensures !old(CanWrite(fd)) ==> r == -1 && fds[..] == old(fds[..])
    {
      if fd < 0 || fd >= MAX_FD || !fds[fd].used {
        return -1;
      }
      var desc := fds[fd];
      if desc.node.None? || desc.node.value.write.NoWrite? {
        return -1;
      }
      if written > 0 {
        fds[fd] := DescriptorWrite(desc, written);
      }
      return written;
    }

    /** vfs_seek: the new position, as an int, or -1 for a bad descriptor or whence. */
    method Seek(fd: int, offset: int, whence: int) returns (r: int)
      requires Valid() && -0x8000_0000 <= offset < 0x8000_0000
      modifies fds
      ensures Valid()
      ensures old(IsOpen(fd)) && whence in {SEEK_SET, SEEK_CUR, SEEK_END} ==>
                var p := SeekPosition(old(fds[fd]), offset, whence).value;
                r == ToInt32(p) && fds[..] == old(fds[..])[fd := old(fds[fd]).(position := p)]
      ensures !(old(IsOpen(fd)) && whence in {SEEK_SET, SEEK_CUR, SEEK_END}) ==> r == -1 && fds[..] == old(fds[..])
    {
      if fd < 0 || fd >= MAX_FD || !fds[fd].used {
        return -1;
      }
      var desc := fds[fd];
      var p: u32;
      if whence == SEEK_SET {
        p := U32(offset);
      } else if whence == SEEK_CUR {
        p := U32(desc.position + offset);
      } else if whence == SEEK_END {
        p := U32(desc.node.value.size + offset);
      } else {
        return -1;
      }
      fds[fd] := desc.(position := p);
      return ToInt32(p);
    }
  }
}
