/*
 * The file node of the virtual file system (include/fs/vfs.h). The C node
 * carries function pointers for its operations; here each pointer is an
 * enumeration naming the implementation installed (or none), and `impl`
 * holds what the implementation's private pointer refers to.
 */
module FsNode {
  import opened Common

  const VFS_FILE: u32 := 0
  const VFS_DIRECTORY: u32 := 1

  /** Longest name a node holds: char name[256] with its terminator. */
  const NAME_MAX: nat := 255

  datatype ReadOp = NoRead | TarRead
  /** No file system in the kernel installs a write operation; `HasWrite` stands for one outside this model. */
  datatype WriteOp = NoWrite | HasWrite
  datatype ReaddirOp = NoReaddir | TarReaddir
  datatype FinddirOp = NoFinddir | TarFinddir

  /** What `impl` points at: nothing, a file's data inside the archive, or the archive's file table. */
  datatype Impl =
    | NoImpl
    | FileData(archive: seq<byte>, start: nat)
    | DirData(files: seq<Node>)

  datatype Node = Node(
    name: seq<char>,
    kind: u32,
    size: u32,
    inode: u32,
    read: ReadOp,
    write: WriteOp,
    readdir: ReaddirOp,
    finddir: FinddirOp,
    impl: Impl)

  /**
   * Every operation a node carries finds the private data it expects:
   * read needs file data, readdir and finddir need no file data; nodes in
   * a file table are consistent too.
   */
  predicate Consistent(n: Node)
    decreases n
  {
    && (n.read.TarRead? ==> !n.impl.DirData?)
    && (n.readdir.TarReaddir? || n.finddir.TarFinddir? ==> !n.impl.FileData?)
    && (n.impl.DirData? ==> forall k :: 0 <= k < |n.impl.files| ==> Consistent(n.impl.files[k]))
  }
}
