/**
  The filesystem the comparator inspects, as a value. Every system call
  the C code makes (lstat, readlink, opendir/readdir, open/read) is an
  oracle over a node of this tree, and each of them may fail.
 */
module FileSystem {
  datatype Option<T> = None | Some(value: T)

  type Byte = bv8

  /** The fields of `struct stat` the program looks at. */
  datatype Stat = Stat(mode: bv32, uid: nat, gid: nat, size: nat, rdev: nat)

  /** `d_type` of a directory entry (DT_* of <dirent.h>). */
  datatype FileType = DtFifo | DtChr | DtDir | DtBlk | DtReg | DtLnk | DtSock

  /**
    One inode. `stat` is what lstat(2) on its path yields (None: lstat
    fails). The body says what the other system calls yield:
    - Regular: the bytes; whether open(2) succeeds; the byte offsets at
      which a read(2) fails;
    - Directory: whether opendir(3) succeeds, and the raw readdir(3)
      listing, in directory order (it may hold "." and "..");
    - Symlink: what readlink(2) yields (None: it fails).
   */
  datatype Node = Node(stat: Option<Stat>, body: Body)

  datatype Body =
    | Regular(data: seq<Byte>, openable: bool, badReads: set<nat>)
    | Directory(readable: bool, entries: seq<Entry>)
    | Symlink(target: Option<string>)
    | CharDevice
    | BlockDevice
    | Fifo
    | Socket

  /** A readdir record: a name and the node it names. */
  datatype Entry = Entry(name: string, node: Node)

  /** The size of one read(2) in the content comparison. */
  const CHUNK: nat := 8192

  /** The `d_type` readdir reports for a node. */
  function TypeOf(n: Node): FileType {
    match n.body
    case Regular(_, _, _) => DtReg
    case Directory(_, _) => DtDir
    case Symlink(_) => DtLnk
    case CharDevice => DtChr
    case BlockDevice => DtBlk
    case Fifo => DtFifo
    case Socket => DtSock
  }

  /** `d_type` names the kind of the node: a directory, a regular file and
      a symbolic link each have a type of their own. */
  lemma TypeOfKinds(n: Node)
    ensures TypeOf(n) == DtDir <==> n.body.Directory?
    ensures TypeOf(n) == DtReg <==> n.body.Regular?
    ensures TypeOf(n) == DtLnk <==> n.body.Symlink?
  {
  }

  /** readlink(2): the target of a symbolic link; it fails on anything else. */
  function LinkTarget(n: Node): (r: Option<string>)
    ensures r.Some? ==> n.body.Symlink?
  {
    if n.body.Symlink? then n.body.target else None
  }

  /** opendir(3) followed by readdir(3) to the end: the raw listing. */
  function OpenDir(n: Node): (r: Option<seq<Entry>>)
    ensures r.Some? <==> n.body.Directory? && n.body.readable
    ensures r.Some? ==> r.value == n.body.entries
  {
    if n.body.Directory? && n.body.readable then Some(n.body.entries) else None
  }

  /**
    read(2) of one chunk at byte offset `off` of an open regular file:
    it fails at the offsets the oracle lists, and otherwise delivers
    min(CHUNK, remaining) bytes (no short reads).
   */
  function ReadAt(b: Body, off: nat): (r: Option<seq<Byte>>)
    requires b.Regular?
    ensures r.Some? <==> off !in b.badReads
    ensures r.Some? && off <= |b.data| ==>
      r.value == b.data[off..if off + CHUNK <= |b.data| then off + CHUNK else |b.data|]
    ensures r.Some? && off >= |b.data| ==> r.value == []
  {
    if off in b.badReads then None
    else if off >= |b.data| then Some([])
    else if off + CHUNK <= |b.data| then Some(b.data[off..off + CHUNK])
    else Some(b.data[off..])
  }

  /** The offsets a front-to-back read of an n-byte file issues read(2) at:
      every multiple of CHUNK below n, and n itself (the read that returns 0). */
  predicate IsReadOffset(off: nat, n: nat) {
    (off < n && off % CHUNK == 0) || off == n
  }

  /** Reading all n bytes of the file, and the final empty read, succeed. */
  predicate ReadsSucceed(b: Body, n: nat)
    requires b.Regular?
  {
    forall off :: off in b.badReads ==> !IsReadOffset(off, n)
  }

  /** Every directory of the subtree can be opened; nothing is asked of
      the other system calls. */
  predicate DirsReadable(n: Node) {
    match n.body
    case Directory(readable, entries) =>
      readable && forall i :: 0 <= i < |entries| ==> DirsReadable(entries[i].node)
    case _ => true
  }

  /** Every system call on every node of the subtree succeeds. */
  predicate Healthy(n: Node) {
    && n.stat.Some?
    && match n.body
       case Regular(data, openable, badReads) => openable && badReads == {}
       case Directory(readable, entries) =>
         readable && forall i :: 0 <= i < |entries| ==> Healthy(entries[i].node)
       case Symlink(target) => target.Some?
       case _ => true
  }
}
