/**
  Directory snapshots and their entries (fstate.c, fstate.h).

  An FState is one directory entry: its name and d_type are fixed when the
  directory is read, its path, stat buffer and link target are computed on
  first use and cached. A DState is a directory snapshot: an array of
  entries that grows in blocks of 16, sorted by name, read through a cursor.
  `inode` is the node of the filesystem tree the entry or directory stands
  for; the system calls are the oracles of module FileSystem applied to it.
 */
module Fstate {
  import opened FileSystem
  import opened Names

  class FState {
    var parent: DState?
    const name: string
    const ftype: FileType
    const inode: Node
    var path: Option<string>
    var stb: Option<Stat>
    var linkDest: Option<string>
    /** How many times open(2) has been called on the entry's path. */
    ghost var opens: nat

    /** Every cache that is filled agrees with what the system call yields;
        the stat buffer and link target are only ever filled after the path. */
    ghost predicate Valid()
      reads this`parent, this`path, this`stb, this`linkDest
    {
      && ftype == TypeOf(inode)
      && (path.Some? ==> parent != null && path.value == parent.path + "/" + name)
      && (stb.Some? ==> path.Some? && stb == inode.stat)
      && (linkDest.Some? ==> path.Some? && linkDest == LinkTarget(inode))
    }

    /** The path fstate_path builds: the snapshot's path, a slash, the name. */
    ghost function FullPath(): string
      reads this`parent
      requires parent != null
    {
      parent.path + "/" + name
    }

    /** fstate_new: name and type stored, everything else absent. */
    constructor (name: string, ftype: FileType, inode: Node)
      ensures this.name == name && this.ftype == ftype && this.inode == inode
      ensures parent == null && path == None && stb == None && linkDest == None && opens == 0
      ensures ftype == TypeOf(inode) ==> Valid()
    {
      this.name := name;
      this.ftype := ftype;
      this.inode := inode;
      parent := null;
      path := None;
      stb := None;
      linkDest := None;
      opens := 0;
    }

    /** fstate_path: computed on the first call, the cached value after. */
    method Path() returns (p: string)
      requires Valid() && parent != null
      modifies this`path
      ensures Valid()
      ensures p == FullPath() && path == Some(p)
      ensures old(path).Some? ==> p == old(path).value
    {
      if path.None? {
        path := Some(parent.path + "/" + name);
      }
      p := path.value;
    }

    /** fstate_stat: lstat on the first successful call, the cached buffer
        after; a failure leaves the cache empty so that a later call retries. */
    method Lstat() returns (r: Option<Stat>)
      requires Valid() && parent != null
      modifies this`path, this`stb
      ensures Valid()
      ensures r == inode.stat && stb == r
      ensures old(stb).Some? ==> r == old(stb) && path == old(path)
    {
      if stb.None? {
        var p := Path();
        var st := inode.stat;   // lstat(p)
        if st.None? {
          return None;
        }
        stb := st;
      }
      r := stb;
    }

    /** fstate_readlink: memoized like fstate_stat. */
    method Readlink() returns (r: Option<string>)
      requires Valid() && parent != null
      modifies this`path, this`linkDest
      ensures Valid()
      ensures r == LinkTarget(inode) && linkDest == r
      ensures old(linkDest).Some? ==> r == old(linkDest) && path == old(path)
    {
      if linkDest.None? {
        var p := Path();
        var dest := LinkTarget(inode);   // readlink(p)
        if dest.None? {
          return None;
        }
        linkDest := dest;
      }
      r := linkDest;
    }

    /** fstate_open: open(2) of a regular entry for reading. */
    method Open() returns (ok: bool)
      requires Valid() && parent != null && inode.body.Regular?
      modifies this`path, this`opens
      ensures Valid() && path == Some(FullPath())
      ensures ok == inode.body.openable
      ensures opens == old(opens) + 1
    {
      var p := Path();
      ok := inode.body.openable;   // open(p, O_RDONLY) >= 0
      opens := opens + 1;
    }

    /** fstate_isdir: decided by the d_type readdir reported. */
    function IsDir(): (r: bool)
      reads this
      requires Valid()
      ensures r <==> inode.body.Directory?
    {
      ftype == DtDir
    }

    /** fstate_descend: a fresh snapshot of this directory, or null when it
        cannot be read. */
    method Descend() returns (ds: DState?)
      requires Valid() && parent != null
      modifies this`path
      ensures Valid() && path == Some(FullPath())
      ensures ds == null <==> OpenDir(inode).None?
      ensures ds != null ==>
        && fresh(ds) && ds.Valid()
        && ds.path == FullPath() && ds.inode == inode && ds.cursor == 0
        && ds.Entries() == Listing(inode)
        && forall f :: f in ds.Repr ==> fresh(f)
    {
      var p := Path();
      ds := new DState(p, inode);
      var ok := ds.Read();
      if !ok {
        ds := null;   // dstate_free
      } else {
        assert [] + Visible(inode.body.entries) == Visible(inode.body.entries);
      }
    }
  }

  /** With the array a whole number of 16-slot blocks and fewer than 16
      slots free, the array is full exactly when the count is a multiple of
      16, and appending keeps both properties. */
  lemma BlockArithmetic(count: nat, length: nat)
    requires length % 16 == 0 && count <= length < count + 16
    ensures count % 16 == 0 <==> count == length
    ensures count == length ==> (length + 16) % 16 == 0 && count + 1 <= length + 16 < count + 17
    ensures count < length ==> count + 1 <= length < count + 17
  {
  }

  /** The readdir records a sequence of entries stands for. */
  ghost function EntriesOf(fs: seq<FState>): (r: seq<Entry>)
    ensures |r| == |fs|
  {
    if fs == [] then [] else [Entry(fs[0].name, fs[0].inode)] + EntriesOf(fs[1..])
  }

  lemma EntriesOfCons(f: FState, s: seq<FState>)
    ensures EntriesOf([f] + s) == [Entry(f.name, f.inode)] + EntriesOf(s)
  {
    assert ([f] + s)[1..] == s;
  }

  lemma {:induction false} EntriesOfSnoc(s: seq<FState>, f: FState)
    ensures EntriesOf(s + [f]) == EntriesOf(s) + [Entry(f.name, f.inode)]
  {
    if s != [] {
      assert (s + [f])[1..] == s[1..] + [f];
      EntriesOfSnoc(s[1..], f);
    }
  }

  lemma {:induction false} EntriesOfIndex(s: seq<FState>)
    ensures |EntriesOf(s)| == |s|
    ensures forall i :: 0 <= i < |s| ==> EntriesOf(s)[i] == Entry(s[i].name, s[i].inode)
  {
    if s != [] {
      EntriesOfIndex(s[1..]);
    }
  }

  /** Insertion of one entry by name into a sorted sequence of entries. */
  function InsertFState(f: FState, s: seq<FState>): (r: seq<FState>)
    ensures |r| == |s| + 1
    ensures forall i :: 0 <= i < |r| ==> r[i] in s || r[i] == f
    ensures EntriesOf(r) == InsertByName(Entry(f.name, f.inode), EntriesOf(s))
  {
    if s == [] then
      EntriesOfCons(f, s);
      [f]
    else if NotAfter(f.name, s[0].name) then
      EntriesOfCons(f, s);
      [f] + s
    else
      assert s == [s[0]] + s[1..];
      var rest := InsertFState(f, s[1..]);
      EntriesOfCons(s[0], rest);
      [s[0]] + rest
  }

  /** The qsort of dstate_read, as the same insertion sort SortByName is on
      the entries' names. */
  function SortFStates(s: seq<FState>): (r: seq<FState>)
    ensures |r| == |s|
    ensures forall i :: 0 <= i < |r| ==> r[i] in s
    ensures EntriesOf(r) == SortByName(EntriesOf(s))
  {
    if s == [] then []
    else
      assert s == [s[0]] + s[1..];
      InsertFState(s[0], SortFStates(s[1..]))
  }

  class DState {
    const path: string
    const inode: Node
    var files: array<FState?>
    var count: nat
    var cursor: nat
    /** The entries this snapshot has created. */
    ghost var Repr: set<FState>

    /** The first `count` slots hold this snapshot's entries, each with its
        parent set and its caches consistent; the array's length is the least
        multiple of 16 not below `count`, as growing by 16 slots whenever a
        multiple of 16 is full makes it. */
    ghost predicate Valid()
      reads this`files, this`count, this`Repr, files, Repr
    {
      && count <= files.Length < count + 16
      && files.Length % 16 == 0
      && (forall i :: 0 <= i < count ==> files[i] != null && files[i] in Repr)
      && (forall f :: f in Repr ==> f.parent == this && f.Valid())
    }

    /** The readdir records of the snapshot's entries, in array order. */
    ghost function Entries(): seq<Entry>
      reads this`files, this`count, files
      requires count <= files.Length
      requires forall i :: 0 <= i < count ==> files[i] != null
    {
      EntriesOf(files[..count])
    }

    /** dstate_new: an empty snapshot of `path`. */
    constructor (path: string, inode: Node)
      ensures this.path == path && this.inode == inode
      ensures count == 0 && cursor == 0 && fresh(files)
      ensures Valid() && Entries() == [] && Repr == {}
    {
      this.path := path;
      this.inode := inode;
      files := new FState?[0];
      count := 0;
      cursor := 0;
      Repr := {};
    }

    /** The reallocarray of dstate_add_entry: 16 more slots, the entries kept. */
    method Grow()
      requires Valid()
      modifies this`files
      ensures fresh(files) && files.Length == old(files.Length) + 16
      ensures files[..count] == old(files[..count])
      ensures forall i :: 0 <= i < count ==> files[i] != null && files[i] in Repr
    {
      var grown := new FState?[files.Length + 16];
      forall i | 0 <= i < count {
        grown[i] := files[i];
      }
      files := grown;
    }

    /** dstate_add_entry: append one entry, growing the array by 16 slots
        when the current block is full. */
    method AddEntry(e: Entry) returns (fs: FState)
      requires Valid()
      modifies this`files, this`count, this`Repr, files
      ensures Valid()
      ensures count == old(count) + 1 && cursor == old(cursor)
      ensures fresh(fs) && fs.parent == this && fs.name == e.name && fs.inode == e.node
      ensures fs.ftype == TypeOf(e.node)
      ensures Entries() == old(Entries()) + [e]
      ensures Repr == old(Repr) + {fs}
      ensures files[..count] == old(files[..count]) + [fs]
      ensures old(count) % 16 == 0 ==> fresh(files) && files.Length == old(files.Length) + 16
      ensures old(count) % 16 != 0 ==> files == old(files)
    {
      BlockArithmetic(count, files.Length);
      fs := new FState(e.name, TypeOf(e.node), e.node);
      fs.parent := this;
      if count % 16 == 0 {
        Grow();
      }
      Place(fs);
    }

    /** The store into the first free slot of dstate_add_entry, once the
        array has room for it. */
    method Place(fs: FState)
      requires files.Length % 16 == 0 && count < files.Length <= count + 16
      requires forall i :: 0 <= i < count ==> files[i] != null && files[i] in Repr
      requires forall f :: f in Repr ==> f.parent == this && f.Valid()
      requires fs !in Repr && fs.parent == this && fs.Valid()
      modifies this`count, this`Repr, files
      ensures Valid() && count == old(count) + 1 && Repr == old(Repr) + {fs}
      ensures files[..count] == old(files[..count]) + [fs]
      ensures Entries() == EntriesOf(old(files[..count])) + [Entry(fs.name, fs.inode)]
    {
      ghost var prefix := files[..count];
      files[count] := fs;
      assert files[..count + 1] == prefix + [fs];
      count := count + 1;
      Repr := Repr + {fs};
      assert files[..count] == prefix + [fs];
      assert forall i :: 0 <= i < count ==> files[i] == files[..count][i];
      EntriesOfSnoc(prefix, fs);
    }

    /**
      dstate_read: every entry readdir lists other than "." and "..",
      appended in directory order, then the whole array sorted by name.
      False, and nothing added, if the directory cannot be opened.
     */
    method Read() returns (ok: bool)
      requires Valid()
      modifies this, files
      ensures Valid() && cursor == old(cursor)
      ensures ok <==> OpenDir(inode).Some?
      ensures !ok ==> count == old(count) && files == old(files) && Entries() == old(Entries())
      ensures ok ==> Entries() == SortByName(old(Entries()) + Visible(OpenDir(inode).value))
      ensures forall f :: f in Repr ==> f in old(Repr) || fresh(f)
    {
      var dir := OpenDir(inode);   // opendir
      if dir.None? {
        return false;
      }
      var listing := dir.value;
      ghost var before := Entries();
      var i := 0;
      while i < |listing|
        invariant 0 <= i <= |listing|
        invariant Valid() && cursor == old(cursor)
        invariant files == old(files) || fresh(files)
        invariant Entries() == before + Visible(listing[..i])
        invariant forall f :: f in Repr ==> f in old(Repr) || fresh(f)
      {
        var e := listing[i];   // readdir
        VisibleSnoc(listing[..i], e);
        assert listing[..i + 1] == listing[..i] + [e];
        if IsVisible(e.name) {
          ghost var pre := Entries();
          var _ := AddEntry(e);
          assert Entries() == pre + [e];
          assert pre + [e] == before + (Visible(listing[..i]) + [e]);
        }
        i := i + 1;
      }
      assert listing[..i] == listing;
      ghost var unsorted := Entries();
      assert unsorted == old(Entries()) + Visible(listing);
      Sort();
      assert Entries() == SortByName(unsorted);
      ok := true;
    }

    /** The qsort call of dstate_read: the first `count` slots rearranged
        into ascending name order. */
    method Sort()
      requires Valid()
      modifies files
      ensures Valid()
      ensures Entries() == SortByName(old(Entries()))
    {
      var unsorted: seq<FState> := files[..count];
      ghost var listed := Entries();
      assert listed == EntriesOf(unsorted);
      var sorted := SortFStates(unsorted);
      forall k | 0 <= k < count {
        files[k] := sorted[k];
      }
      assert files[..count] == sorted;
      assert Entries() == EntriesOf(sorted) == SortByName(listed);
    }

    /** dstate_current_entry: the entry under the cursor, null once the
        cursor has passed the last entry. */
    function CurrentEntry(): (r: FState?)
      reads this, files, Repr
      requires Valid()
      ensures r == null <==> cursor >= count
      ensures r != null ==> r == files[cursor] && r.parent == this && r.Valid()
    {
      if cursor >= count then null else files[cursor]
    }
  }

  lemma {:induction false} VisibleSnoc(s: seq<Entry>, e: Entry)
    ensures Visible(s + [e]) == Visible(s) + (if IsVisible(e.name) then [e] else [])
  {
    if s == [] {
      assert [] + [e] == [e];
      assert [e][1..] == [];
    } else {
      assert (s + [e])[0] == s[0];
      assert (s + [e])[1..] == s[1..] + [e];
      VisibleSnoc(s[1..], e);
    }
  }
}
