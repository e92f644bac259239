/**
  The comparison engine of ftreecmp.c, over the snapshot and entry objects
  of module Fstate. Each method is proved to write exactly the lines, and
  return exactly the status, that module TreeSpec assigns to the two trees.
 */
module TreeCmp {
  import opened Flags
  import opened FileSystem
  import opened Names
  import opened Fstate
  import opened Report
  import opened TreeSpec

  lemma AppendAssoc<T>(a: seq<T>, b: seq<T>, c: seq<T>)
    ensures a + (b + c) == (a + b) + c
  {
  }

  /** No multiple of CHUNK lies strictly between two consecutive ones. */
  lemma NextChunkBoundary(off: nat, k: nat)
    requires off % CHUNK == 0 && off <= k < off + CHUNK && k % CHUNK == 0
    ensures k == off
  {
  }

  /**
    compare_regular_files (ftreecmp.c:139-189): unequal sizes give false
    before either file is opened; otherwise both files are opened and read
    side by side in chunks of CHUNK bytes until a read fails, the chunks
    differ or both reach the end.
   */
  method CompareRegularFiles(o: FState, n: FState) returns (status: bool)
    requires o.Valid() && n.Valid() && o != n && o.parent != null && n.parent != null
    requires o.stb.Some? && n.stb.Some?
    requires o.inode.body.Regular? && n.inode.body.Regular?
    modifies o`path, n`path, o`opens, n`opens
    ensures o.Valid() && n.Valid()
    ensures status == SameContents(o.inode, n.inode)
    ensures o.stb.value.size != n.stb.value.size ==>
      !status && o.opens == old(o.opens) && n.opens == old(n.opens)
    ensures o.stb.value.size == n.stb.value.size ==>
      o.opens == old(o.opens) + 1 &&
      n.opens == old(n.opens) + (if o.inode.body.openable then 1 else 0)
  {
    if o.stb.value.size != n.stb.value.size {
      return false;
    }
    var ok := o.Open();
    if !ok {
      return false;
    }
    ok := n.Open();
    if !ok {
      return false;
    }
    var od, nd := o.inode.body, n.inode.body;
    var off: nat := 0;
    status := true;
    while true
      invariant off <= |od.data| && off <= |nd.data|
      invariant od.data[..off] == nd.data[..off]
      invariant off % CHUNK == 0 || (off == |od.data| && off == |nd.data|)
      invariant forall k :: k in od.badReads && k < off ==> k % CHUNK != 0
      invariant forall k :: k in nd.badReads && k < off ==> k % CHUNK != 0
      invariant o.Valid() && n.Valid()
      invariant o.opens == old(o.opens) + 1 && n.opens == old(n.opens) + 1
      decreases |od.data| - off
    {
      var oldBuf := ReadAt(od, off);
      if oldBuf.None? {
        assert IsReadOffset(off, |od.data|);
        status := false;
        break;
      }
      var newBuf := ReadAt(nd, off);
      if newBuf.None? {
        assert IsReadOffset(off, |nd.data|);
        status := false;
        break;
      }
      var len := |oldBuf.value|;
      if len != |newBuf.value| || oldBuf.value != newBuf.value {
        status := false;
        break;
      }
      if len == 0 {
        assert od.data == od.data[..off] && nd.data == nd.data[..off];
        assert forall k :: k in od.badReads ==> !IsReadOffset(k, |od.data|);
        assert forall k :: k in nd.badReads ==> !IsReadOffset(k, |nd.data|);
        break;
      }
      assert od.data[..off + len] == od.data[..off] + oldBuf.value;
      assert nd.data[..off + len] == nd.data[..off] + newBuf.value;
      forall k | k in od.badReads && k < off + len
        ensures k % CHUNK != 0
      {
        if off <= k && k % CHUNK == 0 {
          NextChunkBoundary(off, k);
        }
      }
      forall k | k in nd.badReads && k < off + len
        ensures k % CHUNK != 0
      {
        if off <= k && k % CHUNK == 0 {
          NextChunkBoundary(off, k);
        }
      }
      off := off + len;
    }
  }

  /**
    The per-type data check of compare_files (ftreecmp.c:218-244): the
    contents of regular files, the targets of symbolic links, st_rdev of
    devices. A link target that cannot be read fails the check without
    counting as a difference.
   */
  method CompareData(o: FState, n: FState) returns (differs: bool, ok: bool)
    requires o.Valid() && n.Valid() && o != n && o.parent != null && n.parent != null
    requires o.stb.Some? && n.stb.Some? && o.ftype == n.ftype
    modifies o`path, o`linkDest, o`opens, n`path, n`linkDest, n`opens
    ensures o.Valid() && n.Valid() && o.stb == old(o.stb) && n.stb == old(n.stb)
    ensures differs == DataDiffers(o.inode, n.inode)
    ensures ok == LinksReadable(o.inode, n.inode)
  {
    differs, ok := false, true;
    match o.ftype {
      case DtReg =>
        var same := CompareRegularFiles(o, n);
        differs := !same;
      case DtLnk =>
        var oldLink := o.Readlink();
        if oldLink.None? {
          ok := false;
        } else {
          var newLink := n.Readlink();
          if newLink.None? {
            ok := false;
          } else {
            StrcmpZeroIffEqual(oldLink.value, newLink.value);
            differs := Strcmp(oldLink.value, newLink.value) != 0;
          }
        }
      case DtChr =>
        differs := o.stb.value.rdev != n.stb.value.rdev;
      case DtBlk =>
        differs := o.stb.value.rdev != n.stb.value.rdev;
      case _ =>
    }
  }

  /** The pair of report_changed_file calls compare_files makes for a
      changed pair: the old entry with REMOVED, then the new one with ADDED
      (ftreecmp.c:200-201 and 247-248). What they return is ignored. */
  method ReportBoth(report: Report, how: bv32, o: FState, n: FState)
    requires report.Valid() && o.Valid() && n.Valid() && o != n
    requires o.parent != null && n.parent != null
    modifies report, o`path, o`stb, o`linkDest, n`path, n`stb, n`linkDest
    ensures report.Valid() && o.Valid() && n.Valid()
    ensures report.written ==
      old(report.written) + Reports(how, o.FullPath(), o.inode, n.FullPath(), n.inode)
  {
    var _ := report.ChangedFile(how | REMOVED, o);
    var _ := report.ChangedFile(how | ADDED, n);
  }

  /**
    The attribute step of compare_files for two entries of the same type
    (ftreecmp.c:205-244): lstat on both, failing if either fails; then the
    change bits of the two stat buffers and of the per-type data check.
   */
  method PairChanges(o: FState, n: FState) returns (statOk: bool, how: bv32, dataOk: bool)
    requires o.Valid() && n.Valid() && o != n && o.parent != null && n.parent != null
    requires o.ftype == n.ftype
    modifies o`path, o`stb, o`linkDest, o`opens, n`path, n`stb, n`linkDest, n`opens
    ensures o.Valid() && n.Valid()
    ensures statOk == (o.inode.stat.Some? && n.inode.stat.Some?)
    ensures statOk ==> how == PairFlags(o.inode, n.inode) && dataOk == LinksReadable(o.inode, n.inode)
  {
    var oldStb := o.Lstat();
    if oldStb.None? {
      return false, 0, true;
    }
    var newStb := n.Lstat();
    if newStb.None? {
      return false, 0, true;
    }
    statOk := true;
    how := ChangeFlags(oldStb.value, newStb.value);
    var differs;
    differs, dataOk := CompareData(o, n);
    if differs {
      how := how | DATA;
    }
  }

  /**
    compare_files (ftreecmp.c:195-263): two bare reports for a type change;
    otherwise the change bits from the two stat buffers and the per-type
    data check, the two reports if any bit is set, and for directories the
    walk of two fresh snapshots.
   */
  method CompareFiles(report: Report, o: FState, n: FState) returns (status: bool)
    requires report.Valid() && o.Valid() && n.Valid() && o != n
    requires o.parent != null && n.parent != null
    requires !Pair(o.FullPath(), o.inode, n.FullPath(), n.inode).crashed
    modifies report, o`path, o`stb, o`linkDest, o`opens, n`path, n`stb, n`linkDest, n`opens
    decreases o.inode, 6
    ensures report.Valid() && o.Valid() && n.Valid()
    ensures report.written ==
      old(report.written) + Pair(o.FullPath(), o.inode, n.FullPath(), n.inode).lines
    ensures status == Pair(o.FullPath(), o.inode, n.FullPath(), n.inode).ok
  {
    if o.ftype != n.ftype {
      ReportBoth(report, 0, o, n);
      return true;
    }
    var statOk, how;
    statOk, how, status := PairChanges(o, n);
    if !statOk {
      return false;
    }
    ghost var op, np := o.FullPath(), n.FullPath();
    ghost var shown := if how != 0 then Reports(how, op, o.inode, np, n.inode) else [];
    if how != 0 {
      ReportBoth(report, how, o, n);
    }
    if o.ftype == DtDir {
      ghost var sub := CompareDirs(op, o.inode, np, n.inode);
      status := CompareSubdirectories(report, o, n);
      AppendAssoc(old(report.written), shown, sub.lines);
    }
  }

  /** The descent of compare_files into two directories of the same name:
      a fresh snapshot of each, walked side by side (ftreecmp.c:251-259). */
  method CompareSubdirectories(report: Report, o: FState, n: FState) returns (status: bool)
    requires report.Valid() && o.Valid() && n.Valid() && o != n
    requires o.parent != null && n.parent != null
    requires OpenDir(o.inode).Some? && OpenDir(n.inode).Some?
    requires !CompareDirs(o.FullPath(), o.inode, n.FullPath(), n.inode).crashed
    modifies report, o`path, n`path
    decreases o.inode, 5
    ensures report.Valid() && o.Valid() && n.Valid()
    ensures report.written ==
      old(report.written) + CompareDirs(o.FullPath(), o.inode, n.FullPath(), n.inode).lines
    ensures status == CompareDirs(o.FullPath(), o.inode, n.FullPath(), n.inode).ok
  {
    var oldSub := o.Descend();
    var newSub := n.Descend();
    status := CompareDirectories(report, oldSub, newSub);
  }

  /**
    compare_directories (ftreecmp.c:86-133): both cursors reset, then one
    turn of the merge per iteration while both snapshots have an entry
    under the cursor; once one is exhausted the other's remaining entries
    are reported. Only the comparison of matched pairs affects the status.
   */
  method CompareDirectories(report: Report, od: DState, nd: DState) returns (status: bool)
    requires report.Valid() && od.Valid() && nd.Valid() && od != nd && od.Repr !! nd.Repr
    requires od.Entries() == Listing(od.inode) && nd.Entries() == Listing(nd.inode)
    requires !CompareDirs(od.path, od.inode, nd.path, nd.inode).crashed
    modifies report, od`cursor, nd`cursor, od.Repr, nd.Repr
    decreases od.inode, 4
    ensures report.Valid() && od.Valid() && nd.Valid()
    ensures report.written ==
      old(report.written) + CompareDirs(od.path, od.inode, nd.path, nd.inode).lines
    ensures status == CompareDirs(od.path, od.inode, nd.path, nd.inode).ok
  {
    od.cursor := 0;
    nd.cursor := 0;
    status := CompareEntries(report, od, nd);
    ReportRemaining(report, od, nd);
  }

  /**
    The loop of compare_directories while both snapshots have an entry
    under the cursor (ftreecmp.c:98-130): one turn of the merge per
    iteration. What it writes, followed by the walk from where the cursors
    stop, is the walk from where they started.
   */
  method CompareEntries(report: Report, od: DState, nd: DState) returns (status: bool)
    requires report.Valid() && od.Valid() && nd.Valid() && od != nd && od.Repr !! nd.Repr
    requires od.Entries() == Listing(od.inode) && nd.Entries() == Listing(nd.inode)
    requires od.cursor <= od.count && nd.cursor <= nd.count
    requires !WalkAt(od.path, od.inode, nd.path, nd.inode, od.cursor, nd.cursor).crashed
    modifies report, od`cursor, nd`cursor, od.Repr, nd.Repr
    decreases od.inode, 3
    ensures report.Valid() && od.Valid() && nd.Valid()
    ensures od.Entries() == Listing(od.inode) && nd.Entries() == Listing(nd.inode)
    ensures od.cursor <= od.count && nd.cursor <= nd.count
    ensures od.cursor == od.count || nd.cursor == nd.count
    ensures !WalkAt(od.path, od.inode, nd.path, nd.inode, od.cursor, nd.cursor).crashed
    ensures
      var before := WalkAt(od.path, od.inode, nd.path, nd.inode, old(od.cursor), old(nd.cursor));
      var after := WalkAt(od.path, od.inode, nd.path, nd.inode, od.cursor, nd.cursor);
      && report.written + after.lines == old(report.written) + before.lines
      && before.ok == (status && after.ok)
  {
    ghost var op, o, np, n := od.path, od.inode, nd.path, nd.inode;
    ghost var oc0, nc0 := od.cursor, nd.cursor;
    status := true;
    while od.cursor < od.count && nd.cursor < nd.count
      invariant report.Valid() && od.Valid() && nd.Valid() && od.Repr !! nd.Repr
      invariant od.Entries() == Listing(o) && nd.Entries() == Listing(n)
      invariant od.cursor <= od.count && nd.cursor <= nd.count
      invariant !WalkAt(op, o, np, n, od.cursor, nd.cursor).crashed
      invariant report.written + WalkAt(op, o, np, n, od.cursor, nd.cursor).lines
        == old(report.written) + WalkAt(op, o, np, n, oc0, nc0).lines
      invariant WalkAt(op, o, np, n, oc0, nc0).ok
        == (status && WalkAt(op, o, np, n, od.cursor, nd.cursor).ok)
      decreases od.count - od.cursor + nd.count - nd.cursor
    {
      var same := CompareTurn(report, od, nd);
      if !same {
        status := false;
      }
    }
  }

  /**
    One iteration of the loop of compare_directories with an entry under
    each cursor (ftreecmp.c:117-129): what it writes, followed by the walk
    from where it leaves the cursors, is the walk from where they were.
   */
  method CompareTurn(report: Report, od: DState, nd: DState) returns (ok: bool)
    requires report.Valid() && od.Valid() && nd.Valid() && od != nd && od.Repr !! nd.Repr
    requires od.Entries() == Listing(od.inode) && nd.Entries() == Listing(nd.inode)
    requires od.cursor < od.count && nd.cursor < nd.count
    requires !WalkAt(od.path, od.inode, nd.path, nd.inode, od.cursor, nd.cursor).crashed
    modifies report, od`cursor, nd`cursor, od.Repr, nd.Repr
    decreases od.inode, 2
    ensures report.Valid() && od.Valid() && nd.Valid()
    ensures od.Entries() == Listing(od.inode) && nd.Entries() == Listing(nd.inode)
    ensures old(od.cursor) + old(nd.cursor) < od.cursor + nd.cursor
    ensures od.cursor <= od.count && nd.cursor <= nd.count
    ensures !WalkAt(od.path, od.inode, nd.path, nd.inode, od.cursor, nd.cursor).crashed
    ensures
      var before := WalkAt(od.path, od.inode, nd.path, nd.inode, old(od.cursor), old(nd.cursor));
      var after := WalkAt(od.path, od.inode, nd.path, nd.inode, od.cursor, nd.cursor);
      && report.written + after.lines == old(report.written) + before.lines
      && before.ok == (ok && after.ok)
  {
    EntriesOfIndex(od.files[..od.count]);
    EntriesOfIndex(nd.files[..nd.count]);
    var oldFs, newFs := od.CurrentEntry(), nd.CurrentEntry();
    ghost var t := TurnAt(od.path, od.inode, nd.path, nd.inode, od.cursor, nd.cursor);
    ghost var rest := WalkAt(od.path, od.inode, nd.path, nd.inode, t.oc, t.nc);
    WalkAtTurn(od.path, od.inode, nd.path, nd.inode, od.cursor, nd.cursor);
    ok := CompareStep(report, od, nd, oldFs, newFs);
    AppendAssoc(old(report.written), t.out.lines, rest.lines);
  }

  lemma WalkAtTurn(op: string, o: Node, np: string, n: Node, oc: nat, nc: nat)
    requires oc < |Listing(o)| && nc < |Listing(n)| && !WalkAt(op, o, np, n, oc, nc).crashed
    ensures
      var t := TurnAt(op, o, np, n, oc, nc);
      var rest := WalkAt(op, o, np, n, t.oc, t.nc);
      && !t.out.crashed && !rest.crashed
      && WalkAt(op, o, np, n, oc, nc).lines == t.out.lines + rest.lines
      && WalkAt(op, o, np, n, oc, nc).ok == (t.out.ok && rest.ok)
  {
  }

  /**
    The end of compare_directories (ftreecmp.c:101-112): once one snapshot
    is exhausted, every entry left in the other is reported, added or
    removed, with all it holds; the status of those reports is dropped.
   */
  method ReportRemaining(report: Report, od: DState, nd: DState)
    requires report.Valid() && od.Valid() && nd.Valid() && od.Repr !! nd.Repr
    requires od.Entries() == Listing(od.inode) && nd.Entries() == Listing(nd.inode)
    requires od.cursor <= od.count && nd.cursor <= nd.count
    requires od.cursor == od.count || nd.cursor == nd.count
    requires !WalkAt(od.path, od.inode, nd.path, nd.inode, od.cursor, nd.cursor).crashed
    modifies report, od`cursor, nd`cursor, od.Repr, nd.Repr
    ensures report.Valid() && od.Valid() && nd.Valid()
    ensures od.cursor == od.count && nd.cursor == nd.count
    ensures report.written == old(report.written) +
      WalkAt(od.path, od.inode, nd.path, nd.inode, old(od.cursor), old(nd.cursor)).lines
    ensures WalkAt(od.path, od.inode, nd.path, nd.inode, old(od.cursor), old(nd.cursor)).ok
  {
    EntriesOfIndex(od.files[..od.count]);
    EntriesOfIndex(nd.files[..nd.count]);
    if od.cursor == od.count {
      var _ := ReportEntries(report, ADDED, nd);
    } else {
      var _ := ReportEntries(report, REMOVED, od);
    }
  }

  /**
    One turn of the loop of compare_directories with an entry under each
    cursor (ftreecmp.c:117-129): strcmp on the two names; the old entry is
    reported removed, or the new one added, with all it holds, or the two
    are compared; the cursors of the entries dealt with move on. The status
    is that of the comparison, true otherwise.
   */
  method CompareStep(report: Report, od: DState, nd: DState, oldFs: FState, newFs: FState)
    returns (ok: bool)
    requires report.Valid() && od.Valid() && nd.Valid() && od != nd && od.Repr !! nd.Repr
    requires od.Entries() == Listing(od.inode) && nd.Entries() == Listing(nd.inode)
    requires od.cursor < |Listing(od.inode)| && nd.cursor < |Listing(nd.inode)|
    requires !TurnAt(od.path, od.inode, nd.path, nd.inode, od.cursor, nd.cursor).out.crashed
    requires oldFs == od.CurrentEntry() && newFs == nd.CurrentEntry()
    modifies report, od`cursor, nd`cursor, od.Repr, nd.Repr
    decreases od.inode, 1
    ensures report.Valid() && od.Valid() && nd.Valid()
    ensures od.Entries() == Listing(od.inode) && nd.Entries() == Listing(nd.inode)
    ensures
      var t := TurnAt(od.path, od.inode, nd.path, nd.inode, old(od.cursor), old(nd.cursor));
      && report.written == old(report.written) + t.out.lines
      && ok == t.out.ok && od.cursor == t.oc && nd.cursor == t.nc
  {
    var rv := Strcmp(oldFs.name, newFs.name);
    EntriesOfIndex(od.files[..od.count]);
    EntriesOfIndex(nd.files[..nd.count]);
    assert Listing(od.inode)[od.cursor] == Entry(oldFs.name, oldFs.inode);
    assert Listing(nd.inode)[nd.cursor] == Entry(newFs.name, newFs.inode);
    if rv < 0 {
      var _ := ReportCurrent(report, REMOVED, od, oldFs);
      ok := true;
    } else if rv > 0 {
      var _ := ReportCurrent(report, ADDED, nd, newFs);
      ok := true;
    } else {
      ok := CompareCurrent(report, od, nd, oldFs, newFs);
    }
  }

  /** compare_files on the two entries under the cursors, then both cursors
      move on (ftreecmp.c:124-127). */
  method CompareCurrent(report: Report, od: DState, nd: DState, oldFs: FState, newFs: FState)
    returns (ok: bool)
    requires report.Valid() && od.Valid() && nd.Valid() && od != nd && od.Repr !! nd.Repr
    requires od.Entries() == Listing(od.inode) && nd.Entries() == Listing(nd.inode)
    requires od.cursor < |Listing(od.inode)| && nd.cursor < |Listing(nd.inode)|
    requires oldFs == od.CurrentEntry() && newFs == nd.CurrentEntry()
    requires Listing(od.inode)[od.cursor] == Entry(oldFs.name, oldFs.inode)
    requires Listing(nd.inode)[nd.cursor] == Entry(newFs.name, newFs.inode)
    requires !Pair(od.path + "/" + oldFs.name, oldFs.inode, nd.path + "/" + newFs.name, newFs.inode).crashed
    modifies report, od`cursor, nd`cursor, od.Repr, nd.Repr
    decreases od.inode, 0
    ensures report.Valid() && od.Valid() && nd.Valid()
    ensures od.cursor == old(od.cursor) + 1 && nd.cursor == old(nd.cursor) + 1
    ensures
      var p := Pair(od.path + "/" + oldFs.name, oldFs.inode, nd.path + "/" + newFs.name, newFs.inode);
      && report.written == old(report.written) + p.lines
      && ok == p.ok
  {
    ListedChild(od.inode, od.cursor);
    ListedChild(nd.inode, nd.cursor);
    ok := CompareFiles(report, oldFs, newFs);
    nd.cursor := nd.cursor + 1;
    od.cursor := od.cursor + 1;
  }

  /** report_recursively on the entry under a snapshot's cursor, then the
      cursor moves on (ftreecmp.c:103-104, 110-111, 118-122). */
  method ReportCurrent(report: Report, how: bv32, ds: DState, fs: FState) returns (ok: bool)
    requires report.Valid() && ds.Valid()
    requires ds.Entries() == Listing(ds.inode)
    requires ds.cursor < |Listing(ds.inode)| && fs == ds.CurrentEntry()
    requires var e := Listing(ds.inode)[ds.cursor];
      !Recursive(how, ds.path + "/" + e.name, e.node).crashed
    modifies report, ds`cursor, ds.Repr
    decreases ds.inode, 0
    ensures report.Valid() && ds.Valid()
    ensures ds.cursor == old(ds.cursor) + 1
    ensures
      var e := Listing(ds.inode)[old(ds.cursor)];
      var r := Recursive(how, ds.path + "/" + e.name, e.node);
      && report.written == old(report.written) + r.lines
      && ok == r.ok
  {
    EntriesOfIndex(ds.files[..ds.count]);
    ListedChild(ds.inode, ds.cursor);
    assert Listing(ds.inode)[ds.cursor] == Entry(fs.name, fs.inode);
    ok := ReportRecursively(report, how, fs);
    ds.cursor := ds.cursor + 1;
  }

  /**
    The loop that reports every entry of a snapshot from the cursor on,
    each with all it holds, advancing the cursor to the end: it ends
    compare_directories when one side is exhausted (ftreecmp.c:101-112)
    and walks a directory in report_recursively (ftreecmp.c:284-290).
    The status is false if any entry failed.
   */
  method ReportEntries(report: Report, how: bv32, ds: DState) returns (ok: bool)
    requires report.Valid() && ds.Valid() && ds.cursor <= ds.count
    requires ds.Entries() == Listing(ds.inode) && !RecursiveAll(how, ds.path, ds.inode, ds.cursor).crashed
    modifies report, ds`cursor, ds.Repr
    decreases ds.inode, 1
    ensures report.Valid() && ds.Valid() && ds.cursor == ds.count
    ensures report.written ==
      old(report.written) + RecursiveAll(how, ds.path, ds.inode, old(ds.cursor)).lines
    ensures ok == RecursiveAll(how, ds.path, ds.inode, old(ds.cursor)).ok
  {
    ghost var p, d, c0 := ds.path, ds.inode, ds.cursor;
    EntriesOfIndex(ds.files[..ds.count]);
    ok := true;
    var entry := ds.CurrentEntry();
    while entry != null
      invariant report.Valid() && ds.Valid()
      invariant ds.Entries() == Listing(d) && c0 <= ds.cursor <= ds.count
      invariant !RecursiveAll(how, p, d, ds.cursor).crashed
      invariant entry == ds.CurrentEntry()
      invariant report.written + RecursiveAll(how, p, d, ds.cursor).lines
        == old(report.written) + RecursiveAll(how, p, d, c0).lines
      invariant RecursiveAll(how, p, d, c0).ok == (ok && RecursiveAll(how, p, d, ds.cursor).ok)
      decreases ds.count - ds.cursor
    {
      ghost var before := report.written;
      ghost var e := Listing(d)[ds.cursor];
      RecursiveAllStep(how, p, d, ds.cursor);
      ghost var here := Recursive(how, p + "/" + e.name, e.node);
      ghost var rest := RecursiveAll(how, p, d, ds.cursor + 1);
      var r := ReportCurrent(report, how, ds, entry);
      if !r {
        ok := false;
      }
      AppendAssoc(before, here.lines, rest.lines);
      entry := ds.CurrentEntry();
    }
    assert report.written + [] == report.written;
  }

  lemma RecursiveAllStep(how: bv32, p: string, d: Node, c: nat)
    requires c < |Listing(d)| && !RecursiveAll(how, p, d, c).crashed
    ensures
      var e := Listing(d)[c];
      var here := Recursive(how, p + "/" + e.name, e.node);
      var rest := RecursiveAll(how, p, d, c + 1);
      && !here.crashed && !rest.crashed
      && RecursiveAll(how, p, d, c).lines == here.lines + rest.lines
      && RecursiveAll(how, p, d, c).ok == (here.ok && rest.ok)
  {
    ListedChild(d, c);
  }

  /**
    report_recursively (ftreecmp.c:265-294): nothing, and false, if lstat
    or report_changed_file fails; otherwise the entry's line with `how`,
    then for a directory every entry of a fresh snapshot of it.
   */
  method ReportRecursively(report: Report, how: bv32, fs: FState) returns (ok: bool)
    requires report.Valid() && fs.Valid() && fs.parent != null
    requires !Recursive(how, fs.FullPath(), fs.inode).crashed
    modifies report, fs`path, fs`stb, fs`linkDest
    decreases fs.inode, 2
    ensures report.Valid() && fs.Valid()
    ensures report.written == old(report.written) + Recursive(how, fs.FullPath(), fs.inode).lines
    ensures ok == Recursive(how, fs.FullPath(), fs.inode).ok
  {
    var path := fs.Path();
    ghost var p, n := fs.FullPath(), fs.inode;
    var stb := fs.Lstat();
    if stb.None? {
      return false;
    }
    var reported := report.ChangedFile(how, fs);
    if !reported {
      return false;
    }
    ok := true;
    if fs.IsDir() {
      ghost var mid := report.written;
      ghost var sub := RecursiveAll(how, p, n, 0);
      var subdir := fs.Descend();
      ok := ReportEntries(report, how, subdir);
      AppendAssoc(old(report.written), [ReportLine(how, p, n).value], sub.lines);
    }
  }
}
