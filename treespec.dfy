/**
  What a comparison of two trees reports, as functions of the two trees.

  `Pair` is what compare_files (ftreecmp.c:195-263) does with two entries of
  the same name, `WalkAt` what compare_directories (ftreecmp.c:86-133) does
  from a pair of cursor positions, `Recursive` what report_recursively
  (ftreecmp.c:265-294) does with an entry only one side has; `Walk` reads
  the same walk as the decisions of the merge. An `Outcome`
  is the lines handed to report_printf, in order, and the returned status.
  The methods of module TreeCmp are proved to produce exactly these.

  fstate_descend gives NULL for a directory it cannot open (fstate.c:77-90),
  and both callers go on to use that NULL as a snapshot. Such an outcome is
  `crashed`: its lines are those written before the descent, and it has no
  status (`ok` is false). Every outcome that follows a crash is the crash.
 */
module TreeSpec {
  import opened Flags
  import opened FileSystem
  import opened Names
  import opened MergeWalk
  import opened Report

  datatype Outcome = Outcome(lines: seq<Line>, ok: bool, crashed: bool)

  /** `first`, then `rest`: the lines of both, and success when both
      succeed; a crash in `first` ends everything there. */
  function Then(first: Outcome, rest: Outcome): Outcome {
    if first.crashed then Outcome(first.lines, false, true)
    else Outcome(first.lines + rest.lines, first.ok && rest.ok, rest.crashed)
  }

  /** An outcome whose status the caller ignores, as compare_directories
      ignores what report_recursively returns: success unless it crashed. */
  function StatusIgnored(r: Outcome): Outcome {
    Outcome(r.lines, !r.crashed, r.crashed)
  }

  // ------------------------------------------------------------------
  // Change flags of a matched pair
  // ------------------------------------------------------------------

  /** The change bits two stat buffers give (ftreecmp.c:210-216). */
  function ChangeFlags(a: Stat, b: Stat): bv32 {
    var diff := a.mode ^ b.mode;
    (if SPECIAL_BITS & diff != 0 then CRIT else 0) |
    (if a.uid != b.uid || a.gid != b.gid then CRIT else 0) |
    (if ALLPERMS & diff != 0 then MODE else 0)
  }

  /** CRIT is set when a privileged bit, the owner or the group differs,
      MODE when any of the twelve permission bits differs, and no other
      bit is set. */
  lemma ChangeFlagsMeaning(a: Stat, b: Stat)
    ensures ChangeFlags(a, b) & CRIT != 0 <==>
      a.mode & SPECIAL_BITS != b.mode & SPECIAL_BITS || a.uid != b.uid || a.gid != b.gid
    ensures ChangeFlags(a, b) & MODE != 0 <==> a.mode & ALLPERMS != b.mode & ALLPERMS
    ensures ChangeFlags(a, b) & !(CRIT | MODE) == 0
  {
  }

  /** A set-user-id, set-group-id or sticky change is both critical and a
      mode change, the privileged bits being permission bits too. */
  lemma SpecialChangeIsCritAndMode(a: Stat, b: Stat)
    requires a.mode & SPECIAL_BITS != b.mode & SPECIAL_BITS
    ensures ChangeFlags(a, b) & CRIT != 0 && ChangeFlags(a, b) & MODE != 0
  {
    ChangeFlagsMeaning(a, b);
  }

  /** The content check of compare_regular_files (ftreecmp.c:139-189): the
      sizes agree, both files open, every read succeeds, and the bytes
      agree. */
  predicate SameContents(o: Node, n: Node)
    requires o.stat.Some? && n.stat.Some? && o.body.Regular? && n.body.Regular?
  {
    && o.stat.value.size == n.stat.value.size
    && o.body.openable && n.body.openable
    && ReadsSucceed(o.body, |o.body.data|) && ReadsSucceed(n.body, |n.body.data|)
    && o.body.data == n.body.data
  }

  /** Two files that open and read without error, of the same size, compare
      equal exactly when their bytes are equal. */
  lemma SameContentsIsByteEquality(o: Node, n: Node)
    requires o.stat.Some? && n.stat.Some? && o.body.Regular? && n.body.Regular?
    requires o.stat.value.size == n.stat.value.size
    requires o.body.openable && n.body.openable && o.body.badReads == {} && n.body.badReads == {}
    ensures SameContents(o, n) <==> o.body.data == n.body.data
  {
  }

  /** The per-type data check of compare_files (ftreecmp.c:218-244): contents
      for regular files, targets for symbolic links (when both can be read),
      st_rdev for devices, nothing for other types. */
  predicate DataDiffers(o: Node, n: Node)
    requires o.stat.Some? && n.stat.Some? && TypeOf(o) == TypeOf(n)
  {
    match o.body
    case Regular(_, _, _) => !SameContents(o, n)
    case Symlink(_) => LinkTarget(o).Some? && LinkTarget(n).Some? && LinkTarget(o) != LinkTarget(n)
    case CharDevice => o.stat.value.rdev != n.stat.value.rdev
    case BlockDevice => o.stat.value.rdev != n.stat.value.rdev
    case _ => false
  }

  /** The only failure of the data check: a link target that cannot be read. */
  predicate LinksReadable(o: Node, n: Node) {
    o.body.Symlink? ==> LinkTarget(o).Some? && LinkTarget(n).Some?
  }

  /** All change bits of a same-type pair whose stat calls succeeded. */
  function PairFlags(o: Node, n: Node): bv32
    requires o.stat.Some? && n.stat.Some? && TypeOf(o) == TypeOf(n)
  {
    var how := ChangeFlags(o.stat.value, n.stat.value);
    if DataDiffers(o, n) then how | DATA else how
  }

  /** CRIT and MODE as the stat buffers give them, DATA exactly when the
      data check finds a difference, nothing outside the change bits. */
  lemma PairFlagsMeaning(o: Node, n: Node)
    requires o.stat.Some? && n.stat.Some? && TypeOf(o) == TypeOf(n)
    ensures PairFlags(o, n) & CRIT != 0 <==> ChangeFlags(o.stat.value, n.stat.value) & CRIT != 0
    ensures PairFlags(o, n) & MODE != 0 <==> ChangeFlags(o.stat.value, n.stat.value) & MODE != 0
    ensures PairFlags(o, n) & DATA != 0 <==> DataDiffers(o, n)
    ensures PairFlags(o, n) & !CHANGE_MASK == 0
  {
    ChangeFlagsMeaning(o.stat.value, n.stat.value);
  }

  // ------------------------------------------------------------------
  // The walk
  // ------------------------------------------------------------------

  /** The entry at position `c` of a snapshot is one of the records of a
      directory that could be opened. */
  lemma ListedChild(d: Node, c: nat)
    requires c < |Listing(d)|
    ensures d.body.Directory? && d.body.readable && Listing(d)[c] in d.body.entries
  {
    ListingFacts(d);
    assert Listing(d)[c] in Listing(d);
  }

  /** The two report lines of a changed pair: the old entry with REMOVED,
      then the new one with ADDED, each left out if report_changed_file
      fails for it. */
  function Reports(how: bv32, op: string, o: Node, np: string, n: Node): seq<Line> {
    Lines(ReportLine(how | REMOVED, op, o)) + Lines(ReportLine(how | ADDED, np, n))
  }

  /**
    compare_files on the entries at paths `op` and `np`: two bare reports
    if the types differ; failure if either lstat fails; otherwise the two
    reports if any change bit is set, then, for directories, the walk of
    the two snapshots, whose status becomes the pair's. A directory that
    cannot be opened crashes the walk before its first line.
   */
  function Pair(op: string, o: Node, np: string, n: Node): (r: Outcome)
    decreases o, 2
    ensures r.crashed ==> !r.ok && TypeOf(o) == DtDir && TypeOf(n) == DtDir
  {
    if TypeOf(o) != TypeOf(n) then
      Outcome(Reports(0, op, o, np, n), true, false)
    else if o.stat.None? || n.stat.None? then
      Outcome([], false, false)
    else
      var how := PairFlags(o, n);
      var shown := if how != 0 then Reports(how, op, o, np, n) else [];
      if TypeOf(o) != DtDir then
        Outcome(shown, LinksReadable(o, n), false)
      else if OpenDir(o).None? || OpenDir(n).None? then
        Outcome(shown, false, true)
      else
        Then(Outcome(shown, true, false), WalkAt(op, o, np, n, 0, 0))
  }

  /**
    What is left of compare_directories (ftreecmp.c:98-130) with the old
    snapshot's cursor at `oc` and the new one's at `nc`: once one side is
    exhausted the other side's remaining entries are reported recursively
    and the status is not affected; otherwise one turn of the loop, then
    the rest from where the turn leaves the cursors.
   */
  function WalkAt(op: string, o: Node, np: string, n: Node, oc: nat, nc: nat): (r: Outcome)
    requires oc <= |Listing(o)| && nc <= |Listing(n)|
    decreases o, 1, |Listing(o)| - oc + |Listing(n)| - nc
    ensures r.crashed ==> !r.ok
  {
    if oc == |Listing(o)| then
      StatusIgnored(RecursiveAll(ADDED, np, n, nc))
    else if nc == |Listing(n)| then
      StatusIgnored(RecursiveAll(REMOVED, op, o, oc))
    else
      var t := TurnAt(op, o, np, n, oc, nc);
      Then(t.out, WalkAt(op, o, np, n, t.oc, t.nc))
  }

  /** One turn of a loop: what it writes and returns, and where it leaves
      the old and the new cursor. */
  datatype Turn = Turn(out: Outcome, oc: nat, nc: nat)

  /**
    One turn of the loop of compare_directories with an entry under each
    cursor (ftreecmp.c:117-129): strcmp on the two names decides whether
    the old entry is reported removed, the new one added, each with all it
    holds and without affecting the status, or the two compared as a pair,
    whose status becomes the turn's. The cursors of the entries dealt with
    move on, so every turn consumes at least one entry.
   */
  function TurnAt(op: string, o: Node, np: string, n: Node, oc: nat, nc: nat): (t: Turn)
    requires oc < |Listing(o)| && nc < |Listing(n)|
    decreases o, 0
    ensures oc <= t.oc <= oc + 1 && nc <= t.nc <= nc + 1 && oc + nc < t.oc + t.nc
  {
    ListedChild(o, oc);
    var a, b := Listing(o)[oc], Listing(n)[nc];
    var rv := Strcmp(a.name, b.name);
    if rv < 0 then
      Turn(StatusIgnored(Recursive(REMOVED, op + "/" + a.name, a.node)), oc + 1, nc)
    else if rv > 0 then
      Turn(StatusIgnored(Recursive(ADDED, np + "/" + b.name, b.node)), oc, nc + 1)
    else
      Turn(Pair(op + "/" + a.name, a.node, np + "/" + b.name, b.node), oc + 1, nc + 1)
  }

  /** compare_directories on the snapshots of `o` and `n`. */
  function CompareDirs(op: string, o: Node, np: string, n: Node): Outcome {
    WalkAt(op, o, np, n, 0, 0)
  }

  /**
    report_recursively: nothing and failure if lstat or
    report_changed_file fails; otherwise the entry's line, then for a
    directory every entry of its snapshot in name order. A failing entry
    does not stop the others, but fails the whole; a directory that
    cannot be opened crashes right after its line.
   */
  function Recursive(how: bv32, p: string, n: Node): (r: Outcome)
    decreases n, 1
    ensures r.crashed ==> !r.ok && TypeOf(n) == DtDir
  {
    if n.stat.None? then Outcome([], false, false)
    else
      match ReportLine(how, p, n)
      case None => Outcome([], false, false)
      case Some(l) =>
        if TypeOf(n) != DtDir then Outcome([l], true, false)
        else if OpenDir(n).None? then Outcome([l], false, true)
        else Then(Outcome([l], true, false), RecursiveAll(how, p, n, 0))
  }

  /** report_recursively on the entries of the snapshot of `d` (at path
      `p`) from position `c` on (ftreecmp.c:284-290). */
  function RecursiveAll(how: bv32, p: string, d: Node, c: nat): (r: Outcome)
    requires c <= |Listing(d)|
    decreases d, 0, |Listing(d)| - c
    ensures r.crashed ==> !r.ok
  {
    if c == |Listing(d)| then Outcome([], true, false)
    else
      ListedChild(d, c);
      var e := Listing(d)[c];
      Then(Recursive(how, p + "/" + e.name, e.node), RecursiveAll(how, p, d, c + 1))
  }

  /** Old name first (ftreecmp.c:118-120): the old entry is reported
      REMOVED with all it holds, its status ignored, and the walk goes on
      with only the old cursor moved; a crash in the report ends it. */
  lemma WalkRemovedStep(op: string, o: Node, np: string, n: Node, oc: nat, nc: nat)
    requires oc < |Listing(o)| && nc < |Listing(n)|
    requires Strcmp(Listing(o)[oc].name, Listing(n)[nc].name) < 0
    ensures var e := Listing(o)[oc];
      var here := Recursive(REMOVED, op + "/" + e.name, e.node);
      var rest := WalkAt(op, o, np, n, oc + 1, nc);
      && (here.crashed ==> WalkAt(op, o, np, n, oc, nc) == Outcome(here.lines, false, true))
      && (!here.crashed ==>
            WalkAt(op, o, np, n, oc, nc) == Outcome(here.lines + rest.lines, rest.ok, rest.crashed))
  {
  }

  /** New name first (ftreecmp.c:121-123): the new entry is reported ADDED
      with all it holds, its status ignored, and only the new cursor moves. */
  lemma WalkAddedStep(op: string, o: Node, np: string, n: Node, oc: nat, nc: nat)
    requires oc < |Listing(o)| && nc < |Listing(n)|
    requires Strcmp(Listing(o)[oc].name, Listing(n)[nc].name) > 0
    ensures var e := Listing(n)[nc];
      var here := Recursive(ADDED, np + "/" + e.name, e.node);
      var rest := WalkAt(op, o, np, n, oc, nc + 1);
      && (here.crashed ==> WalkAt(op, o, np, n, oc, nc) == Outcome(here.lines, false, true))
      && (!here.crashed ==>
            WalkAt(op, o, np, n, oc, nc) == Outcome(here.lines + rest.lines, rest.ok, rest.crashed))
  {
  }

  /** Equal names (ftreecmp.c:124-128): the two entries are compared, the
      pair's status joins the walk's, and both cursors move. */
  lemma WalkMatchedStep(op: string, o: Node, np: string, n: Node, oc: nat, nc: nat)
    requires oc < |Listing(o)| && nc < |Listing(n)|
    requires Listing(o)[oc].name == Listing(n)[nc].name
    ensures var a, b := Listing(o)[oc], Listing(n)[nc];
      var here := Pair(op + "/" + a.name, a.node, np + "/" + b.name, b.node);
      var rest := WalkAt(op, o, np, n, oc + 1, nc + 1);
      && (here.crashed ==> WalkAt(op, o, np, n, oc, nc) == Outcome(here.lines, false, true))
      && (!here.crashed ==>
            WalkAt(op, o, np, n, oc, nc) ==
            Outcome(here.lines + rest.lines, here.ok && rest.ok, rest.crashed))
  {
    StrcmpZeroIffEqual(Listing(o)[oc].name, Listing(n)[nc].name);
  }

  // ------------------------------------------------------------------
  // The walk as the merge's decisions
  // ------------------------------------------------------------------

  /** Carrying out one decision: a removed or added entry is reported with
      all it contains, its status ignored; a matched pair is compared. */
  function Act(op: string, np: string, a: Action): Outcome {
    match a
    case Removed(e) => StatusIgnored(Recursive(REMOVED, op + "/" + e.name, e.node))
    case Added(e) => StatusIgnored(Recursive(ADDED, np + "/" + e.name, e.node))
    case Matched(x, y) => Pair(op + "/" + x.name, x.node, np + "/" + y.name, y.node)
  }

  /** The decisions carried out in order. Only the matched pairs decide the
      status; what report_recursively returns is ignored. */
  function Walk(op: string, np: string, acts: seq<Action>): Outcome
    decreases |acts|
  {
    if acts == [] then Outcome([], true, false)
    else Then(Act(op, np, acts[0]), Walk(op, np, acts[1..]))
  }

  /** The old side exhausted: the merge adds the new side's remaining
      entries, and carrying that out reports each recursively. */
  lemma {:induction false} WalkOnlyNew(op: string, np: string, n: Node, nc: nat)
    requires nc <= |Listing(n)|
    ensures Walk(op, np, Merge([], Listing(n)[nc..])) == StatusIgnored(RecursiveAll(ADDED, np, n, nc))
    decreases |Listing(n)| - nc
  {
    var ns := Listing(n);
    if nc < |ns| {
      WalkOnlyNew(op, np, n, nc + 1);
      var tail := Merge([], ns[nc + 1..]);
      assert ns[nc..][1..] == ns[nc + 1..];
      assert Merge([], ns[nc..]) == [Added(ns[nc])] + tail;
      assert ([Added(ns[nc])] + tail)[1..] == tail;
    } else {
      assert ns[nc..] == [];
    }
  }

  /** The new side exhausted: the merge removes the old side's remaining
      entries. */
  lemma {:induction false} WalkOnlyOld(op: string, np: string, o: Node, oc: nat)
    requires oc <= |Listing(o)|
    ensures Walk(op, np, Merge(Listing(o)[oc..], [])) == StatusIgnored(RecursiveAll(REMOVED, op, o, oc))
    decreases |Listing(o)| - oc
  {
    var os := Listing(o);
    if oc < |os| {
      WalkOnlyOld(op, np, o, oc + 1);
      var tail := Merge(os[oc + 1..], []);
      assert os[oc..][1..] == os[oc + 1..];
      assert Merge(os[oc..], []) == [Removed(os[oc])] + tail;
      assert ([Removed(os[oc])] + tail)[1..] == tail;
    } else {
      assert os[oc..] == [];
    }
  }

  /** Both sides non-empty: the merge's first decision is the one the
      loop's turn takes, and the rest is the merge of what the turn leaves. */
  lemma WalkStep(op: string, o: Node, np: string, n: Node, oc: nat, nc: nat)
    requires oc < |Listing(o)| && nc < |Listing(n)|
    ensures var t := TurnAt(op, o, np, n, oc, nc);
      Walk(op, np, Merge(Listing(o)[oc..], Listing(n)[nc..])) ==
      Then(t.out, Walk(op, np, Merge(Listing(o)[t.oc..], Listing(n)[t.nc..])))
  {
    var os, ns := Listing(o)[oc..], Listing(n)[nc..];
    assert os[1..] == Listing(o)[oc + 1..] && ns[1..] == Listing(n)[nc + 1..];
    var m := Merge(os, ns);
    assert m[1..] == Merge(Listing(o)[TurnAt(op, o, np, n, oc, nc).oc..], Listing(n)[TurnAt(op, o, np, n, oc, nc).nc..]);
  }

  /** The loop of compare_directories carries out, in order, exactly the
      decisions of the merge of the two remaining snapshots. */
  lemma {:induction false} WalkAtFollowsMerge(op: string, o: Node, np: string, n: Node, oc: nat, nc: nat)
    requires oc <= |Listing(o)| && nc <= |Listing(n)|
    ensures WalkAt(op, o, np, n, oc, nc) == Walk(op, np, Merge(Listing(o)[oc..], Listing(n)[nc..]))
    decreases |Listing(o)| - oc + |Listing(n)| - nc
  {
    if oc == |Listing(o)| {
      assert Listing(o)[oc..] == [];
      WalkOnlyNew(op, np, n, nc);
    } else if nc == |Listing(n)| {
      assert Listing(n)[nc..] == [];
      WalkOnlyOld(op, np, o, oc);
    } else {
      var t := TurnAt(op, o, np, n, oc, nc);
      WalkAtFollowsMerge(op, o, np, n, t.oc, t.nc);
      WalkStep(op, o, np, n, oc, nc);
    }
  }

  // ------------------------------------------------------------------
  // Properties of the walk
  // ------------------------------------------------------------------

  /** The comparison of a matched pair of entries succeeds. */
  predicate MatchedOk(op: string, np: string, act: Action)
    requires act.Matched?
  {
    Pair(op + "/" + act.before.name, act.before.node, np + "/" + act.after.name, act.after.node).ok
  }

  /** Carrying out decisions without a crash fails exactly when the
      comparison of some matched pair fails; added and removed subtrees
      never affect the status. */
  lemma {:induction false} WalkOkIffPairsOk(op: string, np: string, acts: seq<Action>)
    requires !Walk(op, np, acts).crashed
    ensures Walk(op, np, acts).ok <==>
      forall i :: 0 <= i < |acts| && acts[i].Matched? ==> MatchedOk(op, np, acts[i])
    decreases |acts|
  {
    if acts != [] {
      WalkOkIffPairsOk(op, np, acts[1..]);
      assert forall i :: 1 <= i < |acts| ==> acts[i] == acts[1..][i - 1];
    }
  }

  /** compare_directories, when it does not crash, fails exactly when the
      comparison of some pair of same-named entries fails
      (ftreecmp.c:122-126, 131). */
  lemma CompareDirsOkIffPairsOk(op: string, o: Node, np: string, n: Node)
    requires !CompareDirs(op, o, np, n).crashed
    ensures var acts := Merge(Listing(o), Listing(n));
      CompareDirs(op, o, np, n).ok <==>
        forall i :: 0 <= i < |acts| && acts[i].Matched? ==> MatchedOk(op, np, acts[i])
  {
    WalkAtFollowsMerge(op, o, np, n, 0, 0);
    assert Listing(o)[0..] == Listing(o) && Listing(n)[0..] == Listing(n);
    WalkOkIffPairsOk(op, np, Merge(Listing(o), Listing(n)));
  }

  /** Every line report_recursively writes, for the entry and everything
      below it, carries the same change bits and disposition. */
  lemma {:induction false} RecursiveUniform(how: bv32, p: string, n: Node)
    ensures forall l :: l in Recursive(how, p, n).lines ==> l.Change? && l.prefix == RenderChangeBits(how)
    decreases n, 1
  {
    if n.stat.Some? && ReportLine(how, p, n).Some? && TypeOf(n) == DtDir && OpenDir(n).Some? {
      RecursiveAllUniform(how, p, n, 0);
    }
  }

  lemma {:induction false} RecursiveAllUniform(how: bv32, p: string, d: Node, c: nat)
    requires c <= |Listing(d)|
    ensures forall l :: l in RecursiveAll(how, p, d, c).lines ==> l.Change? && l.prefix == RenderChangeBits(how)
    decreases d, 0, |Listing(d)| - c
  {
    if c < |Listing(d)| {
      ListedChild(d, c);
      var e := Listing(d)[c];
      RecursiveUniform(how, p + "/" + e.name, e.node);
      RecursiveAllUniform(how, p, d, c + 1);
    }
  }

  /** report_recursively writes the entry's own line first, and writes
      nothing at all, failing, when the entry cannot be reported. */
  lemma RecursiveHead(how: bv32, p: string, n: Node)
    ensures Recursive(how, p, n).lines != [] <==> ReportLine(how, p, n).Some?
    ensures ReportLine(how, p, n).Some? ==> Recursive(how, p, n).lines[0] == ReportLine(how, p, n).value
    ensures ReportLine(how, p, n).None? ==> !Recursive(how, p, n).ok && !Recursive(how, p, n).crashed
    ensures TypeOf(n) != DtDir ==> Recursive(how, p, n).lines == Lines(ReportLine(how, p, n))
  {
  }

  /** report_recursively crashes exactly on a directory, reported, that
      cannot be opened, or on a crash below one it could open. */
  lemma RecursiveCrash(how: bv32, p: string, n: Node)
    ensures Recursive(how, p, n).crashed <==>
      && n.stat.Some? && ReportLine(how, p, n).Some? && TypeOf(n) == DtDir
      && (OpenDir(n).None? || RecursiveAll(how, p, n, 0).crashed)
  {
  }

  /** An entry of the snapshot of a directory whose subdirectories can all
      be opened has the same property. */
  lemma ListedReadable(d: Node, c: nat)
    requires DirsReadable(d) && c < |Listing(d)|
    ensures DirsReadable(Listing(d)[c].node)
  {
    ListedChild(d, c);
    var i :| 0 <= i < |d.body.entries| && d.body.entries[i] == Listing(d)[c];
  }

  /** A tree whose directories can all be opened is reported recursively
      without a crash, whatever the other system calls do. */
  lemma {:induction false} ReadableNeverCrashes(how: bv32, p: string, n: Node)
    requires DirsReadable(n)
    ensures !Recursive(how, p, n).crashed
    decreases n, 1
  {
    if ReportLine(how, p, n).Some? && TypeOf(n) == DtDir {
      ReadableTailNeverCrashes(how, p, n, 0);
    }
  }

  lemma {:induction false} ReadableTailNeverCrashes(how: bv32, p: string, d: Node, c: nat)
    requires DirsReadable(d) && c <= |Listing(d)|
    ensures !RecursiveAll(how, p, d, c).crashed
    decreases d, 0, |Listing(d)| - c
  {
    if c < |Listing(d)| {
      ListedChild(d, c);
      ListedReadable(d, c);
      var e := Listing(d)[c];
      ReadableNeverCrashes(how, p + "/" + e.name, e.node);
      ReadableTailNeverCrashes(how, p, d, c + 1);
    }
  }

  /** compare_files on two trees whose directories can all be opened never
      crashes, however much the trees differ. */
  lemma {:induction false} ReadablePairNeverCrashes(op: string, o: Node, np: string, n: Node)
    requires DirsReadable(o) && DirsReadable(n)
    ensures !Pair(op, o, np, n).crashed
    decreases o, 2
  {
    if TypeOf(o) == TypeOf(n) && o.stat.Some? && n.stat.Some? && TypeOf(o) == DtDir {
      ReadableWalkNeverCrashes(op, o, np, n, 0, 0);
    }
  }

  /** The same for the walk of two such directories from any cursors. */
  lemma {:induction false} ReadableWalkNeverCrashes(op: string, o: Node, np: string, n: Node, oc: nat, nc: nat)
    requires DirsReadable(o) && DirsReadable(n)
    requires oc <= |Listing(o)| && nc <= |Listing(n)|
    ensures !WalkAt(op, o, np, n, oc, nc).crashed
    decreases o, 1, |Listing(o)| - oc + |Listing(n)| - nc
  {
    if oc == |Listing(o)| {
      ReadableTailNeverCrashes(ADDED, np, n, nc);
    } else if nc == |Listing(n)| {
      ReadableTailNeverCrashes(REMOVED, op, o, oc);
    } else {
      ListedChild(o, oc);
      ListedReadable(o, oc);
      ListedReadable(n, nc);
      var a, b := Listing(o)[oc], Listing(n)[nc];
      var rv := Strcmp(a.name, b.name);
      if rv < 0 {
        ReadableNeverCrashes(REMOVED, op + "/" + a.name, a.node);
      } else if rv > 0 {
        ReadableNeverCrashes(ADDED, np + "/" + b.name, b.node);
      } else {
        ReadablePairNeverCrashes(op + "/" + a.name, a.node, np + "/" + b.name, b.node);
      }
      var t := TurnAt(op, o, np, n, oc, nc);
      ReadableWalkNeverCrashes(op, o, np, n, t.oc, t.nc);
    }
  }

  /** compare_directories on two directories whose subdirectories can all
      be opened returns. */
  lemma ReadableDirsNeverCrash(op: string, o: Node, np: string, n: Node)
    requires DirsReadable(o) && DirsReadable(n)
    ensures !CompareDirs(op, o, np, n).crashed
  {
    ReadableWalkNeverCrashes(op, o, np, n, 0, 0);
  }

  /**
    In a filesystem no directory holds two entries of the same name. For
    such directories, compare_directories reports an entry of the old
    snapshot removed exactly when the new one has no entry of that name,
    an entry of the new snapshot added exactly when the old one has none,
    and compares exactly the pairs that share a name.
   */
  lemma DirsClassify(o: Node, n: Node)
    requires o.body.Directory? && UniqueNames(o.body.entries)
    requires n.body.Directory? && UniqueNames(n.body.entries)
    ensures var os, ns := Listing(o), Listing(n);
      && (forall e :: Removed(e) in Merge(os, ns) <==> e in os && !HasName(ns, e.name))
      && (forall e :: Added(e) in Merge(os, ns) <==> e in ns && !HasName(os, e.name))
      && (forall a, b :: Matched(a, b) in Merge(os, ns) <==> a in os && b in ns && a.name == b.name)
  {
    ListingStrictlySorted(o);
    ListingStrictlySorted(n);
    MergeClassifies(Listing(o), Listing(n));
  }

  // ------------------------------------------------------------------
  // Properties of a matched pair
  // ------------------------------------------------------------------

  /** Entries of different types are reported as a bare removal and a bare
      addition, and nothing below them: no stat comparison, no descent, and
      the comparison succeeds whatever the reports do (ftreecmp.c:200-202).
      When both entries can be reported these are exactly two lines. */
  lemma TypeChangeReportsTwoLines(op: string, o: Node, np: string, n: Node)
    requires TypeOf(o) != TypeOf(n)
    ensures Pair(op, o, np, n).ok && !Pair(op, o, np, n).crashed
    ensures Pair(op, o, np, n).lines == Lines(ReportLine(REMOVED, op, o)) + Lines(ReportLine(ADDED, np, n))
    ensures ReportLine(REMOVED, op, o).Some? && ReportLine(ADDED, np, n).Some? ==>
      && |Pair(op, o, np, n).lines| == 2
      && Pair(op, o, np, n).lines[0].Change? && Pair(op, o, np, n).lines[0].path == op
      && Pair(op, o, np, n).lines[0].prefix == "   - ... "
      && Pair(op, o, np, n).lines[1].Change? && Pair(op, o, np, n).lines[1].path == np
      && Pair(op, o, np, n).lines[1].prefix == "   + ... "
  {
    assert (0 as bv32) | REMOVED == REMOVED && (0 as bv32) | ADDED == ADDED;
  }

  /** A failing lstat on a same-type pair fails the comparison, silently,
      and nothing is opened (ftreecmp.c:207-208). */
  lemma StatFailureIsSilent(op: string, o: Node, np: string, n: Node)
    requires TypeOf(o) == TypeOf(n)
    requires o.stat.None? || n.stat.None?
    ensures Pair(op, o, np, n) == Outcome([], false, false)
  {
  }

  /**
    Two same-type entries that are not directories and whose stat calls
    succeed: no lines when nothing changed; otherwise the old entry's
    line with the change bits and '-', then the new entry's with '+'
    (ftreecmp.c:246-249). The status fails only on an unreadable link.
   */
  lemma ChangedPairReports(op: string, o: Node, np: string, n: Node)
    requires TypeOf(o) == TypeOf(n) && TypeOf(o) != DtDir
    requires o.stat.Some? && n.stat.Some?
    ensures !Pair(op, o, np, n).crashed
    ensures Pair(op, o, np, n).ok == LinksReadable(o, n)
    ensures PairFlags(o, n) == 0 ==> Pair(op, o, np, n).lines == []
    ensures PairFlags(o, n) != 0 ==>
      Pair(op, o, np, n).lines == Reports(PairFlags(o, n), op, o, np, n)
    ensures PairFlags(o, n) != 0 && LinksReadable(o, n) ==>
      var ls := Pair(op, o, np, n).lines;
      && |ls| == 2
      && ls[0].Change? && ls[0].path == op && ls[0].prefix == RenderChangeBits(PairFlags(o, n) | REMOVED)
      && ls[1].Change? && ls[1].path == np && ls[1].prefix == RenderChangeBits(PairFlags(o, n) | ADDED)
  {
  }

  /**
    Two directories whose stat calls succeed: their two lines when a change
    bit is set, then the walk of their two snapshots, whatever the bits,
    whose status becomes the pair's (ftreecmp.c:246-260); a crash right
    after those lines if either cannot be opened. Directories have no data
    check, so only CRIT and MODE can be set.
   */
  lemma DirPairReports(op: string, o: Node, np: string, n: Node)
    requires TypeOf(o) == DtDir && TypeOf(n) == DtDir
    requires o.stat.Some? && n.stat.Some?
    ensures PairFlags(o, n) & DATA == 0
    ensures var shown := if PairFlags(o, n) != 0 then Reports(PairFlags(o, n), op, o, np, n) else [];
      && (OpenDir(o).None? || OpenDir(n).None? ==> Pair(op, o, np, n) == Outcome(shown, false, true))
      && (OpenDir(o).Some? && OpenDir(n).Some? ==>
            && Pair(op, o, np, n).lines == shown + CompareDirs(op, o, np, n).lines
            && Pair(op, o, np, n).ok == CompareDirs(op, o, np, n).ok
            && Pair(op, o, np, n).crashed == CompareDirs(op, o, np, n).crashed)
  {
    PairFlagsMeaning(o, n);
  }

  /** A pair whose only difference is a permission bit outside the
      privileged ones shows "M" alone. */
  lemma PermissionOnlyChange(a: Stat, b: Stat)
    requires a.uid == b.uid && a.gid == b.gid
    requires a.mode & SPECIAL_BITS == b.mode & SPECIAL_BITS
    requires a.mode & ALLPERMS != b.mode & ALLPERMS
    ensures ChangeFlags(a, b) == MODE
    ensures RenderChangeBits(ChangeFlags(a, b) | REMOVED) == "   - .M. "
  {
    assert ChangeFlags(a, b) | REMOVED == 0x22;
  }

  /** A set-user-id change shows "CM". */
  lemma SetuidChange(a: Stat, b: Stat)
    requires a.uid == b.uid && a.gid == b.gid
    requires a.mode ^ b.mode == S_ISUID
    ensures ChangeFlags(a, b) == CRIT | MODE
    ensures RenderChangeBits(ChangeFlags(a, b) | ADDED) == "   + CM. "
  {
  }

  /** An owner change alone shows "C". */
  lemma OwnerChange(a: Stat, b: Stat)
    requires a.uid != b.uid && a.mode == b.mode
    ensures ChangeFlags(a, b) == CRIT
    ensures RenderChangeBits(ChangeFlags(a, b) | REMOVED) == "   - C.. "
  {
  }

  // ------------------------------------------------------------------
  // Identical trees
  // ------------------------------------------------------------------

  /** Merging a listing with itself matches every entry with itself. */
  lemma {:induction false} MergeSelf(s: seq<Entry>)
    ensures |Merge(s, s)| == |s|
    ensures forall i :: 0 <= i < |s| ==> Merge(s, s)[i] == Matched(s[i], s[i])
    decreases |s|
  {
    if s != [] {
      StrcmpZeroIffEqual(s[0].name, s[0].name);
      MergeSelf(s[1..]);
      assert Merge(s, s) == [Matched(s[0], s[0])] + Merge(s[1..], s[1..]);
    }
  }

  /** Comparing a tree in which every system call succeeds with itself
      reports nothing and succeeds. */
  lemma {:induction false} IdenticalPairIsQuiet(op: string, np: string, n: Node)
    requires Healthy(n)
    ensures Pair(op, n, np, n) == Outcome([], true, false)
    decreases n, 2
  {
    var st := n.stat.value;
    assert st.mode ^ st.mode == 0;
    assert ChangeFlags(st, st) == 0;
    if TypeOf(n) == DtDir {
      IdenticalWalkIsQuiet(op, np, n, 0);
    }
  }

  /** The walk of a healthy directory against itself, both cursors at `c`,
      matches every remaining entry with itself and reports nothing. */
  lemma {:induction false} IdenticalWalkIsQuiet(op: string, np: string, n: Node, c: nat)
    requires Healthy(n) && c <= |Listing(n)|
    ensures WalkAt(op, n, np, n, c, c) == Outcome([], true, false)
    decreases n, 1, |Listing(n)| - c
  {
    if c < |Listing(n)| {
      ListedChild(n, c);
      var e := Listing(n)[c];
      var i :| 0 <= i < |n.body.entries| && n.body.entries[i] == e;
      StrcmpZeroIffEqual(e.name, e.name);
      IdenticalPairIsQuiet(op + "/" + e.name, np + "/" + e.name, e.node);
      IdenticalWalkIsQuiet(op, np, n, c + 1);
    }
  }

  /** compare_directories on a healthy directory and itself is silent and
      succeeds. */
  lemma IdenticalDirsAreQuiet(op: string, np: string, n: Node)
    requires Healthy(n)
    ensures CompareDirs(op, n, np, n) == Outcome([], true, false)
  {
    IdenticalWalkIsQuiet(op, np, n, 0);
  }
}
