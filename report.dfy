/**
  The reporter (report.c): the string builders that render a mode and a
  set of change bits, the header-once line counter, the legend, and the
  one line report_changed_file writes per entry.
 */
module Report {
  import opened Flags
  import opened FileSystem
  import opened Fstate

  // ------------------------------------------------------------------
  // Rendering
  // ------------------------------------------------------------------

  /** The S_IFMT values ls(1) knows a letter for. */
  predicate KnownFileType(t: bv32) {
    t == S_IFDIR || t == S_IFREG || t == S_IFCHR || t == S_IFBLK ||
    t == S_IFLNK || t == S_IFSOCK || t == S_IFIFO
  }

  /** mode_to_filetype: the type letter of a mode; '?' when S_IFMT holds no
      known type. */
  function ModeToFiletype(mode: bv32): (c: char)
    ensures c == '?' <==> !KnownFileType(mode & S_IFMT)
  {
    var t := mode & S_IFMT;
    if t == S_IFDIR then 'd'
    else if t == S_IFREG then '-'
    else if t == S_IFCHR then 'c'
    else if t == S_IFBLK then 'b'
    else if t == S_IFLNK then 'l'
    else if t == S_IFSOCK then 's'
    else if t == S_IFIFO then 'f'
    else '?'
  }

  /** __bit_to_sym: one character for whether any bit of `mask` is set. */
  function BitToSym(mode: bv32, mask: bv32, ifSet: char, ifNotSet: char): (c: char)
    ensures c == ifSet || c == ifNotSet
    ensures ifSet != ifNotSet ==> (c == ifSet <==> mode & mask != 0)
  {
    if mode & mask != 0 then ifSet else ifNotSet
  }

  /** mode_bit_to_sym: a permission letter or '-'. */
  function ModeBitToSym(mode: bv32, mask: bv32, cc: char): (c: char)
    ensures c == cc || c == '-'
    ensures cc != '-' ==> (c == cc <==> mode & mask != 0)
  {
    BitToSym(mode, mask, cc, '-')
  }

  /** toupper(3) on the ASCII letters. */
  function ToUpper(c: char): char {
    if 'a' <= c <= 'z' then (c as int - 32) as char else c
  }

  /**
    mode_bit_to_sym2: an execute bit folded together with a special bit:
    both set gives the special letter, only execute gives `cc1`, only the
    special bit gives the special letter upper-cased, neither gives '-'.
   */
  function ModeBitToSym2(mode: bv32, mask1: bv32, cc1: char, mask2: bv32, cc2: char): (c: char)
    ensures mode & mask1 != 0 && mode & mask2 != 0 ==> c == cc2
    ensures mode & mask1 != 0 && mode & mask2 == 0 ==> c == cc1
    ensures mode & mask1 == 0 && mode & mask2 != 0 ==> c == ToUpper(cc2)
    ensures mode & mask1 == 0 && mode & mask2 == 0 ==> c == '-'
  {
    if mode & mask1 != 0 then
      if mode & mask2 != 0 then cc2 else cc1
    else if mode & mask2 != 0 then ToUpper(cc2)
    else '-'
  }

  /** change_bit_to_sym: a change letter or '.'. */
  function ChangeBitToSym(how: bv32, mask: bv32, cc: char): (c: char)
    ensures c == cc || c == '.'
    ensures cc != '.' ==> (c == '.' <==> how & mask == 0)
  {
    BitToSym(how, mask, cc, '.')
  }

  /**
    symbolic_permissions: the ten characters ls -l shows, the type letter
    then the user, group and other triples, with set-user-id, set-group-id
    and sticky folded into the execute positions.
   */
  function SymbolicPermissions(mode: bv32): (r: string)
    ensures |r| == 10 && r[0] == ModeToFiletype(mode)
  {
    [ ModeToFiletype(mode),
      ModeBitToSym(mode, S_IRUSR, 'r'),
      ModeBitToSym(mode, S_IWUSR, 'w'),
      ModeBitToSym2(mode, S_IXUSR, 'x', S_ISUID, 's'),
      ModeBitToSym(mode, S_IRGRP, 'r'),
      ModeBitToSym(mode, S_IWGRP, 'w'),
      ModeBitToSym2(mode, S_IXGRP, 'x', S_ISGID, 's'),
      ModeBitToSym(mode, S_IROTH, 'r'),
      ModeBitToSym(mode, S_IWOTH, 'w'),
      ModeBitToSym2(mode, S_IXOTH, 'x', S_ISVTX, 't') ]
  }

  /** The disposition a rendered prefix shows: ADDED wins over REMOVED. */
  function Disposition(how: bv32): bv32 {
    if how & ADDED != 0 then ADDED
    else if how & REMOVED != 0 then REMOVED
    else 0
  }

  /**
    __render_change_bits: three blanks, '+', '-' or '?' for the
    disposition, a blank, one of C/M/D or '.' per change bit, a blank.
   */
  function RenderChangeBits(how: bv32): (r: string)
    ensures |r| == 9 && r[..3] == "   " && r[4] == ' ' && r[8] == ' '
    ensures r[3] == '?' <==> how & (ADDED | REMOVED) == 0
    ensures (r[5] == '.') == (how & CRIT == 0) && (r[6] == '.') == (how & MODE == 0)
    ensures r[7] == '.' <==> how & DATA == 0
  {
    var sign := if how & ADDED != 0 then '+' else if how & REMOVED != 0 then '-' else '?';
    [ ' ', ' ', ' ', sign, ' ',
      ChangeBitToSym(how, CRIT, 'C'),
      ChangeBitToSym(how, MODE, 'M'),
      ChangeBitToSym(how, DATA, 'D'),
      ' ' ]
  }

  // ---- decoders: what a reader of the report recovers ----

  /** Which of execute and special a folded character stands for. */
  function ReadSym2(c: char, cc: char): (bool, bool) {
    if c == 'x' then (true, false)
    else if c == cc then (true, true)
    else if c == ToUpper(cc) then (false, true)
    else (false, false)
  }

  /** Which of the twelve permission bits `mode` has set, in the order a
      mode string shows them, each folded position standing for an execute
      bit and a special bit. */
  function ShownBits(mode: bv32): seq<bool> {
    [ mode & S_IRUSR != 0, mode & S_IWUSR != 0, mode & S_IXUSR != 0, mode & S_ISUID != 0,
      mode & S_IRGRP != 0, mode & S_IWGRP != 0, mode & S_IXGRP != 0, mode & S_ISGID != 0,
      mode & S_IROTH != 0, mode & S_IWOTH != 0, mode & S_IXOTH != 0, mode & S_ISVTX != 0 ]
  }

  /** The permission bits a ten-character mode string shows set, in the
      order of ShownBits. */
  function ParsePermissions(s: string): seq<bool>
    requires |s| == 10
  {
    var u, g, o := ReadSym2(s[3], 's'), ReadSym2(s[6], 's'), ReadSym2(s[9], 't');
    [ s[1] == 'r', s[2] == 'w', u.0, u.1,
      s[4] == 'r', s[5] == 'w', g.0, g.1,
      s[7] == 'r', s[8] == 'w', o.0, o.1 ]
  }

  /** The S_IFMT value a type letter stands for (0 for '?'). */
  function ParseFiletype(c: char): bv32 {
    if c == 'd' then S_IFDIR
    else if c == '-' then S_IFREG
    else if c == 'c' then S_IFCHR
    else if c == 'b' then S_IFBLK
    else if c == 'l' then S_IFLNK
    else if c == 's' then S_IFSOCK
    else if c == 'f' then S_IFIFO
    else 0
  }

  /** The flags a nine-character change prefix stands for. */
  function ParseChangeBits(s: string): bv32
    requires |s| == 9
  {
    (if s[3] == '+' then ADDED else if s[3] == '-' then REMOVED else 0) |
    (if s[5] == 'C' then CRIT else 0) |
    (if s[6] == 'M' then MODE else 0) |
    (if s[7] == 'D' then DATA else 0)
  }

  /**
    The mode string loses nothing the report means to show: the type (when
    it is a known one) and each of the twelve permission bits can be read
    back, the special bits included although they share a column with
    execute.
   */
  lemma PermissionsRoundTrip(mode: bv32)
    ensures ParsePermissions(SymbolicPermissions(mode)) == ShownBits(mode)
    ensures KnownFileType(mode & S_IFMT) ==>
      ParseFiletype(SymbolicPermissions(mode)[0]) == mode & S_IFMT
  {
    var s := SymbolicPermissions(mode);
    ReadSym2Back(mode, S_IXUSR, S_ISUID, 's');
    ReadSym2Back(mode, S_IXGRP, S_ISGID, 's');
    ReadSym2Back(mode, S_IXOTH, S_ISVTX, 't');
    assert (s[1] == 'r') == (mode & S_IRUSR != 0) && (s[2] == 'w') == (mode & S_IWUSR != 0);
    assert (s[4] == 'r') == (mode & S_IRGRP != 0) && (s[5] == 'w') == (mode & S_IWGRP != 0);
    assert (s[7] == 'r') == (mode & S_IROTH != 0) && (s[8] == 'w') == (mode & S_IWOTH != 0);
  }

  /** A position of the mode string shows '-' exactly when none of the
      bits it stands for is set. */
  lemma PermissionDashes(mode: bv32)
    ensures var r := SymbolicPermissions(mode);
      && (r[1] == '-') == (mode & S_IRUSR == 0) && (r[2] == '-') == (mode & S_IWUSR == 0)
      && (r[4] == '-') == (mode & S_IRGRP == 0) && (r[5] == '-') == (mode & S_IWGRP == 0)
      && (r[7] == '-') == (mode & S_IROTH == 0) && (r[8] == '-') == (mode & S_IWOTH == 0)
      && (r[3] == '-') == (mode & S_IXUSR == 0 && mode & S_ISUID == 0)
      && (r[6] == '-') == (mode & S_IXGRP == 0 && mode & S_ISGID == 0)
      && (r[9] == '-') == (mode & S_IXOTH == 0 && mode & S_ISVTX == 0)
  {
  }

  /** A folded execute/special position tells both of its bits apart,
      whichever of the four letters it shows. */
  lemma ReadSym2Back(mode: bv32, exec: bv32, special: bv32, cc: char)
    requires cc == 's' || cc == 't'
    ensures ReadSym2(ModeBitToSym2(mode, exec, 'x', special, cc), cc) ==
      (mode & exec != 0, mode & special != 0)
  {
    assert ToUpper(cc) == (if cc == 's' then 'S' else 'T');
  }

  /** The twelve shown bits are exactly ALLPERMS: two modes show the same
      bits iff they agree on ALLPERMS. */
  lemma ShownBitsAreAllPerms(m1: bv32, m2: bv32)
    ensures ShownBits(m1) == ShownBits(m2) <==> m1 & ALLPERMS == m2 & ALLPERMS
  {
    if ShownBits(m1) == ShownBits(m2) {
      SameShownBitsSamePerms(m1, m2);
    }
    if m1 & ALLPERMS == m2 & ALLPERMS {
      AllPermsDeterminesBits(m1, m2);
    }
  }

  lemma SameShownBitsSamePerms(m1: bv32, m2: bv32)
    requires ShownBits(m1) == ShownBits(m2)
    ensures m1 & ALLPERMS == m2 & ALLPERMS
  {
    var b1, b2 := ShownBits(m1), ShownBits(m2);
    assert b1[0] == b2[0] && b1[1] == b2[1] && b1[2] == b2[2] && b1[3] == b2[3];
    assert b1[4] == b2[4] && b1[5] == b2[5] && b1[6] == b2[6] && b1[7] == b2[7];
    assert b1[8] == b2[8] && b1[9] == b2[9] && b1[10] == b2[10] && b1[11] == b2[11];
    AgreeingBitsAgreeOnAllPerms(m1, m2);
  }

  lemma AgreeingBitsAgreeOnAllPerms(m1: bv32, m2: bv32)
    requires (m1 & S_IRUSR != 0) == (m2 & S_IRUSR != 0) && (m1 & S_IWUSR != 0) == (m2 & S_IWUSR != 0)
    requires (m1 & S_IXUSR != 0) == (m2 & S_IXUSR != 0) && (m1 & S_ISUID != 0) == (m2 & S_ISUID != 0)
    requires (m1 & S_IRGRP != 0) == (m2 & S_IRGRP != 0) && (m1 & S_IWGRP != 0) == (m2 & S_IWGRP != 0)
    requires (m1 & S_IXGRP != 0) == (m2 & S_IXGRP != 0) && (m1 & S_ISGID != 0) == (m2 & S_ISGID != 0)
    requires (m1 & S_IROTH != 0) == (m2 & S_IROTH != 0) && (m1 & S_IWOTH != 0) == (m2 & S_IWOTH != 0)
    requires (m1 & S_IXOTH != 0) == (m2 & S_IXOTH != 0) && (m1 & S_ISVTX != 0) == (m2 & S_ISVTX != 0)
    ensures m1 & ALLPERMS == m2 & ALLPERMS
  {
  }

  lemma AllPermsDeterminesBits(m1: bv32, m2: bv32)
    requires m1 & ALLPERMS == m2 & ALLPERMS
    ensures ShownBits(m1) == ShownBits(m2)
  {
  }

  /** Two modes render alike exactly when they agree on the type letter and
      on every permission bit. */
  lemma PermissionsRenderInjective(m1: bv32, m2: bv32)
    ensures SymbolicPermissions(m1) == SymbolicPermissions(m2) <==>
      ModeToFiletype(m1) == ModeToFiletype(m2) && m1 & ALLPERMS == m2 & ALLPERMS
  {
    if SymbolicPermissions(m1) == SymbolicPermissions(m2) {
      PermissionsRoundTrip(m1);
      PermissionsRoundTrip(m2);
    }
    ShownBitsAreAllPerms(m1, m2);
  }

  /** The prefix shows every change bit and the disposition, ADDED taking
      precedence when both dispositions are set. */
  lemma ChangeBitsRoundTrip(how: bv32)
    ensures ParseChangeBits(RenderChangeBits(how)) == (how & CHANGE_MASK) | Disposition(how)
  {
  }

  // ------------------------------------------------------------------
  // Report lines
  // ------------------------------------------------------------------

  /** The type-specific part of a change line. */
  datatype Detail =
    | InodeDetail                       // __report_inode
    | RegularDetail(size: nat)          // __report_regular_file
    | SymlinkDetail(dest: string)       // __report_symlink
    | DeviceDetail(rdev: nat)           // __report_device

  /** One report_printf call: a fixed text, or a change line made of the
      rendered change bits, the rendered mode, the owner, the type-specific
      detail and the path. */
  datatype Line =
    | Text(text: string)
    | Change(prefix: string, perms: string, uid: nat, gid: nat, detail: Detail, path: string)

  function HeaderLine(packageName: string): Line {
    Text(packageName + ": file changes\n")
  }

  /** The lines __render_change_bit_legend prints. */
  function Legend(): (r: seq<Line>)
    ensures |r| == 7 && forall i :: 0 <= i < |r| ==> r[i].Text?
  {
    [ Text("\nDescription of change bits:\n"),
      Text(" +   added\n"),
      Text(" -   removed\n"),
      Text(" C   critical change (file type, owner, set*id bits etc)\n"),
      Text(" M   mode change (file permissions)\n"),
      Text(" D   data change (file content, symlink target, device major/minor)\n"),
      Text("\n") ]
  }

  /** What standard output holds after the given report_printf calls: the
      header, once, in front of the first of them. */
  function Printed(packageName: string, written: seq<Line>): seq<Line> {
    if written == [] then [] else [HeaderLine(packageName)] + written
  }

  /**
    The line report_changed_file writes for a node reported with `how` at
    `path`: none if lstat fails or a symbolic link cannot be read;
    otherwise one line whose detail depends on the entry's type.
   */
  function ReportLine(how: bv32, path: string, n: Node): (r: Option<Line>)
    ensures r.Some? <==> n.stat.Some? && (n.body.Symlink? ==> LinkTarget(n).Some?)
    ensures r.Some? ==>
      && r.value.Change? && r.value.path == path
      && r.value.prefix == RenderChangeBits(how)
      && r.value.perms == SymbolicPermissions(n.stat.value.mode)
      && r.value.uid == n.stat.value.uid && r.value.gid == n.stat.value.gid
    ensures r.Some? && n.body.Regular? ==> r.value.detail == RegularDetail(n.stat.value.size)
    ensures r.Some? && n.body.Symlink? ==> r.value.detail == SymlinkDetail(LinkTarget(n).value)
    ensures r.Some? && (n.body.CharDevice? || n.body.BlockDevice?) ==>
      r.value.detail == DeviceDetail(n.stat.value.rdev)
    ensures r.Some? && (n.body.Directory? || n.body.Fifo? || n.body.Socket?) ==>
      r.value.detail == InodeDetail
  {
    match n.stat
    case None => None
    case Some(st) =>
      var pfx := RenderChangeBits(how);
      var perms := SymbolicPermissions(st.mode);
      match n.body
      case Regular(_, _, _) => Some(Change(pfx, perms, st.uid, st.gid, RegularDetail(st.size), path))
      case Symlink(target) =>
        if target.None? then None
        else Some(Change(pfx, perms, st.uid, st.gid, SymlinkDetail(target.value), path))
      case CharDevice => Some(Change(pfx, perms, st.uid, st.gid, DeviceDetail(st.rdev), path))
      case BlockDevice => Some(Change(pfx, perms, st.uid, st.gid, DeviceDetail(st.rdev), path))
      case _ => Some(Change(pfx, perms, st.uid, st.gid, InodeDetail, path))
  }

  function Lines(l: Option<Line>): (r: seq<Line>)
    ensures |r| <= 1
  {
    if l.Some? then [l.value] else []
  }

  /** struct report: the package name and the count of report_printf calls.
      `output` stands for standard output; `written` lists the lines handed
      to report_printf. */
  class Report {
    const packageName: string
    var linesWritten: nat
    var output: seq<Line>
    ghost var written: seq<Line>

    ghost predicate Valid()
      reads this
    {
      linesWritten == |written| && output == Printed(packageName, written)
    }

    /** report_new: a missing package name becomes "<unknown package>". */
    constructor (name: Option<string>)
      ensures Valid()
      ensures packageName == (if name.None? then "<unknown package>" else name.value)
      ensures linesWritten == 0 && written == [] && output == []
    {
      packageName := if name.None? then "<unknown package>" else name.value;
      linesWritten := 0;
      output := [];
      written := [];
    }

    /** report_printf: the header goes out before the first line only. */
    method Printf(line: Line)
      requires Valid()
      modifies this
      ensures Valid()
      ensures written == old(written) + [line]
      ensures linesWritten == old(linesWritten) + 1
      ensures output == old(output) +
        (if old(linesWritten) == 0 then [HeaderLine(packageName)] else []) + [line]
    {
      if linesWritten == 0 {
        output := output + [HeaderLine(packageName)];
      }
      linesWritten := linesWritten + 1;
      output := output + [line];
      written := written + [line];
    }

    /** report_free: the legend follows iff at least one line was written. */
    method Free()
      requires Valid()
      modifies this
      ensures Valid()
      ensures output == old(output) + (if old(linesWritten) > 0 then Legend() else [])
    {
      if linesWritten > 0 {
        var legend := Legend();
        var i := 0;
        while i < |legend|
          invariant 0 <= i <= |legend|
          invariant Valid() && linesWritten > 0
          invariant output == old(output) + legend[..i]
        {
          Printf(legend[i]);
          assert legend[..i + 1] == legend[..i] + [legend[i]];
          i := i + 1;
        }
        assert legend[..|legend|] == legend;
      }
    }

    /**
      report_changed_file: stats the entry (and reads a link's target),
      then writes the one line its type calls for. False, and nothing
      written, if either system call fails.
     */
    method ChangedFile(how: bv32, fs: FState) returns (ok: bool)
      requires Valid() && fs.Valid() && fs.parent != null
      modifies this, fs`path, fs`stb, fs`linkDest
      ensures Valid() && fs.Valid()
      ensures ok == ReportLine(how, fs.FullPath(), fs.inode).Some?
      ensures written == old(written) + Lines(ReportLine(how, fs.FullPath(), fs.inode))
    {
      var stb := fs.Lstat();
      if stb.None? {
        return false;
      }
      var st := stb.value;
      var pfx := RenderChangeBits(how);
      var perms := SymbolicPermissions(st.mode);
      var detail: Detail;
      match fs.ftype {
        case DtReg =>
          detail := RegularDetail(st.size);
        case DtLnk =>
          var dest := fs.Readlink();
          if dest.None? {
            return false;
          }
          detail := SymlinkDetail(dest.value);
        case DtChr =>
          detail := DeviceDetail(st.rdev);
        case DtBlk =>
          detail := DeviceDetail(st.rdev);
        case _ =>
          detail := InodeDetail;
      }
      var path := fs.Path();
      Printf(Change(pfx, perms, st.uid, st.gid, detail, path));
      ok := true;
    }
  }
}
