# ftreecmp: a verified model of the tree-differencing engine

ftreecmp compares an "old" and a "new" directory tree. For each name it
reports whether the entry was removed, added or changed in place. A change
in place carries flags that say what differs: CRIT for the owner, the group
or the set-user-id, set-group-id and sticky bits, MODE for the permission
bits, DATA for the content. An entry whose type changed is reported as
removed and added instead. The program exits with a failure status when
either root directory cannot be read, or when comparing a same-named pair
fails: an lstat or a readlink fails. Failures while reporting an added or
removed subtree do not count, and an open or read error on a file's content
counts as a content difference. This project models the engine in Dafny and
proves the model's contracts.

The model covers:

- the sorted merge-walk of two directory snapshots (`compare_directories`);
- the classification of a matched pair (`compare_files`);
- the chunked content comparison (`compare_regular_files`);
- the recursive reporting of added or removed subtrees (`report_recursively`);
- the snapshot and entry objects with their cached metadata (fstate.c);
- the reporter and its string builders (report.c);
- the flag constants (fstate.h).

The files:

- `flags.dfy` (module `Flags`): the `FSTATE_CHANGED_*` bits and the
  `st_mode` bits, as `bv32` constants.
- `filesystem.dfy` (module `FileSystem`): the filesystem as a tree value,
  `Node(stat, body)`. Every system call is an oracle over a node, and each
  can fail. `lstat` is the node's `stat` (None means it fails). `readlink`
  is `LinkTarget`, `opendir`/`readdir` is `OpenDir`, and `read` of one
  8192-byte chunk is `ReadAt`.
- `names.dfy` (module `Names`): `strcmp` and the order it defines. It also
  holds the filter that drops "." and "..", and the sort of a snapshot.
  `Listing(n)` is what a snapshot of `n` holds once read.
- `fstate.dfy` (module `Fstate`): `struct fstate` as class `FState`, whose
  path, stat buffer and link target are filled on first use. `struct
  dstate` is class `DState`: an `array` that grows in blocks of 16, with a
  count and a cursor.
- `report.dfy` (module `Report`): the string builders, and class `Report`.
  That class keeps the line counter, standard output, and the lines handed
  to `report_printf`.
- `merge.dfy` (module `MergeWalk`): `Merge`, the list of decisions the
  merge loop makes (removed, added, matched). It proves that every entry is
  consumed by exactly one decision, in its snapshot's order, and that the
  decisions come in ascending name order.
- `treespec.dfy` (module `TreeSpec`): what the engine writes and returns,
  as functions of the two trees. `Pair` is `compare_files`, and `WalkAt`
  is `compare_directories` from a pair of cursor positions. `TurnAt` is one
  loop iteration and `Recursive` is `report_recursively`. `Walk` is the
  same walk read as the merge's decisions. This module also holds the
  properties of these functions.
- `treecmp.dfy` (module `TreeCmp`): the engine as imperative methods over
  `FState`, `DState` and `Report`. Each is proved to write exactly the
  lines, and return exactly the status, that `TreeSpec` gives.

`fstate_descend` returns NULL for a directory that cannot be opened
(fstate.c:77-90). Both of its callers pass that NULL on unchecked
(ftreecmp.c:255-257, 284-285), which ends the process rather than
returning a status. The model makes this an outcome: an `Outcome` holds the
lines written, the status, and whether the run `crashed`. A crashed outcome
has the lines written up to the descent, and no status (`ok` is false).
Every step after a crash is dropped. The engine methods are proved on
every input whose outcome does not crash; there the C code returns. The
lemmas `ReadableNeverCrashes` and `ReadablePairNeverCrashes` show that two
trees whose directories can all be opened never crash, however much they
differ and whatever the other system calls do.

Behaviour of the code worth noting:

- Entries of a matched name but of different types get two bare lines: the
  old entry with REMOVED and the new one with ADDED. Nothing below a
  directory is reported (ftreecmp.c:200-202).
- `compare_regular_files` returns false for an open or read failure just as
  for differing bytes. `compare_files` turns either into DATA, so such an
  I/O error does not fail the run (ftreecmp.c:220-221).
- Failures while reporting an added or removed subtree do not fail
  `compare_directories`, which ignores what `report_recursively` returns
  (ftreecmp.c:103, 111, 119, 122).
- There is no build-id locator, ignore range or `-i` option in the code
  (the option string at ftreecmp.c:47 is `"dhN:"`). The comparison is over
  the whole content.
- A set-user-id, set-group-id or sticky change sets both CRIT and MODE,
  because ALLPERMS (07777) includes those bits (ftreecmp.c:210-216).

## Model

| member | source | states |
|---|---|---|
| Flags.FlagsAreDistinctBits | fstate.h:61-65 | CRIT, MODE, DATA, ADDED and REMOVED are single bits, pairwise disjoint; no change bit overlaps a disposition bit |
| Flags.MasksSeparateFlags | fstate.h:61-65 | the change bits make up 0x7 and the dispositions 0x30, and the two masks are disjoint |
| Flags.DispositionPreservesChanges | fstate.h:61-65 | OR-ing ADDED or REMOVED onto a flag set keeps `how & 0x7` and makes the disposition readable back |
| FileSystem.TypeOfKinds | fstate.c:198 | the `d_type` stored for an entry is DT_DIR exactly for a directory, DT_REG for a regular file, DT_LNK for a symbolic link |
| FileSystem.LinkTarget | fstate.c:136-140 | readlink yields a target only for a symbolic link |
| FileSystem.OpenDir | fstate.c:188-199 | opendir succeeds exactly on a readable directory, and readdir then yields its raw listing |
| FileSystem.ReadAt | ftreecmp.c:164-174 | a read fails exactly at the offsets the oracle lists; otherwise it yields min(8192, remaining) bytes from the offset, and nothing at end of file |
| Names.StrcmpZeroIffEqual | fstate.c:70-75 | strcmp is 0 exactly on equal names |
| Names.StrcmpAntisymmetric | fstate.c:70-75 | a < b under strcmp iff b > a |
| Names.StrcmpTransitive | fstate.c:70-75 | strcmp's strict order is transitive |
| Names.SortByNamePermutes | fstate.c:202 | the sort of a snapshot rearranges its entries and nothing more (same multiset) |
| Names.SortByNameSorted | fstate.c:202 | the sort leaves the entries in ascending strcmp order |
| Names.SortKeepsUnique | fstate.c:202 | sorting keeps names distinct |
| Names.VisibleMembers | fstate.c:193-197 | the filter keeps exactly the entries not named "." or "..", from the listing |
| Names.VisibleKeepsUnique | fstate.c:193-197 | filtering keeps names distinct |
| Names.ListingFacts | fstate.c:182-205 | a read snapshot holds only visible entries of the directory itself, in ascending order |
| Names.ListingStrictlySorted | fstate.c:182-205 | with distinct names in the directory, a snapshot is strictly ascending |
| Fstate.FState.constructor | fstate.c:32-42 | name, type and node stored; parent, path, stat buffer and link target absent |
| Fstate.FState.Path | fstate.c:58-68 | the result is parent path + "/" + name, cached; a cached path is returned unchanged |
| Fstate.FState.Lstat | fstate.c:105-121 | the result is lstat's; cached only on success, so a failure leaves the cache empty; a cached buffer is returned unchanged |
| Fstate.FState.Readlink | fstate.c:129-144 | the result is readlink's; cached only on success; a cached target is returned unchanged |
| Fstate.FState.Open | fstate.c:92-103 | succeeds exactly when the file can be opened; the path is computed |
| Fstate.FState.IsDir | fstate.c:123-127 | true exactly for a directory |
| Fstate.FState.Descend | fstate.c:77-90 | null exactly when the directory cannot be read; otherwise a fresh snapshot at the entry's path, cursor 0, holding the sorted visible listing |
| Fstate.BlockArithmetic | fstate.c:174-176 | with the array a whole number of 16-slot blocks, it is full exactly when count is a multiple of 16, and one append keeps that shape |
| Fstate.SortFStates | fstate.c:202 | the qsort rearranges the entry objects so that their records are SortByName of the records |
| Fstate.DState.constructor | fstate.c:146-154 | a snapshot of the path, empty, cursor 0 |
| Fstate.DState.Grow | fstate.c:174-175 | 16 more slots, the first count entries kept |
| Fstate.DState.AddEntry | fstate.c:168-180 | appends at index count, count + 1, earlier entries unchanged, the new entry's parent is the snapshot, the array grows by 16 exactly when count % 16 == 0 |
| Fstate.DState.Place | fstate.c:177-178 | with a free slot, the entry is stored at index count, count grows by one, the entry joins the footprint, and the records become the old ones plus the new entry's |
| Fstate.DState.Sort | fstate.c:202 | the entries become SortByName of the entries |
| Fstate.DState.Read | fstate.c:182-205 | false and nothing added when opendir fails; otherwise the entries are the sorted old entries plus the listing without "." and ".." |
| Fstate.DState.CurrentEntry | fstate.c:207-213 | null iff cursor >= count, otherwise files[cursor], an entry of this snapshot; nothing changes |
| MergeWalk.MergeProvenance | ftreecmp.c:98-130 | a removed entry comes from the old snapshot, an added one from the new, a matched pair is one of each with the same name; no more decisions than entries |
| MergeWalk.MergeConsumesAll | ftreecmp.c:98-130 | the removed and matched old entries, in decision order, are exactly the old snapshot, and the added and matched new entries exactly the new one: each entry is consumed by exactly one decision, sorted input or not |
| MergeWalk.MergeAscending | ftreecmp.c:98-130 | on strictly sorted snapshots the decisions come in strictly ascending name order, so no name is handled twice |
| MergeWalk.MergeClassifies | ftreecmp.c:101-129 | an entry is removed iff its name is only in the old snapshot, added iff only in the new, and two entries are matched iff they share a name |
| Report.ModeToFiletype | report.c:63-83 | '?' exactly when the S_IFMT bits are not one of the seven known types |
| Report.BitToSym | report.c:84-91 | one of the two given characters, the first exactly when a bit of the mask is set |
| Report.ModeBitToSym | report.c:93-97 | the permission letter when the bit is set, '-' when it is not |
| Report.ModeBitToSym2 | report.c:99-110 | the special letter when both bits are set, the execute letter for execute alone, the special letter upper-cased for the special bit alone, '-' for neither |
| Report.ChangeBitToSym | report.c:112-116 | the change letter when the bit is set, '.' when it is not |
| Report.SymbolicPermissions | report.c:118-137 | ten characters, the first the type letter |
| Report.PermissionDashes | report.c:118-137 | each position of the mode string shows '-' exactly when none of the bits it stands for is set |
| Report.RenderChangeBits | report.c:194-219 | nine characters: three blanks, the sign ('?' exactly when neither disposition bit is set), a blank, the three change letters ('.' exactly for a clear bit), a blank |
| Report.Legend | report.c:221-231 | seven fixed text lines |
| Report.ReadSym2Back | report.c:99-110 | the four outcomes of mode_bit_to_sym2 (both bits, execute only, special only upper-cased, neither) tell both bits apart |
| Report.PermissionsRoundTrip | report.c:118-137 | the twelve permission bits, and a known file type, can be read back from the mode string |
| Report.ShownBitsAreAllPerms | report.c:118-137 | the bits a mode string shows are exactly ALLPERMS |
| Report.PermissionsRenderInjective | report.c:118-137 | two modes render alike iff they agree on the type letter and on ALLPERMS |
| Report.ChangeBitsRoundTrip | report.c:194-219 | the prefix can be read back to the change bits and the disposition, ADDED taking precedence over REMOVED |
| Report.ReportLine | report.c:233-263 | a line exists iff lstat succeeds and, for a link, readlink does; it carries the path, the rendered change bits, the rendered mode and stat's uid and gid; the detail is the size for a regular file, the target for a link, the device number for a character or block device, and the inode form otherwise |
| Report.Report.constructor | report.c:25-36 | a missing package name becomes "<unknown package>"; no line written |
| Report.Report.Printf | report.c:50-61 | the header goes out iff no line was written before; the counter grows by one; the line follows |
| Report.Report.Free | report.c:38-48 | the legend follows iff at least one line was written |
| Report.Report.ChangedFile | report.c:233-263 | false and nothing written if lstat fails or a link's target cannot be read; otherwise exactly the one line ReportLine gives |
| TreeSpec.ChangeFlagsMeaning | ftreecmp.c:210-216 | CRIT iff a privileged bit, the owner or the group differs; MODE iff an ALLPERMS bit differs; no other bit |
| TreeSpec.SpecialChangeIsCritAndMode | ftreecmp.c:210-216 | a set*id or sticky change sets both CRIT and MODE |
| TreeSpec.SameContentsIsByteEquality | ftreecmp.c:147-183 | for equal-size files that open and read without error, the content check holds iff the bytes are equal |
| TreeSpec.PairFlagsMeaning | ftreecmp.c:210-244 | CRIT and MODE as the stat buffers give them, DATA iff the per-type data check finds a difference, no bit outside 0x7 |
| TreeSpec.Pair | ftreecmp.c:195-263 | an outcome of compare_files that crashed never reports success, and only a pair of directories can crash |
| TreeSpec.WalkAt | ftreecmp.c:86-133 | a crashed walk never reports success |
| TreeSpec.Recursive | ftreecmp.c:265-294 | a crashed report_recursively never reports success, and only a directory can crash it |
| TreeSpec.RecursiveAll | ftreecmp.c:284-290 | a crash while reporting the entries of a snapshot never reports success |
| TreeSpec.TurnAt | ftreecmp.c:117-129 | every loop iteration advances at least one cursor and each by at most one |
| TreeSpec.WalkOnlyNew | ftreecmp.c:101-107 | with the old side exhausted, the merge adds every remaining new entry, and each is reported recursively as ADDED |
| TreeSpec.WalkOnlyOld | ftreecmp.c:109-115 | with the new side exhausted, every remaining old entry is reported recursively as REMOVED |
| TreeSpec.WalkRemovedStep | ftreecmp.c:118-120 | old name first: the walk is the old entry's recursive REMOVED report, then the walk with only the old cursor moved, whose status it keeps; a crash in the report ends it |
| TreeSpec.WalkAddedStep | ftreecmp.c:121-123 | new name first: the new entry's recursive ADDED report, then the walk with only the new cursor moved, whose status it keeps; a crash in the report ends it |
| TreeSpec.WalkMatchedStep | ftreecmp.c:124-128 | equal names: the pair's comparison, then the walk with both cursors moved; the status is the pair's and the rest's together; a crash in the pair ends it |
| TreeSpec.WalkStep | ftreecmp.c:117-129 | carrying out the merge's decisions from two cursors is one loop turn, then the decisions from where that turn leaves the cursors |
| TreeSpec.WalkAtFollowsMerge | ftreecmp.c:98-130 | the loop carries out exactly the merge's decisions, in order |
| TreeSpec.WalkOkIffPairsOk | ftreecmp.c:98-131 | carrying out decisions fails iff some matched pair fails; added and removed subtrees never affect the status |
| TreeSpec.CompareDirsOkIffPairsOk | ftreecmp.c:86-133 | when it returns, compare_directories returns false iff compare_files fails on some same-named pair |
| TreeSpec.DirsClassify | ftreecmp.c:98-130 | for directories without duplicate names, an old entry is removed iff the new directory has no entry of its name, a new entry added iff the old has none, and exactly the same-named pairs are compared |
| TreeSpec.RecursiveUniform | ftreecmp.c:265-294 | every line report_recursively writes, for the entry and all below it, carries the same change bits and disposition |
| TreeSpec.RecursiveAllUniform | ftreecmp.c:284-290 | the same for the entries of a snapshot from the cursor on |
| TreeSpec.RecursiveHead | ftreecmp.c:265-280 | the entry's own line comes first; no line and failure when it cannot be reported; a non-directory gives just its line |
| TreeSpec.RecursiveCrash | ftreecmp.c:265-294 | report_recursively crashes exactly on a directory that is reported and then either cannot be opened or has an entry whose report crashes |
| TreeSpec.ReadableNeverCrashes | ftreecmp.c:280-290 | when every directory below an entry can be opened, report_recursively on it never crashes, whatever the other system calls do |
| TreeSpec.ReadableTailNeverCrashes | ftreecmp.c:284-290 | the same for the entries of such a directory from any cursor on |
| TreeSpec.ReadablePairNeverCrashes | ftreecmp.c:195-263 | compare_files on two entries whose directories can all be opened never crashes, however the two trees differ |
| TreeSpec.ReadableWalkNeverCrashes | ftreecmp.c:86-133 | the walk of two such directories never crashes, from any cursors |
| TreeSpec.ReadableDirsNeverCrash | ftreecmp.c:86-133 | compare_directories on two such directories always returns |
| TreeSpec.TypeChangeReportsTwoLines | ftreecmp.c:200-202 | different types: exactly two lines, old with bare REMOVED then new with bare ADDED, status true |
| TreeSpec.StatFailureIsSilent | ftreecmp.c:207-208 | a failing lstat on a same-type pair gives no line and false |
| TreeSpec.ChangedPairReports | ftreecmp.c:246-249 | a non-directory pair reports nothing when no flag is set, otherwise old with how or REMOVED then new with how or ADDED |
| TreeSpec.DirPairReports | ftreecmp.c:246-260 | two directories of the same name never get DATA; their change lines, if any, come first; then the crash when either cannot be opened, otherwise the lines and status of the walk of their snapshots, whatever the flags |
| TreeSpec.PermissionOnlyChange | ftreecmp.c:210-216 | an ordinary permission change alone renders as ".M." |
| TreeSpec.SetuidChange | ftreecmp.c:210-216 | a set-user-id change alone renders as "CM." |
| TreeSpec.OwnerChange | ftreecmp.c:210-216 | an owner change alone renders as "C.." |
| TreeSpec.MergeSelf | ftreecmp.c:117-129 | merging a snapshot with itself matches every entry with itself |
| TreeSpec.IdenticalPairIsQuiet | ftreecmp.c:195-263 | a healthy entry compared with itself reports nothing and succeeds |
| TreeSpec.IdenticalWalkIsQuiet | ftreecmp.c:98-130 | a healthy directory walked against itself from equal cursors reports nothing and succeeds |
| TreeSpec.IdenticalDirsAreQuiet | ftreecmp.c:86-133 | compare_directories on a healthy directory and itself is silent and succeeds |
| TreeCmp.CompareRegularFiles | ftreecmp.c:139-189 | true iff the sizes agree, both files open, every read succeeds and the bytes are equal; a size mismatch returns false before either file is opened |
| TreeCmp.CompareData | ftreecmp.c:218-244 | reports a difference exactly as the per-type data check; fails only on an unreadable link target |
| TreeCmp.ReportBoth | ftreecmp.c:246-249 | writes the old entry's line with REMOVED, then the new one's with ADDED |
| TreeCmp.PairChanges | ftreecmp.c:205-244 | fails iff either lstat fails; otherwise the flags are PairFlags and the status is that of the link check |
| TreeCmp.CompareFiles | ftreecmp.c:195-263 | writes exactly Pair's lines and returns Pair's status |
| TreeCmp.CompareSubdirectories | ftreecmp.c:252-260 | two fresh snapshots walked: exactly the lines and status of the directory walk |
| TreeCmp.CompareDirectories | ftreecmp.c:86-133 | writes exactly the walk's lines and returns its status |
| TreeCmp.CompareEntries | ftreecmp.c:98-130 | runs until one snapshot is exhausted; what it writes, followed by the walk from where the cursors stop, is the walk from where they started |
| TreeCmp.ReportRemaining | ftreecmp.c:101-115 | with one side exhausted, writes the rest of the walk and leaves both cursors at the end |
| TreeCmp.CompareStep | ftreecmp.c:117-129 | one loop iteration: the lines, status and cursor moves of TurnAt |
| TreeCmp.CompareTurn | ftreecmp.c:117-129 | one loop iteration: what it writes, followed by the walk from the new cursors, is the walk from the old ones; the status joins as the walk's does; at least one cursor moves |
| TreeCmp.CompareCurrent | ftreecmp.c:124-128 | compares the two entries under the cursors as Pair does, then advances both cursors |
| TreeCmp.ReportCurrent | ftreecmp.c:118-123 | report_recursively on the entry under the cursor, as Recursive gives it, then the cursor advances |
| TreeCmp.ReportEntries | ftreecmp.c:284-290 | reports every entry from the cursor on, as RecursiveAll gives them; the status is false iff any entry failed |
| TreeCmp.ReportRecursively | ftreecmp.c:265-294 | writes exactly Recursive's lines and returns its status |

## Left out

- `main`, `usage`, `getopt` and `opt_debug` with its trace output (ftreecmp.c:27-81). They are process wiring. The exit status they compute is failure when either root snapshot cannot be read or `compare_directories` returns false.
- `stderr` diagnostics are not modelled: they do not change any result.
- Numeric formatting (`%03u`, `%13lu`, `%04x:%04x`, field widths) and `major`/`minor` (report.c:139-192). A line records the fields it shows (rendered change bits, rendered mode, uid, gid, size, link target or device number, path) rather than the formatted text.
- Short reads: `read` delivers min(8192, remaining) bytes. An uneven short read would make the code report a difference where the model sees none.
- `calloc`, `strdup`, `free`, `reallocarray`, `memset`, `dstate_free`, `fstate_free` and `close` are not modelled. `Grow` stands for the `reallocarray`. Paths are exact concatenation, without `PATH_MAX` truncation.
- `fstate_readlink` never NUL-terminates the buffer it passes to `strdup` (fstate.c:136-140). The model takes the target to be exactly what readlink returns.
- TreeCmp.CompareFiles: requires an outcome that does not crash, because a NULL from `fstate_descend` (ftreecmp.c:255-257) ends the process. The same holds for `CompareSubdirectories`, `CompareDirectories` and the methods of its loop, and for `ReportRecursively` (ftreecmp.c:284-285). `TreeSpec` says what happens up to the crash.
- Fstate.FState.Valid: ties an entry's type to the node's kind through `TypeOf`, so readdir is assumed to report an exact `d_type`. A filesystem that reports DT_UNKNOWN makes the code take its default branches: no data check, no descent, and an inode-style line. The model does not cover this.
- Report.Report.Printf: `lines_written` is an `unsigned int` (report.c:20) that would wrap after 2^32 lines and print the header a second time. The model's counter is unbounded.
- Entry names and paths are Dafny strings, where the C code handles byte strings. `Strcmp` compares code points, which orders names as strcmp orders their bytes only for single-byte characters.
- `symbolic_permissions` and `__render_change_bits` return static buffers that later calls overwrite. The model returns fresh strings; every caller uses the result before the next call.
- `qsort` is modelled by an insertion sort on names. Entries with equal names cannot occur in a directory, so any sort gives the same order.
- `struct dstate`'s unused `DIR *f` field is not modelled.
- Several steps that the C code writes inline are separate methods in the model, each with its own contract and source lines:
  - `PairChanges`: the attribute step of `compare_files`.
  - `CompareData`: its per-type data check.
  - `ReportBoth`: its pair of reports.
  - `CompareSubdirectories`: its descent into two directories.
  - `CompareEntries` and `ReportRemaining`: the two phases of the `compare_directories` loop.
  - `CompareStep`, `CompareCurrent` and `ReportCurrent`: one iteration of that loop.
- The `while (true)` loop of `compare_directories`, whose exhausted-side branches end in `break`, is modelled as a loop that runs while both cursors have an entry, followed by the report of the remaining side. The two are equivalent because the exhausted-side branches always end the loop.
