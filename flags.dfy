/**
  The change and disposition bits a comparison attaches to a report
  (FSTATE_CHANGED_* in fstate.h) and the POSIX mode bits the engine and
  the renderer test.
 */
module Flags {

  // ---- change bits: what differs about a matched pair ----
  const CRIT: bv32 := 0x0001     // file type, owner, set*id bits, sticky bit
  const MODE: bv32 := 0x0002     // permission bits
  const DATA: bv32 := 0x0004     // content, link target, device number
  // ---- disposition bits: which side a report line describes ----
  const ADDED: bv32 := 0x0010
  const REMOVED: bv32 := 0x0020

  const CHANGE_MASK: bv32 := 0x0007
  const DISPOSITION_MASK: bv32 := 0x0030

  // ---- st_mode bits (octal values of <sys/stat.h>) ----
  const S_IFMT: bv32   := 0xF000   // 0170000
  const S_IFSOCK: bv32 := 0xC000   // 0140000
  const S_IFLNK: bv32  := 0xA000   // 0120000
  const S_IFREG: bv32  := 0x8000   // 0100000
  const S_IFBLK: bv32  := 0x6000   // 0060000
  const S_IFDIR: bv32  := 0x4000   // 0040000
  const S_IFCHR: bv32  := 0x2000   // 0020000
  const S_IFIFO: bv32  := 0x1000   // 0010000

  const S_ISUID: bv32 := 0x800     // 04000
  const S_ISGID: bv32 := 0x400     // 02000
  const S_ISVTX: bv32 := 0x200     // 01000
  const S_IRUSR: bv32 := 0x100     // 0400
  const S_IWUSR: bv32 := 0x80      // 0200
  const S_IXUSR: bv32 := 0x40      // 0100
  const S_IRGRP: bv32 := 0x20      // 040
  const S_IWGRP: bv32 := 0x10      // 020
  const S_IXGRP: bv32 := 0x8       // 010
  const S_IROTH: bv32 := 0x4       // 04
  const S_IWOTH: bv32 := 0x2       // 02
  const S_IXOTH: bv32 := 0x1       // 01

  /** The privileged bits: set-user-id, set-group-id, sticky. */
  const SPECIAL_BITS: bv32 := 0xE00
  /** ALLPERMS (07777): the privileged bits and the nine rwx bits. */
  const ALLPERMS: bv32 := 0xFFF

  /** A value with exactly one bit set. */
  predicate SingleBit(b: bv32) {
    b != 0 && b & (b - 1) == 0
  }

  /** The five report flags are single bits, pairwise disjoint. */
  lemma FlagsAreDistinctBits()
    ensures SingleBit(CRIT) && SingleBit(MODE) && SingleBit(DATA)
    ensures SingleBit(ADDED) && SingleBit(REMOVED)
    ensures CRIT & MODE == 0 && CRIT & DATA == 0 && MODE & DATA == 0
    ensures (CRIT | MODE | DATA) & (ADDED | REMOVED) == 0
    ensures ADDED & REMOVED == 0
  {
  }

  /** The change bits lie within 0x7 and the dispositions within 0x30. */
  lemma MasksSeparateFlags()
    ensures CRIT | MODE | DATA == CHANGE_MASK
    ensures ADDED | REMOVED == DISPOSITION_MASK
    ensures CHANGE_MASK & DISPOSITION_MASK == 0
  {
  }

  /** Attaching a disposition to a change set leaves the change set intact
      and makes that disposition readable back from the result. */
  lemma DispositionPreservesChanges(how: bv32, disposition: bv32)
    requires disposition == ADDED || disposition == REMOVED
    ensures (how | disposition) & CHANGE_MASK == how & CHANGE_MASK
    ensures (how | disposition) & disposition != 0
  {
  }
}
