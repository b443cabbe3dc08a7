/**
 * The part of `struct stat` the inspector reads, and the mode-word tests
 * from <sys/stat.h> it applies to `st_mode`.
 *
 * `mode_t` is a 32-bit unsigned word. The file-type field is the four bits
 * under S_IFMT; each S_ISxxx test compares that field with one constant, so
 * at most one of them holds for any mode. The constants are the Linux values
 * (octal 0170000, 0140000, ... written here in hexadecimal).
 */
module Stat {
  import opened Decimal

  type Mode = bv32

  const S_IFMT: Mode   := 0xF000  // 0170000
  const S_IFSOCK: Mode := 0xC000  // 0140000
  const S_IFLNK: Mode  := 0xA000  // 0120000
  const S_IFREG: Mode  := 0x8000  // 0100000
  const S_IFBLK: Mode  := 0x6000  // 0060000
  const S_IFDIR: Mode  := 0x4000  // 0040000
  const S_IFCHR: Mode  := 0x2000  // 0020000
  const S_IFIFO: Mode  := 0x1000  // 0010000

  const S_IRUSR: Mode := 0x100  // 0400
  const S_IWUSR: Mode := 0x080  // 0200
  const S_IXUSR: Mode := 0x040  // 0100
  const S_IRGRP: Mode := 0x020  // 0040
  const S_IWGRP: Mode := 0x010  // 0020
  const S_IXGRP: Mode := 0x008  // 0010
  const S_IROTH: Mode := 0x004  // 0004
  const S_IWOTH: Mode := 0x002  // 0002
  const S_IXOTH: Mode := 0x001  // 0001

  predicate IsDir(m: Mode)  { m & S_IFMT == S_IFDIR }
  predicate IsLnk(m: Mode)  { m & S_IFMT == S_IFLNK }
  predicate IsReg(m: Mode)  { m & S_IFMT == S_IFREG }
  predicate IsChr(m: Mode)  { m & S_IFMT == S_IFCHR }
  predicate IsBlk(m: Mode)  { m & S_IFMT == S_IFBLK }
  predicate IsFifo(m: Mode) { m & S_IFMT == S_IFIFO }
  predicate IsSock(m: Mode) { m & S_IFMT == S_IFSOCK }

  /** The eight kinds of entry the inspector distinguishes. */
  datatype FileType =
    | Directory | RegularFile | Symlink | CharDevice
    | BlockDevice | Fifo | Socket | Unknown

  /**
   * The kind named by a mode's file-type field. This reads the field once,
   * where the source tests the S_ISxxx predicates one after another; the
   * lemmas in Format show that both of the source's chains agree with it.
   */
  function TypeOf(m: Mode): (t: FileType)
    ensures t == Directory <==> IsDir(m)
    ensures t == Symlink <==> IsLnk(m)
    ensures t == RegularFile <==> IsReg(m)
    ensures t == CharDevice <==> IsChr(m)
    ensures t == BlockDevice <==> IsBlk(m)
    ensures t == Fifo <==> IsFifo(m)
    ensures t == Socket <==> IsSock(m)
  {
    var f := m & S_IFMT;
    if f == S_IFDIR then Directory
    else if f == S_IFREG then RegularFile
    else if f == S_IFLNK then Symlink
    else if f == S_IFCHR then CharDevice
    else if f == S_IFBLK then BlockDevice
    else if f == S_IFIFO then Fifo
    else if f == S_IFSOCK then Socket
    else Unknown
  }

  /** The nine permission bits in display order: owner rwx, group rwx, other rwx. */
  const PERMISSION_BITS: seq<Mode> :=
    [S_IRUSR, S_IWUSR, S_IXUSR, S_IRGRP, S_IWGRP, S_IXGRP, S_IROTH, S_IWOTH, S_IXOTH]

  /** The fields of `struct stat` the inspector prints, at their Linux LP64 widths. */
  datatype StatInfo = StatInfo(
    ino: UInt64,      // st_ino
    mode: Mode,       // st_mode
    nlink: UInt64,    // st_nlink
    uid: UInt32,      // st_uid
    gid: UInt32,      // st_gid
    size: Int64,      // st_size (off_t)
    atime: Int64,     // st_atime (time_t)
    mtime: Int64,     // st_mtime
    ctime: Int64      // st_ctime
  )
}
