/**
 * The formatters of the inspector: the ls-style permission string, the
 * type label, the size and the timestamp. Each is total and returns a fresh
 * string (the source returns a static buffer that the next call overwrites).
 *
 * What the C library computes and the model does not (the "%.2f" digits of a
 * scaled size, the local calendar time, the text of an errno) comes in as a
 * Libc value of functions.
 */
module Format {
  import opened Decimal
  import opened Stat

  /** The C-library behaviour the formatters and the walker call into. */
  datatype Libc = Libc(
    fixed2: (int, int) -> string,   // printf("%.2f", size / (double)divisor), applied to (size, divisor)
    localTime: int -> string,       // strftime("%Y-%m-%d %H:%M:%S", localtime(&t))
    strerror: nat -> string         // strerror(errno)
  )

  // ----- permissions -----

  /** The type glyph each kind of entry shows in an ls-style mode string. */
  function TypeGlyph(t: FileType): char {
    match t
    case Directory => 'd'
    case Symlink => 'l'
    case RegularFile => '-'
    case CharDevice => 'c'
    case BlockDevice => 'b'
    case Fifo => 'p'
    case Socket => 's'
    case Unknown => '?'
  }

  /** The letters of the nine permission positions when their bits are set. */
  const PERMISSION_LETTERS: string := "rwxrwxrwx"

  /** The glyph chain of format_permissions, in the source's order of tests. */
  function PermissionGlyph(m: Mode): (c: char)
    ensures c == TypeGlyph(TypeOf(m))
  {
    if IsDir(m) then 'd'
    else if IsLnk(m) then 'l'
    else if IsReg(m) then '-'
    else if IsChr(m) then 'c'
    else if IsBlk(m) then 'b'
    else if IsFifo(m) then 'p'
    else if IsSock(m) then 's'
    else '?'
  }

  /** One permission position: its letter when the bit is set, else '-'. */
  function BitChar(m: Mode, bit: Mode, letter: char): char {
    if m & bit != 0 then letter else '-'
  }

  /**
   * format_permissions: the type glyph, then the nine permission tests of the
   * source in their order (PERMISSION_BITS), each giving r, w or x when its
   * bit is set and '-' otherwise.
   */
  function FormatPermissions(m: Mode): (r: string)
    ensures |r| == 10
    ensures r[0] == TypeGlyph(TypeOf(m))
    ensures forall k :: 1 <= k <= 9 ==>
      r[k] == BitChar(m, PERMISSION_BITS[k - 1], PERMISSION_LETTERS[k - 1])
  {
    [PermissionGlyph(m)] + seq(9, k requires 0 <= k < 9 => BitChar(m, PERMISSION_BITS[k], PERMISSION_LETTERS[k]))
  }

  /** The characters a permission string may contain. */
  predicate InPermissionAlphabet(c: char) {
    c in {'d', 'l', '-', 'c', 'b', 'p', 's', '?', 'r', 'w', 'x'}
  }

  /** Every character of a permission string is a glyph, a letter or '-'. */
  lemma PermissionsAlphabet(m: Mode)
    ensures forall k :: 0 <= k < |FormatPermissions(m)| ==> InPermissionAlphabet(FormatPermissions(m)[k])
  {
    var r := FormatPermissions(m);
    forall k | 0 <= k < |r| ensures InPermissionAlphabet(r[k]) {
      if k > 0 {
        assert 1 <= k <= 9;
        assert r[k] == '-' || r[k] == PERMISSION_LETTERS[k - 1];
      }
    }
  }

  /**
   * Each permission position depends only on its own bit, and the glyph only
   * on the file-type field: two modes that agree there agree in the string.
   */
  lemma PermissionsLocal(m: Mode, n: Mode, k: int)
    requires 0 <= k <= 9
    requires k == 0 ==> m & S_IFMT == n & S_IFMT
    requires k > 0 ==> (m & PERMISSION_BITS[k - 1] != 0 <==> n & PERMISSION_BITS[k - 1] != 0)
    ensures FormatPermissions(m)[k] == FormatPermissions(n)[k]
  {
  }

  /** The permission bits (the low nine bits, 0777) a mode string shows. */
  function PermissionBitsOf(s: string): (bits: Mode)
    requires |s| == 10
    ensures bits & 0x1FF == bits
  {
    (if s[1] != '-' then S_IRUSR else 0) | (if s[2] != '-' then S_IWUSR else 0) |
    (if s[3] != '-' then S_IXUSR else 0) | (if s[4] != '-' then S_IRGRP else 0) |
    (if s[5] != '-' then S_IWGRP else 0) | (if s[6] != '-' then S_IXGRP else 0) |
    (if s[7] != '-' then S_IROTH else 0) | (if s[8] != '-' then S_IWOTH else 0) |
    (if s[9] != '-' then S_IXOTH else 0)
  }

  /**
   * The permission string carries the nine permission bits exactly: reading
   * them back gives the mode's low nine bits.
   */
  lemma PermissionsRoundTrip(m: Mode)
    ensures PermissionBitsOf(FormatPermissions(m)) == m & 0x1FF
  {
    var r := FormatPermissions(m);
    assert r[1] == BitChar(m, S_IRUSR, 'r') && r[2] == BitChar(m, S_IWUSR, 'w') && r[3] == BitChar(m, S_IXUSR, 'x');
    assert r[4] == BitChar(m, S_IRGRP, 'r') && r[5] == BitChar(m, S_IWGRP, 'w') && r[6] == BitChar(m, S_IXGRP, 'x');
    assert r[7] == BitChar(m, S_IROTH, 'r') && r[8] == BitChar(m, S_IWOTH, 'w') && r[9] == BitChar(m, S_IXOTH, 'x');
  }

  /** Two modes with the same file type and permission bits get the same string, and only they do. */
  lemma PermissionsDetermined(m: Mode, n: Mode)
    ensures FormatPermissions(m) == FormatPermissions(n) <==>
      TypeOf(m) == TypeOf(n) && m & 0x1FF == n & 0x1FF
  {
    var r, s := FormatPermissions(m), FormatPermissions(n);
    if r == s {
      GlyphsDistinct(TypeOf(m), TypeOf(n));
      PermissionsRoundTrip(m);
      PermissionsRoundTrip(n);
    }
    if TypeOf(m) == TypeOf(n) && m & 0x1FF == n & 0x1FF {
      forall k | 1 <= k <= 9 ensures r[k] == s[k] {
        SameBitUnderMask(m, n, PERMISSION_BITS[k - 1]);
        PermissionsLocal(m, n, k);
      }
    }
  }

  /** Modes that agree on the low nine bits agree on each bit among them. */
  lemma SameBitUnderMask(m: Mode, n: Mode, b: Mode)
    requires m & 0x1FF == n & 0x1FF && b & 0x1FF == b
    ensures m & b != 0 <==> n & b != 0
  {
    assert m & b == (m & 0x1FF) & b;
    assert n & b == (n & 0x1FF) & b;
  }

  /** Different kinds of entry get different glyphs. */
  lemma GlyphsDistinct(s: FileType, t: FileType)
    requires TypeGlyph(s) == TypeGlyph(t)
    ensures s == t
  {
  }

  // ----- type label -----

  /** The label each kind of entry gets in a rendered record. */
  function LabelOf(t: FileType): string {
    match t
    case Directory => "directory"
    case RegularFile => "regular file"
    case Symlink => "symbolic link"
    case CharDevice => "character device"
    case BlockDevice => "block device"
    case Fifo => "FIFO"
    case Socket => "socket"
    case Unknown => "unknown"
  }

  const LABELS: seq<string> :=
    ["directory", "regular file", "symbolic link", "character device",
     "block device", "FIFO", "socket", "unknown"]

  /**
   * The inline chain both renderers use for the "type" field. It tests
   * directory, regular, symlink, ... -- regular before symlink, the other way
   * round from format_permissions -- and still names the same kind, because
   * at most one S_ISxxx test holds.
   */
  function TypeLabel(m: Mode): (r: string)
    ensures r == LabelOf(TypeOf(m))
    ensures r in LABELS
  {
    if IsDir(m) then "directory"
    else if IsReg(m) then "regular file"
    else if IsLnk(m) then "symbolic link"
    else if IsChr(m) then "character device"
    else if IsBlk(m) then "block device"
    else if IsFifo(m) then "FIFO"
    else if IsSock(m) then "socket"
    else "unknown"
  }

  /** The glyph a label stands for ('?' for a text that is not a label). */
  function GlyphOfLabel(text: string): char {
    if text == "directory" then 'd'
    else if text == "symbolic link" then 'l'
    else if text == "regular file" then '-'
    else if text == "character device" then 'c'
    else if text == "block device" then 'b'
    else if text == "FIFO" then 'p'
    else if text == "socket" then 's'
    else '?'
  }

  /** Different kinds get different labels: the label identifies the kind. */
  lemma LabelsDistinct(s: FileType, t: FileType)
    requires LabelOf(s) == LabelOf(t)
    ensures s == t
  {
    match s
    case Directory => assert LabelOf(s)[0] == 'd' && |LabelOf(s)| == 9;
    case RegularFile => assert LabelOf(s)[0] == 'r';
    case Symlink => assert LabelOf(s)[0] == 's' && |LabelOf(s)| == 13;
    case CharDevice => assert LabelOf(s)[0] == 'c';
    case BlockDevice => assert LabelOf(s)[0] == 'b';
    case Fifo => assert LabelOf(s)[0] == 'F';
    case Socket => assert LabelOf(s)[0] == 's' && |LabelOf(s)| == 6;
    case Unknown => assert LabelOf(s)[0] == 'u';
  }

  /**
   * For every mode the record's type label and the glyph that opens its
   * permission string name the same kind of entry.
   */
  lemma LabelAgreesWithGlyph(m: Mode)
    ensures GlyphOfLabel(TypeLabel(m)) == FormatPermissions(m)[0]
  {
    match TypeOf(m)
    case Directory =>
    case RegularFile =>
      assert "regular file" != "directory";
      assert "regular file" != "symbolic link";
    case Symlink =>
      assert "symbolic link" != "directory";
    case CharDevice =>
      assert "character device" != "directory";
      assert "character device" != "symbolic link";
      assert "character device" != "regular file";
    case BlockDevice =>
      assert "block device" != "directory";
      assert "block device" != "symbolic link";
      assert "block device" != "regular file";
      assert "block device" != "character device";
    case Fifo =>
      assert "FIFO" != "directory";
      assert "FIFO" != "symbolic link";
      assert "FIFO" != "regular file";
      assert "FIFO" != "character device";
      assert "FIFO" != "block device";
    case Socket =>
      assert "socket" != "directory";
      assert "socket" != "symbolic link";
      assert "socket" != "regular file";
      assert "socket" != "character device";
      assert "socket" != "block device";
      assert "socket" != "FIFO";
    case Unknown =>
      assert "unknown" != "directory";
      assert "unknown" != "symbolic link";
      assert "unknown" != "regular file";
      assert "unknown" != "character device";
      assert "unknown" != "block device";
      assert "unknown" != "FIFO";
      assert "unknown" != "socket";
  }

  // ----- size -----

  const KIB: int := 1024
  const MIB: int := 1048576
  const GIB: int := 1073741824

  /** The unit a human-readable size is shown in. */
  datatype SizeUnit = Bytes | KB | MB | GB {
    function Rank(): nat {
      match this
      case Bytes => 0
      case KB => 1
      case MB => 2
      case GB => 3
    }
    /** The divisor of the unit, 1024 to the power of its rank. */
    function Scale(): int {
      match this
      case Bytes => 1
      case KB => KIB
      case MB => MIB
      case GB => GIB
    }
  }

  /**
   * The unit for a size: the largest of the four whose scale the size
   * reaches (sizes below one KiB, negative ones included, stay in bytes).
   */
  function UnitFor(size: int): (u: SizeUnit)
    ensures u != Bytes ==> u.Scale() <= size
    ensures forall v: SizeUnit :: v.Rank() > u.Rank() ==> size < v.Scale()
  {
    if size >= GIB then GB
    else if size >= MIB then MB
    else if size >= KIB then KB
    else Bytes
  }

  /** A larger size never gets a smaller unit. */
  lemma UnitMonotone(a: int, b: int)
    requires a <= b
    ensures UnitFor(a).Rank() <= UnitFor(b).Rank()
  {
  }

  /**
   * format_size: the decimal byte count, or in human-readable mode a scaled
   * number and a binary unit chosen by thresholds tested from high to low.
   */
  function FormatSize(size: Int64, humanReadable: bool, libc: Libc): (r: string)
    ensures humanReadable ==> EndsWith(r, Suffix(UnitFor(size)))
    ensures !humanReadable ==> Parse(r) == Some(size as int)
  {
    if humanReadable then
      if size >= GIB then libc.fixed2(size, GIB) + " GB"
      else if size >= MIB then libc.fixed2(size, MIB) + " MB"
      else if size >= KIB then libc.fixed2(size, KIB) + " KB"
      else Show(size) + " bytes"
    else ShowRoundTrip(size); Show(size)
  }

  function Suffix(u: SizeUnit): string {
    match u
    case Bytes => " bytes"
    case KB => " KB"
    case MB => " MB"
    case GB => " GB"
  }

  predicate EndsWith(s: string, suffix: string) {
    |suffix| <= |s| && s[|s| - |suffix|..] == suffix
  }

  /** Reads the unit back from the end of a human-readable size. */
  function UnitOfText(s: string): Option<SizeUnit> {
    if EndsWith(s, " GB") then Some(GB)
    else if EndsWith(s, " MB") then Some(MB)
    else if EndsWith(s, " KB") then Some(KB)
    else if EndsWith(s, " bytes") then Some(Bytes)
    else None
  }

  lemma EndsWithAppend(s: string, suffix: string)
    ensures EndsWith(s + suffix, suffix)
  {
    assert (s + suffix)[|s|..] == suffix;
  }

  /**
   * Whatever digits printf produces, the text of a human-readable size ends
   * with the unit its thresholds select.
   */
  lemma FormatSizeUnit(size: Int64, libc: Libc)
    ensures UnitOfText(FormatSize(size, true, libc)) == Some(UnitFor(size))
  {
    if size >= GIB {
      UnitOfSuffixed(libc.fixed2(size, GIB), GB);
    } else if size >= MIB {
      UnitOfSuffixed(libc.fixed2(size, MIB), MB);
    } else if size >= KIB {
      UnitOfSuffixed(libc.fixed2(size, KIB), KB);
    } else {
      UnitOfSuffixed(Show(size), Bytes);
    }
  }

  /** Any text followed by a unit's suffix reads back as that unit. */
  lemma UnitOfSuffixed(x: string, u: SizeUnit)
    ensures UnitOfText(x + Suffix(u)) == Some(u)
  {
    var r := x + Suffix(u);
    EndsWithAppend(x, Suffix(u));
    if u == Bytes {
      assert r[|r| - 3..] == "tes";
    } else if u == KB {
      assert r[|r| - 3..] == " KB";
    } else if u == MB {
      assert r[|r| - 3..] == " MB";
    }
  }

  /**
   * Below one KiB the human-readable size is the exact count followed by
   * " bytes": the number before the suffix parses back to the size.
   */
  lemma FormatSizeBytes(size: Int64, libc: Libc)
    requires size < KIB
    ensures EndsWith(FormatSize(size, true, libc), " bytes")
    ensures Parse(FormatSize(size, true, libc)[..|FormatSize(size, true, libc)| - 6]) == Some(size as int)
  {
    var r := FormatSize(size, true, libc);
    EndsWithAppend(Show(size), " bytes");
    assert r[..|r| - 6] == Show(size);
    ShowRoundTrip(size);
  }

  /** The boundaries of the threshold cascade. */
  lemma FormatSizeBoundaries(libc: Libc)
    ensures FormatSize(1023, true, libc) == "1023 bytes"
    ensures FormatSize(1024, true, libc) == libc.fixed2(1024, 1024) + " KB"
    ensures FormatSize(1048575, true, libc) == libc.fixed2(1048575, 1024) + " KB"
    ensures FormatSize(1048576, true, libc) == libc.fixed2(1048576, 1048576) + " MB"
    ensures FormatSize(1073741823, true, libc) == libc.fixed2(1073741823, 1048576) + " MB"
    ensures FormatSize(1073741824, true, libc) == libc.fixed2(1073741824, 1073741824) + " GB"
  {
    assert Show(1023) == "1023" by {
      assert Digits(1023) == Digits(102) + ['3'];
      assert Digits(102) == Digits(10) + ['2'];
      assert Digits(10) == Digits(1) + ['0'];
    }
  }

  // ----- time -----

  /** format_time: local calendar time in human-readable mode, else the epoch seconds. */
  function FormatTime(t: Int64, humanReadable: bool, libc: Libc): (r: string)
    ensures !humanReadable ==> Parse(r) == Some(t as int)
  {
    if humanReadable then libc.localTime(t) else ShowRoundTrip(t); Show(t)
  }
}
