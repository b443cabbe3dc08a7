/**
 * The layout of one rendered record: the lines print_inode_info_json and
 * print_inode_info_text write for it, and the eleven values both carry.
 * The decoders that read a record back are in Decode.
 */
module Record {
  import opened Decimal
  import opened Stat
  import opened Format

  /**
   * The eleven values of a record in the order both renderers emit them:
   * path, inode number, type, permissions, link count, uid, gid, size,
   * access time, modification time, status-change time.
   */
  function RecordValues(path: string, st: StatInfo, humanReadable: bool, libc: Libc): (vs: seq<string>)
    ensures |vs| == FIELD_COUNT
  {
    [path,
     Show(st.ino),
     TypeLabel(st.mode),
     FormatPermissions(st.mode),
     Show(st.nlink),
     Show(st.uid),
     Show(st.gid),
     FormatSize(st.size, humanReadable, libc),
     FormatTime(st.atime, humanReadable, libc),
     FormatTime(st.mtime, humanReadable, libc),
     FormatTime(st.ctime, humanReadable, libc)]
  }

  const FIELD_COUNT: nat := 11

  // ----- JSON -----

  /** The lines print_inode_info_json writes, one per printf. */
  function JsonLines(path: string, st: StatInfo, humanReadable: bool, libc: Libc): (lines: seq<string>)
    ensures |lines| == 15
  {
    JsonRecord(RecordValues(path, st, humanReadable, libc))
  }

  /**
   * The fifteen lines of a JSON object whose eleven values are vs. Values
   * are inserted as they are: quotes or backslashes in a path are not
   * escaped.
   */
  function JsonRecord(vs: seq<string>): (lines: seq<string>)
    requires |vs| == FIELD_COUNT
    ensures |lines| == 15
  {
    ["{",
     "  \"filePath\": \"" + vs[0] + "\",",
     "  \"inode\": {",
     "    \"number\": " + vs[1] + ",",
     "    \"type\": \"" + vs[2] + "\",",
     "    \"permissions\": \"" + vs[3] + "\",",
     "    \"linkCount\": " + vs[4] + ",",
     "    \"uid\": " + vs[5] + ",",
     "    \"gid\": " + vs[6] + ",",
     "    \"size\": \"" + vs[7] + "\",",
     "    \"accessTime\": \"" + vs[8] + "\",",
     "    \"modificationTime\": \"" + vs[9] + "\",",
     "    \"statusChangeTime\": \"" + vs[10] + "\"",
     "  }",
     "}"]
  }

  // ----- text -----

  /** The lines print_inode_info_text writes, one per printf. */
  function TextLines(path: string, st: StatInfo, humanReadable: bool, libc: Libc): (lines: seq<string>)
    ensures |lines| == FIELD_COUNT
  {
    TextRecord(RecordValues(path, st, humanReadable, libc))
  }

  /** The eleven labelled lines of a text record whose values are vs. */
  function TextRecord(vs: seq<string>): (lines: seq<string>)
    requires |vs| == FIELD_COUNT
    ensures |lines| == FIELD_COUNT
  {
    ["Information for " + vs[0] + ":",
     "File Inode: " + vs[1],
     "File Type: " + vs[2],
     "Permissions: " + vs[3],
     "Number of Hard Links: " + vs[4],
     "Owner UID: " + vs[5],
     "Group GID: " + vs[6],
     "File Size: " + vs[7],
     "Last Access Time: " + vs[8],
     "Last Modification Time: " + vs[9],
     "Last Status Change Time: " + vs[10]]
  }
}
