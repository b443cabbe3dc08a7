/**
 * print_inode_info_json and print_inode_info_text: one record emitted as a
 * fixed, ordered sequence of printf lines on standard output, each line
 * built from the formatters' results.
 */
module Render {
  import opened Decimal
  import opened Stat
  import opened Format
  import opened Output
  import opened Record

  /**
   * Proof helper: the output after fifteen one-line writes is the old output
   * followed by the fifteen lines.
   */
  lemma FifteenAppends(o: seq<string>, l0: string, l1: string, l2: string, l3: string, l4: string, l5: string, l6: string, l7: string, l8: string, l9: string, l10: string, l11: string, l12: string, l13: string, l14: string)
    ensures o + [l0] + [l1] + [l2] + [l3] + [l4] + [l5] + [l6] + [l7] + [l8] + [l9] + [l10] + [l11] + [l12] + [l13] + [l14] == o + [l0, l1, l2, l3, l4, l5, l6, l7, l8, l9, l10, l11, l12, l13, l14]
  {}

  /** Proof helper: the same for the eleven lines of a text record. */
  lemma ElevenAppends(o: seq<string>, l0: string, l1: string, l2: string, l3: string, l4: string, l5: string, l6: string, l7: string, l8: string, l9: string, l10: string)
    ensures o + [l0] + [l1] + [l2] + [l3] + [l4] + [l5] + [l6] + [l7] + [l8] + [l9] + [l10] == o + [l0, l1, l2, l3, l4, l5, l6, l7, l8, l9, l10]
  {}

  /** print_inode_info_json: the fifteen lines of one JSON object, in order. */
  method PrintInodeInfoJson(console: Console, path: string, st: StatInfo, humanReadable: bool, libc: Libc)
    modifies console
    ensures console.out == old(console.out) + JsonLines(path, st, humanReadable, libc)
    ensures console.err == old(console.err)
  {
    var typeLabel := TypeLabel(st.mode);
    var perms := FormatPermissions(st.mode);
    var size := FormatSize(st.size, humanReadable, libc);
    var l0 := "{";
    console.PrintOut(l0);
    var l1 := "  \"filePath\": \"" + path + "\",";
    console.PrintOut(l1);
    var l2 := "  \"inode\": {";
    console.PrintOut(l2);
    var l3 := "    \"number\": " + Show(st.ino) + ",";
    console.PrintOut(l3);
    var l4 := "    \"type\": \"" + typeLabel + "\",";
    console.PrintOut(l4);
    var l5 := "    \"permissions\": \"" + perms + "\",";
    console.PrintOut(l5);
    var l6 := "    \"linkCount\": " + Show(st.nlink) + ",";
    console.PrintOut(l6);
    var l7 := "    \"uid\": " + Show(st.uid) + ",";
    console.PrintOut(l7);
    var l8 := "    \"gid\": " + Show(st.gid) + ",";
    console.PrintOut(l8);
    var l9 := "    \"size\": \"" + size + "\",";
    console.PrintOut(l9);
    var l10 := "    \"accessTime\": \"" + FormatTime(st.atime, humanReadable, libc) + "\",";
    console.PrintOut(l10);
    var l11 := "    \"modificationTime\": \"" + FormatTime(st.mtime, humanReadable, libc) + "\",";
    console.PrintOut(l11);
    var l12 := "    \"statusChangeTime\": \"" + FormatTime(st.ctime, humanReadable, libc) + "\"";
    console.PrintOut(l12);
    var l13 := "  }";
    console.PrintOut(l13);
    var l14 := "}";
    console.PrintOut(l14);
    assert console.out == old(console.out) + [l0] + [l1] + [l2] + [l3] + [l4] + [l5] + [l6] + [l7] + [l8] + [l9] + [l10] + [l11] + [l12] + [l13] + [l14];
    FifteenAppends(old(console.out), l0, l1, l2, l3, l4, l5, l6, l7, l8, l9, l10, l11, l12, l13, l14);
  }

  /** print_inode_info_text: the eleven labelled lines of one record, in order. */
  method PrintInodeInfoText(console: Console, path: string, st: StatInfo, humanReadable: bool, libc: Libc)
    modifies console
    ensures console.out == old(console.out) + TextLines(path, st, humanReadable, libc)
    ensures console.err == old(console.err)
  {
    var typeLabel := TypeLabel(st.mode);
    var perms := FormatPermissions(st.mode);
    var size := FormatSize(st.size, humanReadable, libc);
    var l0 := "Information for " + path + ":";
    console.PrintOut(l0);
    var l1 := "File Inode: " + Show(st.ino);
    console.PrintOut(l1);
    var l2 := "File Type: " + typeLabel;
    console.PrintOut(l2);
    var l3 := "Permissions: " + perms;
    console.PrintOut(l3);
    var l4 := "Number of Hard Links: " + Show(st.nlink);
    console.PrintOut(l4);
    var l5 := "Owner UID: " + Show(st.uid);
    console.PrintOut(l5);
    var l6 := "Group GID: " + Show(st.gid);
    console.PrintOut(l6);
    var l7 := "File Size: " + size;
    console.PrintOut(l7);
    var l8 := "Last Access Time: " + FormatTime(st.atime, humanReadable, libc);
    console.PrintOut(l8);
    var l9 := "Last Modification Time: " + FormatTime(st.mtime, humanReadable, libc);
    console.PrintOut(l9);
    var l10 := "Last Status Change Time: " + FormatTime(st.ctime, humanReadable, libc);
    console.PrintOut(l10);
    assert console.out == old(console.out) + [l0] + [l1] + [l2] + [l3] + [l4] + [l5] + [l6] + [l7] + [l8] + [l9] + [l10];
    ElevenAppends(old(console.out), l0, l1, l2, l3, l4, l5, l6, l7, l8, l9, l10);
  }
}
