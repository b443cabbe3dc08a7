/**
 * The partner of the two renderers: decoders that strip the fixed key or
 * label of each line and read the values back. Decoding either encoding of a
 * record gives the record's eleven values in field order, so the two
 * encodings carry the same fields, in the same order.
 */
module Decode {
  import opened Decimal
  import opened Stat
  import opened Format
  import opened Record

  // ----- JSON -----

  /** What stands before and after the value on the line of each JSON field. */
  const JSON_PREFIXES: seq<string> :=
    ["  \"filePath\": \"", "    \"number\": ", "    \"type\": \"", "    \"permissions\": \"",
     "    \"linkCount\": ", "    \"uid\": ", "    \"gid\": ", "    \"size\": \"",
     "    \"accessTime\": \"", "    \"modificationTime\": \"", "    \"statusChangeTime\": \""]
  const JSON_SUFFIXES: seq<string> :=
    ["\",", ",", "\",", "\",", ",", ",", ",", "\",", "\",", "\",", "\""]

  /** The line of a JSON record that holds field k: line 1, then lines 3 to 12. */
  function JsonLineOf(k: nat): nat {
    if k == 0 then 1 else k + 2
  }

  /** The line of field k is its key and opening text, the value, then the closing text. */
  lemma JsonFieldLine(vs: seq<string>, k: nat)
    requires |vs| == FIELD_COUNT && k < FIELD_COUNT
    ensures JsonRecord(vs)[JsonLineOf(k)] == JSON_PREFIXES[k] + vs[k] + JSON_SUFFIXES[k]
  {
    var lines := JsonRecord(vs);
    if k == 0 { assert lines[1] == JSON_PREFIXES[0] + vs[0] + JSON_SUFFIXES[0]; }
    else if k == 1 { assert lines[3] == JSON_PREFIXES[1] + vs[1] + JSON_SUFFIXES[1]; }
    else if k == 2 { assert lines[4] == JSON_PREFIXES[2] + vs[2] + JSON_SUFFIXES[2]; }
    else if k == 3 { assert lines[5] == JSON_PREFIXES[3] + vs[3] + JSON_SUFFIXES[3]; }
    else if k == 4 { assert lines[6] == JSON_PREFIXES[4] + vs[4] + JSON_SUFFIXES[4]; }
    else if k == 5 { assert lines[7] == JSON_PREFIXES[5] + vs[5] + JSON_SUFFIXES[5]; }
    else if k == 6 { assert lines[8] == JSON_PREFIXES[6] + vs[6] + JSON_SUFFIXES[6]; }
    else if k == 7 { assert lines[9] == JSON_PREFIXES[7] + vs[7] + JSON_SUFFIXES[7]; }
    else if k == 8 { assert lines[10] == JSON_PREFIXES[8] + vs[8] + JSON_SUFFIXES[8]; }
    else if k == 9 { assert lines[11] == JSON_PREFIXES[9] + vs[9] + JSON_SUFFIXES[9]; }
    else { assert lines[12] == JSON_PREFIXES[10] + vs[10] + JSON_SUFFIXES[10]; }
  }

  /** The text between a known prefix and a known suffix of a line, if it has both. */
  function Unwrap(line: string, prefix: string, suffix: string): (r: Option<string>)
    ensures r.Some? ==> prefix + r.value + suffix == line
  {
    if |prefix| + |suffix| <= |line| && line[..|prefix|] == prefix && line[|line| - |suffix|..] == suffix
    then
      var v := line[|prefix|..|line| - |suffix|];
      assert prefix + v + suffix == line by {
        assert line == line[..|prefix|] + line[|prefix|..|line| - |suffix|] + line[|line| - |suffix|..];
      }
      Some(v)
    else None
  }

  lemma UnwrapWrap(prefix: string, v: string, suffix: string)
    ensures Unwrap(prefix + v + suffix, prefix, suffix) == Some(v)
  {
    var line := prefix + v + suffix;
    assert line[..|prefix|] == prefix;
    assert line[|line| - |suffix|..] == suffix;
    assert line[|prefix|..|line| - |suffix|] == v;
  }

  /** Reads the values back from the lines of one JSON record. */
  function DecodeJson(lines: seq<string>): Option<seq<string>> {
    if |lines| == 15 && lines[0] == "{" && lines[2] == "  \"inode\": {" && lines[13] == "  }" && lines[14] == "}"
       && forall k :: 0 <= k < FIELD_COUNT ==> Unwrap(lines[JsonLineOf(k)], JSON_PREFIXES[k], JSON_SUFFIXES[k]).Some?
    then Some(seq(FIELD_COUNT, k requires 0 <= k < FIELD_COUNT =>
                Unwrap(lines[JsonLineOf(k)], JSON_PREFIXES[k], JSON_SUFFIXES[k]).value))
    else None
  }

  /** Decoding the JSON record of any eleven values gives those values back. */
  lemma DecodeJsonRecord(vs: seq<string>)
    requires |vs| == FIELD_COUNT
    ensures DecodeJson(JsonRecord(vs)) == Some(vs)
  {
    var lines := JsonRecord(vs);
    forall k | 0 <= k < FIELD_COUNT
      ensures Unwrap(lines[JsonLineOf(k)], JSON_PREFIXES[k], JSON_SUFFIXES[k]) == Some(vs[k])
    {
      JsonFieldLine(vs, k);
      UnwrapWrap(JSON_PREFIXES[k], vs[k], JSON_SUFFIXES[k]);
    }
    var decoded := seq(FIELD_COUNT, k requires 0 <= k < FIELD_COUNT =>
                     Unwrap(lines[JsonLineOf(k)], JSON_PREFIXES[k], JSON_SUFFIXES[k]).value);
    assert decoded == vs;
  }

  /** Decoding a JSON record gives back its eleven values in field order. */
  lemma JsonRoundTrip(path: string, st: StatInfo, humanReadable: bool, libc: Libc)
    ensures DecodeJson(JsonLines(path, st, humanReadable, libc)) == Some(RecordValues(path, st, humanReadable, libc))
  {
    DecodeJsonRecord(RecordValues(path, st, humanReadable, libc));
  }

  // ----- text -----

  /** The label before, and the text after, the value on each text line. */
  const TEXT_LABELS: seq<string> :=
    ["Information for ", "File Inode: ", "File Type: ", "Permissions: ",
     "Number of Hard Links: ", "Owner UID: ", "Group GID: ", "File Size: ",
     "Last Access Time: ", "Last Modification Time: ", "Last Status Change Time: "]
  const TEXT_SUFFIXES: seq<string> := [":", "", "", "", "", "", "", "", "", "", ""]

  /** Each text line is its label, the value, and ":" after the path. */
  lemma TextFieldLine(vs: seq<string>, k: nat)
    requires |vs| == FIELD_COUNT && k < FIELD_COUNT
    ensures TextRecord(vs)[k] == TEXT_LABELS[k] + vs[k] + TEXT_SUFFIXES[k]
  {
    var lines := TextRecord(vs);
    if k == 0 {
      assert lines[0] == TEXT_LABELS[0] + vs[0] + TEXT_SUFFIXES[0];
    } else {
      assert TEXT_SUFFIXES[k] == "";
      assert lines[k] == TEXT_LABELS[k] + vs[k] + "";
    }
  }

  /** Reads the values back from the lines of one text record. */
  function DecodeText(lines: seq<string>): Option<seq<string>> {
    if |lines| == FIELD_COUNT
       && forall k :: 0 <= k < FIELD_COUNT ==> Unwrap(lines[k], TEXT_LABELS[k], TEXT_SUFFIXES[k]).Some?
    then Some(seq(FIELD_COUNT, k requires 0 <= k < FIELD_COUNT =>
                Unwrap(lines[k], TEXT_LABELS[k], TEXT_SUFFIXES[k]).value))
    else None
  }

  /** Decoding the text record of any eleven values gives those values back. */
  lemma DecodeTextRecord(vs: seq<string>)
    requires |vs| == FIELD_COUNT
    ensures DecodeText(TextRecord(vs)) == Some(vs)
  {
    var lines := TextRecord(vs);
    forall k | 0 <= k < FIELD_COUNT
      ensures Unwrap(lines[k], TEXT_LABELS[k], TEXT_SUFFIXES[k]) == Some(vs[k])
    {
      TextFieldLine(vs, k);
      UnwrapWrap(TEXT_LABELS[k], vs[k], TEXT_SUFFIXES[k]);
    }
    var decoded := seq(FIELD_COUNT, k requires 0 <= k < FIELD_COUNT =>
                     Unwrap(lines[k], TEXT_LABELS[k], TEXT_SUFFIXES[k]).value);
    assert decoded == vs;
  }

  /** Decoding a text record gives back its eleven values in field order. */
  lemma TextRoundTrip(path: string, st: StatInfo, humanReadable: bool, libc: Libc)
    ensures DecodeText(TextLines(path, st, humanReadable, libc)) == Some(RecordValues(path, st, humanReadable, libc))
  {
    DecodeTextRecord(RecordValues(path, st, humanReadable, libc));
  }

  /** The two encodings of one record carry the same values in the same order. */
  lemma EncodingsAgree(path: string, st: StatInfo, humanReadable: bool, libc: Libc)
    ensures DecodeJson(JsonLines(path, st, humanReadable, libc)) == DecodeText(TextLines(path, st, humanReadable, libc))
  {
    JsonRoundTrip(path, st, humanReadable, libc);
    TextRoundTrip(path, st, humanReadable, libc);
  }
}
