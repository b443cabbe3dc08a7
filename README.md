# Inode inspector, modelled in Dafny

This project models the core of `inspect.c`, a command-line inode inspector.
Given a file or a directory, the inspector prints the metadata `stat` returns
for each entry. The metadata is:

- the inode number, type and ls-style permission string;
- the link count, uid and gid;
- the size and the three timestamps.

Each record is printed as JSON or as labelled text. A directory is walked with
`process_directory`, optionally recursively.

Each module covers one part of the program:

- `Stat`: the `mode_t` bits, using the Linux `S_IF*`/`S_I*` values. It also
  holds the `S_ISxxx` tests, the eight kinds of entry and the `struct stat`
  fields the inspector prints.
- `Decimal`: the `%ld`/`%lu`/`%u`/`%lld` conversions (`Show`), with a parser
  (`Parse`) as their inverse.
- `Format`: `format_permissions`, `format_size`, `format_time` and the
  type-label chain of both renderers. The C library's `%.2f` digits, the
  local calendar time and `strerror` are parameters, held in a `Libc` value
  of functions.
- `Output`: standard output and standard error, modelled as a `Console`
  object whose two sequences hold one element per `printf`/`fprintf` call
  (a call's text is one output line unless a path it prints holds a newline;
  see Left out).
- `Record`: the lines one record prints in each encoding.
- `Decode`: decoders that read the eleven field values back from those lines.
- `Render`: `print_inode_info_json` and `print_inode_info_text`, as
  straight-line methods that make one `printf` call per line of the format.
- `Walk`: `process_directory`. The file system is a finite tree. Each node
  holds the result of `stat` and the result of `opendir`/`readdir`: a failure
  errno, or the entries in listing order. The walk is described twice:
  - as a trace of events (`WalkTrace`, `WalkFrom` and `Visit`): a record rendered,
    a stat failure reported, or an open failure that ends the process;
  - as the imperative method `ProcessDirectory`, whose loop is proved to
    print exactly the lines of that trace.
- `Traversal`: properties of the trace. The process exits only on an open
  failure. A walk that does not recurse reports each child other than `.`
  and `..` exactly once, in listing order. Recursive or not, a walk that did
  not exit describes every such child exactly once, when the listing's names
  are distinct and free of '/'. A child is reported
  before its descendants, and every path lies under the directory walked.
  A recursive walk that did not exit describes every descendant exactly
  once, at any depth. A descendant is named by the index of an entry at each
  level, and each listing on the way has distinct names free of '/'.

Two behaviours of the code are easy to misread. The model follows the code:

- A sub-directory that cannot be opened during a recursive walk ends the whole
  process, not only the walk of that sub-directory. The same `opendir` check,
  with its `exit`, runs at every level (inspect.c:121-124). `Walk.WalkTrace`,
  `Traversal.WalkExitShape` and `Walk.ProcessDirectory` capture this: after
  such a failure nothing more is printed.
- Children are examined with `stat`, which follows symbolic links, so a link
  to a directory is described as the directory it points to and is descended
  into during a recursive walk. The model's finite tree cannot express a link
  cycle; see Left out.

Values are inserted into the JSON record as they are: a quotation mark or a
backslash in a path is not escaped (inspect.c:201). `Record.JsonRecord`
therefore takes the path unchanged.

## Model

| member | source | states |
|---|---|---|
| Stat.TypeOf | inspect.c:154-161 | the kind of an entry is Directory, Symlink, RegularFile, CharDevice, BlockDevice, Fifo or Socket exactly when the matching S_ISxxx test holds on the mode, and Unknown otherwise |
| Format.PermissionGlyph | inspect.c:154-161 | the first-match chain DIR, LNK, REG, CHR, BLK, FIFO, SOCK, else '?' yields the glyph of the mode's kind (d, l, -, c, b, p, s, ?) |
| Format.FormatPermissions | inspect.c:151-168 | the permission string has exactly 10 characters. Position 0 is the glyph of the mode's kind. Positions 1-9 test S_IRUSR, S_IWUSR, S_IXUSR, S_IRGRP, S_IWGRP, S_IXGRP, S_IROTH, S_IWOTH, S_IXOTH in that order, each giving r, w or x when its bit is set and '-' otherwise |
| Format.PermissionsAlphabet | inspect.c:153-166 | every character of the permission string is a type glyph, r, w, x or '-' |
| Format.PermissionsLocal | inspect.c:162-166 | each position of the permission string depends only on its own bit (position 0 only on the type bits): two modes that agree there give the same character |
| Format.PermissionsRoundTrip | inspect.c:162-166 | reading the nine letters back as bits recovers exactly the mode's permission bits (mode & 0777) |
| Format.PermissionsDetermined | inspect.c:151-168 | two modes give the same permission string if and only if they have the same kind and the same nine permission bits |
| Format.GlyphsDistinct | inspect.c:154-161 | different kinds of entry have different glyphs |
| Format.TypeLabel | inspect.c:204-236 | the "type" chain of the JSON renderer (lines 204-212) and the identical "File Type" chain of the text renderer (lines 228-236), testing DIR, REG, LNK, CHR, BLK, FIFO, SOCK, else "unknown", yield the label of the mode's kind, which is one of the eight labels |
| Format.LabelsDistinct | inspect.c:205-212 | different kinds of entry get different labels |
| Format.LabelAgreesWithGlyph | inspect.c:154-161 | for every mode, the record's type label and the glyph that opens its permission string name the same kind (directory and d, unknown and ?, and so on) |
| Format.UnitFor | inspect.c:183-192 | the unit chosen is the largest of GB (2^30), MB (2^20), KB (2^10) and bytes whose threshold the size reaches |
| Format.UnitMonotone | inspect.c:184-190 | a larger size never gets a smaller unit |
| Format.FormatSizeUnit | inspect.c:183-192 | whatever digits printf produces, a human-readable size ends with " GB", " MB", " KB" or " bytes" exactly as the thresholds select |
| Format.FormatSizeBytes | inspect.c:190-191 | below 1024 the human-readable size is the exact decimal count followed by " bytes" |
| Format.FormatSize | inspect.c:181-197 | in human-readable mode the text ends with the suffix of the unit the thresholds select (" GB", " MB", " KB" or " bytes"); without -h it is the exact signed decimal byte count, which parses back to the size. FormatSizeUnit reads the unit back |
| Format.FormatSizeBoundaries | inspect.c:184-191 | 1023 gives "1023 bytes", 1024 and 1048575 give KB, 1048576 and 1073741823 give MB, and 1073741824 gives GB |
| Format.FormatTime | inspect.c:170-179 | without -h the timestamp is the exact signed decimal number of epoch seconds, which parses back to it; with -h it is the local calendar time, which the model leaves to the C library |
| Decimal.ShowRoundTrip | inspect.c:176 | the decimal conversion printf performs for a signed integer parses back to the same integer |
| Decimal.ShowInjective | inspect.c:194 | different integers print differently |
| Decimal.Show | inspect.c:194 | the %ld/%lu/%u/%lld text of an integer is non-empty, starts with '-' exactly when the integer is negative, and is all digits otherwise. ShowRoundTrip shows it is exact |
| Record.RecordValues | inspect.c:199-244 | a record carries eleven values (path, inode number, type, permissions, link count, uid, gid, size, access, modification and status-change time); the round-trip lemmas of Decode show both encodings print them in this order |
| Record.JsonLines | inspect.c:199-223 | a JSON record is fifteen lines |
| Record.TextLines | inspect.c:225-245 | a text record is eleven lines |
| Record.JsonRecord | inspect.c:200-222 | the fifteen JSON lines of any eleven values; DecodeJsonRecord reads the values back from them |
| Record.TextRecord | inspect.c:226-244 | the eleven labelled lines of any eleven values; DecodeTextRecord reads the values back from them |
| Decode.JsonFieldLine | inspect.c:201-220 | the k-th value sits on its own line of the JSON record, between that field's fixed key prefix and its fixed suffix |
| Decode.DecodeJsonRecord | inspect.c:200-222 | decoding the JSON lines of any eleven values gives back exactly those values |
| Decode.JsonRoundTrip | inspect.c:199-223 | decoding the JSON lines of a record gives back its eleven values in field order |
| Decode.TextFieldLine | inspect.c:226-244 | the k-th value sits on the k-th line of the text record, after that field's label |
| Decode.DecodeTextRecord | inspect.c:226-244 | decoding the text lines of any eleven values gives back exactly those values |
| Decode.TextRoundTrip | inspect.c:225-245 | decoding the text lines of a record gives back its eleven values in field order |
| Decode.EncodingsAgree | inspect.c:199-245 | the JSON and text encodings of a record carry the same values in the same order |
| Decode.Unwrap | inspect.c:201 | a line that decodes is its prefix, the value and its suffix |
| Decode.UnwrapWrap | inspect.c:201 | a value framed by a prefix and a suffix decodes to itself |
| Output.Console.PrintOut | inspect.c:200 | a printf to standard output appends the text of that one call to it and leaves standard error alone |
| Output.Console.PrintErr | inspect.c:134 | an fprintf to standard error appends the text of that one call to it and leaves standard output alone |
| Render.PrintInodeInfoJson | inspect.c:199-223 | standard output gains exactly the fifteen JSON lines of the record, in order; standard error is unchanged |
| Render.PrintInodeInfoText | inspect.c:225-245 | standard output gains exactly the eleven text lines of the record, in order; standard error is unchanged |
| Walk.IsDot | inspect.c:127 | a name is skipped exactly when it is "." or "..": one or two characters, every one a dot |
| Walk.Join | inspect.c:131 | the child path is the directory, one '/' and the name, in that order and nothing else; JoinInjective shows different names give different paths |
| Walk.WalkTrace | inspect.c:118-147 | a walk that exits reports something; without -r it exits exactly when the directory cannot be opened. ExitShape, ShallowWalk, WalkHasChild, WalkReportsChildOnce and WalkReportsDescendantOnce state the rest |
| Walk.WalkFrom | inspect.c:126-147 | the readdir loop from any entry on: an exit reports something, and without -r the loop never exits |
| Walk.Visit | inspect.c:127-146 | "." and ".." yield nothing; any other child yields first an event at "<dir>/<name>" that is its record or its stat failure; a visit exits only when the walk is recursive |
| Walk.EventOut | inspect.c:138-142 | a rendered record prints fifteen lines under -f json, which the JSON decoder reads back as the record's values, and eleven text lines otherwise, which the text decoder reads back; a stat or open failure prints nothing on standard output |
| Walk.EventErr | inspect.c:122-134 | an event prints at most one line on standard error, and none exactly when it is a rendered record; the texts are those of lines 122 and 134 |
| Walk.ProcessDirectory | inspect.c:118-149 | the lines printed on standard output and standard error are exactly those of the walk's trace, and the method reports exit exactly when the trace ends in exit. A directory that cannot be opened prints one error and exits |
| Walk.InspectEntries | inspect.c:126-148 | the readdir loop visits the entries in listing order, printing the lines of each visit, and stops at once after a visit that exits |
| Walk.InspectNext | inspect.c:126-147 | one turn of the loop prints the lines of the next entry's visit. Afterwards the printed lines are those of the whole trace (on exit), or of a longer prefix of it |
| Walk.InspectEntry | inspect.c:127-136 | one entry prints the lines of its visit: nothing for "." and "..", one error line when stat fails, then the loop goes on |
| Walk.InspectStatted | inspect.c:138-146 | a statted entry prints its record, then the walk of the child when recursive and the child is a directory |
| Walk.PrintRecord | inspect.c:138-142 | the record is printed in JSON when -f json was given, otherwise as text |
| Walk.VisitStatFailed | inspect.c:133-136 | a failed stat prints "Error getting file info for <path>: <strerror>" on standard error, nothing on standard output, and the walk goes on |
| Walk.VisitRendered | inspect.c:138-142 | a statted entry that is not descended into prints its record and nothing on standard error |
| Walk.VisitDescends | inspect.c:144-146 | a directory descended into prints its own record first, then everything its walk prints, and exits exactly when that walk does |
| Walk.WalkOpenFailed | inspect.c:121-124 | a directory that cannot be opened prints "Error: Unable to open directory <path>: <strerror>" and nothing else, and the process exits |
| Walk.OutLinesAppend | inspect.c:126-147 | the output of consecutive events is the concatenation of their outputs |
| Walk.ErrLinesAppend | inspect.c:126-147 | the same for standard error |
| Walk.LoopStep | inspect.c:126-147 | one turn of the loop keeps the loop invariant, or completes the walk when the visit exits |
| Walk.WalkFromStep | inspect.c:126-147 | a visit's events extend the prefix of the trace already produced |
| Walk.ProgressStart | inspect.c:126 | before the first entry nothing is printed and the rest of the trace is the whole walk |
| Walk.WalkFromEnd | inspect.c:126-148 | when readdir is exhausted the printed lines are those of the whole walk, which did not exit |
| Traversal.WalkExitShape | inspect.c:121-124 | a walk exits exactly when its last event is a failure to open a directory, and no such failure comes earlier; failed stats never end it |
| Traversal.WalkFromExitShape | inspect.c:126-147 | the same for the loop from any entry on |
| Traversal.VisitExitShape | inspect.c:133-146 | the same for one entry's visit, recursion included |
| Traversal.NoOpenErrorUnlessExited | inspect.c:121-124 | a walk that did not exit reported no open failure |
| Traversal.ShallowWalk | inspect.c:126-146 | without -r, an opened directory yields exactly one event per listed child other than "." and "..", in listing order: its record, or its stat failure at "<dir>/<name>". The walk never exits |
| Traversal.ShallowWalkFrom | inspect.c:126-146 | the same for the loop from any entry on |
| Traversal.ChildEventsOnePerChild | inspect.c:126-136 | the shallow events number exactly the children other than "." and "..". Every event is some such child's, and every such child has its event |
| Traversal.ChildEvent | inspect.c:131 | each child's event is about the path "<dir>/<name>" |
| Traversal.JoinUnder | inspect.c:131 | the joined child path lies under the directory |
| Traversal.UnderTransitive | inspect.c:131 | a path under a child lies under the child's directory |
| Traversal.VisitPaths | inspect.c:126-146 | "." and ".." yield no event. For any other child the first event is the child's own (record or stat failure), and every later one is about a path under the child, or is the failure to open the child itself. So a child comes before its descendants, and all of them lie under the directory |
| Traversal.WalkPaths | inspect.c:118-147 | every event of a walk is about a path under the walked directory, except the failure to open the directory itself |
| Traversal.WalkFromPaths | inspect.c:126-147 | every event of the loop from any entry on is about a path under the directory |
| Traversal.WalkHasChild | inspect.c:126-146 | recursive or not, a walk that did not exit holds the record or stat failure of every listed child other than "." and ".." |
| Traversal.WalkFromHasChild | inspect.c:126-146 | the same for the loop from any entry on, for every child at or after it |
| Traversal.WalkReportsChildOnce | inspect.c:126-146 | recursive or not, in a directory whose names are distinct and hold no '/' (as readdir returns them), each child other than "." and ".." is described (record or stat failure) at most once, and exactly once when the walk did not exit |
| Traversal.WalkFromReportsChild | inspect.c:126-146 | the same count for the loop from entry i on: at most once for a child at or after i, never for one before it, and exactly once when the loop did not exit |
| Traversal.VisitReportsSelf | inspect.c:133-146 | a child's visit describes the child exactly once, even when it descends into the child |
| Traversal.VisitReportsOther | inspect.c:133-146 | a child's visit describes nothing at a path that is neither the child's nor under it |
| Traversal.CountReportsAppend | inspect.c:126-147 | the descriptions of consecutive events add up |
| Traversal.JoinInjective | inspect.c:131 | two names give the same child path exactly when they are the same name |
| Traversal.NotUnderSibling | inspect.c:131 | a child's path never lies under a sibling's path, since names hold no '/' |
| Traversal.SiblingDisjoint | inspect.c:131 | a path under one child is neither a sibling's path nor under it, when the two names differ and hold no '/' |
| Traversal.DescendantUnder | inspect.c:131-144 | every descendant's path lies under the directory walked |
| Traversal.WalkFromVisitsOnward | inspect.c:133-146 | inside a loop that did not exit, no visit from the loop's start on exited |
| Traversal.WalkFromAfterChild | inspect.c:126-146 | once the loop is past a child, it says nothing about any path under that child |
| Traversal.UnderChildFrom | inspect.c:126-146 | in a recursive loop that did not exit, a path under child k is described exactly as often as child k's visit describes it |
| Traversal.WalkReportsDescendantOnce | inspect.c:118-147 | a recursive walk that did not exit describes every descendant reached through directories, at any depth and other than "." and "..", exactly once (record or stat failure), when every listing on the way has distinct names free of '/' |

## Left out

- `main`: the option parsing with getopt, the checks on which options go together and the exit codes (inspect.c:19-89). It is command-line glue. The single-file branch it runs (`stat`, then one of the two renderers) is the same pair of calls the walk makes per child (`Walk.PrintRecord`).
- `display_help` (inspect.c:91-101): it only prints fixed text.
- `log_operation` (inspect.c:103-116): appending to a log file and reading the clock are I/O. `process_directory` passes the log file name down without using it, so `Walk.Options` omits it.
- Format.FormatTime: the human-readable branch (`localtime` and `strftime`) depends on the time zone and the C library. It is the parameter `Libc.localTime`, so nothing is proved about its text.
- Format.FormatSize: the `%.2f` digits of a scaled size come from floating-point division and printf rounding. They are the parameter `Libc.fixed2`, so only the unit choice and the suffix are proved.
- Walk.EventErr: the text of `strerror(errno)` is the parameter `Libc.strerror`.
- The `stat`, `opendir`, `readdir`, `closedir` and `printf` calls themselves are replaced by the finite tree (`Walk.Node`) and the `Output.Console` sequences. One element is one `printf` call, without its trailing newline.
- Newlines inside paths: a Linux file name may contain a newline. The `printf` calls that print a path (inspect.c:122, 134, 201, 226) then write several output lines, and a record in the real output stream has more than fifteen (JSON) or eleven (text) lines. The model counts calls, not lines. `Decode.DecodeJson` and `Decode.DecodeText` read the sequence of calls, not the byte stream, which such a path makes ambiguous.
- Traversal.WalkReportsChildOnce: requires the listing's names to be distinct and free of '/'. readdir guarantees this for one directory, but `Walk.Node` does not enforce it, so for an arbitrary tree only the membership of WalkHasChild is promised.
- Traversal.WalkReportsDescendantOnce: requires the same of every listing on the way to the descendant, for the same reason, and speaks only of walks that did not exit; a walk that exits stops short and WalkExitShape describes its end.
- Walk.Join: the 1024-byte `snprintf` buffer truncates longer child paths (inspect.c:130-131). The model joins without a length limit. The gap reaches further than one long path:
  - When a directory path is exactly 1022 bytes long, every child path is cut to "<dir>/", and `stat` of that path describes the directory itself. With -r the program then descends into the same directory again and again, keeping each level's directory open, until `opendir` fails (for example with EMFILE) and the process exits.
  - Distinct long names can also collapse onto one path.
  - `Traversal.JoinInjective`, `Traversal.WalkReportsChildOnce`, `Traversal.WalkReportsDescendantOnce` and the termination of `Walk.WalkTrace` therefore describe the program only for paths shorter than 1024 bytes.
- The static result buffers of the formatters (inspect.c:152, 171, 182) are overwritten by the next call. The model returns fresh strings; every caller uses a result before the next call, so nothing observable changes.
- Symbolic-link cycles: `stat` follows links, so a recursive walk can pass through a link to an ancestor again and again. The finite tree cannot express a cycle. How the program's walk then ends is decided by the kernel's limit on links followed in one path (the stat fails with ELOOP), not by inspect.c. A run bounded that way could be written out as a finite tree, unrolled until a `StatFailed(ELOOP)`.
- An `exit` ends the process. The model returns `true` from the walk instead, and every caller then returns at once without printing anything more.
- test/BookReviewManager.java is an unrelated database console application and is not part of this model.
