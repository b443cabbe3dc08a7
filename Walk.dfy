/**
 * process_directory: list a directory, skip "." and "..", stat each child
 * at "<dir>/<name>", render it or report the failure and go on, and descend
 * into child directories when the walk is recursive.
 *
 * The file system is a finite tree. Each entry of a listing has a name and
 * a node; the node holds what stat returns for the entry's path and what
 * opendir/readdir return for it. The listing order is whatever the sequence
 * holds. What the walk does is described twice: as a trace of events
 * (functions WalkTrace, WalkFrom and Visit) and as the imperative method
 * ProcessDirectory, whose output is proved to be the rendering of that trace.
 */
module Walk {
  import opened Decimal
  import opened Stat
  import opened Format
  import opened Output
  import opened Record
  import opened Render
  import opened Decode

  /** What stat(path) returns: the record, or the errno of the failure. */
  datatype StatResult = Statted(info: StatInfo) | StatFailed(errno: nat)

  /** What opendir/readdir give for a path: the failure, or the entries in listing order. */
  datatype Listing = OpenFailed(errno: nat) | Listed(entries: seq<Entry>)

  datatype Node = Node(stat: StatResult, listing: Listing)

  datatype Entry = Entry(name: string, node: Node)

  /** The command-line switches the walk passes down unchanged. */
  datatype Options = Options(json: bool, humanReadable: bool, recursive: bool)

  /** What the walk does, one event per rendered record or reported error. */
  datatype Event =
    | Rendered(path: string, info: StatInfo)    // print_inode_info_json/text
    | StatError(path: string, errno: nat)       // "Error getting file info for ..."
    | OpenError(path: string, errno: nat)       // "Error: Unable to open directory ...", then exit

  /** The events of a walk, and whether it ended the process (exit(EXIT_FAILURE)). */
  datatype Trace = Trace(events: seq<Event>, exited: bool)

  /** The names process_directory skips: the two strcmp tests against "." and "..". */
  function IsDot(name: string): (dot: bool)
    ensures dot <==> 0 < |name| <= 2 && forall i :: 0 <= i < |name| ==> name[i] == '.'
  {
    name == "." || name == ".."
  }

  /** The child path snprintf builds: "<dir>/<name>". */
  function Join(dir: string, name: string): (p: string)
    ensures |p| == |dir| + 1 + |name|
    ensures p[..|dir|] == dir && p[|dir|] == '/' && p[|dir| + 1..] == name
  {
    dir + "/" + name
  }

  function Entries(d: Node): seq<Entry> {
    if d.listing.Listed? then d.listing.entries else []
  }

  // ----- the walk as a trace -----

  /**
   * process_directory(path) on node d: a failure to open the directory ends
   * the process; otherwise the entries are visited in listing order.
   */
  function WalkTrace(path: string, d: Node, recursive: bool): (t: Trace)
    decreases d, 2, 0
    ensures t.exited ==> |t.events| > 0
    ensures !recursive ==> (t.exited <==> d.listing.OpenFailed?)
  {
    match d.listing
    case OpenFailed(e) => Trace([OpenError(path, e)], true)
    case Listed(_) => WalkFrom(path, d, 0, recursive)
  }

  /** The loop of process_directory from the i-th entry on; it stops when a visit ends the process. */
  function WalkFrom(path: string, d: Node, i: nat, recursive: bool): (t: Trace)
    requires i <= |Entries(d)|
    decreases d, 1, |Entries(d)| - i
    ensures t.exited ==> |t.events| > 0
    ensures !recursive ==> !t.exited
  {
    if i == |Entries(d)| then Trace([], false)
    else
      var v := Visit(path, Entries(d)[i], recursive);
      if v.exited then v
      else
        var rest := WalkFrom(path, d, i + 1, recursive);
        Trace(v.events + rest.events, rest.exited)
  }

  /**
   * One pass of the loop body for entry e of the directory at path: skip "."
   * and ".."; otherwise stat the joined path, report a failure and go on, or
   * render the record and then, when recursive and the entry is a directory,
   * walk it.
   */
  function Visit(path: string, e: Entry, recursive: bool): (t: Trace)
    decreases e.node, 3, 0
    ensures IsDot(e.name) ==> t.events == [] && !t.exited
    ensures !IsDot(e.name) ==>
      |t.events| > 0 && t.events[0].path == Join(path, e.name) && !t.events[0].OpenError?
    ensures t.exited ==> recursive
  {
    if IsDot(e.name) then Trace([], false)
    else
      var p := Join(path, e.name);
      match e.node.stat
      case StatFailed(err) => Trace([StatError(p, err)], false)
      case Statted(st) =>
        if recursive && IsDir(st.mode) then
          var sub := WalkTrace(p, e.node, recursive);
          Trace([Rendered(p, st)] + sub.events, sub.exited)
        else Trace([Rendered(p, st)], false)
  }

  // ----- the output of a trace -----

  /** The standard-output lines an event produces. */
  function EventOut(ev: Event, opts: Options, libc: Libc): (lines: seq<string>)
    ensures !ev.Rendered? ==> lines == []
    ensures ev.Rendered? && opts.json ==>
      |lines| == 15 && DecodeJson(lines) == Some(RecordValues(ev.path, ev.info, opts.humanReadable, libc))
    ensures ev.Rendered? && !opts.json ==>
      |lines| == FIELD_COUNT && DecodeText(lines) == Some(RecordValues(ev.path, ev.info, opts.humanReadable, libc))
  {
    match ev
    case Rendered(p, st) =>
      if opts.json then JsonRoundTrip(p, st, opts.humanReadable, libc); JsonLines(p, st, opts.humanReadable, libc)
      else TextRoundTrip(p, st, opts.humanReadable, libc); TextLines(p, st, opts.humanReadable, libc)
    case _ => []
  }

  /** The standard-error lines an event produces. */
  function EventErr(ev: Event, libc: Libc): (lines: seq<string>)
    ensures |lines| <= 1
    ensures lines == [] <==> ev.Rendered?
  {
    match ev
    case Rendered(_, _) => []
    case StatError(p, e) => ["Error getting file info for " + p + ": " + libc.strerror(e)]
    case OpenError(p, e) => ["Error: Unable to open directory " + p + ": " + libc.strerror(e)]
  }

  function OutLines(evs: seq<Event>, opts: Options, libc: Libc): seq<string> {
    if |evs| == 0 then [] else EventOut(evs[0], opts, libc) + OutLines(evs[1..], opts, libc)
  }

  function ErrLines(evs: seq<Event>, libc: Libc): seq<string> {
    if |evs| == 0 then [] else EventErr(evs[0], libc) + ErrLines(evs[1..], libc)
  }

  lemma {:induction false} OutLinesAppend(a: seq<Event>, b: seq<Event>, opts: Options, libc: Libc)
    ensures OutLines(a + b, opts, libc) == OutLines(a, opts, libc) + OutLines(b, opts, libc)
    decreases |a|
  {
    if a != [] {
      assert (a + b)[0] == a[0];
      assert (a + b)[1..] == a[1..] + b;
      OutLinesAppend(a[1..], b, opts, libc);
      Assoc(EventOut(a[0], opts, libc), OutLines(a[1..], opts, libc), OutLines(b, opts, libc));
    } else {
      assert a + b == b;
    }
  }

  lemma {:induction false} ErrLinesAppend(a: seq<Event>, b: seq<Event>, libc: Libc)
    ensures ErrLines(a + b, libc) == ErrLines(a, libc) + ErrLines(b, libc)
    decreases |a|
  {
    if a != [] {
      assert (a + b)[0] == a[0];
      assert (a + b)[1..] == a[1..] + b;
      ErrLinesAppend(a[1..], b, libc);
      Assoc(EventErr(a[0], libc), ErrLines(a[1..], libc), ErrLines(b, libc));
    } else {
      assert a + b == b;
    }
  }

  // ----- the walk as a method -----

  /**
   * process_directory. Returns true when the process would have exited
   * (a directory on the way could not be opened); the caller then stops
   * at once, as nothing after exit() runs.
   */
  method ProcessDirectory(console: Console, path: string, d: Node, opts: Options, libc: Libc)
    returns (exited: bool)
    modifies console
    decreases d, 2, 0
    ensures console.out == old(console.out) + OutLines(WalkTrace(path, d, opts.recursive).events, opts, libc)
    ensures console.err == old(console.err) + ErrLines(WalkTrace(path, d, opts.recursive).events, libc)
    ensures exited == WalkTrace(path, d, opts.recursive).exited
  {
    if d.listing.OpenFailed? {
      var e := d.listing.errno;
      console.PrintErr("Error: Unable to open directory " + path + ": " + libc.strerror(e));
      WalkOpenFailed(old(console.out), old(console.err), path, d, opts, libc);
      return true;
    }
    exited := InspectEntries(console, path, d, opts, libc);
  }

  /**
   * The loop of process_directory over the entries of a directory that was
   * opened, in the order readdir returns them.
   */
  method InspectEntries(console: Console, path: string, d: Node, opts: Options, libc: Libc)
    returns (exited: bool)
    requires d.listing.Listed?
    modifies console
    decreases d, 1, 0
    ensures console.out == old(console.out) + OutLines(WalkTrace(path, d, opts.recursive).events, opts, libc)
    ensures console.err == old(console.err) + ErrLines(WalkTrace(path, d, opts.recursive).events, libc)
    ensures exited == WalkTrace(path, d, opts.recursive).exited
  {
    var entries := d.listing.entries;
    ghost var out0, err0 := console.out, console.err;
    ghost var done: seq<Event> := [];
    var i := 0;
    ProgressStart(out0, err0, path, d, opts, libc);
    while i < |entries|
      invariant 0 <= i <= |entries| && entries == Entries(d)
      invariant Progress(out0, err0, console.out, console.err, path, d, i, opts, libc, done)
    {
      var stop;
      stop, done := InspectNext(console, path, d, i, opts, libc, out0, err0, done);
      if stop {
        return true;
      }
      i := i + 1;
    }
    WalkFromEnd(out0, err0, console.out, console.err, path, d, opts, libc, done);
    return false;
  }

  /** One turn of the loop of InspectEntries: inspect entry i of d. */
  method InspectNext(console: Console, path: string, d: Node, i: nat, opts: Options, libc: Libc,
                     ghost out0: seq<string>, ghost err0: seq<string>, ghost done: seq<Event>)
    returns (exited: bool, ghost done': seq<Event>)
    requires d.listing.Listed? && i < |Entries(d)|
    requires Progress(out0, err0, console.out, console.err, path, d, i, opts, libc, done)
    modifies console
    decreases d, 0, 0
    ensures exited ==>
      && console.out == out0 + OutLines(WalkTrace(path, d, opts.recursive).events, opts, libc)
      && console.err == err0 + ErrLines(WalkTrace(path, d, opts.recursive).events, libc)
      && WalkTrace(path, d, opts.recursive).exited
    ensures !exited ==> Progress(out0, err0, console.out, console.err, path, d, i + 1, opts, libc, done')
  {
    exited := InspectEntry(console, path, d.listing.entries[i], opts, libc);
    LoopStep(out0, err0, console.out, console.err, path, d, i, opts, libc, done);
    done' := done + Visit(path, d.listing.entries[i], opts.recursive).events;
  }

  /**
   * The loop body of process_directory for one entry: skip "." and "..",
   * stat "<path>/<name>" and report a failure, or go on to the record.
   * Returns true when the process would have exited.
   */
  method InspectEntry(console: Console, path: string, e: Entry, opts: Options, libc: Libc)
    returns (exited: bool)
    modifies console
    decreases e.node, 4, 0
    ensures console.out == old(console.out) + OutLines(Visit(path, e, opts.recursive).events, opts, libc)
    ensures console.err == old(console.err) + ErrLines(Visit(path, e, opts.recursive).events, libc)
    ensures exited == Visit(path, e, opts.recursive).exited
  {
    if IsDot(e.name) {
      LinesOfNone(opts, libc);
      return false;
    }
    if e.node.stat.StatFailed? {
      var child := Join(path, e.name);
      var err := e.node.stat.errno;
      console.PrintErr("Error getting file info for " + child + ": " + libc.strerror(err));
      VisitStatFailed(path, e, opts, libc);
      return false;
    }
    exited := InspectStatted(console, path, e, opts, libc);
  }

  /**
   * The rest of the loop body once stat succeeded: print the record, then,
   * when the walk is recursive and the entry is a directory, descend into it.
   */
  method InspectStatted(console: Console, path: string, e: Entry, opts: Options, libc: Libc)
    returns (exited: bool)
    requires !IsDot(e.name) && e.node.stat.Statted?
    modifies console
    decreases e.node, 3, 0
    ensures console.out == old(console.out) + OutLines(Visit(path, e, opts.recursive).events, opts, libc)
    ensures console.err == old(console.err) + ErrLines(Visit(path, e, opts.recursive).events, libc)
    ensures exited == Visit(path, e, opts.recursive).exited
  {
    var child := Join(path, e.name);
    var st := e.node.stat.info;
    PrintRecord(console, child, st, opts, libc);
    if opts.recursive && IsDir(st.mode) {
      exited := ProcessDirectory(console, child, e.node, opts, libc);
      VisitDescends(old(console.out), path, e, opts, libc);
    } else {
      exited := false;
      VisitRendered(path, e, opts, libc);
    }
  }

  /** The record of one entry, in the format the options select. */
  method PrintRecord(console: Console, path: string, st: StatInfo, opts: Options, libc: Libc)
    modifies console
    ensures console.out == old(console.out) + EventOut(Rendered(path, st), opts, libc)
    ensures console.err == old(console.err)
  {
    if opts.json {
      PrintInodeInfoJson(console, path, st, opts.humanReadable, libc);
    } else {
      PrintInodeInfoText(console, path, st, opts.humanReadable, libc);
    }
  }

  lemma VisitStatFailed(path: string, e: Entry, opts: Options, libc: Libc)
    requires !IsDot(e.name) && e.node.stat.StatFailed?
    ensures Visit(path, e, opts.recursive) == Trace([StatError(Join(path, e.name), e.node.stat.errno)], false)
    ensures OutLines(Visit(path, e, opts.recursive).events, opts, libc) == []
    ensures ErrLines(Visit(path, e, opts.recursive).events, libc)
      == ["Error getting file info for " + Join(path, e.name) + ": " + libc.strerror(e.node.stat.errno)]
  {
    LinesOfOne(StatError(Join(path, e.name), e.node.stat.errno), opts, libc);
  }

  lemma VisitRendered(path: string, e: Entry, opts: Options, libc: Libc)
    requires !IsDot(e.name) && e.node.stat.Statted?
    requires !(opts.recursive && IsDir(e.node.stat.info.mode))
    ensures Visit(path, e, opts.recursive) == Trace([Rendered(Join(path, e.name), e.node.stat.info)], false)
    ensures OutLines(Visit(path, e, opts.recursive).events, opts, libc) == EventOut(Rendered(Join(path, e.name), e.node.stat.info), opts, libc)
    ensures ErrLines(Visit(path, e, opts.recursive).events, libc) == []
  {
    LinesOfOne(Rendered(Join(path, e.name), e.node.stat.info), opts, libc);
  }

  lemma VisitDescends(out: seq<string>, path: string, e: Entry, opts: Options, libc: Libc)
    requires !IsDot(e.name) && e.node.stat.Statted?
    requires opts.recursive && IsDir(e.node.stat.info.mode)
    ensures Visit(path, e, opts.recursive).exited == WalkTrace(Join(path, e.name), e.node, opts.recursive).exited
    ensures out + OutLines(Visit(path, e, opts.recursive).events, opts, libc)
      == (out + EventOut(Rendered(Join(path, e.name), e.node.stat.info), opts, libc)) + OutLines(WalkTrace(Join(path, e.name), e.node, opts.recursive).events, opts, libc)
    ensures ErrLines(Visit(path, e, opts.recursive).events, libc)
      == ErrLines(WalkTrace(Join(path, e.name), e.node, opts.recursive).events, libc)
  {
    var r := Rendered(Join(path, e.name), e.node.stat.info);
    var sub := WalkTrace(Join(path, e.name), e.node, opts.recursive).events;
    LinesOfOne(r, opts, libc);
    OutLinesAppend([r], sub, opts, libc);
    ErrLinesAppend([r], sub, libc);
    Assoc(out, EventOut(r, opts, libc), OutLines(sub, opts, libc));
  }

  /** A directory that cannot be opened: one message on standard error, then exit. */
  lemma WalkOpenFailed(out: seq<string>, err: seq<string>, path: string, d: Node, opts: Options, libc: Libc)
    requires d.listing.OpenFailed?
    ensures out + OutLines(WalkTrace(path, d, opts.recursive).events, opts, libc) == out
    ensures err + ErrLines(WalkTrace(path, d, opts.recursive).events, libc)
      == err + ["Error: Unable to open directory " + path + ": " + libc.strerror(d.listing.errno)]
    ensures WalkTrace(path, d, opts.recursive).exited
  {
    LinesOfOne(OpenError(path, d.listing.errno), opts, libc);
    assert out + [] == out;
  }

  /** The lines of a one-event trace are the lines of the event. */
  lemma LinesOfOne(ev: Event, opts: Options, libc: Libc)
    ensures OutLines([ev], opts, libc) == EventOut(ev, opts, libc)
    ensures ErrLines([ev], libc) == EventErr(ev, libc)
  {
    assert [ev][1..] == [];
  }

  lemma LinesOfNone(opts: Options, libc: Libc)
    ensures OutLines([], opts, libc) == [] && ErrLines([], libc) == []
  {}

  /** Printing the lines of more events after those of a prefix of them. */
  lemma OutLinesExtend(out: seq<string>, a: seq<Event>, b: seq<Event>, opts: Options, libc: Libc)
    ensures (out + OutLines(a, opts, libc)) + OutLines(b, opts, libc) == out + OutLines(a + b, opts, libc)
  {
    OutLinesAppend(a, b, opts, libc);
    Assoc(out, OutLines(a, opts, libc), OutLines(b, opts, libc));
  }

  lemma ErrLinesExtend(err: seq<string>, a: seq<Event>, b: seq<Event>, libc: Libc)
    ensures (err + ErrLines(a, libc)) + ErrLines(b, libc) == err + ErrLines(a + b, libc)
  {
    ErrLinesAppend(a, b, libc);
    Assoc(err, ErrLines(a, libc), ErrLines(b, libc));
  }

  lemma Assoc<T>(a: seq<T>, b: seq<T>, c: seq<T>)
    ensures (a + b) + c == a + (b + c)
  {}

  /**
   * What the loop of InspectEntries keeps: the events done so far are a
   * prefix of the walk, the walk from entry i is the rest of it, and the
   * console holds the lines of the prefix.
   */
  ghost predicate Progress(out0: seq<string>, err0: seq<string>, out: seq<string>, err: seq<string>,
                           path: string, d: Node, i: nat, opts: Options, libc: Libc, done: seq<Event>)
  {
    && i <= |Entries(d)|
    && done + WalkFrom(path, d, i, opts.recursive).events == WalkTrace(path, d, opts.recursive).events
    && WalkFrom(path, d, i, opts.recursive).exited == WalkTrace(path, d, opts.recursive).exited
    && out == out0 + OutLines(done, opts, libc)
    && err == err0 + ErrLines(done, libc)
  }

  /**
   * One turn of the loop of InspectEntries: after the i-th entry's visit
   * has been printed, the printed lines are those of a longer prefix of the
   * walk, which is either the whole walk (the visit exited) or is followed
   * by the walk from the next entry.
   */
  lemma LoopStep(out0: seq<string>, err0: seq<string>, out: seq<string>, err: seq<string>,
                 path: string, d: Node, i: nat, opts: Options, libc: Libc, done: seq<Event>)
    requires i < |Entries(d)|
    requires Progress(out0, err0, out0 + OutLines(done, opts, libc), err0 + ErrLines(done, libc), path, d, i, opts, libc, done)
    requires out == (out0 + OutLines(done, opts, libc)) + OutLines(Visit(path, Entries(d)[i], opts.recursive).events, opts, libc)
    requires err == (err0 + ErrLines(done, libc)) + ErrLines(Visit(path, Entries(d)[i], opts.recursive).events, libc)
    ensures Visit(path, Entries(d)[i], opts.recursive).exited ==>
      && out == out0 + OutLines(WalkTrace(path, d, opts.recursive).events, opts, libc)
      && err == err0 + ErrLines(WalkTrace(path, d, opts.recursive).events, libc)
      && WalkTrace(path, d, opts.recursive).exited
    ensures !Visit(path, Entries(d)[i], opts.recursive).exited ==>
      Progress(out0, err0, out, err, path, d, i + 1, opts, libc, done + Visit(path, Entries(d)[i], opts.recursive).events)
  {
    var visit := Visit(path, Entries(d)[i], opts.recursive).events;
    OutLinesExtend(out0, done, visit, opts, libc);
    ErrLinesExtend(err0, done, visit, libc);
    WalkFromStep(path, d, i, opts.recursive, done);
  }

  /** One turn of the loop: the visit's events extend the prefix already produced. */
  lemma WalkFromStep(path: string, d: Node, i: nat, recursive: bool, done: seq<Event>)
    requires i < |Entries(d)|
    requires done + WalkFrom(path, d, i, recursive).events == WalkTrace(path, d, recursive).events
    requires WalkFrom(path, d, i, recursive).exited == WalkTrace(path, d, recursive).exited
    ensures Visit(path, Entries(d)[i], recursive).exited ==>
      done + Visit(path, Entries(d)[i], recursive).events == WalkTrace(path, d, recursive).events
      && WalkTrace(path, d, recursive).exited
    ensures !Visit(path, Entries(d)[i], recursive).exited ==>
      (done + Visit(path, Entries(d)[i], recursive).events) + WalkFrom(path, d, i + 1, recursive).events == WalkTrace(path, d, recursive).events
      && WalkFrom(path, d, i + 1, recursive).exited == WalkTrace(path, d, recursive).exited
  {
    var v := Visit(path, Entries(d)[i], recursive);
    if !v.exited {
      assert (done + v.events) + WalkFrom(path, d, i + 1, recursive).events == done + WalkFrom(path, d, i, recursive).events;
    }
  }

  /** Before the first entry nothing has been printed and the rest is the whole walk. */
  lemma ProgressStart(out0: seq<string>, err0: seq<string>, path: string, d: Node, opts: Options, libc: Libc)
    requires d.listing.Listed?
    ensures Progress(out0, err0, out0, err0, path, d, 0, opts, libc, [])
  {
    assert out0 + [] == out0 && err0 + [] == err0;
    assert [] + WalkFrom(path, d, 0, opts.recursive).events == WalkFrom(path, d, 0, opts.recursive).events;
  }

  /** After the last entry the prefix is the whole walk, and it did not exit. */
  lemma WalkFromEnd(out0: seq<string>, err0: seq<string>, out: seq<string>, err: seq<string>,
                    path: string, d: Node, opts: Options, libc: Libc, done: seq<Event>)
    requires Progress(out0, err0, out, err, path, d, |Entries(d)|, opts, libc, done)
    ensures out == out0 + OutLines(WalkTrace(path, d, opts.recursive).events, opts, libc)
    ensures err == err0 + ErrLines(WalkTrace(path, d, opts.recursive).events, libc)
    ensures !WalkTrace(path, d, opts.recursive).exited
  {
    assert done + [] == done;
  }

}
