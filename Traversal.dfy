/**
 * Properties of the walk of process_directory, stated over its trace of
 * events: when the process exits, what a walk that does not recurse emits,
 * and the order in which a child and its descendants appear.
 */
module Traversal {
  import opened Stat
  import opened Walk

  // ----- exit only when a directory cannot be opened -----

  /**
   * The shape of a trace with respect to exit: it exits exactly when its last
   * event is a failure to open a directory, and no such failure comes
   * earlier. Failed stats never end the walk.
   */
  predicate ExitShape(t: Trace) {
    && (t.exited <==> |t.events| > 0 && t.events[|t.events| - 1].OpenError?)
    && forall i :: 0 <= i < |t.events| - 1 ==> !t.events[i].OpenError?
  }

  /** A trace that did not exit holds no open failure at all. */
  lemma NoOpenErrorUnlessExited(t: Trace)
    requires ExitShape(t) && !t.exited
    ensures forall i :: 0 <= i < |t.events| ==> !t.events[i].OpenError?
  {
  }

  lemma {:induction false} WalkExitShape(path: string, d: Node, recursive: bool)
    ensures ExitShape(WalkTrace(path, d, recursive))
    decreases d, 2, 0
  {
    if d.listing.Listed? {
      WalkFromExitShape(path, d, 0, recursive);
    }
  }

  lemma {:induction false} WalkFromExitShape(path: string, d: Node, i: nat, recursive: bool)
    requires i <= |Entries(d)|
    ensures ExitShape(WalkFrom(path, d, i, recursive))
    decreases d, 1, |Entries(d)| - i
  {
    if i < |Entries(d)| {
      var v := Visit(path, Entries(d)[i], recursive);
      VisitExitShape(path, Entries(d)[i], recursive);
      if !v.exited {
        var rest := WalkFrom(path, d, i + 1, recursive);
        WalkFromExitShape(path, d, i + 1, recursive);
        NoOpenErrorUnlessExited(v);
        var evs := v.events + rest.events;
        assert WalkFrom(path, d, i, recursive) == Trace(evs, rest.exited);
        forall k | 0 <= k < |evs| - 1 ensures !evs[k].OpenError? {
          if k >= |v.events| {
            assert evs[k] == rest.events[k - |v.events|];
          }
        }
        if |rest.events| > 0 {
          assert evs[|evs| - 1] == rest.events[|rest.events| - 1];
        } else {
          assert evs == v.events;
        }
      }
    }
  }

  lemma {:induction false} VisitExitShape(path: string, e: Entry, recursive: bool)
    ensures ExitShape(Visit(path, e, recursive))
    decreases e.node, 3, 0
  {
    if !IsDot(e.name) && e.node.stat.Statted? && recursive && IsDir(e.node.stat.info.mode) {
      var p := Join(path, e.name);
      var sub := WalkTrace(p, e.node, recursive);
      WalkExitShape(p, e.node, recursive);
      var evs := [Rendered(p, e.node.stat.info)] + sub.events;
      forall k | 0 <= k < |evs| - 1 ensures !evs[k].OpenError? {
        if k > 0 {
          assert evs[k] == sub.events[k - 1];
        }
      }
      if |sub.events| > 0 {
        assert evs[|evs| - 1] == sub.events[|sub.events| - 1];
      }
    }
  }

  // ----- a walk that does not recurse -----

  /** The event of one child stat'ed at "<path>/<name>". */
  function ChildEvent(path: string, e: Entry): (ev: Event)
    ensures ev.path == Join(path, e.name)
  {
    match e.node.stat
    case Statted(st) => Rendered(Join(path, e.name), st)
    case StatFailed(err) => StatError(Join(path, e.name), err)
  }

  /** One event per entry other than "." and "..", in listing order. */
  function ChildEvents(path: string, es: seq<Entry>): seq<Event> {
    if |es| == 0 then []
    else (if IsDot(es[0].name) then [] else [ChildEvent(path, es[0])]) + ChildEvents(path, es[1..])
  }

  /**
   * Without recursion, a directory that opens yields exactly one event per
   * listed child other than "." and "..", in listing order: its record, or
   * the failure of its stat. The walk never exits.
   */
  lemma ShallowWalk(path: string, d: Node)
    requires d.listing.Listed?
    ensures WalkTrace(path, d, false) == Trace(ChildEvents(path, Entries(d)), false)
  {
    ShallowWalkFrom(path, d, 0);
    assert Entries(d)[0..] == Entries(d);
  }

  lemma {:induction false} ShallowWalkFrom(path: string, d: Node, i: nat)
    requires i <= |Entries(d)|
    ensures WalkFrom(path, d, i, false) == Trace(ChildEvents(path, Entries(d)[i..]), false)
    decreases |Entries(d)| - i
  {
    if i < |Entries(d)| {
      var es := Entries(d)[i..];
      ShallowWalkFrom(path, d, i + 1);
      assert es[0] == Entries(d)[i];
      assert es[1..] == Entries(d)[i + 1..];
    }
  }

  /** The number of children a shallow walk reports. */
  function CountChildren(es: seq<Entry>): nat {
    if |es| == 0 then 0 else (if IsDot(es[0].name) then 0 else 1) + CountChildren(es[1..])
  }

  /** ChildEvents has one event per child, and the events name the children in order. */
  lemma {:induction false} ChildEventsOnePerChild(path: string, es: seq<Entry>)
    ensures |ChildEvents(path, es)| == CountChildren(es)
    ensures forall ev :: ev in ChildEvents(path, es) ==>
      exists k :: 0 <= k < |es| && !IsDot(es[k].name) && ev == ChildEvent(path, es[k])
    ensures forall k :: 0 <= k < |es| && !IsDot(es[k].name) ==> ChildEvent(path, es[k]) in ChildEvents(path, es)
  {
    if |es| > 0 {
      ChildEventsOnePerChild(path, es[1..]);
      var head := if IsDot(es[0].name) then [] else [ChildEvent(path, es[0])];
      var tail := ChildEvents(path, es[1..]);
      forall ev | ev in ChildEvents(path, es)
        ensures exists k :: 0 <= k < |es| && !IsDot(es[k].name) && ev == ChildEvent(path, es[k])
      {
        if ev in head {
          assert !IsDot(es[0].name) && ev == ChildEvent(path, es[0]);
        } else {
          assert ev in tail;
          var k :| 0 <= k < |es[1..]| && !IsDot(es[1..][k].name) && ev == ChildEvent(path, es[1..][k]);
          assert es[k + 1] == es[1..][k];
        }
      }
      forall k | 0 <= k < |es| && !IsDot(es[k].name)
        ensures ChildEvent(path, es[k]) in ChildEvents(path, es)
      {
        if k > 0 {
          assert es[1..][k - 1] == es[k];
        }
      }
    }
  }

  // ----- a child before its descendants -----

  /** p lies under directory dir: it starts with "<dir>/". */
  predicate Under(dir: string, p: string) {
    |dir| < |p| && p[..|dir| + 1] == dir + "/"
  }

  lemma JoinUnder(dir: string, name: string)
    ensures Under(dir, Join(dir, name))
  {
    assert Join(dir, name)[..|dir| + 1] == dir + "/";
  }

  lemma {:induction false} UnderTransitive(dir: string, name: string, p: string)
    requires Under(Join(dir, name), p)
    ensures Under(dir, p)
  {
    var c := Join(dir, name);
    assert p[..|dir| + 1] == p[..|c| + 1][..|dir| + 1];
    assert c[..|dir| + 1] == dir + "/";
    assert (c + "/")[..|dir| + 1] == c[..|dir| + 1];
  }

  /**
   * Every event of a walk of the directory at path is about path itself (the
   * failure to open it) or about a path under it.
   */
  lemma {:induction false} WalkPaths(path: string, d: Node, recursive: bool)
    ensures forall k :: 0 <= k < |WalkTrace(path, d, recursive).events| ==>
      || (WalkTrace(path, d, recursive).events[k].path == path && WalkTrace(path, d, recursive).events[k].OpenError?)
      || Under(path, WalkTrace(path, d, recursive).events[k].path)
    ensures d.listing.Listed? ==> forall k :: 0 <= k < |WalkTrace(path, d, recursive).events| ==>
      Under(path, WalkTrace(path, d, recursive).events[k].path)
    decreases d, 2, 0
  {
    if d.listing.Listed? {
      WalkFromPaths(path, d, 0, recursive);
    }
  }

  lemma {:induction false} WalkFromPaths(path: string, d: Node, i: nat, recursive: bool)
    requires i <= |Entries(d)|
    ensures forall k :: 0 <= k < |WalkFrom(path, d, i, recursive).events| ==>
      Under(path, WalkFrom(path, d, i, recursive).events[k].path)
    decreases d, 1, |Entries(d)| - i
  {
    if i < |Entries(d)| {
      var e := Entries(d)[i];
      var v := Visit(path, e, recursive);
      VisitPaths(path, e, recursive);
      if !v.exited {
        var rest := WalkFrom(path, d, i + 1, recursive);
        WalkFromPaths(path, d, i + 1, recursive);
        var evs := v.events + rest.events;
        forall k | 0 <= k < |evs| ensures Under(path, evs[k].path) {
          if k < |v.events| {
            assert evs[k] == v.events[k];
          } else {
            assert evs[k] == rest.events[k - |v.events|];
          }
        }
      }
    }
  }

  /**
   * The visit of a child other than "." and ".." starts with the child's own
   * event, at "<path>/<name>"; every later event is about a path under the
   * child, or is the failure to open the child itself, so descendants come
   * after it. All of them lie under path.
   */
  lemma {:induction false} VisitPaths(path: string, e: Entry, recursive: bool)
    ensures IsDot(e.name) ==> Visit(path, e, recursive).events == []
    ensures !IsDot(e.name) ==>
      && |Visit(path, e, recursive).events| > 0
      && Visit(path, e, recursive).events[0] == ChildEvent(path, e)
      && forall k :: 1 <= k < |Visit(path, e, recursive).events| ==>
           || (Visit(path, e, recursive).events[k].path == Join(path, e.name) && Visit(path, e, recursive).events[k].OpenError?)
           || Under(Join(path, e.name), Visit(path, e, recursive).events[k].path)
    ensures forall k :: 0 <= k < |Visit(path, e, recursive).events| ==>
      Under(path, Visit(path, e, recursive).events[k].path)
    decreases e.node, 3, 0
  {
    if !IsDot(e.name) {
      var c := Join(path, e.name);
      var evs := Visit(path, e, recursive).events;
      JoinUnder(path, e.name);
      if e.node.stat.Statted? && recursive && IsDir(e.node.stat.info.mode) {
        var sub := WalkTrace(c, e.node, recursive).events;
        WalkPaths(c, e.node, recursive);
        assert evs == [Rendered(c, e.node.stat.info)] + sub;
        forall k | 1 <= k < |evs| ensures (evs[k].path == c && evs[k].OpenError?) || Under(c, evs[k].path) {
          assert evs[k] == sub[k - 1];
        }
        forall k | 0 <= k < |evs| ensures Under(path, evs[k].path) {
          if k > 0 && evs[k].path != c {
            UnderTransitive(path, e.name, evs[k].path);
          }
        }
      }
    }
  }

  // ----- every child, at any depth of recursion -----

  /**
   * A walk that did not exit holds the own event of every listed child other
   * than "." and "..", recursive or not.
   */
  lemma WalkHasChild(path: string, d: Node, k: nat, recursive: bool)
    requires d.listing.Listed? && k < |Entries(d)| && !IsDot(Entries(d)[k].name)
    requires !WalkTrace(path, d, recursive).exited
    ensures ChildEvent(path, Entries(d)[k]) in WalkTrace(path, d, recursive).events
  {
    WalkFromHasChild(path, d, 0, k, recursive);
  }

  lemma {:induction false} WalkFromHasChild(path: string, d: Node, i: nat, k: nat, recursive: bool)
    requires i <= k < |Entries(d)| && !IsDot(Entries(d)[k].name)
    requires !WalkFrom(path, d, i, recursive).exited
    ensures ChildEvent(path, Entries(d)[k]) in WalkFrom(path, d, i, recursive).events
    decreases |Entries(d)| - i
  {
    var v := Visit(path, Entries(d)[i], recursive);
    var rest := WalkFrom(path, d, i + 1, recursive);
    assert WalkFrom(path, d, i, recursive).events == v.events + rest.events;
    if i == k {
      VisitPaths(path, Entries(d)[k], recursive);
      assert v.events[0] in v.events;
    } else {
      WalkFromHasChild(path, d, i + 1, k, recursive);
    }
  }

  /**
   * What readdir returns for one directory: no two entries share a name, and
   * no name contains '/'.
   */
  predicate ProperListing(d: Node) {
    && (forall j, k :: 0 <= j < k < |Entries(d)| ==> Entries(d)[j].name != Entries(d)[k].name)
    && (forall k :: 0 <= k < |Entries(d)| ==> '/' !in Entries(d)[k].name)
  }

  /** A record or a stat failure about path p: the events that describe an entry. */
  predicate ReportsOn(ev: Event, p: string) {
    (ev.Rendered? || ev.StatError?) && ev.path == p
  }

  /** The number of events that describe the entry at p. */
  function CountReports(evs: seq<Event>, p: string): nat {
    if |evs| == 0 then 0 else (if ReportsOn(evs[0], p) then 1 else 0) + CountReports(evs[1..], p)
  }

  /**
   * In a walk of a properly listed directory, each child other than "." and
   * ".." is described at most once; when the walk did not exit, exactly once.
   * (A child directory that stats but cannot be opened also yields an open
   * failure at its path, which is not a description of it.)
   */
  lemma WalkReportsChildOnce(path: string, d: Node, k: nat, recursive: bool)
    requires d.listing.Listed? && ProperListing(d)
    requires k < |Entries(d)| && !IsDot(Entries(d)[k].name)
    ensures CountReports(WalkTrace(path, d, recursive).events, Join(path, Entries(d)[k].name)) <= 1
    ensures !WalkTrace(path, d, recursive).exited ==>
      CountReports(WalkTrace(path, d, recursive).events, Join(path, Entries(d)[k].name)) == 1
  {
    WalkFromReportsChild(path, d, 0, k, recursive);
  }

  lemma {:induction false} WalkFromReportsChild(path: string, d: Node, i: nat, k: nat, recursive: bool)
    requires ProperListing(d) && i <= |Entries(d)|
    requires k < |Entries(d)| && !IsDot(Entries(d)[k].name)
    ensures CountReports(WalkFrom(path, d, i, recursive).events, Join(path, Entries(d)[k].name))
      <= (if i <= k then 1 else 0)
    ensures i <= k && !WalkFrom(path, d, i, recursive).exited ==>
      CountReports(WalkFrom(path, d, i, recursive).events, Join(path, Entries(d)[k].name)) == 1
    decreases |Entries(d)| - i
  {
    var c := Join(path, Entries(d)[k].name);
    if i == |Entries(d)| {
      assert WalkFrom(path, d, i, recursive).events == [];
    } else {
      var e := Entries(d)[i];
      var v := Visit(path, e, recursive);
      if i == k {
        VisitReportsSelf(path, e, recursive);
      } else {
        JoinInjective(path, e.name, Entries(d)[k].name);
        NotUnderSibling(path, e.name, Entries(d)[k].name);
        VisitReportsOther(path, e, recursive, c);
      }
      if !v.exited {
        var rest := WalkFrom(path, d, i + 1, recursive);
        WalkFromReportsChild(path, d, i + 1, k, recursive);
        CountReportsAppend(v.events, rest.events, c);
      }
    }
  }

  /** A visit describes its own child exactly once. */
  lemma VisitReportsSelf(path: string, e: Entry, recursive: bool)
    requires !IsDot(e.name)
    ensures CountReports(Visit(path, e, recursive).events, Join(path, e.name)) == 1
  {
    var c := Join(path, e.name);
    var evs := Visit(path, e, recursive).events;
    VisitPaths(path, e, recursive);
    forall j | 0 <= j < |evs[1..]| ensures !ReportsOn(evs[1..][j], c) {
      assert evs[1..][j] == evs[j + 1];
    }
    CountReportsNone(evs[1..], c);
  }

  /** A visit describes nothing at a path other than its child's that does not lie under it. */
  lemma VisitReportsOther(path: string, e: Entry, recursive: bool, c: string)
    requires c != Join(path, e.name) && !Under(Join(path, e.name), c)
    ensures CountReports(Visit(path, e, recursive).events, c) == 0
  {
    var evs := Visit(path, e, recursive).events;
    VisitPaths(path, e, recursive);
    CountReportsNone(evs, c);
  }

  lemma {:induction false} CountReportsNone(evs: seq<Event>, p: string)
    requires forall j :: 0 <= j < |evs| ==> !ReportsOn(evs[j], p)
    ensures CountReports(evs, p) == 0
  {
    if |evs| > 0 {
      CountReportsNone(evs[1..], p);
    }
  }

  lemma {:induction false} CountReportsAppend(a: seq<Event>, b: seq<Event>, p: string)
    ensures CountReports(a + b, p) == CountReports(a, p) + CountReports(b, p)
  {
    if |a| == 0 {
      assert a + b == b;
    } else {
      assert (a + b)[0] == a[0];
      assert (a + b)[1..] == a[1..] + b;
      CountReportsAppend(a[1..], b, p);
    }
  }

  /** Different names give different child paths. */
  lemma JoinInjective(dir: string, n: string, m: string)
    ensures Join(dir, n) == Join(dir, m) <==> n == m
  {
  }

  /** A child path never lies under a sibling's path when names hold no '/'. */
  lemma NotUnderSibling(dir: string, n: string, m: string)
    requires '/' !in m
    ensures !Under(Join(dir, n), Join(dir, m))
  {
    var c, p := Join(dir, n), Join(dir, m);
    if |c| < |p| {
      assert p[|c|] == m[|n|];
      assert p[..|c| + 1][|c|] != (c + "/")[|c|];
    }
  }

  // ----- every descendant, at every depth -----

  /** An entry a recursive walk descends into: it stats as a directory. */
  predicate Descends(e: Entry) {
    e.node.stat.Statted? && IsDir(e.node.stat.info.mode)
  }

  /**
   * ks names a descendant of d by the index of an entry at each level: every
   * listing on the way is proper, no step is "." or "..", and every step but
   * the last is a directory the walk descends into.
   */
  predicate Reaches(d: Node, ks: seq<nat>)
    decreases |ks|
  {
    && |ks| > 0
    && ProperListing(d)
    && ks[0] < |Entries(d)|
    && !IsDot(Entries(d)[ks[0]].name)
    && (|ks| > 1 ==> Descends(Entries(d)[ks[0]]) && Reaches(Entries(d)[ks[0]].node, ks[1..]))
  }

  /** The path the walk of d at path gives the descendant named by ks. */
  function DescendantPath(path: string, d: Node, ks: seq<nat>): (p: string)
    requires Reaches(d, ks)
    decreases |ks|
  {
    var e := Entries(d)[ks[0]];
    if |ks| == 1 then Join(path, e.name) else DescendantPath(Join(path, e.name), e.node, ks[1..])
  }

  /** Every descendant's path lies under the directory walked. */
  lemma {:induction false} DescendantUnder(path: string, d: Node, ks: seq<nat>)
    requires Reaches(d, ks)
    ensures Under(path, DescendantPath(path, d, ks))
    decreases |ks|
  {
    var e := Entries(d)[ks[0]];
    JoinUnder(path, e.name);
    if |ks| > 1 {
      DescendantUnder(Join(path, e.name), e.node, ks[1..]);
      UnderTransitive(path, e.name, DescendantPath(path, d, ks));
    }
  }

  /**
   * A recursive walk that did not exit describes every descendant, at every
   * depth, exactly once: by its record, or by the failure of its stat.
   */
  lemma {:induction false} WalkReportsDescendantOnce(path: string, d: Node, ks: seq<nat>)
    requires Reaches(d, ks) && !WalkTrace(path, d, true).exited
    ensures CountReports(WalkTrace(path, d, true).events, DescendantPath(path, d, ks)) == 1
    decreases |ks|
  {
    var k := ks[0];
    if |ks| == 1 {
      WalkReportsChildOnce(path, d, k, true);
    } else {
      var e := Entries(d)[k];
      var c := Join(path, e.name);
      var q := DescendantPath(path, d, ks);
      DescendantUnder(c, e.node, ks[1..]);
      UnderChildFrom(path, d, 0, k, q);
      var sub := WalkTrace(c, e.node, true);
      assert Visit(path, e, true).events == [Rendered(c, e.node.stat.info)] + sub.events;
      CountReportsAppend([Rendered(c, e.node.stat.info)], sub.events, q);
      assert [Rendered(c, e.node.stat.info)][1..] == [];
      WalkFromVisitsOnward(path, d, 0, k, true);
      WalkReportsDescendantOnce(c, e.node, ks[1..]);
    }
  }

  /** Inside a loop that did not exit, no visit from entry i on exits. */
  lemma {:induction false} WalkFromVisitsOnward(path: string, d: Node, i: nat, k: nat, recursive: bool)
    requires i <= k < |Entries(d)| && !WalkFrom(path, d, i, recursive).exited
    ensures !Visit(path, Entries(d)[k], recursive).exited
    decreases k - i
  {
    if i < k {
      WalkFromVisitsOnward(path, d, i + 1, k, recursive);
    }
  }

  /**
   * In a recursive loop that did not exit, what is said about a path under
   * child k is said by the visit of child k alone.
   */
  lemma {:induction false} UnderChildFrom(path: string, d: Node, i: nat, k: nat, q: string)
    requires ProperListing(d) && i <= k < |Entries(d)|
    requires Under(Join(path, Entries(d)[k].name), q)
    requires !WalkFrom(path, d, i, true).exited
    ensures CountReports(WalkFrom(path, d, i, true).events, q) == CountReports(Visit(path, Entries(d)[k], true).events, q)
    decreases k - i
  {
    var e := Entries(d)[i];
    var v := Visit(path, e, true);
    var rest := WalkFrom(path, d, i + 1, true);
    CountReportsAppend(v.events, rest.events, q);
    if i == k {
      WalkFromAfterChild(path, d, i + 1, k, q);
    } else {
      SiblingDisjoint(path, Entries(d)[k].name, e.name, q);
      VisitReportsOther(path, e, true, q);
      UnderChildFrom(path, d, i + 1, k, q);
    }
  }

  /** After child k, nothing the loop says is about a path under child k. */
  lemma {:induction false} WalkFromAfterChild(path: string, d: Node, i: nat, k: nat, q: string)
    requires ProperListing(d) && k < i <= |Entries(d)|
    requires Under(Join(path, Entries(d)[k].name), q)
    ensures CountReports(WalkFrom(path, d, i, true).events, q) == 0
    decreases |Entries(d)| - i
  {
    if i < |Entries(d)| {
      var e := Entries(d)[i];
      var v := Visit(path, e, true);
      SiblingDisjoint(path, Entries(d)[k].name, e.name, q);
      VisitReportsOther(path, e, true, q);
      if !v.exited {
        WalkFromAfterChild(path, d, i + 1, k, q);
        CountReportsAppend(v.events, WalkFrom(path, d, i + 1, true).events, q);
      }
    } else {
      assert WalkFrom(path, d, i, true).events == [];
    }
  }

  /**
   * Paths under one child are never a sibling's path nor under it, when the
   * two names differ and hold no '/'.
   */
  lemma SiblingDisjoint(dir: string, n: string, m: string, p: string)
    requires '/' !in n && '/' !in m && n != m
    requires Under(Join(dir, n), p)
    ensures p != Join(dir, m) && !Under(Join(dir, m), p)
  {
    var c, cm := Join(dir, n), Join(dir, m);
    assert p[..|c| + 1] == c + "/";
    assert p[|c|] == '/';
    assert forall j :: |dir| + 1 <= j < |c| ==> p[j] == n[j - |dir| - 1];
    if |m| > |n| {
      assert cm[|c|] == m[|n|];
    } else if |m| < |n| {
      assert p[|cm|] == n[|m|];
    } else {
      var j :| 0 <= j < |n| && n[j] != m[j];
      assert p[|dir| + 1 + j] == n[j];
      assert cm[|dir| + 1 + j] == m[j];
    }
  }
}
