/**
 * The POSIX directory walk of src/scanner_posix.c, run sequentially.
 *
 * opendir/readdir/lstat are replaced by an abstract listing (`Dir`); the
 * worker thread's `cancel` flag and realloc's outcome come from oracles held
 * by the scan context: the flag reads true from the `cancelAfter`-th poll on,
 * and the append attempts numbered in `allocFails` find realloc failing.
 */
module ScannerPosix {
  import opened Common
  import opened Tree

  /** What opendir + readdir yield for one path. */
  datatype Dir = OpenFailed | Opened(entries: seq<Entry>)
  /** One readdir entry and what lstat says about it. */
  datatype Entry = Entry(name: string, stat: Stat)
  datatype Stat =
    | StatFailed              // lstat returned non-zero
    | Directory(contents: Dir) // S_ISDIR
    | Regular(bytes: nat)      // S_ISREG, with st_size
    | Special                  // symlink, device, fifo, socket

  /** The oracles: when the cancel flag turns up, which appends fail. */
  datatype Env = Env(cancelAfter: Option<nat>, allocFails: set<nat>)
  /** Poll and append-attempt counts, and the scan-wide totals. */
  datatype Counters = Counters(polls: nat, appends: nat, totalSize: nat, totalFiles: nat)
  /** A node after its walk, with the context's counters. */
  datatype Walk = Walk(node: DirNode, ctr: Counters)

  const NoCounts := Counters(0, 0, 0, 0)

  /** The value `ctx->cancel` has at the poll numbered `polls`; once true it stays true. */
  predicate CancelSeen(env: Env, polls: nat)
  {
    env.cancelAfter.Some? && polls >= env.cancelAfter.value
  }

  predicate IsDotEntry(name: string)
  {
    name == "." || name == ".."
  }

  /** A regular file's contribution to the node it sits in. */
  function AddFile(node: DirNode, bytes: nat): DirNode
  {
    node.(size := node.size + bytes, fileCount := node.fileCount + 1)
  }

  /**
   * After a subdirectory's walk: the parent gains the child's totals, the
   * child's own children are sorted and the child is marked complete.
   */
  function FoldChild(parent: DirNode, child: DirNode): (r: DirNode)
    requires |parent.children| > 0
    ensures r.size == parent.size + child.size && r.fileCount == parent.fileCount + child.fileCount
    ensures |r.children| == |parent.children|
    ensures r.children[..|r.children| - 1] == parent.children[..|parent.children| - 1]
    ensures r.children[|r.children| - 1] == child.(children := SortedChildren(child.children), complete := true)
    ensures r.(size := parent.size, fileCount := parent.fileCount, children := parent.children) == parent
  {
    parent.(size := parent.size + child.size,
            fileCount := parent.fileCount + child.fileCount,
            children := parent.children[|parent.children| - 1 :=
                          child.(children := SortedChildren(child.children), complete := true)])
  }

  /** The lines after a subdirectory's scan_dir returns: add its totals, sort its children, mark it complete. */
  method FoldFinished(parent: DirNode, child: DirNode) returns (out: DirNode)
    requires |parent.children| > 0
    ensures out == FoldChild(parent, child)
  {
    out := parent.(size := parent.size + child.size, fileCount := parent.fileCount + child.fileCount);
    var sorted := SortChildren(child);
    sorted := sorted.(complete := true);
    out := out.(children := out.children[|out.children| - 1 := sorted]);
  }

  function LastChild(n: DirNode): DirNode
    requires |n.children| > 0
  {
    n.children[|n.children| - 1]
  }

  /** scan_dir on one directory: nothing when opendir fails. */
  function WalkDir(env: Env, d: Dir, node: DirNode, c: Counters): (w: Walk)
    requires |node.children| <= node.childCapacity
    ensures |w.node.children| <= w.node.childCapacity
    ensures d.OpenFailed? ==> w == Walk(node, c)
    decreases d, 1, 0
  {
    match d
    case OpenFailed => Walk(node, c)
    case Opened(_) => WalkEntries(env, d, 0, node, c)
  }

  /** The readdir loop from entry i on; the cancel flag is polled before each entry. */
  function WalkEntries(env: Env, d: Dir, i: nat, node: DirNode, c: Counters): (w: Walk)
    requires d.Opened? && i <= |d.entries|
    requires |node.children| <= node.childCapacity
    ensures |w.node.children| <= w.node.childCapacity
    decreases d, 0, |d.entries| - i
  {
    if i == |d.entries| then Walk(node, c)
    else if CancelSeen(env, c.polls) then Walk(node, c.(polls := c.polls + 1))
    else
      var v := Visit(env, d.entries[i], node, c.(polls := c.polls + 1));
      WalkEntries(env, d, i + 1, v.node, v.ctr)
  }

  /** The body of the readdir loop for one entry, after the cancel check. */
  function Visit(env: Env, e: Entry, node: DirNode, c: Counters): (w: Walk)
    requires |node.children| <= node.childCapacity
    ensures |w.node.children| <= w.node.childCapacity
    decreases e, 0, 0
  {
    if IsDotEntry(e.name) then Walk(node, c)
    else
      match e.stat
      case StatFailed => Walk(node, c)
      case Special => Walk(node, c)
      case Regular(bytes) =>
        Walk(AddFile(node, bytes), c.(totalSize := c.totalSize + bytes, totalFiles := c.totalFiles + 1))
      case Directory(sub) =>
        var app := AddChild(node, e.name, c.appends !in env.allocFails);
        var c2 := c.(appends := c.appends + 1);
        if !app.added then Walk(node, c2)
        else
          var w := WalkDir(env, sub, LastChild(app.parent), c2);
          Walk(FoldChild(app.parent, w.node), w.ctr)
  }

  /** What the scan context holds once scanner_thread_fn has finished. */
  datatype Outcome = Outcome(root: DirNode, done: bool, totalSize: nat, totalFiles: nat)

  /** scan_dir on the root, then the completion block. */
  function Finish(env: Env, d: Dir, root: DirNode, c: Counters): (o: Outcome)
    requires |root.children| <= root.childCapacity
    ensures o.done && o.root.complete && o.totalSize == o.root.size
    ensures o.root.name == root.name && o.root.size >= root.size
    ensures o.totalFiles == c.totalFiles + (o.root.fileCount - root.fileCount)
  {
    WalkDirAccounts(env, d, root, c);
    var w := WalkDir(env, d, root, c);
    Outcome(w.node.(complete := true), true, w.node.size, w.ctr.totalFiles)
  }

  // ---------------------------------------------------------------------
  // What a walk adds, whatever the oracles say.
  // ---------------------------------------------------------------------

  /** Every child appended during the walk came out complete, with sorted children. */
  predicate FinishedFrom(n: DirNode, k: nat)
  {
    forall j :: k <= j < |n.children| ==>
      n.children[j].complete && SortedBySizeDesc(n.children[j].children)
  }

  /** What holds of every walk: the node's growth equals the growth of the totals, nothing is lost. */
  predicate WalkAccounts(node: DirNode, c: Counters, w: Walk)
  {
    && w.ctr.totalSize >= c.totalSize && w.ctr.totalFiles >= c.totalFiles
    && w.node.size == node.size + (w.ctr.totalSize - c.totalSize)
    && w.node.fileCount == node.fileCount + (w.ctr.totalFiles - c.totalFiles)
    && w.node.name == node.name && w.node.complete == node.complete
    && w.node.displaySize == node.displaySize
    && |w.node.children| >= |node.children|
    && w.node.children[..|node.children|] == node.children
    && FinishedFrom(w.node, |node.children|)
    && w.ctr.polls >= c.polls
  }

  lemma {:induction false} WalkDirAccounts(env: Env, d: Dir, node: DirNode, c: Counters)
    requires |node.children| <= node.childCapacity
    ensures WalkAccounts(node, c, WalkDir(env, d, node, c))
    decreases d, 1, 0
  {
    if d.Opened? {
      WalkEntriesAccount(env, d, 0, node, c);
    }
  }

  lemma {:induction false} WalkEntriesAccount(env: Env, d: Dir, i: nat, node: DirNode, c: Counters)
    requires d.Opened? && i <= |d.entries|
    requires |node.children| <= node.childCapacity
    ensures WalkAccounts(node, c, WalkEntries(env, d, i, node, c))
    decreases d, 0, |d.entries| - i
  {
    if i < |d.entries| && !CancelSeen(env, c.polls) {
      var c1 := c.(polls := c.polls + 1);
      var v := Visit(env, d.entries[i], node, c1);
      VisitAccounts(env, d.entries[i], node, c1);
      WalkEntriesAccount(env, d, i + 1, v.node, v.ctr);
      AccountsCompose(node, c, v, WalkEntries(env, d, i + 1, v.node, v.ctr));
    }
  }

  /** Two accounted walks in a row are one accounted walk. */
  lemma AccountsCompose(node: DirNode, c: Counters, v: Walk, w: Walk)
    requires WalkAccounts(node, c, v) && WalkAccounts(v.node, v.ctr, w)
    ensures WalkAccounts(node, c, w)
  {
    assert w.node.children[..|node.children|] == v.node.children[..|node.children|];
  }

  lemma {:induction false} VisitAccounts(env: Env, e: Entry, node: DirNode, c: Counters)
    requires |node.children| <= node.childCapacity
    ensures WalkAccounts(node, c, Visit(env, e, node, c))
    decreases e, 0, 1
  {
    if !IsDotEntry(e.name) && e.stat.Directory? && AddChild(node, e.name, c.appends !in env.allocFails).added {
      DescentAccounts(env, e, node, c);
    } else {
      assert node.children[..|node.children|] == node.children;
    }
  }

  /** The case of a subdirectory whose append succeeded. */
  lemma {:induction false} DescentAccounts(env: Env, e: Entry, node: DirNode, c: Counters)
    requires |node.children| <= node.childCapacity
    requires !IsDotEntry(e.name) && e.stat.Directory?
    requires AddChild(node, e.name, c.appends !in env.allocFails).added
    ensures WalkAccounts(node, c, Visit(env, e, node, c))
    decreases e, 0, 0
  {
    var app := AddChild(node, e.name, c.appends !in env.allocFails);
    var c2 := c.(appends := c.appends + 1);
    var child := LastChild(app.parent);
    var w := WalkDir(env, e.stat.contents, child, c2);
    assert Visit(env, e, node, c) == Walk(FoldChild(app.parent, w.node), w.ctr);
    WalkDirAccounts(env, e.stat.contents, child, c2);
    FoldAccounts(node, c, app.parent, child, c2, w);
  }

  /** Folding an accounted child walk back into the parent that just appended it. */
  lemma FoldAccounts(node: DirNode, c: Counters, parent: DirNode, child: DirNode, c2: Counters, w: Walk)
    requires |parent.children| == |node.children| + 1
    requires parent.children[..|node.children|] == node.children
    requires parent.(children := node.children, childCapacity := node.childCapacity) == node
    requires child == LastChild(parent) && !child.complete
    requires child.size == 0 && child.fileCount == 0
    requires c2.(appends := c.appends) == c
    requires WalkAccounts(child, c2, w)
    ensures WalkAccounts(node, c, Walk(FoldChild(parent, w.node), w.ctr))
  {
    SortedChildrenCorrect(w.node.children);
    var folded := FoldChild(parent, w.node);
    assert folded.children[..|node.children|] == node.children;
  }

  /** A walk that starts with the cancel flag already up changes nothing but the poll count. */
  lemma CancelledWalkIsInert(env: Env, d: Dir, node: DirNode, c: Counters)
    requires |node.children| <= node.childCapacity
    requires CancelSeen(env, c.polls)
    ensures var w := WalkDir(env, d, node, c);
      w.node == node && w.ctr.(polls := c.polls) == c && w.ctr.polls <= c.polls + 1
  {
  }

  /** The completion block: root complete, done, total_size equal to root.size and total_files to root.file_count. */
  lemma FinishAgreesWithRoot(env: Env, d: Dir, path: string)
    ensures var o := Finish(env, d, ZeroedNode(path), NoCounts);
      && o.done && o.root.complete
      && o.totalSize == o.root.size
      && o.totalFiles == o.root.fileCount
      && FinishedFrom(o.root, 0)
  {
    WalkDirAccounts(env, d, ZeroedNode(path), NoCounts);
  }

  // ---------------------------------------------------------------------
  // Every walk leaves sizes nested, whatever the oracles say.
  // ---------------------------------------------------------------------

  /** A node both nested in size and not yet animated. */
  predicate Shaped(n: DirNode)
  {
    SizeNested(n) && Unanimated(n)
  }

  /**
   * A walk of a nested node leaves it nested: each folded child joins its
   * parent together with its whole size, and a cancel or a failed append only
   * leaves children out. No display size is touched.
   */
  lemma {:induction false} WalkDirNested(env: Env, d: Dir, node: DirNode, c: Counters)
    requires |node.children| <= node.childCapacity
    requires Shaped(node)
    ensures Shaped(WalkDir(env, d, node, c).node)
    decreases d, 1, 0
  {
    if d.Opened? {
      WalkEntriesNested(env, d, 0, node, c);
    }
  }

  lemma {:induction false} WalkEntriesNested(env: Env, d: Dir, i: nat, node: DirNode, c: Counters)
    requires d.Opened? && i <= |d.entries|
    requires |node.children| <= node.childCapacity
    requires Shaped(node)
    ensures Shaped(WalkEntries(env, d, i, node, c).node)
    decreases d, 0, |d.entries| - i
  {
    if i < |d.entries| && !CancelSeen(env, c.polls) {
      var c1 := c.(polls := c.polls + 1);
      var v := Visit(env, d.entries[i], node, c1);
      assert WalkEntries(env, d, i, node, c) == WalkEntries(env, d, i + 1, v.node, v.ctr);
      VisitNested(env, d.entries[i], node, c1);
      WalkEntriesNested(env, d, i + 1, v.node, v.ctr);
    }
  }

  lemma {:induction false} VisitNested(env: Env, e: Entry, node: DirNode, c: Counters)
    requires |node.children| <= node.childCapacity
    requires Shaped(node)
    ensures Shaped(Visit(env, e, node, c).node)
    decreases e, 0, 1
  {
    if !IsDotEntry(e.name) && e.stat.Directory? && AddChild(node, e.name, c.appends !in env.allocFails).added {
      DescentNested(env, e, node, c);
    } else if !IsDotEntry(e.name) && e.stat.Regular? {
      FileKeepsNested(node, e.stat.bytes);
    }
  }

  /** A regular file only adds to the node's own size. */
  lemma FileKeepsNested(node: DirNode, bytes: nat)
    requires Shaped(node)
    ensures Shaped(AddFile(node, bytes))
  {
    assert AddFile(node, bytes).children == node.children;
  }

  /** The case of a subdirectory whose append succeeded. */
  lemma {:induction false} DescentNested(env: Env, e: Entry, node: DirNode, c: Counters)
    requires |node.children| <= node.childCapacity
    requires !IsDotEntry(e.name) && e.stat.Directory?
    requires AddChild(node, e.name, c.appends !in env.allocFails).added
    requires Shaped(node)
    ensures Shaped(Visit(env, e, node, c).node)
    decreases e, 0, 0
  {
    var app := AddChild(node, e.name, c.appends !in env.allocFails);
    var c2 := c.(appends := c.appends + 1);
    var child := LastChild(app.parent);
    FreshIsNested(child, e.name);
    var w := WalkDir(env, e.stat.contents, child, c2);
    assert Visit(env, e, node, c) == Walk(FoldChild(app.parent, w.node), w.ctr);
    WalkDirNested(env, e.stat.contents, child, c2);
    assert app.parent.children == node.children + [child];
    FoldNested(node, app.parent, w.node);
  }

  /** Folding a nested child into the parent that just appended it keeps the parent nested. */
  lemma FoldNested(node: DirNode, parent: DirNode, walked: DirNode)
    requires Shaped(node) && Shaped(walked)
    requires |parent.children| == |node.children| + 1
    requires parent.children[..|node.children|] == node.children
    requires parent.size == node.size && parent.displaySize == node.displaySize
    ensures Shaped(FoldChild(parent, walked))
  {
    var r := FoldChild(parent, walked);
    var last := walked.(children := SortedChildren(walked.children), complete := true);
    SortKeepsNested(walked, true);
    assert r.children == node.children + [last];
    TotalAppend(node.children, last);
    forall k | 0 <= k < |r.children|
      ensures SizeNested(r.children[k]) && Unanimated(r.children[k])
    {
      if k < |node.children| {
        assert r.children[k] == node.children[k];
      }
    }
  }

  /**
   * What the drawing thread can see mid-scan: a subdirectory that has already
   * counted a 5-byte file while its parent has not yet folded it in holds
   * more bytes than the parent. Folding the child in restores nesting.
   */
  lemma MidScanChildOutweighsParent()
    ensures var parent := ZeroedNode("top").(children := [AddFile(ZeroedNode("sub"), 5)], childCapacity := 8);
      && !SizeNested(parent)
      && SizeNested(FoldChild(parent, LastChild(parent)))
  {
    var parent := ZeroedNode("top").(children := [AddFile(ZeroedNode("sub"), 5)], childCapacity := 8);
    var r := FoldChild(parent, LastChild(parent));
    assert TotalSize(parent.children) == 5 by {
      assert parent.children[1..] == [];
    }
    assert TotalSize(r.children) == 5 by {
      assert r.children[1..] == [];
    }
    assert SortedChildren([]) == [];
  }

  /** The tree a finished scan leaves is nested in size and not yet animated, whatever the oracles say. */
  lemma FinishNested(env: Env, d: Dir, path: string)
    ensures Shaped(Finish(env, d, ZeroedNode(path), NoCounts).root)
  {
    var root := ZeroedNode(path);
    FreshIsNested(root, path);
    WalkDirNested(env, d, root, NoCounts);
    var w := WalkDir(env, d, root, NoCounts);
    assert Finish(env, d, root, NoCounts).root == w.node.(complete := true);
  }

  // ---------------------------------------------------------------------
  // What an uninterrupted walk with no allocation failure yields.
  // ---------------------------------------------------------------------

  /** No cancel request and no failing append. */
  predicate Unhindered(env: Env)
  {
    env.cancelAfter.None? && env.allocFails == {}
  }

  /** The reference summary of a listing: bytes and files beneath it, and its child nodes in listing order. */
  datatype Summary = Summary(bytes: nat, files: nat, children: seq<DirNode>)

  function ExpectedDir(d: Dir): Summary
    decreases d, 1, 0
  {
    match d
    case OpenFailed => Summary(0, 0, [])
    case Opened(_) => ExpectedFrom(d, 0)
  }

  function ExpectedFrom(d: Dir, i: nat): Summary
    requires d.Opened? && i <= |d.entries|
    decreases d, 0, |d.entries| - i
  {
    if i == |d.entries| then Summary(0, 0, [])
    else
      var x := ExpectedEntry(d.entries[i]);
      var rest := ExpectedFrom(d, i + 1);
      Summary(x.bytes + rest.bytes, x.files + rest.files, x.children + rest.children)
  }

  /** One entry's share: a file's bytes, or a whole subdirectory as one child; nothing for the rest. */
  function ExpectedEntry(e: Entry): Summary
    decreases e, 0
  {
    if IsDotEntry(e.name) then Summary(0, 0, [])
    else
      match e.stat
      case Regular(bytes) => Summary(bytes, 1, [])
      case Directory(sub) =>
        var s := ExpectedDir(sub);
        Summary(s.bytes, s.files, [ExpectedChild(e.name, s)])
      case _ => Summary(0, 0, [])
  }

  /** The node a fully walked subdirectory ends up as. */
  function ExpectedChild(name: string, s: Summary): DirNode
  {
    DirNode(TruncateName(name), s.bytes, s.files, SortedChildren(s.children),
            CapacityAfter(0, 0, |s.children|), true, 0.0)
  }

  /** The node after an unhindered walk: its contents summed in and one child per subdirectory appended. */
  function Absorb(node: DirNode, s: Summary): DirNode
    requires |node.children| <= node.childCapacity
  {
    node.(size := node.size + s.bytes, fileCount := node.fileCount + s.files,
          children := node.children + s.children,
          childCapacity := CapacityAfter(node.childCapacity, |node.children|, |s.children|))
  }

  lemma {:induction false} UnhinderedWalkDir(env: Env, d: Dir, node: DirNode, c: Counters)
    requires Unhindered(env)
    requires |node.children| <= node.childCapacity
    ensures var w := WalkDir(env, d, node, c); var s := ExpectedDir(d);
      && w.node == Absorb(node, s)
      && w.ctr.totalSize == c.totalSize + s.bytes
      && w.ctr.totalFiles == c.totalFiles + s.files
    decreases d, 1, 0
  {
    if d.Opened? {
      UnhinderedWalkEntries(env, d, 0, node, c);
    }
  }

  lemma {:induction false} UnhinderedWalkEntries(env: Env, d: Dir, i: nat, node: DirNode, c: Counters)
    requires Unhindered(env)
    requires d.Opened? && i <= |d.entries|
    requires |node.children| <= node.childCapacity
    ensures var w := WalkEntries(env, d, i, node, c); var s := ExpectedFrom(d, i);
      && w.node == Absorb(node, s)
      && w.ctr.totalSize == c.totalSize + s.bytes
      && w.ctr.totalFiles == c.totalFiles + s.files
    decreases d, 0, |d.entries| - i
  {
    if i == |d.entries| {
      assert node.children + [] == node.children;
    } else {
      var c1 := c.(polls := c.polls + 1);
      var v := Visit(env, d.entries[i], node, c1);
      assert WalkEntries(env, d, i, node, c) == WalkEntries(env, d, i + 1, v.node, v.ctr);
      UnhinderedVisit(env, d.entries[i], node, c1);
      UnhinderedWalkEntries(env, d, i + 1, v.node, v.ctr);
      var x := ExpectedEntry(d.entries[i]);
      var rest := ExpectedFrom(d, i + 1);
      assert ExpectedFrom(d, i) == Summary(x.bytes + rest.bytes, x.files + rest.files, x.children + rest.children);
      AbsorbSteps(node, c1, v, WalkEntries(env, d, i + 1, v.node, v.ctr), x, rest);
    }
  }

  /** An entry's walk followed by the rest of the loop absorbs both summaries. */
  lemma AbsorbSteps(node: DirNode, c: Counters, v: Walk, w: Walk, x: Summary, rest: Summary)
    requires |node.children| <= node.childCapacity
    requires v.node == Absorb(node, x)
    requires v.ctr.totalSize == c.totalSize + x.bytes && v.ctr.totalFiles == c.totalFiles + x.files
    requires |v.node.children| <= v.node.childCapacity
    requires w.node == Absorb(v.node, rest)
    requires w.ctr.totalSize == v.ctr.totalSize + rest.bytes && w.ctr.totalFiles == v.ctr.totalFiles + rest.files
    ensures w.node == Absorb(node, Summary(x.bytes + rest.bytes, x.files + rest.files, x.children + rest.children))
    ensures w.ctr.totalSize == c.totalSize + (x.bytes + rest.bytes)
    ensures w.ctr.totalFiles == c.totalFiles + (x.files + rest.files)
  {
    AbsorbCompose(node, x, rest);
  }

  /** Absorbing two summaries in a row absorbs their concatenation. */
  lemma AbsorbCompose(node: DirNode, x: Summary, y: Summary)
    requires |node.children| <= node.childCapacity
    ensures Absorb(Absorb(node, x), y)
         == Absorb(node, Summary(x.bytes + y.bytes, x.files + y.files, x.children + y.children))
  {
    CapacityAfterCompose(node.childCapacity, |node.children|, |x.children|, |y.children|);
    assert node.children + x.children + y.children == node.children + (x.children + y.children);
  }

  lemma {:induction false} UnhinderedVisit(env: Env, e: Entry, node: DirNode, c: Counters)
    requires Unhindered(env)
    requires |node.children| <= node.childCapacity
    ensures var w := Visit(env, e, node, c); var s := ExpectedEntry(e);
      && w.node == Absorb(node, s)
      && w.ctr.totalSize == c.totalSize + s.bytes
      && w.ctr.totalFiles == c.totalFiles + s.files
    decreases e, 0, 0
  {
    if IsDotEntry(e.name) || !e.stat.Directory? {
      assert node.children + [] == node.children;
    } else {
      var sub := e.stat.contents;
      var app := AddChild(node, e.name, c.appends !in env.allocFails);
      var c2 := c.(appends := c.appends + 1);
      assert app == AddChild(node, e.name, true);
      var child := LastChild(app.parent);
      UnhinderedWalkDir(env, sub, child, c2);
      var w := WalkDir(env, sub, child, c2);
      var s := ExpectedDir(sub);
      assert Visit(env, e, node, c) == Walk(FoldChild(app.parent, w.node), w.ctr);
      assert ExpectedEntry(e) == Summary(s.bytes, s.files, [ExpectedChild(e.name, s)]);
      FoldAbsorbs(node, e.name, s, w.node);
    }
  }

  /** Appending a child, walking it without hindrance and folding it back absorbs it as one expected child. */
  lemma FoldAbsorbs(node: DirNode, name: string, s: Summary, walked: DirNode)
    requires |node.children| <= node.childCapacity
    requires walked == Absorb(LastChild(AddChild(node, name, true).parent), s)
    ensures FoldChild(AddChild(node, name, true).parent, walked)
         == Absorb(node, Summary(s.bytes, s.files, [ExpectedChild(name, s)]))
  {
    var parent := AddChild(node, name, true).parent;
    var child := LastChild(parent);
    assert child.children == [] && child.childCapacity == 0;
    assert [] + s.children == s.children;
    var folded := FoldChild(parent, walked);
    assert LastChild(folded) == ExpectedChild(name, s);
    assert folded.children == node.children + [ExpectedChild(name, s)];
    assert CapacityAfter(node.childCapacity, |node.children|, 1) == parent.childCapacity;
    assert folded.size == node.size + s.bytes && folded.fileCount == node.fileCount + s.files;
  }

  /** An unhindered scan: the root holds every byte and file of the listing, its children in listing order. */
  lemma UnhinderedScan(env: Env, d: Dir, path: string)
    requires Unhindered(env)
    ensures var o := Finish(env, d, ZeroedNode(path), NoCounts); var s := ExpectedDir(d);
      && o.root.size == s.bytes && o.totalSize == s.bytes
      && o.root.fileCount == s.files && o.totalFiles == s.files
      && o.root.children == s.children
  {
    UnhinderedWalkDir(env, d, ZeroedNode(path), NoCounts);
  }

  /** The listing of a directory holding the dot entries and one regular file. */
  function OneFileDir(name: string, bytes: nat): Dir
  {
    Opened([Entry(".", Special), Entry("..", Special), Entry(name, Regular(bytes))])
  }

  /** A root holding dirs a (one file of `x` bytes) and b (one file of `y` bytes), with the dot entries. */
  function TwoSubdirs(x: nat, y: nat): Dir
  {
    Opened([Entry(".", Special), Entry("..", Special),
            Entry("a", Directory(OneFileDir("file1.txt", x))),
            Entry("b", Directory(OneFileDir("file2.txt", y)))])
  }

  /** Two subdirectories holding one file each: two children, the bytes and files of both. */
  lemma TwoSubdirsScan(env: Env, x: nat, y: nat)
    requires Unhindered(env)
    ensures var o := Finish(env, TwoSubdirs(x, y), ZeroedNode("/tmp/zf_test"), NoCounts);
      |o.root.children| == 2 && o.root.size == x + y && o.totalSize == x + y && o.totalFiles == 2
  {
    var d := TwoSubdirs(x, y);
    UnhinderedScan(env, d, "/tmp/zf_test");
    OneFileSummary("file1.txt", x);
    OneFileSummary("file2.txt", y);
    var ea, eb := d.entries[2], d.entries[3];
    SubdirShare(ea.name, ea.stat.contents);
    SubdirShare(eb.name, eb.stat.contents);
    DotsThenTwo(ea, eb);
  }

  /** A subdirectory entry contributes its whole summary and exactly one child. */
  lemma SubdirShare(name: string, sub: Dir)
    requires !IsDotEntry(name)
    ensures var s := ExpectedDir(sub); var x := ExpectedEntry(Entry(name, Directory(sub)));
      x.bytes == s.bytes && x.files == s.files && |x.children| == 1
  {
  }

  /** A listing of the two dot entries and two more adds up those two. */
  lemma DotsThenTwo(e1: Entry, e2: Entry)
    ensures var d := Opened([Entry(".", Special), Entry("..", Special), e1, e2]);
      var a, b := ExpectedEntry(e1), ExpectedEntry(e2);
      ExpectedDir(d) == Summary(a.bytes + b.bytes, a.files + b.files, a.children + b.children)
  {
    var d := Opened([Entry(".", Special), Entry("..", Special), e1, e2]);
    var a, b := ExpectedEntry(e1), ExpectedEntry(e2);
    assert ExpectedFrom(d, 4) == Summary(0, 0, []);
    assert b.children + [] == b.children;
    assert ExpectedFrom(d, 3) == b;
    assert ExpectedFrom(d, 2) == Summary(a.bytes + b.bytes, a.files + b.files, a.children + b.children);
    assert ExpectedFrom(d, 1) == ExpectedFrom(d, 2);
    assert ExpectedFrom(d, 0) == ExpectedFrom(d, 2);
  }

  lemma OneFileSummary(name: string, bytes: nat)
    requires !IsDotEntry(name)
    ensures ExpectedDir(OneFileDir(name, bytes)) == Summary(bytes, 1, [])
  {
    var d := OneFileDir(name, bytes);
    assert ExpectedFrom(d, 3) == Summary(0, 0, []);
    assert ExpectedEntry(d.entries[2]) == Summary(bytes, 1, []);
    assert ExpectedFrom(d, 2) == Summary(bytes, 1, []);
    assert ExpectedFrom(d, 1) == Summary(bytes, 1, []);
    assert ExpectedFrom(d, 0) == Summary(bytes, 1, []);
  }

  lemma EmptyRootScan(env: Env)
    requires Unhindered(env)
    ensures var o := Finish(env, Opened([Entry(".", Special), Entry("..", Special)]),
                            ZeroedNode("/tmp/zf_test_empty"), NoCounts);
      |o.root.children| == 0 && o.root.size == 0
  {
    UnhinderedScan(env, Opened([Entry(".", Special), Entry("..", Special)]), "/tmp/zf_test_empty");
  }

  // ---------------------------------------------------------------------
  // The scan context and the imperative walk.
  // ---------------------------------------------------------------------

  /** ScanContext without its mutex and thread. */
  class ScanContext {
    var root: DirNode
    const cancelAfter: Option<nat>
    const allocFails: set<nat>
    var polls: nat
    var appends: nat
    var done: bool
    var totalSize: nat
    var totalFiles: nat

    function Oracles(): Env
    {
      Env(cancelAfter, allocFails)
    }

    function Counts(): Counters
      reads this
    {
      Counters(polls, appends, totalSize, totalFiles)
    }

    /** The zeroed context of scanner_start with its root from tree_create. */
    constructor (path: string, cancelAfter: Option<nat>, allocFails: set<nat>)
      ensures root == ZeroedNode(path) && !done && Counts() == NoCounts
      ensures this.cancelAfter == cancelAfter && this.allocFails == allocFails
    {
      root := ZeroedNode(path);
      this.cancelAfter := cancelAfter;
      this.allocFails := allocFails;
      polls, appends, done, totalSize, totalFiles := 0, 0, false, 0, 0;
    }

    /** scan_dir: walks `d` into `node`, updating the context's totals as it goes. */
    method ScanDir(node: DirNode, d: Dir) returns (out: DirNode)
      requires |node.children| <= node.childCapacity
      modifies this`polls, this`appends, this`totalSize, this`totalFiles
      ensures Walk(out, Counts()) == WalkDir(Oracles(), d, node, old(Counts()))
      decreases d, 1, 0
    {
      out := node;
      if d.OpenFailed? {
        return;
      }
      var i := 0;
      assert WalkDir(Oracles(), d, node, old(Counts())) == WalkEntries(Oracles(), d, 0, out, Counts());
      while i < |d.entries|
        invariant i <= |d.entries|
        invariant |out.children| <= out.childCapacity
        invariant WalkEntries(Oracles(), d, i, out, Counts()) == WalkDir(Oracles(), d, node, old(Counts()))
        decreases |d.entries| - i
      {
        var cancel := CancelSeen(Oracles(), polls);
        polls := polls + 1;
        if cancel {
          return;
        }
        out := VisitEntry(out, d.entries[i]);
        i := i + 1;
      }
    }

    /** One pass of scan_dir's readdir loop after the cancel check: skip, count a file, or descend. */
    method VisitEntry(node: DirNode, e: Entry) returns (out: DirNode)
      requires |node.children| <= node.childCapacity
      modifies this`polls, this`appends, this`totalSize, this`totalFiles
      ensures Walk(out, Counts()) == Visit(Oracles(), e, node, old(Counts()))
      decreases e, 0, 1
    {
      out := node;
      if IsDotEntry(e.name) {
        return;
      }
      match e.stat {
        case StatFailed =>
        case Special =>
        case Regular(bytes) =>
          out := out.(size := out.size + bytes, fileCount := out.fileCount + 1);
          totalSize := totalSize + bytes;
          totalFiles := totalFiles + 1;
        case Directory(_) =>
          out := Descend(out, e);
      }
    }

    /** The S_ISDIR branch: append a child, walk into it, fold its totals back, sort it, mark it complete. */
    method Descend(node: DirNode, e: Entry) returns (out: DirNode)
      requires |node.children| <= node.childCapacity
      requires !IsDotEntry(e.name) && e.stat.Directory?
      modifies this`polls, this`appends, this`totalSize, this`totalFiles
      ensures Walk(out, Counts()) == Visit(Oracles(), e, node, old(Counts()))
      decreases e, 0, 0
    {
      out := node;
      var app := AddChild(out, e.name, appends !in allocFails);
      appends := appends + 1;
      if app.added {
        out := app.parent;
        var child := out.children[|out.children| - 1];
        child := ScanDir(child, e.stat.contents);
        out := FoldFinished(out, child);
      }
    }

    /** scanner_thread_fn: the walk of the root, then the completion block. */
    method Run(d: Dir)
      requires |root.children| <= root.childCapacity
      modifies this
      ensures var o := Finish(Oracles(), d, old(root), old(Counts()));
        root == o.root && done == o.done && totalSize == o.totalSize && totalFiles == o.totalFiles
    {
      var scanned := ScanDir(root, d);
      root := scanned.(complete := true);
      done := true;
      totalSize := root.size;
    }
  }
}
