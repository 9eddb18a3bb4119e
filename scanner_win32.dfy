/**
 * The Win32 directory walk of src/scanner_win32.c, run sequentially.
 *
 * FindFirstFileA/FindNextFileA are replaced by an abstract listing (`WDir`)
 * of WIN32_FIND_DATA records. Each record is classified by its attribute
 * bits into the entry kinds of the POSIX walk, so the reference walk of
 * module ScannerPosix is the specification of this one too: a reparse-point
 * directory is skipped like a special file, and every non-directory counts as
 * a regular file whose size is nFileSizeHigh:nFileSizeLow.
 */
module ScannerWin32 {
  import opened Common
  import opened Tree
  import opened ScannerPosix

  /** FILE_ATTRIBUTE_DIRECTORY */
  const AttributeDirectory: bv32 := 0x10
  /** FILE_ATTRIBUTE_REPARSE_POINT */
  const AttributeReparsePoint: bv32 := 0x400

  /** What FindFirstFileA + FindNextFileA yield: nothing, or a first record and the rest. */
  datatype WDir = FindFailed | Found(first: FindData, rest: seq<FindData>)
  /** One WIN32_FIND_DATAA record; `contents` is what a directory's own search would yield. */
  datatype FindData = FindData(name: string, attributes: bv32, sizeHigh: bv32, sizeLow: bv32, contents: WDir)

  /** The 64-bit size a record announces: nFileSizeHigh:nFileSizeLow. */
  function FileSize(high: bv32, low: bv32): nat
  {
    high as nat * 0x1_0000_0000 + low as nat
  }

  /** Widening the high half to 64 bits, shifting it up by 32 and or-ing in the low half loses no bit, because the halves never overlap. */
  lemma HalvesCombine(high: bv32, low: bv32)
    ensures (((high as bv64) << 32) | (low as bv64)) as nat == high as nat * 0x1_0000_0000 + low as nat
  {
  }

  /** The size computation of scan_dir on the 64-bit halves. */
  method CombineHalves(high: bv32, low: bv32) returns (r: nat)
    ensures r == FileSize(high, low)
  {
    HalvesCombine(high, low);
    r := (((high as bv64) << 32) | (low as bv64)) as nat;
  }

  predicate IsDirectory(f: FindData)
  {
    f.attributes & AttributeDirectory != 0
  }

  predicate IsReparsePoint(f: FindData)
  {
    f.attributes & AttributeReparsePoint != 0
  }

  /** Every record of a successful search, in the order FindNextFileA visits them. */
  function Records(d: WDir): (r: seq<FindData>)
    requires d.Found?
    ensures |r| == |d.rest| + 1 && r[0] == d.first && r[1..] == d.rest
  {
    [d.first] + d.rest
  }

  /** The listing the POSIX walk would see for this search. */
  function Translate(d: WDir): (r: Dir)
    ensures d.FindFailed? <==> r.OpenFailed?
    ensures d.Found? ==> |r.entries| == |d.rest| + 1
    decreases d, 1
  {
    match d
    case FindFailed => OpenFailed
    case Found(f, rest) => Opened([Classify(f)] + TranslateAll(d, rest))
  }

  /** The k-th entry the POSIX walk sees is the k-th record, classified. */
  lemma TranslateEntries(d: WDir)
    requires d.Found?
    ensures forall k :: 0 <= k < |Translate(d).entries| ==> Translate(d).entries[k] == Classify(Records(d)[k])
  {
    var es := Translate(d).entries;
    var rest := TranslateAll(d, d.rest);
    assert es == [Classify(d.first)] + rest;
    forall k | 0 <= k < |es|
      ensures es[k] == Classify(Records(d)[k])
    {
      if k > 0 {
        assert es[k] == rest[k - 1];
      }
    }
  }

  function TranslateAll(ghost d: WDir, rs: seq<FindData>): (r: seq<Entry>)
    requires d.Found?
    requires forall k :: 0 <= k < |rs| ==> rs[k] in d.rest
    ensures |r| == |rs|
    ensures forall k :: 0 <= k < |rs| ==> r[k] == Classify(rs[k])
    decreases d, 0, |rs|
  {
    if rs == [] then [] else
      assert rs[0] in d.rest;
      assert forall k :: 0 <= k < |rs| - 1 ==> rs[1..][k] == rs[k + 1];
      [Classify(rs[0])] + TranslateAll(d, rs[1..])
  }

  /** How scan_dir's branches treat one record. */
  function Classify(f: FindData): (e: Entry)
    ensures e.name == f.name
    ensures IsDirectory(f) && !IsReparsePoint(f) <==> e.stat.Directory?
    ensures !IsDirectory(f) <==> e.stat.Regular?
    ensures e.stat.Regular? ==> e.stat.bytes == FileSize(f.sizeHigh, f.sizeLow)
    decreases f, 2
  {
    if IsDirectory(f) then
      if IsReparsePoint(f) then Entry(f.name, Special)
      else Entry(f.name, Directory(Translate(f.contents)))
    else Entry(f.name, Regular(FileSize(f.sizeHigh, f.sizeLow)))
  }

  /** A non-directory record counts as a file, whatever its other attribute bits. */
  lemma EveryFileCounted(f: FindData)
    requires !IsDotEntry(f.name) && !IsDirectory(f)
    ensures ExpectedEntry(Classify(f)) == Summary(f.sizeHigh as nat * 0x1_0000_0000 + f.sizeLow as nat, 1, [])
  {
  }

  /** A reparse-point directory (a junction or a directory symlink) is never entered and adds nothing. */
  lemma ReparsePointSkipped(env: Env, f: FindData, node: DirNode, c: Counters)
    requires IsDirectory(f) && IsReparsePoint(f)
    requires |node.children| <= node.childCapacity
    ensures Visit(env, Classify(f), node, c) == Walk(node, c)
    ensures ExpectedEntry(Classify(f)) == Summary(0, 0, [])
  {
  }

  /** The completion block of scanner_thread_fn, as for the POSIX walk. */
  lemma FinishAgreesWithRootWin32(env: Env, d: WDir, path: string)
    ensures var o := Finish(env, Translate(d), ZeroedNode(path), NoCounts);
      && o.done && o.root.complete
      && o.totalSize == o.root.size
      && o.totalFiles == o.root.fileCount
      && FinishedFrom(o.root, 0)
  {
    FinishAgreesWithRoot(env, Translate(d), path);
  }

  /** A finished search leaves a tree nested in size, with nothing animated yet, whatever the oracles say. */
  lemma FinishNestedWin32(env: Env, d: WDir, path: string)
    ensures Shaped(Finish(env, Translate(d), ZeroedNode(path), NoCounts).root)
  {
    FinishNested(env, Translate(d), path);
  }

  /** An unhindered search: the root holds every byte and file beneath it. */
  lemma UnhinderedScanWin32(env: Env, d: WDir, path: string)
    requires Unhindered(env)
    ensures var o := Finish(env, Translate(d), ZeroedNode(path), NoCounts); var s := ExpectedDir(Translate(d));
      && o.root.size == s.bytes && o.totalSize == s.bytes
      && o.root.fileCount == s.files && o.totalFiles == s.files
      && o.root.children == s.children
  {
    UnhinderedScan(env, Translate(d), path);
  }

  /** ScanContext without its mutex and thread. */
  class ScanContext {
    var root: DirNode
    const cancelAfter: Option<nat>
    const allocFails: set<nat>
    var polls: nat
    var appends: nat
    var done: bool
    var totalSize: nat
    var totalFiles: nat

    function Oracles(): Env
    {
      Env(cancelAfter, allocFails)
    }

    function Counts(): Counters
      reads this
    {
      Counters(polls, appends, totalSize, totalFiles)
    }

    /** The zeroed context of scanner_start with its root from tree_create. */
    constructor (path: string, cancelAfter: Option<nat>, allocFails: set<nat>)
      ensures root == ZeroedNode(path) && !done && Counts() == NoCounts
      ensures this.cancelAfter == cancelAfter && this.allocFails == allocFails
    {
      root := ZeroedNode(path);
      this.cancelAfter := cancelAfter;
      this.allocFails := allocFails;
      polls, appends, done, totalSize, totalFiles := 0, 0, false, 0, 0;
    }

    /**
     * scan_dir: the do-while over the search's records. A successful
     * FindFirstFileA always yields a first record, so the loop runs at least once.
     */
    method ScanDir(node: DirNode, d: WDir) returns (out: DirNode)
      requires |node.children| <= node.childCapacity
      modifies this`polls, this`appends, this`totalSize, this`totalFiles
      ensures Walk(out, Counts()) == WalkDir(Oracles(), Translate(d), node, old(Counts()))
      decreases d, 2
    {
      out := node;
      if d.FindFailed? {
        return;
      }
      var rs := Records(d);
      TranslateEntries(d);
      var i := 0;
      assert WalkDir(Oracles(), Translate(d), node, old(Counts())) == WalkEntries(Oracles(), Translate(d), 0, out, Counts());
      while i < |rs|
        invariant i <= |rs|
        invariant |out.children| <= out.childCapacity
        invariant WalkEntries(Oracles(), Translate(d), i, out, Counts()) == WalkDir(Oracles(), Translate(d), node, old(Counts()))
        decreases |rs| - i
      {
        var cancel := CancelSeen(Oracles(), polls);
        polls := polls + 1;
        if cancel {
          return;
        }
        assert rs[i] == d.first || rs[i] in d.rest;
        out := VisitRecord(out, rs[i]);
        i := i + 1;
      }
    }

    /** One pass of the do-while after the cancel check: skip, count a file, or descend. */
    method VisitRecord(node: DirNode, f: FindData) returns (out: DirNode)
      requires |node.children| <= node.childCapacity
      modifies this`polls, this`appends, this`totalSize, this`totalFiles
      ensures Walk(out, Counts()) == Visit(Oracles(), Classify(f), node, old(Counts()))
      decreases f, 1
    {
      out := node;
      if IsDotEntry(f.name) {
        return;
      }
      if f.attributes & AttributeDirectory != 0 {
        if f.attributes & AttributeReparsePoint != 0 {
          assert Classify(f) == Entry(f.name, Special);
          return;
        }
        assert Classify(f) == Entry(f.name, Directory(Translate(f.contents)));
        out := Descend(out, f);
      } else {
        var fsize := CombineHalves(f.sizeHigh, f.sizeLow);
        assert Classify(f) == Entry(f.name, Regular(fsize));
        out := out.(size := out.size + fsize, fileCount := out.fileCount + 1);
        totalSize := totalSize + fsize;
        totalFiles := totalFiles + 1;
      }
    }

    /** The FILE_ATTRIBUTE_DIRECTORY branch for a record that is not a reparse point. */
    method Descend(node: DirNode, f: FindData) returns (out: DirNode)
      requires |node.children| <= node.childCapacity
      requires !IsDotEntry(f.name)
      modifies this`polls, this`appends, this`totalSize, this`totalFiles
      ensures Walk(out, Counts()) == Visit(Oracles(), Entry(f.name, Directory(Translate(f.contents))), node, old(Counts()))
      decreases f, 0
    {
      ghost var c := Counts();
      ghost var e := Entry(f.name, Directory(Translate(f.contents)));
      out := node;
      var app := AddChild(out, f.name, appends !in allocFails);
      appends := appends + 1;
      ghost var c2 := Counts();
      if app.added {
        out := app.parent;
        var child := out.children[|out.children| - 1];
        assert child == LastChild(app.parent);
        child := ScanDir(child, f.contents);
        ghost var w := WalkDir(Oracles(), Translate(f.contents), LastChild(app.parent), c2);
        assert Visit(Oracles(), e, node, c) == Walk(FoldChild(app.parent, w.node), w.ctr);
        out := FoldFinished(out, child);
      } else {
        assert Visit(Oracles(), e, node, c) == Walk(node, c2);
      }
    }

    /** scanner_thread_fn: the walk of the root, then the completion block. */
    method Run(d: WDir)
      requires |root.children| <= root.childCapacity
      modifies this
      ensures var o := Finish(Oracles(), Translate(d), old(root), old(Counts()));
        root == o.root && done == o.done && totalSize == o.totalSize && totalFiles == o.totalFiles
    {
      var scanned := ScanDir(root, d);
      root := scanned.(complete := true);
      done := true;
      totalSize := root.size;
    }
  }
}
