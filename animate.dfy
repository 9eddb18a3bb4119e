/**
 * The display-size animation of src/renderer.c: every frame each node's
 * `displaySize` moves toward its real size by the factor t = min(1, 8 dt).
 */
module Animate {
  import opened Common
  import opened Tree
  import opened Camera
  import opened Layout
  import opened ScannerPosix

  /** The animation rate of renderer_animate. */
  const AnimationRate: real := 8.0

  /** animate_node as a value: this node's display size stepped, then every child's, recursively. */
  function Animated(n: DirNode, t: real): (r: DirNode)
    ensures r.name == n.name && r.size == n.size && r.fileCount == n.fileCount
    ensures r.childCapacity == n.childCapacity && r.complete == n.complete
    ensures |r.children| == |n.children|
    ensures t == 1.0 ==> r.displaySize == n.size as real
    decreases n, 1
  {
    n.(displaySize := Approach(n.displaySize, n.size as real, t), children := AnimatedAll(n.children, t))
  }

  function AnimatedAll(cs: seq<DirNode>, t: real): (r: seq<DirNode>)
    ensures |r| == |cs|
    ensures forall k :: 0 <= k < |cs| ==> r[k] == Animated(cs[k], t)
    decreases cs, 0
  {
    seq(|cs|, k requires 0 <= k < |cs| => Animated(cs[k], t))
  }

  /** animate_node: the node's own display size first, then the children in order, each in place. */
  method AnimateNode(n: DirNode, t: real) returns (r: DirNode)
    ensures r == Animated(n, t)
    decreases n
  {
    r := n.(displaySize := n.displaySize + (n.size as real - n.displaySize) * t);
    var i := 0;
    while i < |r.children|
      invariant |r.children| == |n.children| && i <= |n.children|
      invariant r.(children := n.children) == n.(displaySize := Approach(n.displaySize, n.size as real, t))
      invariant forall k :: 0 <= k < i ==> r.children[k] == Animated(n.children[k], t)
      invariant forall k :: i <= k < |n.children| ==> r.children[k] == n.children[k]
    {
      var c := AnimateNode(r.children[i], t);
      r := r.(children := r.children[i := c]);
      i := i + 1;
    }
    assert r.children == AnimatedAll(n.children, t);
  }

  /** renderer_animate: nothing without a root. */
  method RendererAnimate(root: Option<DirNode>, dt: real) returns (r: Option<DirNode>)
    ensures root.None? ==> r.None?
    ensures root.Some? ==> r == Some(Animated(root.value, Smoothing(AnimationRate, dt)))
  {
    if root.None? {
      return None;
    }
    var t := AnimationRate * dt;
    if t > 1.0 {
      t := 1.0;
    }
    var n := AnimateNode(root.value, t);
    r := Some(n);
  }

  // ---------------------------------------------------------------------
  // What a step does to the tree
  // ---------------------------------------------------------------------

  /** The tree with its display sizes erased: what the animation must not touch. */
  function Skeleton(n: DirNode): DirNode
    decreases n, 1
  {
    n.(displaySize := 0.0, children := SkeletonAll(n.children))
  }

  function SkeletonAll(cs: seq<DirNode>): (r: seq<DirNode>)
    ensures |r| == |cs|
    ensures forall k :: 0 <= k < |cs| ==> r[k] == Skeleton(cs[k])
    decreases cs, 0
  {
    seq(|cs|, k requires 0 <= k < |cs| => Skeleton(cs[k]))
  }

  /** Only display sizes change: names, sizes, counts, buffers and flags are kept at every depth. */
  lemma {:induction false} AnimateKeepsSkeleton(n: DirNode, t: real)
    ensures Skeleton(Animated(n, t)) == Skeleton(n)
    decreases n
  {
    var a := Animated(n, t);
    forall k | 0 <= k < |n.children|
      ensures Skeleton(a.children[k]) == Skeleton(n.children[k])
    {
      AnimateKeepsSkeleton(n.children[k], t);
    }
    assert SkeletonAll(a.children) == SkeletonAll(n.children);
  }

  /** Every display size equals its node's size. */
  predicate Settled(n: DirNode)
    decreases n
  {
    n.displaySize == n.size as real && forall k :: 0 <= k < |n.children| ==> Settled(n.children[k])
  }

  /** A frame of at least 1/8 s (t = 1) settles the whole tree. */
  lemma {:induction false} FullStepSettles(n: DirNode)
    ensures Settled(Animated(n, 1.0))
    decreases n
  {
    var a := Animated(n, 1.0);
    ApproachFacts(n.displaySize, n.size as real, 1.0);
    forall k | 0 <= k < |a.children|
      ensures Settled(a.children[k])
    {
      FullStepSettles(n.children[k]);
    }
  }

  /** A settled tree stays settled: the animation has reached its fixed point. */
  lemma {:induction false} SettledIsFixed(n: DirNode, t: real)
    requires Settled(n)
    ensures Animated(n, t) == n
    decreases n
  {
    forall k | 0 <= k < |n.children|
      ensures Animated(n.children[k], t) == n.children[k]
    {
      SettledIsFixed(n.children[k], t);
    }
    assert AnimatedAll(n.children, t) == n.children;
  }

  /** `a` is `n` after one step with t in [0, 1]: each display size between its old value and the size. */
  predicate SteppedToward(n: DirNode, a: DirNode)
    decreases n
  {
    && Between(n.displaySize, n.size as real, a.displaySize)
    && |a.children| == |n.children|
    && forall k :: 0 <= k < |n.children| ==> SteppedToward(n.children[k], a.children[k])
  }

  lemma {:induction false} StepMovesToward(n: DirNode, t: real)
    requires 0.0 <= t <= 1.0
    ensures SteppedToward(n, Animated(n, t))
    decreases n
  {
    var a := Animated(n, t);
    ApproachFacts(n.displaySize, n.size as real, t);
    forall k | 0 <= k < |n.children|
      ensures SteppedToward(n.children[k], a.children[k])
    {
      StepMovesToward(n.children[k], t);
    }
  }

  // ---------------------------------------------------------------------
  // The animation keeps the layout nested
  // ---------------------------------------------------------------------

  /** The real sizes of the children from i on, added up. */
  function SumSize(cs: seq<DirNode>, i: nat): real
    requires i <= |cs|
    decreases |cs| - i
  {
    if i == |cs| then 0.0 else cs[i].size as real + SumSize(cs, i + 1)
  }

  /** The real sum of the sizes is the children's total size. */
  lemma {:induction false} SumSizeIsTotal(cs: seq<DirNode>, i: nat)
    requires i <= |cs|
    ensures SumSize(cs, i) == TotalSize(cs[i..]) as real
    decreases |cs| - i
  {
    if i < |cs| {
      SumSizeIsTotal(cs, i + 1);
      assert cs[i..][1..] == cs[i + 1..];
    }
  }

  /** A step is affine: the stepped children's display sizes add up to the step of the sums. */
  lemma {:induction false} SumDisplayAnimated(cs: seq<DirNode>, t: real, i: nat)
    requires i <= |cs|
    ensures SumDisplay(AnimatedAll(cs, t), i) == Approach(SumDisplay(cs, i), SumSize(cs, i), t)
    decreases |cs| - i
  {
    var a := AnimatedAll(cs, t);
    if i < |cs| {
      SumDisplayAnimated(cs, t, i + 1);
      var d, s := cs[i].displaySize, cs[i].size as real;
      var rd, rs := SumDisplay(cs, i + 1), SumSize(cs, i + 1);
      assert a[i].displaySize == Approach(d, s, t);
      assert SumDisplay(a, i) == Approach(d, s, t) + Approach(rd, rs, t);
      BlendAdds(d, s, rd, rs, t);
      assert SumDisplay(cs, i) == d + rd && SumSize(cs, i) == s + rs;
    } else {
      ApproachFacts(0.0, 0.0, t);
    }
  }

  lemma BlendAdds(d: real, s: real, rd: real, rs: real, t: real)
    ensures Approach(d, s, t) + Approach(rd, rs, t) == Approach(d + rd, s + rs, t)
  {
    assert (s - d) * t + (rs - rd) * t == ((s + rs) - (d + rd)) * t;
  }

  lemma ProductNonNegative(x: real, y: real)
    requires x >= 0.0 && y >= 0.0
    ensures x * y >= 0.0
  {
  }

  lemma BlendMonotone(a: real, b: real, c: real, d: real, t: real)
    requires 0.0 <= t <= 1.0 && a <= c && b <= d
    ensures Approach(a, b, t) <= Approach(c, d, t)
  {
    ProductNonNegative(c - a, 1.0 - t);
    ProductNonNegative(d - b, t);
    assert (c + (d - c) * t) - (a + (b - a) * t) == (c - a) * (1.0 - t) + (d - b) * t;
  }

  /** One step keeps a node's own display size non-negative and no smaller than its stepped children together. */
  lemma RootStaysNested(n: DirNode, t: real)
    requires n.displaySize >= 0.0 && SumDisplay(n.children, 0) <= n.displaySize
    requires SumSize(n.children, 0) <= n.size as real && 0.0 <= t <= 1.0
    ensures Approach(n.displaySize, n.size as real, t) >= 0.0
    ensures SumDisplay(AnimatedAll(n.children, t), 0) <= Approach(n.displaySize, n.size as real, t)
  {
    ApproachFacts(n.displaySize, n.size as real, t);
    SumDisplayAnimated(n.children, t, 0);
    BlendMonotone(SumDisplay(n.children, 0), SumSize(n.children, 0), n.displaySize, n.size as real, t);
  }

  /** With sizes nested and t in [0, 1], a nested layout stays nested. */
  lemma {:induction false} AnimatePreservesNested(n: DirNode, t: real)
    requires Nested(n) && SizeNested(n) && 0.0 <= t <= 1.0
    ensures Nested(Animated(n, t))
    decreases n
  {
    var cs := AnimatedAll(n.children, t);
    forall k | 0 <= k < |cs|
      ensures Nested(cs[k]) && cs[k].displaySize >= 0.0
    {
      AnimatePreservesNested(n.children[k], t);
    }
    SumSizeIsTotal(n.children, 0);
    assert n.children[0..] == n.children;
    RootStaysNested(n, t);
    assert NonNegativeFrom(cs, 0);
    assert Animated(n, t) == n.(displaySize := Approach(n.displaySize, n.size as real, t), children := cs);
  }

  // ---------------------------------------------------------------------
  // From a finished scan to the tree the renderer draws
  // ---------------------------------------------------------------------

  /** Children whose display sizes are all zero add up to zero. */
  lemma {:induction false} ZeroDisplaySum(cs: seq<DirNode>, i: nat)
    requires i <= |cs|
    requires forall j :: i <= j < |cs| ==> cs[j].displaySize == 0.0
    ensures SumDisplay(cs, i) == 0.0
    decreases |cs| - i
  {
    if i < |cs| {
      ZeroDisplaySum(cs, i + 1);
    }
  }

  /** A tree with every display size still zero is nested in display size. */
  lemma {:induction false} UnanimatedIsNested(n: DirNode)
    requires Unanimated(n)
    ensures Nested(n)
    decreases n
  {
    forall k | 0 <= k < |n.children|
      ensures Nested(n.children[k]) && n.children[k].displaySize == 0.0
    {
      UnanimatedIsNested(n.children[k]);
    }
    ZeroDisplaySum(n.children, 0);
  }

  /** Children with the same sizes, position by position, have the same total. */
  lemma {:induction false} SameSizesSameTotal(a: seq<DirNode>, b: seq<DirNode>)
    requires |a| == |b| && forall k :: 0 <= k < |a| ==> a[k].size == b[k].size
    ensures TotalSize(a) == TotalSize(b)
    decreases |a|
  {
    if a != [] {
      SameSizesSameTotal(a[1..], b[1..]);
    }
  }

  /** The animation touches no size, so a tree nested in size stays nested in size. */
  lemma {:induction false} AnimateKeepsSizeNested(n: DirNode, t: real)
    requires SizeNested(n)
    ensures SizeNested(Animated(n, t))
    decreases n
  {
    var a := Animated(n, t);
    forall k | 0 <= k < |a.children|
      ensures SizeNested(a.children[k])
    {
      AnimateKeepsSizeNested(n.children[k], t);
    }
    SameSizesSameTotal(a.children, n.children);
  }

  /** One frame keeps a tree nested, in size and in display size. */
  lemma FrameKeepsNested(n: DirNode, t: real)
    requires Nested(n) && SizeNested(n) && 0.0 <= t <= 1.0
    ensures Nested(Animated(n, t)) && SizeNested(Animated(n, t))
  {
    AnimatePreservesNested(n, t);
    AnimateKeepsSizeNested(n, t);
  }

  /** The tree after one renderer_animate step per frame, with blend factors ts. */
  function AnimatedFrames(n: DirNode, ts: seq<real>): DirNode
    decreases |ts|
  {
    if ts == [] then n else AnimatedFrames(Animated(n, ts[0]), ts[1..])
  }

  /**
   * A finished scan that no frame touched before it completed keeps nested
   * display sizes through any number of frames afterwards. The program also
   * animates while the scan runs; MidScanFrameBreaksNesting shows that such
   * a frame can leave a tree that is not nested.
   */
  lemma {:induction false} ScannedTreeStaysNested(env: Env, d: Dir, path: string, ts: seq<real>)
    requires forall k :: 0 <= k < |ts| ==> 0.0 <= ts[k] <= 1.0
    ensures Nested(AnimatedFrames(Finish(env, d, ZeroedNode(path), NoCounts).root, ts))
  {
    var root := Finish(env, d, ZeroedNode(path), NoCounts).root;
    FinishNested(env, d, path);
    UnanimatedIsNested(root);
    FramesKeepNested(root, ts);
  }

  lemma {:induction false} FramesKeepNested(n: DirNode, ts: seq<real>)
    requires Nested(n) && SizeNested(n)
    requires forall k :: 0 <= k < |ts| ==> 0.0 <= ts[k] <= 1.0
    ensures Nested(AnimatedFrames(n, ts)) && SizeNested(AnimatedFrames(n, ts))
    decreases |ts|
  {
    if ts != [] {
      FrameKeepsNested(n, ts[0]);
      FramesKeepNested(Animated(n, ts[0]), ts[1..]);
    }
  }

  // ---------------------------------------------------------------------
  // A frame during the scan. Listing: r holds a/ (holding b/ with one
  // 5-byte file), then c/ (one 5-byte file).
  // ---------------------------------------------------------------------

  /** b has counted its file; neither b nor a has been folded yet. */
  function MidScanRoot(): DirNode
  {
    var b := DirNode("b", 5, 1, [], 0, false, 0.0);
    DirNode("r", 0, 0, [DirNode("a", 0, 0, [b], 8, false, 0.0)], 8, false, 0.0)
  }

  /** The scan finished: b folded into a, a into r, c walked and folded; b keeps the display size the frame gave it. */
  function FinishedAfterFrame(): DirNode
  {
    var b := DirNode("b", 5, 1, [], 0, true, 2.0);
    var c := DirNode("c", 5, 1, [], 0, true, 0.0);
    DirNode("r", 10, 2, [DirNode("a", 5, 1, [b], 8, true, 0.0), c], 8, true, 0.0)
  }

  /** The tree after the first frame that follows completion, with t = 0.4. */
  function NextFrameTree(): DirNode
  {
    var b := DirNode("b", 5, 1, [], 0, true, 3.2);
    var c := DirNode("c", 5, 1, [], 0, true, 2.0);
    DirNode("r", 10, 2, [DirNode("a", 5, 1, [b], 8, true, 2.0), c], 8, true, 4.0)
  }

  lemma MidScanFrame()
    ensures Animated(MidScanRoot(), 0.4).children[0].children[0].displaySize == 2.0
    ensures Animated(MidScanRoot(), 0.4).children[0].displaySize == 0.0
  {
    var m := MidScanRoot();
    assert Animated(m.children[0], 0.4).children == AnimatedAll(m.children[0].children, 0.4);
  }

  lemma FinishedIsSizeNested()
    ensures SizeNested(FinishedAfterFrame())
  {
    var f := FinishedAfterFrame();
    var a := f.children[0];
    var c := f.children[1];
    assert f.children[1..] == [c] && [c][1..] == [] && a.children[1..] == [];
    assert SizeNested(a);
  }

  lemma NextFrameIs()
    ensures Animated(FinishedAfterFrame(), 0.4) == NextFrameTree()
  {
    var f := FinishedAfterFrame();
    var g := NextFrameTree();
    assert Animated(f.children[0].children[0], 0.4) == g.children[0].children[0];
    assert Animated(f.children[0], 0.4) == g.children[0];
    assert Animated(f.children[1], 0.4) == g.children[1];
    assert AnimatedAll(f.children, 0.4) == g.children;
  }

  lemma NextFrameNotNested()
    ensures !Nested(NextFrameTree())
  {
    var a := NextFrameTree().children[0];
    assert SumDisplay(a.children, 1) == 0.0;
    assert SumDisplay(a.children, 0) == 3.2;
    assert !Nested(a);
  }

  lemma NextFrameSpans()
    ensures ChildSpans(NextFrameTree(), 0.0, 200.0) == [Span(0, 0.0, 100.0), Span(1, 100.0, 100.0)]
    ensures ChildSpans(NextFrameTree().children[0], 0.0, 100.0) == [Span(0, 0.0, 160.0)]
    ensures ChildSpans(NextFrameTree().children[1], 100.0, 100.0) == []
  {
    var n := NextFrameTree();
    assert ChildWidth(4.0, 200.0, 2.0) == 100.0;
    assert SpansFrom(n.children, 4.0, 200.0, 2, 200.0) == [];
    assert SpansFrom(n.children, 4.0, 200.0, 1, 100.0) == [Span(1, 100.0, 100.0)];
    assert ChildWidth(2.0, 100.0, 3.2) == 160.0;
    assert SpansFrom(n.children[0].children, 2.0, 100.0, 1, 160.0) == [];
  }

  lemma NextFrameMisses()
    ensures HitTest(Some(NextFrameTree()), View(1.0, 0.0, 0.0), 200, 130.0, 40.0) == None
  {
    var n := NextFrameTree();
    var v := View(1.0, 0.0, 0.0);
    NextFrameSpans();
    var sp := ChildSpans(n, 0.0, 200.0);
    assert HitRow(n.children[0], [0], v, 0.0, 0.0, 100.0, 130.0, 40.0) == None;
    assert HitRow(n.children[1], [1], v, 100.0, 0.0, 100.0, 130.0, 40.0) == None;
    assert HitSpans(n, [], v, sp, 2, 0.0, 130.0, 40.0) == None;
    assert HitSpans(n, [], v, sp, 1, 0.0, 130.0, 40.0) == None;
  }

  /**
   * A frame with t = 0.4 (dt at its 0.05 s cap) taken while b's file is
   * counted but not yet folded gives b a display size of 2 while a's stays
   * 0. After the scan completes the sizes are nested, yet the next frame
   * leaves a tree whose display sizes are not: b's span, 160 px at zoom 1 in
   * a 200 px window, is wider than a's 100 px column, and the pointer at
   * (130, 40), inside b's row, hits nothing.
   */
  lemma MidScanFrameBreaksNesting()
    ensures Animated(MidScanRoot(), 0.4).children[0].children[0].displaySize == 2.0
    ensures Animated(MidScanRoot(), 0.4).children[0].displaySize == 0.0
    ensures SizeNested(FinishedAfterFrame())
    ensures var n := Animated(FinishedAfterFrame(), 0.4);
      && !Nested(n)
      && ChildSpans(n, 0.0, 200.0) == [Span(0, 0.0, 100.0), Span(1, 100.0, 100.0)]
      && ChildSpans(n.children[0], 0.0, 100.0) == [Span(0, 0.0, 160.0)]
      && StrictlyInside(ScreenRect(View(1.0, 0.0, 0.0), 0.0, NextRow(0.0), 160.0), 130.0, 40.0)
      && HitTest(Some(n), View(1.0, 0.0, 0.0), 200, 130.0, 40.0) == None
  {
    MidScanFrame();
    FinishedIsSizeNested();
    NextFrameIs();
    NextFrameNotNested();
    NextFrameSpans();
    NextFrameMisses();
  }
}
