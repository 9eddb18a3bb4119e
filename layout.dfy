/**
 * The icicle layout of src/renderer.c: how draw_node_row/renderer_draw place
 * rows and how hit_test_row/renderer_hit_test find the row under the pointer.
 *
 * Both walk the same partition: a node's children share the node's width in
 * proportion to their animated display sizes, children narrower than half a
 * unit are skipped, and the kept ones sit side by side one row lower. Drawing
 * is modelled as the list of rows it fills; a row is named by its path, the
 * child indices from the root down.
 */
module Layout {
  import opened Common
  import opened Tree
  import opened Camera
  import opened Style

  const RowHeight: real := 28.0
  const RowGap: real := 2.0
  const LabelPad: real := 4.0
  /** How far below its own row hit_test_row still looks for a descendant. */
  const HitSlack: real := 10000.0
  /** Children narrower than this are neither drawn nor hit. */
  const MinChildWidth: real := 0.5

  datatype Rect = Rect(x: real, y: real, w: real, h: real)

  /** A kept child: its index among the parent's children, its world x and width. */
  datatype Span = Span(index: nat, x: real, w: real)

  function End(s: Span): real
  {
    s.x + s.w
  }

  /** A child's share of its parent's width, by display size; no width at all while the parent's display size is zero. */
  function ChildWidth(parentDisplay: real, w: real, childDisplay: real): real
  {
    if parentDisplay > 0.0 then w * (childDisplay / parentDisplay) else 0.0
  }

  /** The `cx` loop from child i on, the cursor standing at cx. */
  function SpansFrom(cs: seq<DirNode>, d: real, w: real, i: nat, cx: real): (r: seq<Span>)
    requires i <= |cs|
    ensures forall k :: 0 <= k < |r| ==> i <= r[k].index < |cs|
    decreases |cs| - i
  {
    if i == |cs| then []
    else
      var cw := ChildWidth(d, w, cs[i].displaySize);
      if cw < MinChildWidth then SpansFrom(cs, d, w, i + 1, cx)
      else
        [Span(i, cx, cw)] + SpansFrom(cs, d, w, i + 1, cx + cw)
  }

  /**
   * The kept spans: each at least half a unit wide and as wide as its
   * child's share, in increasing child order, each starting where the
   * previous one ends and the first at the cursor.
   */
  lemma {:induction false} SpansShape(cs: seq<DirNode>, d: real, w: real, i: nat, cx: real)
    requires i <= |cs|
    ensures var r := SpansFrom(cs, d, w, i, cx);
      && (forall k :: 0 <= k < |r| ==> r[k].w >= MinChildWidth && r[k].w == ChildWidth(d, w, cs[r[k].index].displaySize))
      && (forall k :: 0 <= k < |r| - 1 ==> r[k].index < r[k + 1].index && r[k + 1].x == End(r[k]))
      && (|r| > 0 ==> r[0].x == cx)
    decreases |cs| - i
  {
    if i < |cs| {
      var cw := ChildWidth(d, w, cs[i].displaySize);
      var next := NextCursor(cs, d, w, i, cx);
      SpansShape(cs, d, w, i + 1, next);
      if cw >= MinChildWidth {
        var rest := SpansFrom(cs, d, w, i + 1, next);
        assert SpansFrom(cs, d, w, i, cx) == [Span(i, cx, cw)] + rest;
        ConsShape(cs, d, w, i, cx, cw, rest);
      }
    }
  }

  lemma ConsShape(cs: seq<DirNode>, d: real, w: real, i: nat, cx: real, cw: real, rest: seq<Span>)
    requires i < |cs| && cw == ChildWidth(d, w, cs[i].displaySize) && cw >= MinChildWidth
    requires forall k :: 0 <= k < |rest| ==> i < rest[k].index < |cs|
    requires forall k :: 0 <= k < |rest| ==> rest[k].w >= MinChildWidth && rest[k].w == ChildWidth(d, w, cs[rest[k].index].displaySize)
    requires forall k :: 0 <= k < |rest| - 1 ==> rest[k].index < rest[k + 1].index && rest[k + 1].x == End(rest[k])
    requires |rest| > 0 ==> rest[0].x == cx + cw
    ensures var r := [Span(i, cx, cw)] + rest;
      && (forall k :: 0 <= k < |r| ==> r[k].w >= MinChildWidth && r[k].w == ChildWidth(d, w, cs[r[k].index].displaySize))
      && (forall k :: 0 <= k < |r| - 1 ==> r[k].index < r[k + 1].index && r[k + 1].x == End(r[k]))
      && r[0].x == cx
  {
    var r := [Span(i, cx, cw)] + rest;
    assert forall k :: 1 <= k < |r| ==> r[k] == rest[k - 1];
  }

  function SpanIndices(r: seq<Span>): set<nat>
  {
    set k | 0 <= k < |r| :: r[k].index
  }

  lemma IndicesCons(s: Span, rest: seq<Span>)
    ensures SpanIndices([s] + rest) == {s.index} + SpanIndices(rest)
  {
    var r := [s] + rest;
    assert r[0].index == s.index;
    forall x | x in SpanIndices(r) ensures x in {s.index} + SpanIndices(rest) {
      var k :| 0 <= k < |r| && r[k].index == x;
      if k > 0 {
        assert rest[k - 1].index == x;
      }
    }
    forall x | x in SpanIndices(rest) ensures x in SpanIndices(r) {
      var k :| 0 <= k < |rest| && rest[k].index == x;
      assert r[k + 1].index == x;
    }
  }

  lemma IndicesAbove(r: seq<Span>, lo: nat)
    requires forall k :: 0 <= k < |r| ==> lo <= r[k].index
    ensures forall x :: x in SpanIndices(r) ==> lo <= x
  {
  }

  /** Every child at least half a unit wide gets a span; only those do. */
  lemma {:induction false} SpansComplete(cs: seq<DirNode>, d: real, w: real, i: nat, cx: real, j: nat)
    requires i <= j < |cs|
    ensures j in SpanIndices(SpansFrom(cs, d, w, i, cx)) <==> ChildWidth(d, w, cs[j].displaySize) >= MinChildWidth
    decreases |cs| - i
  {
    var cw := ChildWidth(d, w, cs[i].displaySize);
    var next := if cw < MinChildWidth then cx else cx + cw;
    var rest := SpansFrom(cs, d, w, i + 1, next);
    if cw >= MinChildWidth {
      assert SpansFrom(cs, d, w, i, cx) == [Span(i, cx, cw)] + rest;
      IndicesCons(Span(i, cx, cw), rest);
    } else {
      assert SpansFrom(cs, d, w, i, cx) == rest;
    }
    if j > i {
      SpansComplete(cs, d, w, i + 1, next, j);
    } else {
      IndicesAbove(rest, i + 1);
    }
  }

  /** The display sizes of the children from i on, added up. */
  function SumDisplay(cs: seq<DirNode>, i: nat): (r: real)
    requires i <= |cs|
    ensures NonNegativeFrom(cs, i) ==> r >= 0.0
    decreases |cs| - i
  {
    if i == |cs| then 0.0 else cs[i].displaySize + SumDisplay(cs, i + 1)
  }

  /** The width the children from i on share out of w. */
  function Share(cs: seq<DirNode>, d: real, w: real, i: nat): (r: real)
    requires i <= |cs|
    ensures w >= 0.0 && NonNegativeFrom(cs, i) ==> r >= 0.0
  {
    ScaleNonNegative(w, SumDisplay(cs, i), d);
    if d > 0.0 then w * (SumDisplay(cs, i) / d) else 0.0
  }

  predicate NonNegativeFrom(cs: seq<DirNode>, i: nat)
  {
    forall j :: i <= j < |cs| ==> cs[j].displaySize >= 0.0
  }

  /** The kept children lie side by side in [cx, cx + their share of w]. */
  lemma {:induction false} SpansFit(cs: seq<DirNode>, d: real, w: real, i: nat, cx: real)
    requires i <= |cs| && w >= 0.0 && NonNegativeFrom(cs, i)
    ensures FitsIn(SpansFrom(cs, d, w, i, cx), cx, cx + Share(cs, d, w, i))
    decreases |cs| - i
  {
    if i < |cs| {
      SpansFit(cs, d, w, i + 1, NextCursor(cs, d, w, i, cx));
      SpansFitStep(cs, d, w, i, cx);
    } else {
      assert SpansFrom(cs, d, w, i, cx) == [];
    }
  }

  /** The cursor after child i: advanced by its width when the child is kept. */
  function NextCursor(cs: seq<DirNode>, d: real, w: real, i: nat, cx: real): real
    requires i < |cs|
  {
    var cw := ChildWidth(d, w, cs[i].displaySize);
    if cw < MinChildWidth then cx else cx + cw
  }

  /** One step of the cursor: the kept span and the rest fit child i's share plus the rest's. */
  lemma SpansFitStep(cs: seq<DirNode>, d: real, w: real, i: nat, cx: real)
    requires i < |cs| && w >= 0.0 && NonNegativeFrom(cs, i)
    requires var next := NextCursor(cs, d, w, i, cx);
      FitsIn(SpansFrom(cs, d, w, i + 1, next), next, next + Share(cs, d, w, i + 1))
    ensures FitsIn(SpansFrom(cs, d, w, i, cx), cx, cx + Share(cs, d, w, i))
  {
    var cw := ChildWidth(d, w, cs[i].displaySize);
    var next := NextCursor(cs, d, w, i, cx);
    var rest := SpansFrom(cs, d, w, i + 1, next);
    ShareSplit(cs, d, w, i);
    FitsStep(SpansFrom(cs, d, w, i, cx), rest, i, cx, cw,
      Share(cs, d, w, i), Share(cs, d, w, i + 1), cw >= MinChildWidth);
  }

  /** One step of the cursor: a kept span followed by the rest, or the rest alone. */
  lemma FitsStep(r: seq<Span>, rest: seq<Span>, i: nat, cx: real, cw: real, share: real, restShare: real, kept: bool)
    requires share == cw + restShare && cw >= 0.0 && restShare >= 0.0
    requires kept ==> r == [Span(i, cx, cw)] + rest && FitsIn(rest, cx + cw, cx + cw + restShare)
    requires !kept ==> r == rest && FitsIn(rest, cx, cx + restShare)
    ensures FitsIn(r, cx, cx + share)
  {
    if kept {
      FitsCons(Span(i, cx, cw), rest, cx, cx + share);
    }
  }

  /** Every span lies in [lo, hi]. */
  predicate FitsIn(r: seq<Span>, lo: real, hi: real)
  {
    forall k :: 0 <= k < |r| ==> lo <= r[k].x && End(r[k]) <= hi
  }

  lemma FitsCons(s: Span, rest: seq<Span>, lo: real, hi: real)
    requires lo <= s.x && End(s) <= hi && FitsIn(rest, End(s), hi) && s.w >= 0.0
    ensures FitsIn([s] + rest, lo, hi)
  {
    var r := [s] + rest;
    assert forall k :: 1 <= k < |r| ==> r[k] == rest[k - 1];
  }

  lemma FitsWiden(r: seq<Span>, lo: real, hi: real, lo': real, hi': real)
    requires FitsIn(r, lo, hi) && lo' <= lo && hi <= hi'
    ensures FitsIn(r, lo', hi')
  {
  }

  /** The share of the children from i on is child i's width plus the share of the rest. */
  lemma ShareSplit(cs: seq<DirNode>, d: real, w: real, i: nat)
    requires i < |cs| && w >= 0.0 && cs[i].displaySize >= 0.0
    ensures Share(cs, d, w, i) == ChildWidth(d, w, cs[i].displaySize) + Share(cs, d, w, i + 1)
    ensures ChildWidth(d, w, cs[i].displaySize) >= 0.0
  {
    var c := cs[i].displaySize;
    if d > 0.0 {
      var rest := SumDisplay(cs, i + 1);
      assert c / d + rest / d == (c + rest) / d;
      assert w * (c / d) + w * (rest / d) == w * (c / d + rest / d);
      assert c / d >= 0.0;
      assert w * (c / d) >= 0.0;
    }
  }

  lemma ScaleNonNegative(w: real, s: real, d: real)
    ensures w >= 0.0 && s >= 0.0 && d > 0.0 ==> w * (s / d) >= 0.0
  {
    if w >= 0.0 && s >= 0.0 && d > 0.0 {
      assert s / d >= 0.0;
    }
  }

  /** A part of the whole gets at most the whole width. */
  lemma PartOfWhole(w: real, s: real, d: real)
    requires w >= 0.0 && s <= d && d > 0.0
    ensures w * (s / d) <= w
  {
    var q := s / d;
    assert q * d == s;
    assert q <= 1.0;
    assert w * q <= w * 1.0;
  }

  /** The display sizes are non-negative and no node's children together outgrow it. */
  predicate Nested(n: DirNode)
    decreases n
  {
    && n.displaySize >= 0.0
    && NonNegativeFrom(n.children, 0)
    && SumDisplay(n.children, 0) <= n.displaySize
    && forall k :: 0 <= k < |n.children| ==> Nested(n.children[k])
  }

  /** A nested node's kept children lie side by side inside its own interval. */
  lemma ChildSpansInside(n: DirNode, x: real, w: real)
    requires Nested(n) && w >= 0.0
    ensures FitsIn(ChildSpans(n, x, w), x, x + w)
  {
    ChildrenShareAtMostWidth(n, w);
    SpansFit(n.children, n.displaySize, w, 0, x);
    FitsWiden(ChildSpans(n, x, w), x, x + Share(n.children, n.displaySize, w, 0), x, x + w);
  }

  lemma ChildrenShareAtMostWidth(n: DirNode, w: real)
    requires Nested(n) && w >= 0.0
    ensures Share(n.children, n.displaySize, w, 0) <= w
  {
    ShareAtMostWidth(n.children, n.displaySize, w);
  }

  lemma ShareAtMostWidth(cs: seq<DirNode>, d: real, w: real)
    requires w >= 0.0 && SumDisplay(cs, 0) <= d
    ensures Share(cs, d, w, 0) <= w
  {
    if d > 0.0 {
      PartOfWhole(w, SumDisplay(cs, 0), d);
    }
  }

  /** A node's child partition over the world interval [x, x + w]. */
  function ChildSpans(n: DirNode, x: real, w: real): (r: seq<Span>)
    ensures SpansOf(n, r)
  {
    SpansFrom(n.children, n.displaySize, w, 0, x)
  }

  /** The screen rectangle of a row at world (x, y) and width w. */
  function ScreenRect(v: View, x: real, y: real, w: real): (r: Rect)
    ensures v.zoom > 0.0 && w >= 0.0 ==> r.w >= 0.0 && r.h > 0.0
  {
    Rect((x + v.offsetX) * v.zoom, (y + v.offsetY) * v.zoom, w * v.zoom, RowHeight * v.zoom)
  }

  /** The world y of the row below. */
  function NextRow(y: real): real
  {
    y + RowHeight + RowGap
  }

  // ---------------------------------------------------------------------
  // Drawing
  // ---------------------------------------------------------------------

  /** A text label: with the size when the row is wider than 120, placed at its padded origin. */
  datatype Label = NoLabel | Label(withSize: bool, x: real, y: real, maxW: real)

  /** One filled and outlined row. */
  datatype Fill = Fill(path: seq<nat>, rect: Rect, color: Color, outline: Color, caption: Label)

  /** The early return of draw_node_row: off either side, below the window, or thinner than a pixel. */
  predicate Culled(r: Rect, windowW: int, windowH: int): (b: bool)
    ensures !b ==> 0.0 <= r.x + r.w && r.x <= windowW as real && r.y <= windowH as real && r.w >= 1.0
  {
    r.x + r.w < 0.0 || r.x > windowW as real || r.y > windowH as real || r.w < 1.0
  }

  /** The row's fill, outline and label; `canLabel` is `font && cache`. */
  function RowFill(n: DirNode, path: seq<nat>, r: Rect, hovered: Option<seq<nat>>, canLabel: bool): (f: Fill)
    ensures f.path == path && f.rect == r
    ensures f.color == FillColor(n.name, hovered == Some(path))
    ensures f.outline == OutlineColor(f.color, hovered == Some(path))
    ensures f.caption.Label? <==> r.w > 40.0 && canLabel
    ensures f.caption.Label? ==> (f.caption.withSize <==> r.w > 120.0)
  {
    var hov := hovered == Some(path);
    var col := FillColor(n.name, hov);
    var caption := if r.w > 40.0 && canLabel
      then Label(r.w > 120.0, r.x + LabelPad, r.y + (r.h - 14.0) / 2.0, r.w - LabelPad * 2.0)
      else NoLabel;
    Fill(path, r, col, OutlineColor(col, hov), caption)
  }

  /** The drawing parameters draw_node_row passes down unchanged. */
  datatype Frame = Frame(view: View, windowW: int, windowH: int, hovered: Option<seq<nat>>, canLabel: bool)

  /** draw_node_row: the row itself unless it lies above the top, then its kept children one row lower. */
  function DrawRow(n: DirNode, path: seq<nat>, fr: Frame, x: real, y: real, w: real): (r: seq<Fill>)
    ensures Culled(ScreenRect(fr.view, x, y, w), fr.windowW, fr.windowH) ==> r == []
    ensures var sr := ScreenRect(fr.view, x, y, w);
      !Culled(sr, fr.windowW, fr.windowH) && !(sr.y + sr.h < 0.0) ==>
        |r| >= 1 && r[0] == RowFill(n, path, sr, fr.hovered, fr.canLabel)
    ensures var sr := ScreenRect(fr.view, x, y, w);
      !Culled(sr, fr.windowW, fr.windowH) && sr.y + sr.h < 0.0 ==>
        forall k :: 0 <= k < |r| ==> r[k].path != path
    ensures !Culled(ScreenRect(fr.view, x, y, w), fr.windowW, fr.windowH) ==>
      forall g | g in DrawSpans(n, path, fr, ChildSpans(n, x, w), 0, NextRow(y)) :: g in r
    ensures forall k :: 0 <= k < |r| ==> |r[k].path| >= |path| && r[k].path[..|path|] == path
    decreases n, 1, 0
  {
    var r := ScreenRect(fr.view, x, y, w);
    if Culled(r, fr.windowW, fr.windowH) then []
    else
      (if !(r.y + r.h < 0.0) then [RowFill(n, path, r, fr.hovered, fr.canLabel)] else [])
      + DrawSpans(n, path, fr, ChildSpans(n, x, w), 0, NextRow(y))
  }

  predicate SpansOf(n: DirNode, spans: seq<Span>)
  {
    forall k :: 0 <= k < |spans| ==> spans[k].index < |n.children|
  }

  /** The children loop of draw_node_row from the k-th kept child on. */
  function DrawSpans(n: DirNode, path: seq<nat>, fr: Frame, spans: seq<Span>, k: nat, y: real): (r: seq<Fill>)
    requires SpansOf(n, spans) && k <= |spans|
    ensures forall j :: 0 <= j < |r| ==> |r[j].path| > |path| && r[j].path[..|path|] == path
    decreases n, 0, |spans| - k
  {
    if k == |spans| then []
    else
      var s := spans[k];
      DrawRow(n.children[s.index], path + [s.index], fr, s.x, y, s.w) + DrawSpans(n, path, fr, spans, k + 1, y)
  }

  /** renderer_draw: nothing without a root or children; the root's children fill the window width at y = 0. */
  function Draw(root: Option<DirNode>, fr: Frame): (r: seq<Fill>)
    ensures root.None? || |root.value.children| == 0 ==> r == []
    ensures forall k :: 0 <= k < |r| ==> |r[k].path| >= 1
  {
    if root.None? || |root.value.children| == 0 then []
    else DrawSpans(root.value, [], fr, ChildSpans(root.value, 0.0, fr.windowW as real), 0, 0.0)
  }

  // ---------------------------------------------------------------------
  // Hit testing
  // ---------------------------------------------------------------------

  /** The row found under the pointer and its screen rectangle. */
  datatype Hit = Hit(path: seq<nat>, rect: Rect)

  predicate InRowBand(r: Rect, mx: real, my: real)
  {
    r.x <= mx <= r.x + r.w && r.y <= my < r.y + r.h
  }

  /** hit_test_row: the row itself when the pointer is in its band, else the first kept child that hits. */
  function HitRow(n: DirNode, path: seq<nat>, v: View, x: real, y: real, w: real, mx: real, my: real): (h: Option<Hit>)
    ensures h.Some? ==> InRowBand(h.value.rect, mx, my)
    ensures h.Some? ==> |h.value.path| >= |path| && h.value.path[..|path|] == path
    ensures var r := ScreenRect(v, x, y, w);
      mx < r.x || mx > r.x + r.w || my < r.y || my > r.y + r.h + HitSlack ==> h.None?
    ensures var r := ScreenRect(v, x, y, w);
      r.x <= mx <= r.x + r.w && r.y <= my < r.y + r.h ==> h == Some(Hit(path, r))
    decreases n, 1, 0
  {
    var r := ScreenRect(v, x, y, w);
    if mx < r.x || mx > r.x + r.w || my < r.y || my > r.y + r.h + HitSlack then None
    else if r.y <= my < r.y + r.h then Some(Hit(path, r))
    else HitSpans(n, path, v, ChildSpans(n, x, w), 0, NextRow(y), mx, my)
  }

  /** The children loop of hit_test_row from the k-th kept child on. */
  function HitSpans(n: DirNode, path: seq<nat>, v: View, spans: seq<Span>, k: nat, y: real, mx: real, my: real): (h: Option<Hit>)
    requires SpansOf(n, spans) && k <= |spans|
    ensures h.Some? ==> InRowBand(h.value.rect, mx, my)
    ensures h.Some? ==> |h.value.path| > |path| && h.value.path[..|path|] == path
    decreases n, 0, |spans| - k
  {
    if k == |spans| then None
    else
      var s := spans[k];
      var h := HitRow(n.children[s.index], path + [s.index], v, s.x, y, s.w, mx, my);
      if h.Some? then
        assert (path + [s.index])[..|path|] == path;
        assert h.value.path[..|path|] == h.value.path[..|path| + 1][..|path|];
        h
      else HitSpans(n, path, v, spans, k + 1, y, mx, my)
  }

  /** What each kept child's own hit test returns, in loop order. */
  function ChildHits(n: DirNode, path: seq<nat>, v: View, spans: seq<Span>, y: real, mx: real, my: real): (hs: seq<Option<Hit>>)
    requires SpansOf(n, spans)
    ensures |hs| == |spans|
    ensures forall k :: 0 <= k < |spans| ==>
      hs[k] == HitRow(n.children[spans[k].index], path + [spans[k].index], v, spans[k].x, y, spans[k].w, mx, my)
  {
    seq(|spans|, k requires 0 <= k < |spans| =>
      HitRow(n.children[spans[k].index], path + [spans[k].index], v, spans[k].x, y, spans[k].w, mx, my))
  }

  /** The first hit among hs[k..], or None. */
  function FirstHit(hs: seq<Option<Hit>>, k: nat): Option<Hit>
    requires k <= |hs|
    decreases |hs| - k
  {
    if k == |hs| then None else if hs[k].Some? then hs[k] else FirstHit(hs, k + 1)
  }

  /** FirstHit is None exactly when every hit from k on is None, and otherwise the earliest one. */
  lemma {:induction false} FirstHitIsEarliest(hs: seq<Option<Hit>>, k: nat)
    requires k <= |hs|
    ensures FirstHit(hs, k).None? <==> forall j :: k <= j < |hs| ==> hs[j].None?
    ensures FirstHit(hs, k).Some? ==>
      exists j :: (k <= j < |hs| && FirstHit(hs, k) == hs[j] && forall i :: k <= i < j ==> hs[i].None?)
    decreases |hs| - k
  {
    if k < |hs| {
      FirstHitIsEarliest(hs, k + 1);
      if hs[k].None? && FirstHit(hs, k).Some? {
        var j :| k + 1 <= j < |hs| && FirstHit(hs, k + 1) == hs[j] && forall i :: k + 1 <= i < j ==> hs[i].None?;
        assert forall i :: k <= i < j ==> hs[i].None?;
      }
    }
  }

  /** The children loop of hit_test_row is FirstHit of the kept children's hits. */
  lemma {:induction false} HitSpansIsFirstHit(n: DirNode, path: seq<nat>, v: View, spans: seq<Span>, k: nat, y: real, mx: real, my: real)
    requires SpansOf(n, spans) && k <= |spans|
    ensures HitSpans(n, path, v, spans, k, y, mx, my) == FirstHit(ChildHits(n, path, v, spans, y, mx, my), k)
    decreases |spans| - k
  {
    if k < |spans| {
      HitSpansIsFirstHit(n, path, v, spans, k + 1, y, mx, my);
    }
  }

  /**
   * The children loop returns the hit of the lowest-numbered kept child that
   * hits, and NULL exactly when none of them hits.
   */
  lemma HitSpansFirst(n: DirNode, path: seq<nat>, v: View, spans: seq<Span>, k: nat, y: real, mx: real, my: real)
    requires SpansOf(n, spans) && k <= |spans|
    ensures var h := HitSpans(n, path, v, spans, k, y, mx, my);
      var hs := ChildHits(n, path, v, spans, y, mx, my);
      && (h.None? <==> forall j :: k <= j < |spans| ==> hs[j].None?)
      && (h.Some? ==> exists j :: (k <= j < |spans| && h == hs[j] && forall i :: k <= i < j ==> hs[i].None?))
  {
    HitSpansIsFirstHit(n, path, v, spans, k, y, mx, my);
    FirstHitIsEarliest(ChildHits(n, path, v, spans, y, mx, my), k);
  }

  /** renderer_hit_test: nothing without a root or children; otherwise the first top-level row that hits. */
  function HitTest(root: Option<DirNode>, v: View, windowW: int, mx: real, my: real): (h: Option<Hit>)
    ensures h.Some? ==> InRowBand(h.value.rect, mx, my) && |h.value.path| >= 1
    ensures root.None? || |root.value.children| == 0 ==> h.None?
  {
    if root.None? || |root.value.children| == 0 then None
    else HitSpans(root.value, [], v, ChildSpans(root.value, 0.0, windowW as real), 0, 0.0, mx, my)
  }

  // ---------------------------------------------------------------------
  // Drawing and hit testing agree
  // ---------------------------------------------------------------------

  /** The screen x of world x, and the screen y of world y. */
  function SX(v: View, x: real): real
  {
    (x + v.offsetX) * v.zoom
  }

  function SY(v: View, y: real): real
  {
    (y + v.offsetY) * v.zoom
  }

  /** The screen rectangle's edges are the screen images of the world edges. */
  lemma ScreenEdges(v: View, x: real, y: real, w: real)
    ensures var r := ScreenRect(v, x, y, w);
      r.x == SX(v, x) && r.y == SY(v, y) && r.x + r.w == SX(v, x + w) && r.h == RowHeight * v.zoom
  {
  }

  lemma ScreenMonotone(v: View, a: real, b: real)
    requires v.zoom > 0.0 && a <= b
    ensures SX(v, a) <= SX(v, b) && SY(v, a) <= SY(v, b)
  {
  }

  /** The row below starts 30 zoomed units lower. */
  lemma NextRowBelow(v: View, y: real)
    requires v.zoom > 0.0
    ensures SY(v, NextRow(y)) == SY(v, y) + (RowHeight + RowGap) * v.zoom
    ensures SY(v, NextRow(y)) > SY(v, y) + RowHeight * v.zoom
  {
  }

  /** The kept children of one node, side by side in [lo, hi], each at least half a unit wide. */
  predicate Tiled(n: DirNode, spans: seq<Span>, lo: real, hi: real)
  {
    && SpansOf(n, spans)
    && FitsIn(spans, lo, hi)
    && (forall k :: 0 <= k < |spans| ==> spans[k].w >= MinChildWidth)
    && (forall k :: 0 <= k < |spans| - 1 ==> spans[k + 1].x == End(spans[k]))
  }

  lemma ChildSpansTiled(n: DirNode, x: real, w: real)
    requires Nested(n) && w >= 0.0
    ensures Tiled(n, ChildSpans(n, x, w), x, x + w)
  {
    ChildSpansInside(n, x, w);
    SpansShape(n.children, n.displaySize, w, 0, x);
  }

  /** Where a fill drawn for the row at (x, y, w) with path `path`, or for one of its descendants, can lie. */
  predicate WithinRow(f: Fill, path: seq<nat>, v: View, x: real, y: real, w: real)
  {
    var r := ScreenRect(v, x, y, w);
    && r.x <= f.rect.x && f.rect.x + f.rect.w <= r.x + r.w && r.y <= f.rect.y
    && |f.path| >= |path| && f.path[..|path|] == path
    && (f.path == path ==> f.rect == r)
    && (f.path != path ==> f.rect.y >= SY(v, NextRow(y)))
  }

  /** Where a fill drawn by the children loop from the k-th span on can lie. */
  predicate WithinSpans(f: Fill, path: seq<nat>, v: View, spans: seq<Span>, k: nat, y: real, hi: real)
  {
    && (k < |spans| ==> SX(v, spans[k].x) <= f.rect.x)
    && f.rect.x + f.rect.w <= SX(v, hi) && SY(v, y) <= f.rect.y
    && |f.path| > |path| && f.path[..|path|] == path
  }

  lemma {:induction false} FillsWithinRow(n: DirNode, path: seq<nat>, fr: Frame, x: real, y: real, w: real)
    requires Nested(n) && w >= 0.0 && fr.view.zoom > 0.0
    ensures forall f | f in DrawRow(n, path, fr, x, y, w) :: WithinRow(f, path, fr.view, x, y, w)
    decreases n, 1, 0
  {
    var v := fr.view;
    var r := ScreenRect(v, x, y, w);
    if !Culled(r, fr.windowW, fr.windowH) {
      var spans := ChildSpans(n, x, w);
      var own := if !(r.y + r.h < 0.0) then [RowFill(n, path, r, fr.hovered, fr.canLabel)] else [];
      var rest := DrawSpans(n, path, fr, spans, 0, NextRow(y));
      assert DrawRow(n, path, fr, x, y, w) == own + rest;
      ChildSpansTiled(n, x, w);
      FillsWithinSpans(n, path, fr, spans, 0, NextRow(y), x, x + w);
      OwnFillWithinRow(n, path, fr, x, y, w);
      forall f | f in own + rest
        ensures WithinRow(f, path, v, x, y, w)
      {
        if f in rest {
          assert |spans| > 0;
          ChildFillWithinRow(f, path, v, spans, x, y, w);
        }
      }
    }
  }

  /** The row's own fill lies where WithinRow allows. */
  lemma OwnFillWithinRow(n: DirNode, path: seq<nat>, fr: Frame, x: real, y: real, w: real)
    ensures WithinRow(RowFill(n, path, ScreenRect(fr.view, x, y, w), fr.hovered, fr.canLabel), path, fr.view, x, y, w)
  {
    assert path[..|path|] == path;
  }

  /** A fill of the children loop lies where WithinRow allows for their parent. */
  lemma ChildFillWithinRow(f: Fill, path: seq<nat>, v: View, spans: seq<Span>, x: real, y: real, w: real)
    requires v.zoom > 0.0 && |spans| > 0 && FitsIn(spans, x, x + w)
    requires WithinSpans(f, path, v, spans, 0, NextRow(y), x + w)
    ensures WithinRow(f, path, v, x, y, w)
  {
    ScreenEdges(v, x, y, w);
    NextRowBelow(v, y);
    ScreenMonotone(v, x, spans[0].x);
  }

  lemma {:induction false} FillsWithinSpans(n: DirNode, path: seq<nat>, fr: Frame, spans: seq<Span>, k: nat, y: real, lo: real, hi: real)
    requires Nested(n) && fr.view.zoom > 0.0
    requires Tiled(n, spans, lo, hi) && k <= |spans|
    ensures forall f | f in DrawSpans(n, path, fr, spans, k, y) :: WithinSpans(f, path, fr.view, spans, k, y, hi)
    decreases n, 0, |spans| - k
  {
    if k < |spans| {
      var v := fr.view;
      var s := spans[k];
      var child := n.children[s.index];
      var p := path + [s.index];
      FillsWithinRow(child, p, fr, s.x, y, s.w);
      FillsWithinSpans(n, path, fr, spans, k + 1, y, lo, hi);
      ScreenEdges(v, s.x, y, s.w);
      ScreenMonotone(v, End(s), hi);
      if k + 1 < |spans| {
        ScreenMonotone(v, s.x, spans[k + 1].x);
      }
      forall f | f in DrawRow(child, p, fr, s.x, y, s.w)
        ensures WithinSpans(f, path, v, spans, k, y, hi)
      {
        assert WithinRow(f, p, v, s.x, y, s.w);
        assert f.path[..|path|] == f.path[..|p|][..|path|];
      }
    }
  }

  /** Strictly between the left and right edges, and within the row's band. */
  predicate StrictlyInside(r: Rect, mx: real, my: real)
  {
    r.x < mx < r.x + r.w && r.y <= my < r.y + r.h
  }

  lemma {:induction false} RowAgrees(n: DirNode, path: seq<nat>, fr: Frame, x: real, y: real, w: real,
                                     f: Fill, mx: real, my: real)
    requires Nested(n) && w >= 0.0 && fr.view.zoom > 0.0
    requires f in DrawRow(n, path, fr, x, y, w) && StrictlyInside(f.rect, mx, my)
    requires my <= SY(fr.view, y) + RowHeight * fr.view.zoom + HitSlack
    ensures HitRow(n, path, fr.view, x, y, w, mx, my) == Some(Hit(f.path, f.rect))
    decreases n, 1, 0
  {
    var v := fr.view;
    var r := ScreenRect(v, x, y, w);
    var spans := ChildSpans(n, x, w);
    var own := if !(r.y + r.h < 0.0) then [RowFill(n, path, r, fr.hovered, fr.canLabel)] else [];
    var rest := DrawSpans(n, path, fr, spans, 0, NextRow(y));
    assert DrawRow(n, path, fr, x, y, w) == own + rest;
    FillsWithinRow(n, path, fr, x, y, w);
    assert WithinRow(f, path, v, x, y, w);
    ScreenEdges(v, x, y, w);
    if f !in own {
      assert f in rest;
      NextRowBelow(v, y);
      ChildSpansTiled(n, x, w);
      FillsWithinSpans(n, path, fr, spans, 0, NextRow(y), x, x + w);
      assert !(r.y <= my < r.y + r.h);
      assert HitRow(n, path, v, x, y, w, mx, my) == HitSpans(n, path, v, spans, 0, NextRow(y), mx, my);
      SpansAgree(n, path, fr, spans, 0, NextRow(y), x, x + w, f, mx, my);
    }
  }

  lemma {:induction false} SpansAgree(n: DirNode, path: seq<nat>, fr: Frame, spans: seq<Span>, k: nat, y: real,
                                      lo: real, hi: real, f: Fill, mx: real, my: real)
    requires Nested(n) && fr.view.zoom > 0.0
    requires Tiled(n, spans, lo, hi) && k <= |spans|
    requires f in DrawSpans(n, path, fr, spans, k, y) && StrictlyInside(f.rect, mx, my)
    requires my <= SY(fr.view, y) + RowHeight * fr.view.zoom + HitSlack
    ensures HitSpans(n, path, fr.view, spans, k, y, mx, my) == Some(Hit(f.path, f.rect))
    decreases n, 0, |spans| - k
  {
    var v := fr.view;
    var s := spans[k];
    var child := n.children[s.index];
    var p := path + [s.index];
    var here := DrawRow(child, p, fr, s.x, y, s.w);
    var later := DrawSpans(n, path, fr, spans, k + 1, y);
    assert DrawSpans(n, path, fr, spans, k, y) == here + later;
    if f in here {
      RowAgrees(child, p, fr, s.x, y, s.w, f, mx, my);
    } else {
      assert f in later;
      LaterMissesChild(n, path, fr, spans, k, y, lo, hi, f, mx, my);
      SpansAgree(n, path, fr, spans, k + 1, y, lo, hi, f, mx, my);
    }
  }

  /** A pointer strictly inside a fill of a later child is not claimed by the k-th child's hit test. */
  lemma LaterMissesChild(n: DirNode, path: seq<nat>, fr: Frame, spans: seq<Span>, k: nat, y: real,
                         lo: real, hi: real, f: Fill, mx: real, my: real)
    requires Nested(n) && fr.view.zoom > 0.0
    requires Tiled(n, spans, lo, hi) && k < |spans|
    requires f in DrawSpans(n, path, fr, spans, k + 1, y) && StrictlyInside(f.rect, mx, my)
    ensures HitRow(n.children[spans[k].index], path + [spans[k].index], fr.view, spans[k].x, y, spans[k].w, mx, my) == None
  {
    var s := spans[k];
    FillsWithinSpans(n, path, fr, spans, k + 1, y, lo, hi);
    assert WithinSpans(f, path, fr.view, spans, k + 1, y, hi);
    ScreenEdges(fr.view, s.x, y, s.w);
  }

  /**
   * Whatever renderer_draw fills, renderer_hit_test finds under a pointer
   * strictly inside it, provided the display sizes are nested and the
   * pointer is within the hit test's vertical reach of the top row.
   */
  lemma DrawAndHitAgree(root: Option<DirNode>, fr: Frame, f: Fill, mx: real, my: real)
    requires fr.view.zoom > 0.0 && fr.windowW >= 0
    requires root.Some? ==> Nested(root.value)
    requires f in Draw(root, fr) && StrictlyInside(f.rect, mx, my)
    requires my <= SY(fr.view, 0.0) + RowHeight * fr.view.zoom + HitSlack
    ensures HitTest(root, fr.view, fr.windowW, mx, my) == Some(Hit(f.path, f.rect))
  {
    var n := root.value;
    var w := fr.windowW as real;
    ChildSpansTiled(n, 0.0, w);
    SpansAgree(n, [], fr, ChildSpans(n, 0.0, w), 0, 0.0, 0.0, 0.0 + w, f, mx, my);
  }

  /**
   * The 10000 px reach as written: at zoom 100, scrolled so that rows five
   * levels down start at the top of the screen, a pointer on those rows
   * hits nothing, because every top-level row gives up the descent while
   * the pointer is more than 10000 px below its own band.
   */
  lemma DeepRowsOutOfReach(root: DirNode, windowW: int, mx: real)
    ensures var v := View(100.0, 0.0, -150.0);
      var deep := NextRow(NextRow(NextRow(NextRow(NextRow(0.0)))));
      && SY(v, deep) <= 1.0 < SY(v, deep) + RowHeight * v.zoom
      && HitTest(Some(root), v, windowW, mx, 1.0).None?
  {
    var v := View(100.0, 0.0, -150.0);
    if |root.children| > 0 {
      var spans := ChildSpans(root, 0.0, windowW as real);
      HitSpansFirst(root, [], v, spans, 0, 0.0, mx, 1.0);
    }
  }

  // ---------------------------------------------------------------------
  // Tooltip placement
  // ---------------------------------------------------------------------

  /** The tooltip's padding: 8 px around and between the two text lines. */
  const TooltipPad: int := 8

  /**
   * One axis of the tooltip origin: 16 px past the pointer, or, when the
   * box would cross `limit`, flipped to end 4 px before it.
   */
  function PlaceAxis(m: real, box: int, limit: int): (t: real)
    ensures m + 16.0 + box as real <= limit as real ==> t == m + 16.0
    ensures m + 16.0 + box as real > limit as real ==> t + box as real == m - 4.0
  {
    var t := m + 16.0;
    if t + box as real > limit as real then m - box as real - 4.0 else t
  }

  /** The box of render_tooltip for text extents (tw1, th1) and (tw2, th2) and pointer (mx, my). */
  function TooltipBox(tw1: int, th1: int, tw2: int, th2: int, mx: real, my: real, windowW: int, windowH: int): (r: Rect)
    ensures r.w == (if tw1 > tw2 then tw1 else tw2) as real + 2.0 * TooltipPad as real
    ensures r.h == (th1 + th2) as real + 3.0 * TooltipPad as real
  {
    var boxW := (if tw1 > tw2 then tw1 else tw2) + TooltipPad * 2;
    var boxH := th1 + th2 + TooltipPad * 3;
    Rect(PlaceAxis(mx, boxW, windowW), PlaceAxis(my, boxH, windowH), boxW as real, boxH as real)
  }

  /**
   * For non-negative text extents the pointer is never under the box, and
   * while the pointer is inside the window the box does not cross its right
   * or bottom edge.
   */
  lemma TooltipClearOfPointer(tw1: int, th1: int, tw2: int, th2: int, mx: real, my: real, windowW: int, windowH: int)
    requires 0 <= tw1 && 0 <= th1 && 0 <= tw2 && 0 <= th2
    ensures var r := TooltipBox(tw1, th1, tw2, th2, mx, my, windowW, windowH);
      && (mx < r.x || r.x + r.w < mx)
      && (my < r.y || r.y + r.h < my)
      && (mx <= windowW as real ==> r.x + r.w <= windowW as real)
      && (my <= windowH as real ==> r.y + r.h <= windowH as real)
  {
  }

  /**
   * What font_cache_get reports for one tooltip line: a texture of the
   * given size, or no texture (a NULL return) with its size outputs left
   * unwritten.
   */
  datatype TextExtent = Drawn(w: nat, h: nat) | NotDrawn

  /**
   * render_tooltip as written: it reads the size outputs whether or not a
   * texture came back, so for a line that was not drawn it sizes the box
   * from whatever the uninitialised locals hold (`staleW`, `staleH`).
   */
  function TooltipBoxAsWritten(e1: TextExtent, staleW1: int, staleH1: int, e2: TextExtent, staleW2: int, staleH2: int,
                               mx: real, my: real, windowW: int, windowH: int): (r: Rect)
    ensures e1.Drawn? && e2.Drawn? ==> r == TooltipBox(e1.w, e1.h, e2.w, e2.h, mx, my, windowW, windowH)
  {
    var tw1 := if e1.Drawn? then e1.w else staleW1;
    var th1 := if e1.Drawn? then e1.h else staleH1;
    var tw2 := if e2.Drawn? then e2.w else staleW2;
    var th2 := if e2.Drawn? then e2.h else staleH2;
    TooltipBox(tw1, th1, tw2, th2, mx, my, windowW, windowH)
  }

  /**
   * When neither line is drawn the box depends on unread memory: the same
   * pointer and window give a box of negative width and height for one
   * stale content and a padding-sized box for another.
   */
  lemma UndrawnTooltipUsesStaleSize()
    ensures var r := TooltipBoxAsWritten(NotDrawn, -100, -100, NotDrawn, -100, -100, 100.0, 100.0, 800, 600);
      r.w < 0.0 && r.h < 0.0
    ensures TooltipBoxAsWritten(NotDrawn, -100, -100, NotDrawn, -100, -100, 100.0, 100.0, 800, 600)
         != TooltipBoxAsWritten(NotDrawn, 0, 0, NotDrawn, 0, 0, 100.0, 100.0, 800, 600)
  {
  }

  /** The size a line contributes to the tooltip: nothing when it was not drawn. */
  function ExtentW(e: TextExtent): nat { if e.Drawn? then e.w else 0 }

  function ExtentH(e: TextExtent): nat { if e.Drawn? then e.h else 0 }

  /**
   * The tooltip box as intended: a line that was not drawn takes no room,
   * so the box depends only on what was reported.
   */
  function TooltipBoxOf(e1: TextExtent, e2: TextExtent, mx: real, my: real, windowW: int, windowH: int): (r: Rect)
    ensures e1.Drawn? && e2.Drawn? ==>
      forall sw1, sh1, sw2, sh2 :: r == TooltipBoxAsWritten(e1, sw1, sh1, e2, sw2, sh2, mx, my, windowW, windowH)
  {
    TooltipBox(ExtentW(e1), ExtentH(e1), ExtentW(e2), ExtentH(e2), mx, my, windowW, windowH)
  }

  /**
   * The intended box is at least the padding in each direction, never lies
   * under the pointer, and inside the window stays clear of the right and
   * bottom edges, whether or not the lines were drawn.
   */
  lemma TooltipBoxOfWellFormed(e1: TextExtent, e2: TextExtent, mx: real, my: real, windowW: int, windowH: int)
    ensures var r := TooltipBoxOf(e1, e2, mx, my, windowW, windowH);
      && 2.0 * TooltipPad as real <= r.w && 3.0 * TooltipPad as real <= r.h
      && (mx < r.x || r.x + r.w < mx)
      && (my < r.y || r.y + r.h < my)
      && (mx <= windowW as real ==> r.x + r.w <= windowW as real)
      && (my <= windowH as real ==> r.y + r.h <= windowH as real)
  {
    TooltipClearOfPointer(ExtentW(e1), ExtentH(e1), ExtentW(e2), ExtentH(e2), mx, my, windowW, windowH);
  }
}
