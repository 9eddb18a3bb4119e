# zoomfolder core, modelled in Dafny

zoomfolder is a disk-usage viewer. A worker thread walks a folder and builds a
tree of `DirNode`s. Each node holds a size, a file count and a growable
children buffer. The window shows the tree as an icicle chart that can be
zoomed and dragged. Rendered text is kept in a small least-recently-used
texture cache.

This project models the sequential logic of that core and proves what it
promises:

- `tree.dfy` (module `Tree`) covers `src/tree.c`.
  - A `DirNode` is a datatype value. Its `children` sequence comes with an explicit `childCapacity`.
  - `AddChild` models `tree_add_child`, where realloc's outcome is an input. Capacity runs 0, 8, 16, 32 and so on.
  - Sorting a node's children is an in-place selection sort on an `array`. It is proved equal to a functional specification, which is proved to be a size-descending permutation.
- `scanner_posix.dfy` (module `ScannerPosix`) covers `scan_dir` and the completion block of `src/scanner_posix.c`.
  - A directory listing is a datatype of entries with their `lstat` kind.
  - The cancel flag and realloc failures come from oracles held by the scan context.
  - `WalkDir`, `WalkEntries` and `Visit` specify the recursive walk. The methods of class `ScanContext` perform it step by step and are proved equal to those functions.
  - `ExpectedDir` is an independent summary of a listing. Every uninterrupted walk is proved to produce it.
- `scanner_win32.dfy` (module `ScannerWin32`) covers the same walk in `src/scanner_win32.c`.
  - It works on `WIN32_FIND_DATA` records with attribute bits and the two 32-bit size halves.
  - The records are translated into the POSIX listing: a reparse-point directory becomes a skipped entry, and any non-directory becomes a regular file. The POSIX walk is then the specification of the Win32 methods.
- `input.dfy` (module `Input`) covers `src/input.c`: the clamp, the pointer-anchored wheel zoom, and the left-button drag state machine.
- `camera.dfy` (module `Camera`) covers `camera_update` of `src/renderer.c`, with its current and target fields.
- `animate.dfy` (module `Animate`) covers `animate_node` and `renderer_animate` of `src/renderer.c`.
- `layout.dfy` (module `Layout`) covers the geometry of `draw_node_row`, `renderer_draw`, `hit_test_row` and `renderer_hit_test`, plus the tooltip placement.
  - Drawing is a function returning the list of filled rows.
  - Hit testing is a function returning the path of the row found.
  - The main theorem: whatever is drawn under a pointer strictly inside it is exactly what the hit test returns.
- `style.dfy` (module `Style`) covers `hash_name`, `clamp255`, the palette and outline colours, and the unit choice of `format_size`.
- `font_cache.dfy` (module `FontCache`) covers `src/font_cache.c`. Class `FontCache` holds an `array` of entries plus `count` and `tick`. Its methods are proved equal to the functional specification `GetSpec`.

Floats are modelled as `real` and sizes as `nat`. The module `Common` holds `Option`.

Points where the model keeps an order or a field that is easy to misread:

- A parent's size includes a subdirectory's bytes only after that subdirectory's walk returns (src/scanner_posix.c:33-40). Mid-scan, a child can therefore hold more bytes than its parent; `ScannerPosix.MidScanChildOutweighsParent` gives such a state. The model keeps this order. `WalkAccounts` states what does hold during a walk: the bytes added to a node are exactly the bytes added to the scan totals. Once a walk returns, sizes are nested again: `ScannerPosix.FinishNested` proves that no node of a finished scan holds fewer bytes than its children together.
- Input moves the current view, and nothing but a camera reset (src/main.c:22, src/main.c:67) ever writes the target view. `camera_update` pulls the current view back toward that target every frame, so every wheel zoom and drag eases back to the start view. `Input.WheelZoomEasesBack` states this, and "## Findings" gives the corrected handler.
- Two headers are out of date. `src/renderer.h` declares a `Camera` without target fields, and `src/tree.h` declares a `DirNode` without `display_size`. The model uses the fields that `src/renderer.c` and `src/main.c` use.

## Model

| member | source | states |
|---|---|---|
| Tree.TruncateName | src/tree.c:19 | the stored name is the input's longest prefix of at most 255 characters; a name of at most 255 characters is kept whole |
| Tree.Create | src/tree.c:15-21 | calloc failing gives None; otherwise the node carries the truncated name, size 0, no children, capacity 0 and complete false |
| Tree.GrownCapacity | src/tree.c:25-28 | a full buffer grows from 0 to 8 and otherwise doubles; the result stays in the series 0, 8, 16, … |
| Tree.AddChild | src/tree.c:23-39 | the append succeeds exactly when there is room or realloc succeeds; on failure the parent is unchanged; on success there is exactly one more child, the earlier children are unchanged, the new last child is fresh with the given name, only children and capacity change, and count ≤ capacity is kept |
| Tree.CapacityAfterCompose | src/tree.c:25-33 | the capacity after j and then k appends is the capacity after j + k appends |
| Tree.PropagateSize | src/tree.c:41-44 | adds `added` to that node's size and changes no other field |
| Tree.AppendAllKeepsOrder | src/tree.c:35-37 | repeated successful appends keep the earlier children, put the i-th name at index base + i as a fresh node, and keep the capacity invariant |
| Tree.HundredAppends | tests/test_tree.c:50-60 | a hundred appends onto a fresh root give 100 children, the buffer invariant, and child i named after the i-th name |
| Tree.SortedChildrenCorrect | src/tree.c:46-57 | the sort's result is a permutation of the children in non-increasing size order |
| Tree.SortIdempotent | src/tree.c:53-57 | sorting the sorted children changes nothing |
| Tree.SizesOfPermutation | src/tree.c:46-51 | permuting siblings permutes their sizes |
| Tree.SortedArrangementsShareSizes | src/tree.c:46-57 | any two size-descending arrangements of the same children have the same size sequence, as for qsort, which need not be stable |
| Tree.MaxIndexFrom | src/tree.c:46-51 | the scan returns the first index of a largest size in a[i..] |
| Tree.SortChildrenInPlace | src/tree.c:56 | the array afterwards is the specified sort of its old contents |
| Tree.SortChildren | src/tree.c:53-57 | only this node's own children are reordered, into a size-descending permutation; grandchildren travel with their parents unchanged |
| Tree.SortTwoChildren | tests/test_tree.c:37-48 | children of sizes 100 then 9000 come out as [9000, 100] |
| Tree.SortedChildren | src/tree.c:53-57 | the specification of the sort; its result has as many children as its input (SortedChildrenCorrect states the permutation and the order) |
| Tree.TotalSizeOfPermutation | src/tree.c:53-57 | reordering siblings does not change their total size |
| Tree.SortKeepsNested | src/tree.c:53-57 | sorting a node's children and setting its complete flag keeps every node's size at least its children's total, and the display sizes at zero |
| Tree.FreshIsNested | src/tree.c:15-21 | a freshly created node is nested in size and not yet animated |
| ScannerPosix.FoldChild | src/scanner_posix.c:33-40 | the parent gains the child's size and file count; the last slot becomes the child with sorted children, marked complete; nothing else changes |
| ScannerPosix.FoldFinished | src/scanner_posix.c:34-39 | the fold, computed step by step with the in-place sort, is FoldChild |
| ScannerPosix.WalkDir | src/scanner_posix.c:8-52 | scan_dir as a function of the oracles, the listing, the node and the counters; an unopenable directory changes nothing; the node keeps count ≤ capacity (WalkDirAccounts, WalkDirNested and UnhinderedWalkDir state what it adds) |
| ScannerPosix.WalkEntries | src/scanner_posix.c:14-49 | the readdir loop from entry i on, polling the cancel flag before each entry; the node keeps count ≤ capacity |
| ScannerPosix.Visit | src/scanner_posix.c:16-48 | one loop pass: dot entries, failed lstat and special files change nothing, a file adds its bytes, a directory is appended, walked and folded; the node keeps count ≤ capacity |
| ScannerPosix.Finish | src/scanner_posix.c:54-70 | scan_dir on the root, then the completion block: done is set, the root is complete and keeps its name, total_size is the root's size, the root's size never falls, and total_files grew by what the root's file count grew |
| ScannerPosix.WalkDirNested | src/scanner_posix.c:8-52 | whatever the oracles say, a walk from a nested, unanimated node leaves every node's size at least the total of its children's |
| ScannerPosix.VisitNested | src/scanner_posix.c:15-48 | one loop pass keeps the node nested in size and unanimated |
| ScannerPosix.FoldNested | src/scanner_posix.c:33-40 | folding a nested walked child into its parent keeps the parent nested in size |
| ScannerPosix.FinishNested | src/scanner_posix.c:54-70 | the tree a finished scan leaves is nested in size at every depth and not yet animated, whatever the cancel flag and realloc do |
| ScannerPosix.MidScanChildOutweighsParent | src/scanner_posix.c:33-46 | a state the drawing thread can see mid-scan, a child that counted a 5-byte file not yet folded into its parent, is not nested; folding the child in makes it nested |
| ScannerPosix.WalkDirAccounts | src/scanner_posix.c:8-52 | whatever the oracles say, after a walk the node's growth in size and file count equals the growth of the scan totals; the name and flags are kept; the earlier children are unchanged; every appended child is complete with sorted children |
| ScannerPosix.VisitAccounts | src/scanner_posix.c:16-48 | one entry keeps the same accounting, whether it is skipped, a file, a failed append or a descent |
| ScannerPosix.CancelledWalkIsInert | src/scanner_posix.c:15 | a walk that starts with the cancel flag up changes nothing except the poll count |
| ScannerPosix.FinishAgreesWithRoot | src/scanner_posix.c:54-70 | after the completion block the root is complete, done is true, total_size equals the root's size, total_files equals the root's file count, and every child is complete and sorted |
| ScannerPosix.UnhinderedWalkDir | src/scanner_posix.c:8-52 | with no cancel and no allocation failure, the walk's node and totals are exactly the reference summary of the listing: dot entries, failed lstat, special files and unopenable directories contribute nothing |
| ScannerPosix.UnhinderedVisit | src/scanner_posix.c:16-48 | one entry contributes its reference summary: a file its bytes and one file, a subdirectory one complete child holding its whole summary |
| ScannerPosix.UnhinderedScan | src/scanner_posix.c:54-70 | an uninterrupted scan leaves in the root and in the totals every byte and file of the listing, with one child per subdirectory in listing order |
| ScannerPosix.TwoSubdirsScan | tests/test_scanner.c:30-49 | a root with directories a and b holding one file of x and y bytes ends with 2 children, size x + y and 2 files |
| ScannerPosix.EmptyRootScan | tests/test_scanner.c:51-66 | a root holding only the dot entries ends with no children and size 0 |
| ScannerPosix.ScanContext.constructor | src/scanner_posix.c:72-81 | the zeroed context with the root from tree_create |
| ScannerPosix.ScanContext.ScanDir | src/scanner_posix.c:8-52 | the readdir loop with its cancel poll performs WalkDir on the node and the context's counters |
| ScannerPosix.ScanContext.VisitEntry | src/scanner_posix.c:16-48 | one loop pass performs Visit |
| ScannerPosix.ScanContext.Descend | src/scanner_posix.c:25-40 | append, walk the child if the append succeeded, then fold it: performs Visit for a directory entry |
| ScannerPosix.ScanContext.Run | src/scanner_posix.c:54-70 | the thread body leaves the root, done, total_size and total_files as Finish states |
| ScannerWin32.HalvesCombine | src/scanner_win32.c:44 | `(high << 32) \| low` on 64 bits equals high · 2^32 + low |
| ScannerWin32.CombineHalves | src/scanner_win32.c:44 | the computed size is FileSize of the two halves |
| ScannerWin32.Classify | src/scanner_win32.c:24-44 | a record is walked as a directory exactly when it has the directory bit and not the reparse bit; it counts as a file exactly when it lacks the directory bit, with the combined size |
| ScannerWin32.Translate | src/scanner_win32.c:13-16 | a failed FindFirstFileA is an unopenable directory; a search holding n records lists n entries |
| ScannerWin32.TranslateEntries | src/scanner_win32.c:16-53 | the k-th entry walked is the k-th record in FindNextFileA order, classified |
| ScannerWin32.EveryFileCounted | src/scanner_win32.c:43-51 | a non-directory record, whatever its other bits, contributes its 64-bit size and one file |
| ScannerWin32.ReparsePointSkipped | src/scanner_win32.c:24-26 | a reparse-point directory is neither entered nor counted |
| ScannerWin32.FinishAgreesWithRootWin32 | src/scanner_win32.c:58-74 | the completion block gives the same agreement of totals and root as on POSIX |
| ScannerWin32.FinishNestedWin32 | src/scanner_win32.c:58-74 | a finished Win32 scan also leaves every node's size at least its children's total |
| ScannerWin32.ScanContext.constructor | src/scanner_win32.c:76-85 | the zeroed context holding the root from tree_create and the given oracles |
| ScannerWin32.UnhinderedScanWin32 | src/scanner_win32.c:7-74 | an uninterrupted search leaves in the root and the totals every byte and file of the translated listing |
| ScannerWin32.ScanContext.ScanDir | src/scanner_win32.c:7-56 | the do/while loop over the records performs the POSIX WalkDir on the translated listing |
| ScannerWin32.ScanContext.VisitRecord | src/scanner_win32.c:17-52 | one pass performs Visit of the classified record |
| ScannerWin32.ScanContext.Descend | src/scanner_win32.c:28-41 | the directory branch performs Visit for the record's directory entry |
| ScannerWin32.ScanContext.Run | src/scanner_win32.c:58-74 | the thread body leaves the context as Finish states for the translated listing |
| Input.ClampedY | src/input.c:11 | offset_y ends ≤ 0, and one already ≤ 0 is unchanged |
| Input.ClampedX | src/input.c:13-15 | offset_x ends ≥ w/zoom − w; one already in [w/zoom − w, 0] is unchanged; it ends ≤ 0 whenever zoom ≥ 1 and w ≥ 0 |
| Input.ZoomFactor | src/input.c:29-31 | 1.1 when wheel.y > 0, otherwise the reciprocal of 1.1, including for wheel.y = 0 |
| Input.ZoomStep | src/input.c:32-34 | the new zoom is the scaled zoom clamped to [1, 100] |
| Input.AnchoredOffset | src/input.c:27-36 | the world x under the pointer is the same before and after the zoom change |
| Input.Step | src/input.c:18-58 | the wheel keeps dragging and gives exactly the clamp of the stepped zoom (kept in [1, 100]) with the pointer-anchored offset_x; a drag gives exactly the clamp of the offsets moved by xrel/zoom and yrel/zoom; left button down sets dragging and left button up clears it, other buttons change nothing; motion moves only while dragging and ends in bounds; other events change nothing |
| Input.WheelKeepsAnchor | src/input.c:27-37 | when the clamp does not bite, the wheel keeps the world point under the pointer fixed |
| Input.DragFollowsPointer | src/input.c:50-55 | when the clamp does not bite, a drag moves the offsets by xrel/zoom and yrel/zoom |
| Input.StepKeepsBounds | src/input.c:9-16 | a view inside the clamp's bounds stays inside them after any event |
| Input.ClampIdempotent | src/input.c:9-16 | clamping twice is clamping once |
| Input.ClampCamera | src/input.c:9-16 | the in-place clamp leaves the camera at Clamp of its old offsets |
| Input.InputState.Handle | src/input.c:18-58 | input_handle changes the drag flag and the current zoom and offsets as Step says, and never the targets |
| Input.WheelThenFrame | src/main.c:67-96 | as written, from a fresh camera, one wheel tick and one 0.05 s frame leave the zoom at 1.04 with the target still 1: the frame undoes most of the tick |
| Input.WheelZoomEasesBack | src/main.c:67-96 | as written, the tick's zoom 1.1 under an untouched target 1 decays to 1 + 0.1 · 0.4^n after n capped frames, so every gesture eases back to the start view |
| Input.InputState.HandleTarget | src/input.c:18-58 | the corrected handler: the gesture of Step applied to the target view, leaving the current view to the frames |
| Input.TargetedWheelThenFrame | src/main.c:67-96 | corrected: the same tick and frame leave the zoom at 1.06 with the target 1.1 |
| Input.TargetedWheelHolds | src/main.c:67-96 | corrected: after the tick, n capped frames bring the zoom to 1.1 − 0.1 · 0.4^n and it never leaves [1, 1.1], so the gesture is kept |
| Camera.Smoothing | src/renderer.c:71-72 | t = min(1, rate · dt), and it is non-negative for non-negative rate and dt |
| Camera.Approach | src/renderer.c:73-75 | one blending step toward the target: t = 0 stays put and t = 1 lands on the target |
| Camera.ApproachFacts | src/renderer.c:73-75 | a step leaves the fraction 1 − t of the gap; for t in [0, 1] it lands between the current value and the target; t = 1 reaches the target and t = 0 stays put |
| Camera.Camera.constructor | src/main.c:22 | zoom and target zoom 1, all offsets 0 |
| Camera.Camera.Update | src/renderer.c:69-76 | each current field moves toward its target by t = min(1, 12·dt), ending between the old value and the target for dt ≥ 0, and the zoom stays positive |
| Camera.StepStaysBetween | src/renderer.c:69-76 | for dt ≥ 0 a step ends between the current value and the target |
| Camera.LongFrameReachesTarget | src/renderer.c:71-75 | a frame of at least 1/rate seconds lands exactly on the target; the program caps dt at 0.05 s (src/main.c:94), so with rate 12 this frame never occurs and each step leaves at least 0.4 of the gap |
| Camera.StepShrinksGap | src/renderer.c:71-75 | the distance to the target never grows |
| Camera.FramesGap | src/renderer.c:71-75 | after n frames with the same blend factor t and an unchanged target, the gap to the target is the starting gap decayed by (1 − t) per frame |
| Camera.DecayedShrinks | src/renderer.c:73-75 | a gap decayed by a factor in [0, 1] keeps its sign and never grows |
| Camera.FramesBetween | src/renderer.c:71-75 | for t in [0, 1], after any number of frames the field lies between its start and its target |
| Animate.AnimateNode | src/renderer.c:78-83 | the recursive in-place update produces Animated: every display size at every depth moves toward its size by t |
| Animate.Animated | src/renderer.c:78-83 | the whole tree after one animation step; the node's name, size, file count, buffer and flags are kept, and t = 1 sets its display size to its size |
| Animate.RendererAnimate | src/renderer.c:85-91 | a NULL root is left alone; otherwise the tree is animated with t = min(1, 8·dt) |
| Animate.AnimateKeepsSkeleton | src/renderer.c:78-83 | only display sizes change; names, sizes, counts, buffers and flags are kept at every depth |
| Animate.FullStepSettles | src/renderer.c:88-90 | a frame of at least 1/8 s sets every display size to its node's size; the program caps dt at 0.05 s (src/main.c:94), so t never exceeds 0.4 and this frame never occurs |
| Animate.SettledIsFixed | src/renderer.c:78-83 | once every display size equals its size, the animation changes nothing |
| Animate.StepMovesToward | src/renderer.c:80-82 | with t in [0, 1] every display size ends between its old value and its size |
| Animate.SumDisplayAnimated | src/renderer.c:80 | the stepped children's display sizes add up to the step of their sums |
| Animate.AnimatePreservesNested | src/renderer.c:78-83 | when display sizes are nested and no node's size is below its children's sum, a step keeps every display size non-negative and no node's display size below its children's |
| Animate.UnanimatedIsNested | src/renderer.c:78-83 | a tree whose display sizes are all zero is nested in display size |
| Animate.AnimateKeepsSizeNested | src/renderer.c:78-83 | animation does not change the nesting of real sizes |
| Animate.FrameKeepsNested | src/renderer.c:85-91 | one frame with t in [0, 1] keeps both display and real sizes nested |
| Animate.FramesKeepNested | src/renderer.c:85-91 | any sequence of frames with t in [0, 1] keeps both nestings |
| Animate.ScannedTreeStaysNested | src/renderer.c:85-91 | a finished scan's tree that no frame animated before completion keeps nested display sizes through any sequence of later frames with t in [0, 1] |
| Animate.MidScanFrameBreaksNesting | src/main.c:111-114 | a frame taken mid-scan (t = 0.4) gives a subdirectory a display size while its parent's is still 0; after completion the sizes are nested, but the next frame leaves display sizes that are not, a child's span wider than its parent's column, and a pointer inside that child's row that hits nothing |
| Style.HashName | src/renderer.c:32-38 | the loop computes djb2 over the name's bytes, starting at 5381 |
| Style.MixIsTimes33 | src/renderer.c:36 | `(h << 5) + h` is h · 33 modulo 2^32 |
| Style.Mix | src/renderer.c:36 | one djb2 step: xor-ing the byte back out leaves the hash times 33 modulo 2^32 |
| Style.Djb | src/renderer.c:32-38 | djb2 of the name's bytes: the empty name hashes to 5381, a one-character name to 5381 · 33 xor its byte |
| Style.DjbAppend | src/renderer.c:35-36 | appending one character mixes one more byte into the hash |
| Style.PaletteIndex | src/renderer.c:109 | the palette index is always below 16 |
| Style.Clamp255 | src/renderer.c:67 | the result is a channel value; above 255 gives 255 and 0..255 is kept |
| Style.Brighten | src/renderer.c:112-116 | each channel rises by 30, saturating at 255, and never exceeds 255; alpha is kept |
| Style.FillColor | src/renderer.c:109-116 | the fill is a valid colour: the palette colour itself when the row is not hovered, and that colour brightened by 30 per channel when it is |
| Style.OutlineColor | src/renderer.c:122-126 | exactly (200, 200, 210, 255) when hovered; otherwise (r/2, g/2, b/2, 255) of the fill, each channel the fill's halved and rounded down |
| Style.FormatSize | src/renderer.c:40-52 | GB from 2^30 bytes, MB from 2^20, KB from 2^10, otherwise the exact byte count; a scaled amount times its unit is the byte count |
| Style.FormatSizeAmountRange | src/renderer.c:43-48 | the scaled amount is at least 1, and below 1024 for KB and MB |
| Layout.SpansComplete | src/renderer.c:143-155 | a child gets a span exactly when its width w·child/parent (0 for a parent display size ≤ 0) is at least 0.5 |
| Layout.SpansShape | src/renderer.c:143-155 | kept spans are at least 0.5 wide and as wide as their child's share, in child order, each starting where the previous one ends, the first at the parent's x |
| Layout.SpansFit | src/renderer.c:143-155 | the kept spans lie inside [x, x + the children's share of w] |
| Layout.ChildSpansTiled | src/renderer.c:143-155 | with nested display sizes the kept children tile their parent's interval side by side |
| Layout.RowFill | src/renderer.c:107-140 | the row's rectangle, its fill colour, the outline colour of that fill (hovered or not), and a label exactly when wider than 40 with font and cache, with the size when wider than 120 |
| Layout.SpansFrom | src/renderer.c:143-155 | the spans of the kept children from child i on; every span names a child from i on |
| Layout.ChildSpans | src/renderer.c:143-155 | a node's kept children as spans over its interval; every span names one of its children |
| Layout.ScreenRect | src/renderer.c:98-101 | the world-to-screen rectangle of a row; with positive zoom and width it has non-negative width and positive height |
| Layout.Culled | src/renderer.c:103-105 | the early return; a row not culled overlaps the window horizontally, does not start below its bottom edge and is at least 1 px wide |
| Layout.DrawRow | src/renderer.c:93-156 | draw_node_row as the list of filled rows: a culled row draws nothing; a visible row not above the top draws its own fill first; a row above the top draws no fill of its own; any row that is not culled still draws every fill of its kept children one row lower; every fill lies on a path extending the row's |
| Layout.DrawSpans | src/renderer.c:143-155 | the children loop; every fill lies strictly below the current path |
| Layout.Draw | src/renderer.c:158-178 | renderer_draw; no root, or a root without children, draws nothing, and every fill is a row at depth one or more |
| Layout.HitRow | src/renderer.c:255-286 | left or right of the row, above it, or more than 10000 px below its band gives NULL; a pointer in the row's own band returns this row with its screen rectangle; any row found has the pointer in its band and a path extending the current one |
| Layout.HitSpansIsFirstHit | src/renderer.c:270-285 | the children loop returns the first non-NULL result among the kept children's own hit tests, taken in loop order |
| Layout.FirstHitIsEarliest | src/renderer.c:281 | the first hit is None exactly when every hit from k on is None, and otherwise the earliest one that is not None |
| Layout.HitSpansFirst | src/renderer.c:270-285 | the children loop returns NULL exactly when no kept child hits; otherwise it returns the hit of the first kept child that hits |
| Layout.DeepRowsOutOfReach | src/renderer.c:264 | at zoom 100, scrolled so that the rows five levels down start at the top of the screen, a pointer on those rows hits nothing |
| Layout.HitSpans | src/renderer.c:270-285 | a child found has the pointer in its band and lies strictly below the current path |
| Layout.HitTest | src/renderer.c:288-308 | no root, or a root without children, gives NULL; a row found has the pointer in its band |
| Layout.FillsWithinRow | src/renderer.c:93-156 | everything a row draws lies horizontally within its own screen rectangle and not above it, and descendants lie from the next row down |
| Layout.RowAgrees | src/renderer.c:255-286 | a row that draw_node_row (src/renderer.c:93-156) fills under a pointer strictly inside it is what hit_test_row returns from that row |
| Layout.DrawAndHitAgree | src/renderer.c:288-308 | whatever renderer_draw (src/renderer.c:158-178) fills, renderer_hit_test returns under a pointer strictly inside it, given nested display sizes, zoom > 0 and a pointer within the +10000 reach |
| Layout.PlaceAxis | src/renderer.c:331-334 | the box goes 16 px past the pointer, or, when that would cross the limit, ends 4 px before the pointer |
| Layout.TooltipBox | src/renderer.c:327-334 | box width is the wider text plus 2·8, and height the two text heights plus 3·8 |
| Layout.TooltipClearOfPointer | src/renderer.c:327-334 | with non-negative text extents the pointer is never under the box, and inside the window the box does not cross the right or bottom edge |
| Layout.TooltipBoxAsWritten | src/renderer.c:321-329 | render_tooltip as written; with both lines drawn it is TooltipBox of their sizes |
| Layout.UndrawnTooltipUsesStaleSize | src/renderer.c:321-329 | with neither line drawn, stale size values of −100 give a box of negative width and height, and other stale values give another box for the same pointer |
| Layout.TooltipBoxOf | src/renderer.c:321-334 | the intended box: a line not drawn takes no room; with both lines drawn it is the as-written box whatever the stale values |
| Layout.TooltipBoxOfWellFormed | src/renderer.c:321-334 | the intended box is at least 16 px wide and 24 px high, never under the pointer, and inside the window clear of the right and bottom edges |
| FontCache.KeyOf | src/font_cache.c:67 | the key records the text and the colour's red, green and blue |
| FontCache.KeyOfInjective | src/font_cache.c:67-69 | two calls share an entry exactly when they ask for the same text in the same red, green and blue |
| FontCache.KeyString | src/font_cache.c:67 | the key string as written starts with the text followed by byte 0x01 |
| FontCache.KeyStringCollides | src/font_cache.c:67 | colours (1, 23, 4) and (12, 3, 4) spell the same key string |
| FontCache.IndexOf | src/font_cache.c:37-44 | −1 exactly when no live entry has the key; otherwise the first index holding it |
| FontCache.OldestIn | src/font_cache.c:48-52 | the first index with the smallest last_used |
| FontCache.Oldest | src/font_cache.c:46-52 | evict_oldest's choice: the first live entry with the smallest last_used |
| FontCache.SwapRemove | src/font_cache.c:55 | one entry fewer; slot k holds the old last entry and every other slot is kept |
| FontCache.SwapRemovePermutes | src/font_cache.c:55 | swap-with-last removes exactly one copy of the evicted entry |
| FontCache.SwapRemoveKeepsDistinct | src/font_cache.c:55 | removal keeps the keys distinct and drops the evicted key |
| FontCache.GetKeepsInvariant | src/font_cache.c:58-98 | every call keeps count ≤ capacity, the keys pairwise distinct, and no stamp ahead of the tick |
| FontCache.GetTicks | src/font_cache.c:62-64 | empty text changes nothing and returns NULL; any other call advances the tick by exactly one |
| FontCache.HitReturnsStored | src/font_cache.c:69-75 | a hit returns the stored texture and size, restamps that entry with the new tick and changes no other entry |
| FontCache.FailedRenderInsertsNothing | src/font_cache.c:77-83 | a miss whose surface or texture creation fails returns NULL and inserts nothing |
| FontCache.MissInserts | src/font_cache.c:85-97 | a miss that renders returns the new texture and appends one entry stamped with the tick; when full, the first least recently used entry is removed first and the count stays at capacity |
| FontCache.GetThenHit | src/font_cache.c:58-98 | after a call that returned a texture, asking again for the same text and colour returns that texture |
| FontCache.GetSpec | src/font_cache.c:58-98 | font_cache_get as a function of the table: empty text changes nothing; otherwise the tick advances by one; the table never exceeds capacity; a texture comes back exactly when the key is stored or the rendering succeeds; without one the table is unchanged |
| FontCache.Decimal | src/font_cache.c:67 | `%u` of a value: at least one character, all decimal digits |
| FontCache.FontCache.constructor | src/font_cache.c:20-27 | an empty table of the given positive capacity with tick 0 |
| FontCache.FontCache.FindEntry | src/font_cache.c:37-44 | the linear scan returns IndexOf of the live entries |
| FontCache.FontCache.FindOldest | src/font_cache.c:48-52 | the scan returns the first least recently used live entry |
| FontCache.FontCache.EvictOldest | src/font_cache.c:46-56 | the count drops by one and the live entries are the swap-removal of the oldest |
| FontCache.FontCache.Touch | src/font_cache.c:71 | the hit entry's last_used becomes the tick and no other entry changes |
| FontCache.FontCache.Insert | src/font_cache.c:88-93 | the entry goes into the first free slot and the count rises by one |
| FontCache.FontCache.Admit | src/font_cache.c:85-93 | evicts first when full, then appends |
| FontCache.FontCache.Get | src/font_cache.c:58-98 | the table, the tick and the return value become what GetSpec states, and the table invariant is kept |
| FontCache.FontCache.Clear | src/font_cache.c:100-109 | count and tick return to 0 |

## Left out

- Threads and the mutex are not modelled: `scanner_start`, `scanner_cancel`, `scanner_free` and every lock. The walk is sequential; the cancel flag is an oracle that reads true from a chosen poll on.
- opendir/readdir/lstat, FindFirstFileA/FindNextFileA and the `snprintf` path building are foreign I/O. They are replaced by listing datatypes, so the 4096-byte and MAX_PATH truncation of paths is not modelled.
- SDL and TTF drawing is not modelled. Drawing is the list of filled rows with their colours and label placement. The text and texture creation inside `font_cache_get` is an input (`RenderOutcome`). `render_background`, `render_welcome`, `render_scan_indicator` and `draw_cached_text` are not part of this model.
- `src/main.c` is glue. The model takes only three things from it: the camera reset, the 0.05 s cap on frame time, and the order of one frame (events, then `camera_update`, then the animation). Its window, folder dialog and state machine are not modelled.
- IEEE float rounding is not modelled: layout, camera and animation arithmetic is on `real`. `Style.FormatSize` gives the exact quotient, without the `%.1f` rounding.
- Unsigned wrap-around of `size`, `file_count`, `total_size`, `total_files`, `child_capacity * 2`, the cache `count` and `tick` is not modelled: these are unbounded `nat`s. Only `hash_name` wraps, as it does on purpose.
- Tree.AddChild: a DirNode is a value, not a heap cell. Aliasing of the children buffer and the pointer returned by `tree_add_child` are not modelled. The scanner writes the walked child back into its parent's last slot.
- `tree_free`, `free_children`, `font_cache_free` and every `free`/`SDL_DestroyTexture` only release memory and are not modelled.
- `hash_str` (src/font_cache.c:29-35) is never called and is not modelled.
- Tree.SortChildren: `qsort` with `cmp_size_desc` is replaced by a selection sort. Equal-size siblings can come out in another order. `Tree.SortedArrangementsShareSizes` states what holds for any such sort.
- Style.ByteOf: a name's character is read as its code point modulo 256. No text encoding is modelled.
- Tree.TruncateName: the 255 limit counts characters, not the bytes the C field holds, so a name with multi-byte characters is cut later than `strncpy` would cut it.
- Layout.DrawAndHitAgree: it needs zoom > 0, nested display sizes, and a pointer within the +10000 reach of the top row. Nested display sizes are guaranteed only for a tree no frame animated before its scan finished (`Animate.ScannedTreeStaysNested`). The program animates and draws every frame while the scan runs (src/main.c:111-115), and `Animate.MidScanFrameBreaksNesting` shows that this can leave a tree that is not nested; each later frame narrows the excess but in exact arithmetic never removes it, so such a child is drawn beyond its parent's column and cannot be hovered there. `Layout.DeepRowsOutOfReach` shows that the reach is a real limit: at zoom 100 rows five levels down cannot be hovered. With zoom ≤ 0 the screen rectangles reverse, and the source makes no promise there.
- Input.Step: it requires a positive zoom, because `clamp_camera` divides by it. No event can make it non-positive from a positive start.
- FontCache.FontCache.Get: a NULL cache and a NULL text are not modelled, since a datatype string cannot be NULL. An empty text stands for both.
- FontCache.FontCache.constructor: requires capacity ≥ 1. With capacity 0, `evict_oldest` would read and write `entries[-1]`.
- FontCache.FontCache.constructor: a failed `calloc` in `font_cache_create` is not modelled.
- ScannerPosix.ScanContext.constructor: it assumes `tree_create` succeeds, as does `ScannerWin32.ScanContext.constructor`. A NULL root from src/scanner_posix.c:78 would be dereferenced by the thread at src/scanner_posix.c:58; a failed `calloc` of the context itself returns NULL to the caller and is not modelled either.
- Frames interleave with the scan: the display animation runs on whatever partial tree the worker has built so far. The model animates only whole trees given as values; the mid-scan interleaving is captured by `Animate.MidScanFrameBreaksNesting` alone.
- FontCache.KeyOf: the key is the text together with the red, green and blue values, not the 384-byte string. Truncation of long keys and the collision listed under Findings are therefore absent from the table's behaviour; `FontCache.KeyString` models the string as written.
- FontCache.GetSpec: when font_cache_get returns NULL it writes nothing to `*w` and `*h`. render_tooltip reads them anyway (src/renderer.c:321-329); `Layout.TooltipBoxAsWritten` models that read and Findings lists it.
- FontCache.FontCache.Insert: the `strdup` of the key (src/font_cache.c:89) is never checked. On failure a NULL key would reach `strcmp` in `find_entry`. The model's keys are values and cannot be NULL.
- Input.InputState.HandleTarget: a drag divides the pointer travel by the target zoom rather than the current one. The two are equal once the camera has settled.
- Layout.RowFill: the label text itself is not built; only whether a label is drawn, with or without the size, and where.

## Findings

| source | as written | input that shows it | evidently intended | confidence | as-written member | corrected member |
|---|---|---|---|---|---|---|
| src/font_cache.c:67 | the key is `"%s\x01%u%u%u"` of text, r, g, b, with no separator between the three numbers | the same text in colours (1, 23, 4) and (12, 3, 4): both keys end in "1234", so the second lookup is served the first colour's texture | the key identifies text and colour, so different colours never share an entry | not executed; the program itself only draws with the two colours {20,20,20} and {180,180,180}, which do not collide | FontCache.KeyStringCollides (on FontCache.KeyString) | FontCache.KeyOfInjective (on FontCache.KeyOf, the key the table uses) |
| src/renderer.c:321-329 | `tw1`, `th1`, `tw2`, `th2` are uninitialised, and font_cache_get leaves them unwritten when it returns NULL; the box is sized from them anyway | both texts fail to render while the locals hold −100: the box is −84 by −176 px, and different stale values give a different box for the same pointer | a line that was not drawn takes no room, so the box is at least the padding and depends only on the drawn text | not executed; the stale values depend on the stack | Layout.UndrawnTooltipUsesStaleSize (on Layout.TooltipBoxAsWritten) | Layout.TooltipBoxOfWellFormed (on Layout.TooltipBoxOf) |
| src/input.c:32-36 | input_handle writes the zoom and offsets of the current view; the targets only ever hold the start view (src/main.c:22, :67), and camera_update pulls the current view toward them each frame | a wheel tick at the start view gives zoom 1.1; one 0.05 s frame takes it to 1.04, and n frames to 1 + 0.1 · 0.4^n | a gesture moves the target view, and the frames glide the current view toward it and keep it there | not executed; read from the code: with dt at its 0.05 s cap, 0.4 of the gesture is left after one frame and about 1% after five | Input.WheelZoomEasesBack (with Input.WheelThenFrame, on Input.InputState.Handle) | Input.TargetedWheelHolds (with Input.TargetedWheelThenFrame, on Input.InputState.HandleTarget) |
