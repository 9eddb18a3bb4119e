/**
 * The growable directory tree of src/tree.c.
 *
 * A `DirNode` is the value of one node struct: its name (at most 255
 * characters), its aggregate byte size and file count, its children buffer
 * (the live children in order, plus the buffer's capacity), the `complete`
 * flag and the animated `displaySize` the renderer adds to the struct.
 */
module Tree {
  import opened Common

  /** One less than the name field's size: the longest name a node keeps. */
  const NameCapacity: nat := 255
  /** INITIAL_CAPACITY: the first children buffer holds eight nodes. */
  const InitialCapacity: nat := 8

  datatype DirNode = DirNode(
    name: string,
    size: nat,
    fileCount: nat,
    children: seq<DirNode>,
    childCapacity: nat,
    complete: bool,
    displaySize: real)

  /** The name as stored: at most 255 characters copied into a zero-filled field, the rest dropped. */
  function TruncateName(s: string): (r: string)
    ensures |r| <= NameCapacity
    ensures |r| <= |s| && r == s[..|r|]
    ensures |s| <= NameCapacity ==> r == s
    ensures |s| > NameCapacity ==> |r| == NameCapacity
  {
    if |s| <= NameCapacity then s else s[..NameCapacity]
  }

  /** A zero-filled node carrying `name`: calloc or memset, then strncpy. */
  function ZeroedNode(name: string): DirNode
  {
    DirNode(TruncateName(name), 0, 0, [], 0, false, 0.0)
  }

  /** What a freshly created or freshly appended node looks like. */
  predicate IsFresh(n: DirNode, name: string)
  {
    && n.name == TruncateName(name)
    && n.size == 0 && n.fileCount == 0
    && n.children == [] && n.childCapacity == 0
    && !n.complete && n.displaySize == 0.0
  }

  /** tree_create: `None` when calloc fails (`allocOk` is its outcome). */
  function Create(name: string, allocOk: bool): (r: Option<DirNode>)
    ensures r.Some? <==> allocOk
    ensures r.Some? ==> IsFresh(r.value, name) && CapacityOk(r.value)
  {
    if allocOk then Some(ZeroedNode(name)) else None
  }

  /** The capacities the buffer can have: 0, then 8, 16, 32, ... */
  predicate IsCapacity(c: nat)
    decreases c
  {
    c == 0 || c == InitialCapacity || (c > InitialCapacity && c % 2 == 0 && IsCapacity(c / 2))
  }

  /** The buffer invariant: child_count <= child_capacity, capacity of the doubling series. */
  predicate CapacityOk(n: DirNode)
  {
    |n.children| <= n.childCapacity && IsCapacity(n.childCapacity)
  }

  /** The capacity realloc asks for when the buffer is full. */
  function GrownCapacity(cap: nat): (c: nat)
    ensures c > cap
    ensures IsCapacity(cap) ==> IsCapacity(c)
    ensures cap == 0 ==> c == InitialCapacity
    ensures cap > 0 ==> c == 2 * cap
  {
    if cap == 0 then InitialCapacity else 2 * cap
  }

  /** Result of tree_add_child: the parent afterwards, and whether a child was appended (non-NULL). */
  datatype Append = Append(parent: DirNode, added: bool)

  /**
   * tree_add_child. `allocOk` is the outcome of realloc, consulted only when
   * the buffer is full. On success the new child is the last one.
   */
  function AddChild(p: DirNode, name: string, allocOk: bool): (r: Append)
    requires |p.children| <= p.childCapacity
    ensures r.added <==> (|p.children| < p.childCapacity || allocOk)
    ensures !r.added ==> r.parent == p
    ensures r.added ==>
      && |r.parent.children| == |p.children| + 1
      && r.parent.children[..|p.children|] == p.children
      && IsFresh(r.parent.children[|p.children|], name)
      && r.parent.childCapacity == (if |p.children| < p.childCapacity then p.childCapacity
                                   else GrownCapacity(p.childCapacity))
      && r.parent == p.(children := r.parent.children, childCapacity := r.parent.childCapacity)
    ensures r.parent.childCapacity >= p.childCapacity
    ensures CapacityOk(p) ==> CapacityOk(r.parent)
  {
    if |p.children| == p.childCapacity && !allocOk then
      Append(p, false)
    else
      var cap := if |p.children| == p.childCapacity then GrownCapacity(p.childCapacity) else p.childCapacity;
      Append(p.(children := p.children + [ZeroedNode(name)], childCapacity := cap), true)
  }

  /** The capacity after k successful appends to a buffer holding n children with capacity cap. */
  function CapacityAfter(cap: nat, n: nat, k: nat): (c: nat)
    requires n <= cap
    ensures n + k <= c
    ensures IsCapacity(cap) ==> IsCapacity(c)
    decreases k
  {
    if k == 0 then cap
    else CapacityAfter(if n == cap then GrownCapacity(cap) else cap, n + 1, k - 1)
  }

  lemma {:induction false} CapacityAfterCompose(cap: nat, n: nat, j: nat, k: nat)
    requires n <= cap
    ensures CapacityAfter(cap, n, j + k) == CapacityAfter(CapacityAfter(cap, n, j), n + j, k)
    decreases j
  {
    if j > 0 {
      CapacityAfterCompose(if n == cap then GrownCapacity(cap) else cap, n + 1, j - 1, k);
    }
  }

  /** tree_propagate_size: adds to this one node's size only. */
  function PropagateSize(n: DirNode, added: nat): (r: DirNode)
    ensures r.size == n.size + added
    ensures r.(size := n.size) == n
  {
    n.(size := n.size + added)
  }

  /** Appends every name in turn, realloc always succeeding. */
  function AppendAll(p: DirNode, names: seq<string>): (r: DirNode)
    requires |p.children| <= p.childCapacity
    ensures |r.children| <= r.childCapacity
    decreases |names|
  {
    if names == [] then p else AppendAll(AddChild(p, names[0], true).parent, names[1..])
  }

  /** Repeated appends keep earlier children and put child i at index base + i. */
  lemma {:induction false} AppendAllKeepsOrder(p: DirNode, names: seq<string>)
    requires |p.children| <= p.childCapacity
    ensures |AppendAll(p, names).children| == |p.children| + |names|
    ensures AppendAll(p, names).children[..|p.children|] == p.children
    ensures forall i :: 0 <= i < |names| ==>
      IsFresh(AppendAll(p, names).children[|p.children| + i], names[i])
    ensures CapacityOk(p) ==> CapacityOk(AppendAll(p, names))
    decreases |names|
  {
    if names != [] {
      var q := AddChild(p, names[0], true).parent;
      AppendAllKeepsOrder(q, names[1..]);
      var r := AppendAll(p, names);
      assert r == AppendAll(q, names[1..]);
      assert r.children[..|q.children|] == q.children;
      assert r.children[..|p.children|] == q.children[..|p.children|];
      forall i | 0 <= i < |names|
        ensures IsFresh(r.children[|p.children| + i], names[i])
      {
        if i == 0 {
          assert r.children[|p.children|] == q.children[|p.children|];
        } else {
          assert names[1..][i - 1] == names[i];
        }
      }
    }
  }

  /** A hundred appends onto a fresh root: 100 children, each with its own name, in order. */
  lemma HundredAppends(names: seq<string>)
    requires |names| == 100
    ensures Create("root", true).Some?
    ensures var r := AppendAll(Create("root", true).value, names);
      && |r.children| == 100
      && CapacityOk(r)
      && forall i :: 0 <= i < 100 ==> r.children[i].name == TruncateName(names[i])
  {
    AppendAllKeepsOrder(Create("root", true).value, names);
  }

  // ---------------------------------------------------------------------
  // tree_sort_children: children in non-increasing size order.
  // ---------------------------------------------------------------------

  /** The size sequence of a run of siblings. */
  function Sizes(s: seq<DirNode>): (r: seq<nat>)
    ensures |r| == |s|
    ensures forall i :: 0 <= i < |s| ==> r[i] == s[i].size
  {
    seq(|s|, i requires 0 <= i < |s| => s[i].size)
  }

  /** The order cmp_size_desc asks qsort for. */
  predicate SortedBySizeDesc(s: seq<DirNode>)
  {
    forall i, j :: 0 <= i < j < |s| ==> s[i].size >= s[j].size
  }

  predicate NonIncreasing(s: seq<nat>)
  {
    forall i, j :: 0 <= i < j < |s| ==> s[i] >= s[j]
  }

  function Swap(s: seq<DirNode>, i: nat, j: nat): (r: seq<DirNode>)
    requires i < |s| && j < |s|
    ensures |r| == |s| && r[i] == s[j] && r[j] == s[i]
    ensures forall k :: 0 <= k < |s| && k != i && k != j ==> r[k] == s[k]
    ensures multiset(r) == multiset(s)
  {
    s[i := s[j]][j := s[i]]
  }

  /** Index of the first largest size in s[lo..hi], scanning left to right. */
  function MaxIndex(s: seq<DirNode>, lo: nat, hi: nat): (m: nat)
    requires lo < hi <= |s|
    ensures lo <= m < hi
    ensures forall k :: lo <= k < hi ==> s[k].size <= s[m].size
    ensures forall k :: lo <= k < m ==> s[k].size < s[m].size
    decreases hi - lo
  {
    if hi == lo + 1 then lo
    else
      var m := MaxIndex(s, lo, hi - 1);
      if s[hi - 1].size > s[m].size then hi - 1 else m
  }

  /** Selection sort from position i on, the sort the model uses in place of qsort. */
  function SelSortFrom(s: seq<DirNode>, i: nat): seq<DirNode>
    requires i <= |s|
    decreases |s| - i
  {
    if i + 1 >= |s| then s else SelSortFrom(Swap(s, i, MaxIndex(s, i, |s|)), i + 1)
  }

  lemma SelSortStep(s: seq<DirNode>, i: nat)
    requires i + 1 < |s|
    ensures SelSortFrom(s, i) == SelSortFrom(Swap(s, i, MaxIndex(s, i, |s|)), i + 1)
  {
  }

  lemma SelSortDone(s: seq<DirNode>, i: nat)
    requires i <= |s| && i + 1 >= |s|
    ensures SelSortFrom(s, i) == s
  {
  }

  lemma SelSortDoneOrStep(s: seq<DirNode>, i: nat)
    requires i <= |s|
    ensures i + 1 < |s| ==> SelSortFrom(s, i) == SelSortFrom(Swap(s, i, MaxIndex(s, i, |s|)), i + 1)
    ensures i + 1 >= |s| ==> SelSortFrom(s, i) == s
  {
  }

  function SortedChildren(s: seq<DirNode>): (r: seq<DirNode>)
    ensures |r| == |s|
  {
    SelSortFromPermutes(s, 0);
    SelSortFrom(s, 0)
  }

  lemma {:induction false} SelSortFromPermutes(s: seq<DirNode>, i: nat)
    requires i <= |s|
    ensures |SelSortFrom(s, i)| == |s|
    ensures multiset(SelSortFrom(s, i)) == multiset(s)
    decreases |s| - i
  {
    if i + 1 < |s| {
      var t := Swap(s, i, MaxIndex(s, i, |s|));
      SelSortStep(s, i);
      SelSortFromPermutes(t, i + 1);
    } else {
      SelSortDone(s, i);
    }
  }

  /** Moving the largest remaining child to position i extends the sorted prefix by one. */
  lemma SelectExtendsPrefix(s: seq<DirNode>, i: nat)
    requires i + 1 < |s|
    requires forall p, q :: 0 <= p < q < i ==> s[p].size >= s[q].size
    requires forall p, q :: 0 <= p < i <= q < |s| ==> s[p].size >= s[q].size
    ensures var t := Swap(s, i, MaxIndex(s, i, |s|));
      && (forall p, q :: 0 <= p < q < i + 1 ==> t[p].size >= t[q].size)
      && (forall p, q :: 0 <= p < i + 1 <= q < |t| ==> t[p].size >= t[q].size)
  {
    var t := Swap(s, i, MaxIndex(s, i, |s|));
    forall p, q | 0 <= p < i + 1 <= q < |t| ensures t[p].size >= t[q].size {
      if p < i {
        assert t[p] == s[p];
      }
    }
  }

  /** With a sorted prefix and nothing after it larger, one remaining child means all is sorted. */
  lemma LastPlaceSorted(s: seq<DirNode>, i: nat)
    requires i + 1 == |s|
    requires forall p, q :: 0 <= p < q < i ==> s[p].size >= s[q].size
    requires forall p, q :: 0 <= p < i <= q < |s| ==> s[p].size >= s[q].size
    ensures SortedBySizeDesc(s)
  {
    forall p, q | 0 <= p < q < |s| ensures s[p].size >= s[q].size {
      if q == i {
        assert p < i <= q;
      }
    }
  }

  lemma {:induction false} SelSortFromSorts(s: seq<DirNode>, i: nat)
    requires i <= |s|
    requires forall p, q :: 0 <= p < q < i ==> s[p].size >= s[q].size
    requires forall p, q :: 0 <= p < i <= q < |s| ==> s[p].size >= s[q].size
    ensures SortedBySizeDesc(SelSortFrom(s, i))
    decreases |s| - i
  {
    SelSortDoneOrStep(s, i);
    if i + 1 < |s| {
      SelectExtendsPrefix(s, i);
      SelSortFromSorts(Swap(s, i, MaxIndex(s, i, |s|)), i + 1);
    } else if i + 1 == |s| {
      LastPlaceSorted(s, i);
    }
  }

  /** The model's sort puts the children in non-increasing size order and keeps exactly the same children. */
  lemma SortedChildrenCorrect(s: seq<DirNode>)
    ensures |SortedChildren(s)| == |s|
    ensures multiset(SortedChildren(s)) == multiset(s)
    ensures SortedBySizeDesc(SortedChildren(s))
  {
    SelSortFromPermutes(s, 0);
    SelSortFromSorts(s, 0);
  }

  /** On already sorted siblings the selection sort swaps nothing. */
  lemma {:induction false} SelSortFromFixesSorted(s: seq<DirNode>, i: nat)
    requires i <= |s|
    requires SortedBySizeDesc(s)
    ensures SelSortFrom(s, i) == s
    decreases |s| - i
  {
    if i + 1 < |s| {
      MaxOfSortedIsFirst(s, i);
      StayingStep(s, i);
      SelSortFromFixesSorted(s, i + 1);
    } else {
      SelSortDone(s, i);
    }
  }

  /** When the largest remaining child already stands at i, the step swaps nothing. */
  lemma StayingStep(s: seq<DirNode>, i: nat)
    requires i + 1 < |s| && MaxIndex(s, i, |s|) == i
    ensures SelSortFrom(s, i) == SelSortFrom(s, i + 1)
  {
    SwapSelf(s, i);
    SelSortStep(s, i);
  }

  lemma MaxOfSortedIsFirst(s: seq<DirNode>, i: nat)
    requires i < |s| && SortedBySizeDesc(s)
    ensures MaxIndex(s, i, |s|) == i
  {
    var m := MaxIndex(s, i, |s|);
    assert s[i].size >= s[m].size;
  }

  lemma SwapSelf(s: seq<DirNode>, i: nat)
    requires i < |s|
    ensures Swap(s, i, i) == s
  {
  }

  /** Sorting twice gives exactly the order of sorting once (for the model's sort). */
  lemma SortIdempotent(s: seq<DirNode>)
    ensures SortedChildren(SortedChildren(s)) == SortedChildren(s)
  {
    SortedChildrenCorrect(s);
    SelSortFromFixesSorted(SortedChildren(s), 0);
  }

  lemma SizesSplit(a: seq<DirNode>, b: seq<DirNode>)
    ensures Sizes(a + b) == Sizes(a) + Sizes(b)
  {
  }

  lemma TailMultiset<T>(a: seq<T>)
    requires a != []
    ensures multiset(a[1..]) == multiset(a) - multiset{a[0]}
  {
    assert a == [a[0]] + a[1..];
  }

  lemma SizesOne(x: DirNode)
    ensures Sizes([x]) == [x.size]
  {
  }

  /** Taking one child out of the middle takes its size out of the sizes. */
  lemma SizesWithout(a: seq<DirNode>, x: DirNode, b: seq<DirNode>)
    ensures multiset(Sizes(a + [x] + b)) == multiset(Sizes(a + b)) + multiset{x.size}
  {
    SizesSplit(a + [x], b);
    SizesSplit(a, [x]);
    SizesSplit(a, b);
    SizesOne(x);
  }

  /** Dropping position j drops one copy of t[j], from the children and from their sizes. */
  lemma RemoveAt(t: seq<DirNode>, j: nat)
    requires j < |t|
    ensures multiset(t[..j] + t[j + 1..]) == multiset(t) - multiset{t[j]}
    ensures multiset(Sizes(t)) == multiset(Sizes(t[..j] + t[j + 1..])) + multiset{t[j].size}
  {
    var a, b := t[..j], t[j + 1..];
    assert t == a + [t[j]] + b;
    assert multiset(t) == multiset(a + b) + multiset{t[j]};
    SizesWithout(a, t[j], b);
  }

  /** Permuting siblings permutes their sizes. */
  lemma {:induction false} SizesOfPermutation(s: seq<DirNode>, t: seq<DirNode>)
    requires multiset(s) == multiset(t)
    ensures multiset(Sizes(s)) == multiset(Sizes(t))
    decreases |s|
  {
    if s == [] {
      assert |t| == |multiset(t)| == 0;
    } else {
      assert s[0] in multiset(t);
      var j :| 0 <= j < |t| && t[j] == s[0];
      var t' := t[..j] + t[j + 1..];
      RemoveAt(t, j);
      TailMultiset(s);
      SizesOfPermutation(s[1..], t');
      SizesCons(s);
    }
  }

  /** The sizes of a non-empty sequence: its head's size and the sizes of its tail. */
  lemma SizesCons(s: seq<DirNode>)
    requires s != []
    ensures multiset(Sizes(s)) == multiset(Sizes(s[1..])) + multiset{s[0].size}
  {
    SizesWithout([], s[0], s[1..]);
    assert [] + [s[0]] + s[1..] == s && [] + s[1..] == s[1..];
  }

  /** The first of a non-increasing sequence bounds every value it holds. */
  lemma HeadIsLargest(a: seq<nat>, x: nat)
    requires NonIncreasing(a) && x in multiset(a)
    ensures a != [] && x <= a[0]
  {
    var i :| 0 <= i < |a| && a[i] == x;
    assert i == 0 || a[0] >= a[i];
  }

  lemma NonIncreasingTail(a: seq<nat>)
    requires a != [] && NonIncreasing(a)
    ensures NonIncreasing(a[1..])
  {
    forall i, j | 0 <= i < j < |a[1..]| ensures a[1..][i] >= a[1..][j] {
      assert a[1..][i] == a[i + 1] && a[1..][j] == a[j + 1];
    }
  }

  /** Two non-empty non-increasing sequences holding the same values start alike and agree on the rest. */
  lemma SameHeads(a: seq<nat>, b: seq<nat>)
    requires a != [] && b != [] && NonIncreasing(a) && NonIncreasing(b)
    requires multiset(a) == multiset(b)
    ensures a[0] == b[0] && multiset(a[1..]) == multiset(b[1..])
  {
    assert a[0] in multiset(a) && b[0] in multiset(b);
    HeadIsLargest(b, a[0]);
    HeadIsLargest(a, b[0]);
    TailMultiset(a);
    TailMultiset(b);
  }

  /** Two non-increasing sequences holding the same values are equal. */
  lemma {:induction false} NonIncreasingUnique(a: seq<nat>, b: seq<nat>)
    requires NonIncreasing(a) && NonIncreasing(b)
    requires multiset(a) == multiset(b)
    ensures a == b
    decreases |a|
  {
    assert |a| == |multiset(a)| == |multiset(b)| == |b|;
    if a != [] {
      SameHeads(a, b);
      NonIncreasingTail(a);
      NonIncreasingTail(b);
      NonIncreasingUnique(a[1..], b[1..]);
      assert a == [a[0]] + a[1..] && b == [b[0]] + b[1..];
    }
  }

  /**
   * Whatever order a sort picks for equal sizes, any two size-descending
   * arrangements of the same children share one size sequence. In particular
   * sorting an already sorted buffer, qsort or not, keeps its size sequence.
   */
  lemma SortedArrangementsShareSizes(t: seq<DirNode>, u: seq<DirNode>)
    requires multiset(t) == multiset(u)
    requires SortedBySizeDesc(t) && SortedBySizeDesc(u)
    ensures Sizes(t) == Sizes(u)
  {
    SizesOfPermutation(t, u);
    NonIncreasingUnique(Sizes(t), Sizes(u));
  }

  /** The scan for the first largest child in a[i..], as selection sort's inner loop. */
  method MaxIndexFrom(a: array<DirNode>, i: nat) returns (m: nat)
    requires i < a.Length
    ensures m == MaxIndex(a[..], i, a.Length)
    ensures i <= m < a.Length && forall k :: i <= k < a.Length ==> a[k].size <= a[m].size
  {
    m := i;
    var j := i + 1;
    while j < a.Length
      invariant i < j <= a.Length
      invariant m == MaxIndex(a[..], i, j)
      decreases a.Length - j
    {
      if a[j].size > a[m].size {
        m := j;
      }
      j := j + 1;
    }
  }

  /** The in-place sort of the children buffer (the qsort call). */
  method SortChildrenInPlace(a: array<DirNode>)
    modifies a
    ensures a[..] == SortedChildren(old(a[..]))
  {
    var i := 0;
    while i + 1 < a.Length
      invariant 0 <= i <= a.Length
      invariant SelSortFrom(a[..], i) == SortedChildren(old(a[..]))
      decreases a.Length - i
    {
      var m := MaxIndexFrom(a, i);
      ghost var before := a[..];
      a[i], a[m] := a[m], a[i];
      assert a[..] == Swap(before, i, m);
      SelSortStep(before, i);
      i := i + 1;
    }
    SelSortDone(a[..], i);
  }

  /** tree_sort_children: sorts only this node's own children, and only when it has more than one. */
  method SortChildren(node: DirNode) returns (r: DirNode)
    ensures r == node.(children := SortedChildren(node.children))
    ensures SortedBySizeDesc(r.children) && multiset(r.children) == multiset(node.children)
  {
    SortedChildrenCorrect(node.children);
    if |node.children| > 1 {
      var buf := new DirNode[|node.children|](i requires 0 <= i < |node.children| => node.children[i]);
      assert buf[..] == node.children;
      SortChildrenInPlace(buf);
      r := node.(children := buf[..]);
    } else {
      r := node;
    }
  }

  /** Two children of sizes 100 and 9000, in that order, come out as [9000, 100]. */
  lemma SortTwoChildren()
    ensures var small := ZeroedNode("small").(size := 100);
      var big := ZeroedNode("big").(size := 9000);
      SortedChildren([small, big]) == [big, small]
  {
    var small := ZeroedNode("small").(size := 100);
    var big := ZeroedNode("big").(size := 9000);
    var s := [small, big];
    assert MaxIndex(s, 0, 1) == 0;
    assert MaxIndex(s, 0, 2) == 1;
    assert Swap(s, 0, 1) == [big, small];
    assert SelSortFrom([big, small], 1) == [big, small];
    assert SortedChildren(s) == SelSortFrom(Swap(s, 0, 1), 1);
  }

  // ---------------------------------------------------------------------
  // Sizes nest: no node is smaller than its children together
  // ---------------------------------------------------------------------

  /** The sizes of the children, added up. */
  function TotalSize(cs: seq<DirNode>): nat
  {
    if cs == [] then 0 else cs[0].size + TotalSize(cs[1..])
  }

  /** No node is smaller than its children together, at any depth. */
  predicate SizeNested(n: DirNode)
    decreases n
  {
    TotalSize(n.children) <= n.size && forall k :: 0 <= k < |n.children| ==> SizeNested(n.children[k])
  }

  /** Every display size is still zero, at any depth: nothing has been animated yet. */
  predicate Unanimated(n: DirNode)
    decreases n
  {
    n.displaySize == 0.0 && forall k :: 0 <= k < |n.children| ==> Unanimated(n.children[k])
  }

  /** The total of two runs of children is the sum of their totals. */
  lemma {:induction false} TotalSplit(a: seq<DirNode>, b: seq<DirNode>)
    ensures TotalSize(a + b) == TotalSize(a) + TotalSize(b)
    decreases |a|
  {
    if a == [] {
      assert a + b == b;
    } else {
      assert (a + b)[1..] == a[1..] + b;
      TotalSplit(a[1..], b);
    }
  }

  /** Taking out position j takes out exactly that child's size. */
  lemma TotalWithout(t: seq<DirNode>, j: nat)
    requires j < |t|
    ensures TotalSize(t) == t[j].size + TotalSize(t[..j] + t[j + 1..])
  {
    var a, b := t[..j], t[j + 1..];
    assert t == a + ([t[j]] + b);
    assert ([t[j]] + b)[1..] == b;
    TotalSplit(a, [t[j]] + b);
    TotalSplit(a, b);
  }

  /** Permuting siblings keeps their total size. */
  lemma {:induction false} TotalSizeOfPermutation(s: seq<DirNode>, t: seq<DirNode>)
    requires multiset(s) == multiset(t)
    ensures TotalSize(s) == TotalSize(t)
    decreases |s|
  {
    if s == [] {
      assert |t| == |multiset(t)| == 0;
    } else {
      assert s[0] in multiset(t);
      var j :| 0 <= j < |t| && t[j] == s[0];
      RemoveAt(t, j);
      TailMultiset(s);
      TotalSizeOfPermutation(s[1..], t[..j] + t[j + 1..]);
      TotalWithout(t, j);
    }
  }

  /** Appending one child adds exactly its size to the total. */
  lemma TotalAppend(a: seq<DirNode>, x: DirNode)
    ensures TotalSize(a + [x]) == TotalSize(a) + x.size
  {
    TotalSplit(a, [x]);
    assert [x][1..] == [];
  }

  /** A freshly zeroed node is nested and unanimated. */
  lemma FreshIsNested(n: DirNode, name: string)
    requires IsFresh(n, name)
    ensures SizeNested(n) && Unanimated(n)
  {
  }

  /**
   * Sorting a node's children, and setting its complete flag, keeps it
   * nested and unanimated: the sort only permutes the children.
   */
  lemma SortKeepsNested(n: DirNode, done: bool)
    requires SizeNested(n) && Unanimated(n)
    ensures var m := n.(children := SortedChildren(n.children), complete := done);
      SizeNested(m) && Unanimated(m)
  {
    var s := SortedChildren(n.children);
    SortedChildrenCorrect(n.children);
    TotalSizeOfPermutation(n.children, s);
    forall k | 0 <= k < |s|
      ensures SizeNested(s[k]) && Unanimated(s[k])
    {
      assert s[k] in multiset(n.children);
      var j :| 0 <= j < |n.children| && n.children[j] == s[k];
    }
  }
}
