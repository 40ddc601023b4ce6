/** What `vma_free_memory_from_tree` (vma.c:225-289) does to the tree of regions. */
module VmaFree {
  import opened Seqs
  import opened AvlTree
  import opened AvlPath
  import opened AvlInsert
  import opened AvlNodes
  import opened AvlWalks
  import opened AvlRemove
  import opened AvlErase
  import opened AvlTwoChild
  import opened AvlPair
  import opened AvlShape
  import opened Regions
  import opened VmaTree

  /** `avl_remove` of the node holding entry `e`. */
  ghost function EraseItem(t: VmTree, e: VmItem): (r: Outcome<VmItem, nat>)
    requires DepthsExact(t) && e in InOrder(t)
    ensures r.Removed? ==> DepthsExact(r.tree)
  {
    var (c, s) := Locate(Top, t, e);
    Remove(c, s, VmUpdate)
  }

  lemma {:induction false} EntriesDistinct(s: seq<VmItem>)
    requires DistinctNodes(s)
    ensures Distinct(s)
  {
  }

  lemma {:induction false} DistinctWithoutOne(s: seq<VmItem>, i: int)
    requires DistinctNodes(s) && 0 <= i < |s|
    ensures DistinctNodes(Without(s, i))
  {
    var r := Without(s, i);
    forall a, b | 0 <= a < b < |r| ensures r[a].node != r[b].node {
      assert r[a] == s[if a < i then a else a + 1] && r[b] == s[if b < i then b else b + 1];
    }
  }

  /** With distinct nodes, an entry has one position. */
  lemma {:induction false} PosIs(t: VmTree, i: int)
    requires 0 <= i < |InOrder(t)| && DistinctNodes(InOrder(t))
    ensures InOrder(t)[i] in InOrder(t) && PosOf(t, InOrder(t)[i]) == i
  {
    assert InOrder(t)[PosOf(t, InOrder(t)[i])] == InOrder(t)[i];
  }

  ghost function Resized(e: VmItem, size: nat, kind: Kind): VmItem {
    Item(e.node, e.data.(size := size, kind := kind))
  }

  /** A store to one payload, with what it keeps. */
  ghost function Store(t: VmTree, j: int, x: VmItem): (r: VmTree)
    requires DepthsExact(t) && 0 <= j < |InOrder(t)| && x.node == InOrder(t)[j].node
    ensures DepthsExact(r) && InOrder(r) == InOrder(t)[j := x]
    ensures DistinctNodes(InOrder(t)) ==> DistinctNodes(InOrder(r))
  {
    SetAtKeeps(t, j, x);
    SetAt(t, j, x)
  }

  /** `avl_remove` of the entry at position `i` is the removal of the node in focus there. */
  lemma {:induction false} EraseIs(t: VmTree, i: int)
    requires DepthsExact(t) && DistinctNodes(InOrder(t)) && 0 <= i < |InOrder(t)|
    ensures var (c, s) := FocusAt(Top, t, i);
      && s.Branch? && s.entry == InOrder(t)[i] && Plug(c, s) == t
      && EraseItem(t, InOrder(t)[i]) == Remove(c, s, VmUpdate)
  {
    FocusShape(Top, t, i);
    var (c, s) := FocusAt(Top, t, i);
    EntriesDistinct(InOrder(t));
    LocateIs(c, s);
  }

  /** A removal that goes through takes out exactly the entry at its position. */
  lemma {:induction false} EraseAt(t: VmTree, i: int)
    requires DepthsExact(t) && DistinctNodes(InOrder(t)) && 0 <= i < |InOrder(t)|
    requires EraseItem(t, InOrder(t)[i]).Removed?
    ensures InOrder(EraseItem(t, InOrder(t)[i]).tree) == Without(InOrder(t), i)
    ensures DistinctNodes(InOrder(EraseItem(t, InOrder(t)[i]).tree))
  {
    EraseIs(t, i);
    var (c, s) := FocusAt(Top, t, i);
    FocusShape(Top, t, i);
    EntriesDistinct(InOrder(t));
    RemoveAtPlace(c, s, VmUpdate);
    DistinctWithoutOne(InOrder(t), i);
  }

  /** The entries with those from `a` to `b` replaced by `x`. */
  function Squeeze<E>(s: seq<E>, a: int, b: int, x: E): (r: seq<E>)
    requires 0 <= a < b <= |s|
  {
    s[..a] + [x] + s[b..]
  }

  lemma {:induction false} SqueezeTwo<E>(s: seq<E>, i: int, x: E)
    requires 0 <= i < |s| - 1
    ensures Without(s[i := x], i + 1) == Squeeze(s, i, i + 2, x)
  {
  }

  lemma {:induction false} SqueezeThree<E>(s: seq<E>, i: int, x: E)
    requires 0 <= i < |s| - 2
    ensures Without(Without(s[i := x], i + 2), i + 1) == Squeeze(s, i, i + 3, x)
  {
    var a := Without(s[i := x], i + 2);
    assert forall k :: 0 <= k < |a| ==> a[k] == if k == i then x else if k <= i + 1 then s[k] else s[k + 1];
  }

  /** Region `i` takes over region `i + 1` (cases 2 and 3). */
  ghost function MergeNext(t: VmTree, i: int, x: VmItem): (r: Outcome<VmItem, nat>)
    requires DepthsExact(t) && DistinctNodes(InOrder(t)) && 0 <= i < |InOrder(t)| - 1 && x.node == InOrder(t)[i].node
    ensures r.Removed? ==> DepthsExact(r.tree) && InOrder(r.tree) == Squeeze(InOrder(t), i, i + 2, x)
    ensures r.Removed? ==> DistinctNodes(InOrder(r.tree))
  {
    var t1 := Store(t, i, x);
    assert InOrder(t1)[i + 1] == InOrder(t)[i + 1];
    SqueezeTwo(InOrder(t), i, x);
    var o := EraseItem(t1, InOrder(t1)[i + 1]);
    if o.Removed? then EraseAt(t1, i + 1); o else o
  }

  /** Region `i` takes over regions `i + 1` and `i + 2`, the later one first (case 1). */
  ghost function MergeBoth(t: VmTree, i: int, x: VmItem): (r: Outcome<VmItem, nat>)
    requires DepthsExact(t) && DistinctNodes(InOrder(t)) && 0 <= i < |InOrder(t)| - 2 && x.node == InOrder(t)[i].node
    ensures r.Removed? ==> DepthsExact(r.tree) && InOrder(r.tree) == Squeeze(InOrder(t), i, i + 3, x)
  {
    var t1 := Store(t, i, x);
    SqueezeThree(InOrder(t), i, x);
    var o := EraseItem(t1, InOrder(t1)[i + 2]);
    if !o.Removed? then o
    else
      EraseAt(t1, i + 2);
      var o2 := EraseItem(o.tree, InOrder(o.tree)[i + 1]);
      if o2.Removed? then EraseAt(o.tree, i + 1); o2 else o2
  }

  /** The region the free ends up in. */
  ghost function Keeper(s: seq<VmItem>, j: int): (r: VmItem)
    requires 0 <= j < |s|
  {
    var d := Data(s);
    if FreeAt(d, j + 1) && FreeAt(d, j - 1) then
      Resized(s[j - 1], Wrap(d[j + 1].size + d[j - 1].size + d[j].size), Free)
    else if FreeAt(d, j - 1) then Resized(s[j - 1], Wrap(d[j - 1].size + d[j].size), Free)
    else if FreeAt(d, j + 1) then Resized(s[j], Wrap(d[j + 1].size + d[j].size), Free)
    else Resized(s[j], d[j].size, Free)
  }

  /** The entries left after freeing the region at position `j`. */
  ghost function Released(s: seq<VmItem>, j: int): (r: seq<VmItem>)
    requires 0 <= j < |s|
  {
    Squeeze(s, RunFrom(Data(s), j), RunTo(Data(s), j), Keeper(s, j))
  }

  /** What the free makes of the tree. */
  ghost function ReleaseTree(t: VmTree, j: int): (r: Outcome<VmItem, nat>)
    requires DepthsExact(t) && DistinctNodes(InOrder(t)) && 0 <= j < |InOrder(t)|
    ensures r.Removed? ==> DepthsExact(r.tree) && InOrder(r.tree) == Released(InOrder(t), j)
  {
    var s := InOrder(t);
    var (d, x) := (Data(s), Keeper(s, j));
    if FreeAt(d, j + 1) && FreeAt(d, j - 1) then MergeBoth(t, j - 1, x)
    else if FreeAt(d, j - 1) then MergeNext(t, j - 1, x)
    else if FreeAt(d, j + 1) then MergeNext(t, j, x)
    else assert s[j := x] == Squeeze(s, j, j + 1, x); Removed(Store(t, j, x))
  }

  /** The nodes that leave the tree, in the order they go back to the pool. */
  function Gone(s: seq<VmItem>, j: int): (r: seq<VmNode>)
    requires 0 <= j < |s|
  {
    var d := Data(s);
    (if FreeAt(d, j + 1) then [s[j + 1].node] else []) + (if FreeAt(d, j - 1) then [s[j].node] else [])
  }

  lemma {:induction false} GoneCount(s: seq<VmItem>, j: int)
    requires 0 <= j < |s| && DistinctNodes(s)
    ensures |Released(s, j)| + |Gone(s, j)| == |s|
    ensures forall i, k :: 0 <= i < k < |Gone(s, j)| ==> Gone(s, j)[i] != Gone(s, j)[k]
    ensures forall n :: n in Gone(s, j) ==> Occurs(s, n)
  {
  }

  /** The entries left describe exactly the coalesced list. */
  lemma {:induction false} ReleasedRegions(s: seq<VmItem>, j: int)
    requires 0 <= j < |s|
    ensures Data(Released(s, j)) == Release(Data(s), j)
  {
    ReleaseList(Data(s), j, Keeper(s, j).data);
    DataSqueeze(s, RunFrom(Data(s), j), RunTo(Data(s), j), Keeper(s, j));
  }

  lemma {:induction false} DataSqueeze(s: seq<VmItem>, a: int, b: int, x: VmItem)
    requires 0 <= a < b <= |s|
    ensures Data(Squeeze(s, a, b, x)) == Squeeze(Data(s), a, b, x.data)
  {
  }

  /** The coalesced list in terms of the region kept. */
  lemma {:induction false} ReleaseList(d: seq<Region>, j: int, m: Region)
    requires 0 <= j < |d|
    requires m.kind.Free? && m.flags == d[RunFrom(d, j)].flags && m.start == d[RunFrom(d, j)].start
    requires m.size == if FreeAt(d, j + 1) && FreeAt(d, j - 1) then Wrap(d[j + 1].size + d[j - 1].size + d[j].size)
                       else if FreeAt(d, j - 1) then Wrap(d[j - 1].size + d[j].size)
                       else if FreeAt(d, j + 1) then Wrap(d[j + 1].size + d[j].size)
                       else d[j].size
    ensures Release(d, j) == Squeeze(d, RunFrom(d, j), RunTo(d, j), m)
  {
    if FreeAt(d, j - 1) {
      assert m == d[j - 1].(size := m.size);
    } else if FreeAt(d, j + 1) {
      assert m == d[j].(size := m.size, kind := Free);
    } else {
      assert m == d[j].(kind := Free);
      assert d[j := m] == d[..j] + [m] + d[j + 1..];
    }
  }

  // ----- which frees go through -----

  /** The node at position `i` comes out of the tree: a condition on the tree's shape around it. */
  ghost predicate EraseFits(t: VmTree, i: int)
    requires 0 <= i < |InOrder(t)|
  {
    var (c, s) := FocusAt(Top, t, i);
    s.Branch? && Removable(c, s)
  }

  /** And so do the nodes at positions `i + 1` and then `i`. */
  ghost predicate EraseBothFits(t: VmTree, i: int)
    requires 0 <= i < |InOrder(t)| - 1
  {
    var (c, s) := FocusAt(Top, t, i);
    s.Branch? && if s.right.Branch? then RemovableAfter(c, s) else EraseFits(t, i + 1)
  }

  /** The free of the region at position `j` goes through. */
  ghost predicate ReleaseFits(t: VmTree, j: int)
    requires 0 <= j < |InOrder(t)|
  {
    var d := Data(InOrder(t));
    if FreeAt(d, j + 1) then (if FreeAt(d, j - 1) then EraseBothFits(t, j) else EraseFits(t, j + 1))
    else FreeAt(d, j - 1) ==> EraseFits(t, j)
  }

  lemma {:induction false} ErasedWhen(t: VmTree, i: int)
    requires DepthsExact(t) && Balanced(t) && DistinctNodes(InOrder(t)) && 0 <= i < |InOrder(t)|
    ensures EraseItem(t, InOrder(t)[i]).Removed? <==> EraseFits(t, i)
  {
    EraseIs(t, i);
    var (c, s) := FocusAt(Top, t, i);
    RemovedWhen(c, s, VmUpdate);
  }

  ghost predicate BothErased(t: VmTree, i: int)
    requires DepthsExact(t) && DistinctNodes(InOrder(t)) && 0 <= i < |InOrder(t)| - 1
  {
    var o := EraseItem(t, InOrder(t)[i + 1]);
    o.Removed? && InOrder(t)[i] in InOrder(o.tree) && EraseItem(o.tree, InOrder(t)[i]).Removed?
  }

  lemma {:induction false} BothErasedWhen(t: VmTree, i: int)
    requires DepthsExact(t) && Balanced(t) && DistinctNodes(InOrder(t)) && 0 <= i < |InOrder(t)| - 1
    ensures BothErased(t, i) <==> EraseBothFits(t, i)
  {
    EraseIs(t, i);
    EraseIs(t, i + 1);
    Adjacent(Top, t, i);
    EntriesDistinct(InOrder(t));
    var (c, s) := FocusAt(Top, t, i);
    var (e, n) := FocusAt(Top, t, i + 1);
    if s.right.Branch? {
      EraseEarlier(t, i, c, s, e, n);
    } else {
      RightmostIs(InLeft(e, n.entry, n.depth, n.aug, n.right), n.left);
      EraseLater(t, i, e, n);
    }
  }

  /** The later node hangs below the earlier one and always goes; whether the earlier one follows is told
  by the tree before. */
  lemma {:induction false} EraseEarlier(t: VmTree, i: int, c: Ctx<VmItem, nat>, s: VmTree, e: Ctx<VmItem, nat>,
      n: VmTree)
    requires DepthsExact(t) && Balanced(t) && DistinctNodes(InOrder(t)) && Distinct(InOrder(t)) &&
      0 <= i < |InOrder(t)| - 1
    requires s.Branch? && s.right.Branch? && Plug(c, s) == t && s.entry == InOrder(t)[i] && (e, n) == Victim(c, s)
    requires n.Branch? && Plug(e, n) == t && EraseItem(t, InOrder(t)[i + 1]) == Remove(e, n, VmUpdate)
    ensures BothErased(t, i) <==> RemovableAfter(c, s)
  {
    StillThere(c, s, VmUpdate);
    assert Remove(e, n, VmUpdate) == Removed(WithoutVictim(c, s, VmUpdate));
    RemovedAfter(c, s, VmUpdate);
  }

  /** The earlier node has no right child, so it goes whenever the later one does. */
  lemma {:induction false} EraseLater(t: VmTree, i: int, e: Ctx<VmItem, nat>, n: VmTree)
    requires DepthsExact(t) && Balanced(t) && DistinctNodes(InOrder(t)) && Distinct(InOrder(t)) &&
      0 <= i < |InOrder(t)| - 1
    requires n.Branch? && Plug(e, n) == t && n.left.Branch? && LastOf(n.left).entry == InOrder(t)[i]
    requires EraseItem(t, InOrder(t)[i + 1]) == Remove(e, n, VmUpdate)
    ensures BothErased(t, i) <==> Removable(e, n)
  {
    RemovedWhen(e, n, VmUpdate);
    if Removable(e, n) {
      EraseAt(t, i + 1);
      EntriesDistinct(InOrder(Remove(e, n, VmUpdate).tree));
      var d, s := PreviousNext(e, n, VmUpdate);
      LocateIs(d, s);
    }
  }

  /** A store changes none of these conditions. */
  lemma {:induction false} StoreFits(t: VmTree, k: int, x: VmItem, i: int)
    requires DepthsExact(t) && 0 <= k < |InOrder(t)| && x.node == InOrder(t)[k].node && 0 <= i < |InOrder(t)|
    ensures EraseFits(Store(t, k, x), i) <==> EraseFits(t, i)
  {
    StoreShape(t, k, x);
    SameFocus(Top, t, Top, Store(t, k, x), i);
    FocusShape(Top, t, i);
    var ((c, s), (d, u)) := (FocusAt(Top, t, i), FocusAt(Top, Store(t, k, x), i));
    SameRemovable(c, s, d, u);
  }

  lemma {:induction false} StoreBothFits(t: VmTree, k: int, x: VmItem, i: int)
    requires DepthsExact(t) && 0 <= k < |InOrder(t)| && x.node == InOrder(t)[k].node && 0 <= i < |InOrder(t)| - 1
    ensures EraseBothFits(Store(t, k, x), i) <==> EraseBothFits(t, i)
  {
    StoreShape(t, k, x);
    SameFocus(Top, t, Top, Store(t, k, x), i);
    FocusShape(Top, t, i);
    var ((c, s), (d, u)) := (FocusAt(Top, t, i), FocusAt(Top, Store(t, k, x), i));
    SameRemovable(c, s, d, u);
    StoreFits(t, k, x, i + 1);
  }

  lemma {:induction false} MergeNextWhen(t: VmTree, i: int, x: VmItem)
    requires DepthsExact(t) && Balanced(t) && DistinctNodes(InOrder(t))
    requires 0 <= i < |InOrder(t)| - 1 && x.node == InOrder(t)[i].node
    ensures MergeNext(t, i, x).Removed? <==> EraseFits(t, i + 1)
  {
    SetAtKeeps(t, i, x);
    ErasedWhen(Store(t, i, x), i + 1);
    StoreFits(t, i, x, i + 1);
  }

  lemma {:induction false} MergeBothWhen(t: VmTree, i: int, x: VmItem)
    requires DepthsExact(t) && Balanced(t) && DistinctNodes(InOrder(t))
    requires 0 <= i < |InOrder(t)| - 2 && x.node == InOrder(t)[i].node
    ensures MergeBoth(t, i, x).Removed? <==> EraseBothFits(t, i + 1)
  {
    var t1 := Store(t, i, x);
    SetAtKeeps(t, i, x);
    BothErasedWhen(t1, i + 1);
    StoreBothFits(t, i, x, i + 1);
    MergeBothErases(t, i, x);
  }

  lemma {:induction false} MergeBothErases(t: VmTree, i: int, x: VmItem)
    requires DepthsExact(t) && DistinctNodes(InOrder(t)) && 0 <= i < |InOrder(t)| - 2 && x.node == InOrder(t)[i].node
    ensures MergeBoth(t, i, x).Removed? <==> BothErased(Store(t, i, x), i + 1)
  {
    var t1 := Store(t, i, x);
    var o := EraseItem(t1, InOrder(t1)[i + 2]);
    if o.Removed? {
      EraseAt(t1, i + 2);
      assert InOrder(o.tree)[i + 1] == InOrder(t1)[i + 1];
    }
  }

  /** Freeing a region of a balanced tree goes through exactly when the tree before the call allows the
  removals its neighbours ask for. */
  lemma {:induction false} ReleasedWhen(t: VmTree, j: int)
    requires DepthsExact(t) && Balanced(t) && DistinctNodes(InOrder(t)) && 0 <= j < |InOrder(t)|
    ensures ReleaseTree(t, j).Removed? <==> ReleaseFits(t, j)
  {
    var s := InOrder(t);
    var d, x := Data(s), Keeper(s, j);
    if FreeAt(d, j + 1) && FreeAt(d, j - 1) {
      MergeBothWhen(t, j - 1, x);
    } else if FreeAt(d, j - 1) {
      MergeNextWhen(t, j - 1, x);
    } else if FreeAt(d, j + 1) {
      MergeNextWhen(t, j, x);
    }
  }

  /** Three regions of 4 KiB with the free one, at the root, between two used ones. */
  function ThreeRegions(a: VmNode, b: VmNode, c: VmNode): VmTree {
    Branch(Single(Item(a, Region(0, 4096, Regular, 0)), 0),
           Item(b, Region(4096, 4096, Free, 0)), 1, 4096,
           Single(Item(c, Region(8192, 4096, Regular, 0)), 0))
  }

  /** Freeing the first removes the root, whose right subtree is a single node: the code dereferences NULL. */
  lemma {:induction false} FreeFaults(a: VmNode, b: VmNode, c: VmNode)
    requires Distinct([a, b, c])
    ensures var t := ThreeRegions(a, b, c);
      && AugExact(t, VmUpdate) && DepthsExact(t) && Balanced(t) && |InOrder(t)| == 3 && DistinctNodes(InOrder(t))
      && Tiles(RegionsOf(t), 0, 12288) && Coalesced(RegionsOf(t))
      && !ReleaseFits(t, 0) && !ReleaseTree(t, 0).Removed?
  {
    var t := ThreeRegions(a, b, c);
    var l, r := t.left, t.right;
    OneEntry(l);
    OneEntry(r);
    assert InOrder(t) == [l.entry, t.entry, r.entry];
    assert [a, b, c][0] == a && [a, b, c][1] == b && [a, b, c][2] == c;
    assert FocusAt(Top, t, 1) == (Top, t);
    ReleasedWhen(t, 0);
  }
}
