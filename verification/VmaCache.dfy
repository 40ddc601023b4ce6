/** Where the cached `subtree_max_free_slot` survives, and where it does not. Splits keep it
(`VmaTree.SplitKeepsCache`); exact fits and frees store to a region without updating its node. */
module VmaCache {
  import opened Seqs
  import opened AvlTree
  import opened AvlPath
  import opened AvlInsert
  import opened AvlNodes
  import opened AvlWalks
  import opened AvlRemove
  import opened AvlErase
  import opened AvlBalance
  import opened AvlTwoChild
  import opened AvlPair
  import opened AvlStale
  import opened AvlStalePair
  import opened AvlShape
  import opened Regions
  import opened VmaTree
  import opened VmaFree

  /** The subtree whose root is at in-order position `j`. */
  function SubAt<E, A>(t: Tree<E, A>, j: int): (r: Tree<E, A>)
    requires 0 <= j < |InOrder(t)|
    ensures r.Branch? && r.entry == InOrder(t)[j]
  {
    var n := |InOrder(t.left)|;
    if j < n then SubAt(t.left, j) else if j == n then t else SubAt(t.right, j - n - 1)
  }

  /** After a bare store to one entry the caches are exact precisely if that node's own cache still
  is: no other node's equation mentions the entry. */
  lemma {:induction false} StoreCache<E, A>(t: Tree<E, A>, j: int, x: E, upd: Update<E, A>)
    requires AugExact(t, upd) && 0 <= j < |InOrder(t)|
    ensures AugOf(SetAt(t, j, x)) == AugOf(t)
    ensures AugExact(SetAt(t, j, x), upd) <==>
            SubAt(t, j).aug == upd(x, AugOf(SubAt(t, j).left), AugOf(SubAt(t, j).right))
  {
    var n := |InOrder(t.left)|;
    if j < n {
      StoreCache(t.left, j, x, upd);
    } else if j > n {
      StoreCache(t.right, j - n - 1, x, upd);
    }
  }

  /** The largest free size strictly below the node at position `j`. */
  function MaxBelow(t: VmTree, j: int): nat
    requires 0 <= j < |InOrder(t)|
  {
    NatMax(MaxFree(InOrder(SubAt(t, j).left)), MaxFree(InOrder(SubAt(t, j).right)))
  }

  lemma {:induction false} SubAtExact<E, A>(t: Tree<E, A>, j: int, upd: Update<E, A>)
    requires AugExact(t, upd) && 0 <= j < |InOrder(t)|
    ensures AugExact(SubAt(t, j), upd)
  {
    var n := |InOrder(t.left)|;
    if j < n { SubAtExact(t.left, j, upd); } else if j > n { SubAtExact(t.right, j - n - 1, upd); }
  }

  /** An exact fit (lines 144-148) leaves the cache exact if and only if the region taken was not the
  only one of its size in its own subtree. */
  lemma {:induction false} ExactFitCache(t: VmTree, j: int, kind: Kind, flags: nat)
    requires AugExact(t, VmUpdate) && 0 <= j < |InOrder(t)| && !kind.Free?
    requires InOrder(t)[j].data.kind.Free?
    ensures AugExact(TakeTree(t, j, InOrder(t)[j].data.size, kind, flags), VmUpdate) <==>
            InOrder(t)[j].data.size <= MaxBelow(t, j)
  {
    StoreCache(t, j, TakenItem(t, j, InOrder(t)[j].data.size, kind, flags), VmUpdate);
    SubAtExact(t, j, VmUpdate);
    CacheIsMaxFree(SubAt(t, j).left);
    CacheIsMaxFree(SubAt(t, j).right);
  }

  /** A free that merges nothing (line 288) leaves the cache exact if and only if a region at least as
  large was already free below the node. */
  lemma {:induction false} MarkFreeCache(t: VmTree, j: int)
    requires AugExact(t, VmUpdate) && 0 <= j < |InOrder(t)| && !InOrder(t)[j].data.kind.Free?
    ensures var e := InOrder(t)[j];
      AugExact(SetAt(t, j, Item(e.node, e.data.(kind := Free))), VmUpdate) <==> e.data.size <= MaxBelow(t, j)
  {
    var e := InOrder(t)[j];
    StoreCache(t, j, Item(e.node, e.data.(kind := Free)), VmUpdate);
    SubAtExact(t, j, VmUpdate);
    CacheIsMaxFree(SubAt(t, j).left);
    CacheIsMaxFree(SubAt(t, j).right);
  }

  /** Three regions: 4 KiB free, 4 KiB used, 8 KiB free. */
  function SmallTree(a: VmNode, b: VmNode, c: VmNode): VmTree {
    Branch(Single(Item(a, Region(0, 4096, Free, 0)), 4096),
           Item(b, Region(4096, 4096, Regular, 0)), 1, 8192,
           Single(Item(c, Region(8192, 8192, Free, 0)), 8192))
  }

  /** With a stale cache the worst-fit search can miss free memory: once the 8 KiB are taken by an
  exact fit, the search answers NULL although 4 KiB are free. */
  lemma {:induction false} StaleCacheMisses(a: VmNode, b: VmNode, c: VmNode)
    ensures var t := SmallTree(a, b, c);
      && AugExact(t, VmUpdate) && DepthsExact(t) && Balanced(t)
      && RegionsOf(t) == [Region(0, 4096, Free, 0), Region(4096, 4096, Regular, 0), Region(8192, 8192, Free, 0)]
      && |InOrder(t)| == 3
      && RegionsOf(TakeTree(t, 2, 8192, Regular, 0))[0].kind.Free?
      && Search(TakeTree(t, 2, 8192, Regular, 0), ProbeWorst).Leaf?
  {
    var t := SmallTree(a, b, c);
    var (l, r) := (t.left, t.right);
    OneEntry(l);
    OneEntry(r);
    assert InOrder(t) == [l.entry, t.entry, r.entry];
    assert AugExact(l, VmUpdate) && AugExact(r, VmUpdate);
    var taken := Item(c, Region(8192, 8192, Regular, 0));
    assert SetAt(r, 0, taken) == r.(entry := taken);
    var u := TakeTree(t, 2, 8192, Regular, 0);
    assert u == t.(right := r.(entry := taken));
    SetAtKeeps(t, 2, taken);
    assert Search(u.right, ProbeWorst) == Search(u.right.right, ProbeWorst);
  }

  // ----- merging frees -----

  lemma {:induction false} SubAtFocus<E, A>(c: Ctx<E, A>, t: Tree<E, A>, k: int)
    requires 0 <= k < |InOrder(t)|
    ensures FocusAt(c, t, k).1 == SubAt(t, k)
    decreases t
  {
    var n := |InOrder(t.left)|;
    if k < n {
      SubAtFocus(InLeft(c, t.entry, t.depth, t.aug, t.right), t.left, k);
    } else if k > n {
      SubAtFocus(InRight(c, t.left, t.entry, t.depth, t.aug), t.right, k - n - 1);
    }
  }

  /** A bare store leaves at most its own node stale. */
  lemma {:induction false} StoreSave<E, A>(t: Tree<E, A>, j: int, x: E, upd: Update<E, A>)
    requires AugExact(t, upd) && 0 <= j < |InOrder(t)|
    ensures AugOf(SetAt(t, j, x)) == AugOf(t) && ExactSave(SetAt(t, j, x), Some(x), upd)
  {
    var n := |InOrder(t.left)|;
    SaveMore(t.left, Some(x), upd);
    SaveMore(t.right, Some(x), upd);
    if j < n { StoreSave(t.left, j, x, upd); } else if j > n { StoreSave(t.right, j - n - 1, x, upd); }
  }

  /** The largest free size in the subtree of the node at position `j`, itself included. */
  function MaxAt(t: VmTree, j: int): nat
    requires 0 <= j < |InOrder(t)|
  {
    MaxFree(InOrder(SubAt(t, j)))
  }

  /** `x` is the region at position `i`, free now and no smaller than it was as a free one. */
  predicate Grows(t: VmTree, i: int, x: VmItem)
    requires 0 <= i < |InOrder(t)|
  {
    x.node == InOrder(t)[i].node && x.data.kind.Free? && FreeSize(InOrder(t)[i].data) <= x.data.size
  }

  lemma {:induction false} GrowCache(t: VmTree, i: int, x: VmItem)
    requires AugExact(t, VmUpdate) && 0 <= i < |InOrder(t)| && Grows(t, i, x)
    ensures AugExact(SetAt(t, i, x), VmUpdate) <==> x.data.size <= MaxAt(t, i)
  {
    StoreCache(t, i, x, VmUpdate);
    SubAtExact(t, i, VmUpdate);
    CacheIsMaxFree(SubAt(t, i));
  }

  lemma {:induction false} SameRenewals(t: VmTree, i: int, x: VmItem)
    requires DepthsExact(t) && 0 <= i < |InOrder(t)| - 1 && x.node == InOrder(t)[i].node
    ensures var (u, p) := (Store(t, i, x), (FocusAt(Top, Store(t, i, x), i).1, FocusAt(Top, Store(t, i, x), i + 1).1));
      && p.0.Branch? && p.1.Branch?
      && Renewing(p.0, p.1) == Renewing(SubAt(t, i), SubAt(t, i + 1))
      && PairRenewing(p.0, p.1) == PairRenewing(SubAt(t, i), SubAt(t, i + 1))
  {
    var u := Store(t, i, x);
    StoreShape(t, i, x);
    SameFocus(Top, t, Top, u, i);
    SameFocus(Top, t, Top, u, i + 1);
    SubAtFocus(Top, t, i);
    SubAtFocus(Top, t, i + 1);
    SameRenewing(SubAt(t, i), SubAt(t, i + 1), FocusAt(Top, u, i).1, FocusAt(Top, u, i + 1).1);
  }

  /** A free that takes over one neighbour (cases 2 and 3) leaves the cache exact if and only if the merged
  region is no larger than what its node's subtree already offered, or the removal of the neighbour computes
  that node anew: the neighbour hangs below it, or a rotation turns it. */
  lemma {:induction false} MergeNextCache(t: VmTree, i: int, x: VmItem)
    requires DepthsExact(t) && Balanced(t) && DistinctNodes(InOrder(t)) && AugExact(t, VmUpdate)
    requires 0 <= i < |InOrder(t)| - 1 && Grows(t, i, x) && MergeNext(t, i, x).Removed?
    ensures AugExact(MergeNext(t, i, x).tree, VmUpdate) <==>
            x.data.size <= MaxAt(t, i) || Renewing(SubAt(t, i), SubAt(t, i + 1))
  {
    var u := Store(t, i, x);
    SetAtKeeps(t, i, x);
    GrowCache(t, i, x);
    StoreSave(t, i, x, VmUpdate);
    EraseIs(u, i + 1);
    NextCache(u, i, VmUpdate);
    SameRenewals(t, i, x);
  }

  /** And one that takes over both (case 1). */
  lemma {:induction false} MergeBothCache(t: VmTree, i: int, x: VmItem)
    requires DepthsExact(t) && Balanced(t) && DistinctNodes(InOrder(t)) && AugExact(t, VmUpdate)
    requires 0 <= i < |InOrder(t)| - 2 && Grows(t, i, x) && MergeBoth(t, i, x).Removed?
    ensures AugExact(MergeBoth(t, i, x).tree, VmUpdate) <==>
            x.data.size <= MaxAt(t, i) || PairRenewing(SubAt(t, i), SubAt(t, i + 1))
  {
    var u := Store(t, i, x);
    SetAtKeeps(t, i, x);
    GrowCache(t, i, x);
    StoreSave(t, i, x, VmUpdate);
    EraseIs(u, i + 2);
    EraseAt(u, i + 2);
    var t1 := EraseItem(u, InOrder(u)[i + 2]).tree;
    assert InOrder(t1)[i + 1] == InOrder(u)[i + 1];
    PairCache(u, i, VmUpdate, t1, MergeBoth(t, i, x).tree);
    SameRenewals(t, i, x);
  }

  /** The removals a free asks for compute the node of the region it ends up in anew. */
  ghost predicate ReleaseRenews(t: VmTree, j: int)
    requires 0 <= j < |InOrder(t)|
  {
    var d := RegionsOf(t);
    if FreeAt(d, j - 1) then
      if FreeAt(d, j + 1) then PairRenewing(SubAt(t, j - 1), SubAt(t, j)) else Renewing(SubAt(t, j - 1), SubAt(t, j))
    else FreeAt(d, j + 1) && Renewing(SubAt(t, j), SubAt(t, j + 1))
  }

  /** Whichever of the four cases it is: a free that goes through keeps the cached maximum exact if and only
  if the region it ends up in is no larger than the largest free one its node's subtree had, or its node is
  computed anew. */
  lemma {:induction false} ReleaseCache(t: VmTree, j: int, lo: nat, hi: nat)
    requires DepthsExact(t) && Balanced(t) && DistinctNodes(InOrder(t)) && AugExact(t, VmUpdate)
    requires Tiles(RegionsOf(t), lo, hi) && hi < WORD && 0 <= j < |InOrder(t)| && !InOrder(t)[j].data.kind.Free?
    requires ReleaseTree(t, j).Removed?
    ensures AugExact(ReleaseTree(t, j).tree, VmUpdate) <==>
            Keeper(InOrder(t), j).data.size <= MaxAt(t, RunFrom(RegionsOf(t), j)) || ReleaseRenews(t, j)
  {
    var d, x := RegionsOf(t), Keeper(InOrder(t), j);
    KeeperGrows(t, j, lo, hi);
    if FreeAt(d, j + 1) && FreeAt(d, j - 1) {
      MergeBothCache(t, j - 1, x);
    } else if FreeAt(d, j - 1) {
      MergeNextCache(t, j - 1, x);
    } else if FreeAt(d, j + 1) {
      MergeNextCache(t, j, x);
    } else {
      GrowCache(t, j, x);
    }
  }

  lemma {:induction false} KeeperGrows(t: VmTree, j: int, lo: nat, hi: nat)
    requires Tiles(RegionsOf(t), lo, hi) && hi < WORD && 0 <= j < |InOrder(t)| && !InOrder(t)[j].data.kind.Free?
    ensures Grows(t, RunFrom(RegionsOf(t), j), Keeper(InOrder(t), j))
  {
    var d := RegionsOf(t);
    MergedSpan(d, j, lo, hi);
    TilesUpTo(d, lo, hi, RunTo(d, j) - 1);
    KeeperMerged(InOrder(t), j);
  }

  lemma {:induction false} KeeperMerged(s: seq<VmItem>, j: int)
    requires 0 <= j < |s| && Merged(Data(s), j).size < WORD
    ensures var i := RunFrom(Data(s), j);
      && Keeper(s, j).node == s[i].node && Keeper(s, j).data.kind.Free?
      && Keeper(s, j).data.size == Merged(Data(s), j).size && FreeSize(s[i].data) <= Merged(Data(s), j).size
  {
  }

  /** Four regions of 4 KiB, of which only the second is free. */
  function FourRegions(a: VmNode, b: VmNode, c: VmNode, d: VmNode): VmTree {
    Branch(Single(Item(a, Region(0, 4096, Regular, 0)), 0),
           Item(b, Region(4096, 4096, Free, 0)), 2, 4096,
           Branch(Leaf, Item(c, Region(8192, 4096, Regular, 0)), 1, 0,
             Single(Item(d, Region(12288, 4096, Regular, 0)), 0)))
  }

  lemma {:induction false} FourRegionsFit(a: VmNode, b: VmNode, c: VmNode, d: VmNode)
    requires Distinct([a, b, c, d])
    ensures var t := FourRegions(a, b, c, d);
      && AugExact(t, VmUpdate) && DepthsExact(t) && Balanced(t) && |InOrder(t)| == 4 && DistinctNodes(InOrder(t))
      && Tiles(RegionsOf(t), 0, 16384) && Coalesced(RegionsOf(t))
      && InOrder(t) == [t.left.entry, t.entry, t.right.entry, t.right.right.entry]
  {
    var t := FourRegions(a, b, c, d);
    var l, r, q := t.left, t.right, t.right.right;
    OneEntry(l);
    OneEntry(q);
    assert InOrder(r) == [] + [r.entry] + [q.entry];
    assert InOrder(t) == [l.entry, t.entry, r.entry, q.entry];
    assert [a, b, c, d][0] == a && [a, b, c, d][1] == b && [a, b, c, d][2] == c && [a, b, c, d][3] == d;
    assert Height(q) == 0 && Height(r) == 1 && Height(l) == 0;
    assert AugExact(q, VmUpdate) && AugExact(r, VmUpdate) && AugExact(l, VmUpdate);
  }

  /** Freeing the first of them takes over the second, which is the root, and leaves 8 KiB free that the
  worst-fit search does not find. */
  lemma {:induction false} MergedCacheMisses(a: VmNode, b: VmNode, c: VmNode, d: VmNode)
    requires Distinct([a, b, c, d])
    ensures var t := FourRegions(a, b, c, d);
      && AugExact(t, VmUpdate) && DepthsExact(t) && Balanced(t) && |InOrder(t)| == 4 && DistinctNodes(InOrder(t))
      && Tiles(RegionsOf(t), 0, 16384) && Coalesced(RegionsOf(t)) && ReleaseTree(t, 0).Removed?
      && var u := ReleaseTree(t, 0).tree;
         !AugExact(u, VmUpdate) && RegionsOf(u)[0] == Region(0, 8192, Free, 0) && Search(u, ProbeWorst).Leaf?
  {
    var t := FourRegions(a, b, c, d);
    FourRegionsFit(a, b, c, d);
    var x := Item(a, Region(0, 8192, Free, 0));
    assert Keeper(InOrder(t), 0) == x;
    var s := t.(left := t.left.(entry := x));
    OneEntry(t.left);
    assert SetAt(t.left, 0, x) == t.left.(entry := x);
    assert Store(t, 0, x) == s;
    EraseIs(s, 1);
    assert FocusAt(Top, s, 1) == (Top, s);
    RootReplaced(s);
    var u := Make(s.left, s.right.entry, s.right.right, VmUpdate);
    assert ReleaseTree(t, 0) == Removed(u);
    assert Search(u, ProbeWorst) == Search(u.left, ProbeWorst) == Search(u.left.right, ProbeWorst);
    assert !AugExact(u.left, VmUpdate);
  }

  /** Removing a root with a lone left child and a right child without a left one. */
  lemma {:induction false} RootReplaced(s: VmTree)
    requires s.Branch? && s.left.Branch? && s.right.Branch? && s.right.left.Leaf? && Alone(s.left) &&
      Alone(s.right.right)
    requires DepthsExact(s) && Distinct(InOrder(s))
    ensures Remove(Top, s, VmUpdate) == Removed(Make(s.left, s.right.entry, s.right.right, VmUpdate))
  {
    var v, q := s.right, s.right.right;
    var r := s.(right := q);
    assert DropMin(s.right, VmUpdate) == q;
    WithoutVictimIs(Top, s, VmUpdate);
    AloneHeight(s.left);
    AloneHeight(q);
    RefreshOnly(r, VmUpdate);
    var u := Settle(r, VmUpdate);
    RefocusIs(Top, s, VmUpdate, Top, u);
    RefreshOnly(Impersonate(u, v), VmUpdate);
  }
}
