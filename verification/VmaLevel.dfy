/** When a free (vma.c:225-289) leaves the tree of regions an AVL tree. */
module VmaLevel {
  import opened Seqs
  import opened AvlTree
  import opened AvlPath
  import opened AvlInsert
  import opened AvlNodes
  import opened AvlRemove
  import opened AvlErase
  import opened AvlLevel
  import opened AvlShape
  import opened Regions
  import opened VmaTree
  import opened VmaFree

  /** The tree absorbs the removal of the node at position `i`. */
  ghost predicate EraseStays(t: VmTree, i: int)
    requires 0 <= i < |InOrder(t)|
  {
    var (c, s) := FocusAt(Top, t, i);
    s.Branch? && StaysAvl(c, s)
  }

  lemma {:induction false} EraseBalance(t: VmTree, i: int)
    requires DepthsExact(t) && Balanced(t) && DistinctNodes(InOrder(t)) && 0 <= i < |InOrder(t)|
    requires EraseItem(t, InOrder(t)[i]).Removed?
    ensures Balanced(EraseItem(t, InOrder(t)[i]).tree) <==> EraseStays(t, i)
  {
    EraseIs(t, i);
    var (c, s) := FocusAt(Top, t, i);
    EntriesDistinct(InOrder(t));
    RemovalBalance(c, s, VmUpdate);
  }

  /** A store does not matter to it. */
  lemma {:induction false} StoreStays(t: VmTree, k: int, x: VmItem, i: int)
    requires DepthsExact(t) && 0 <= k < |InOrder(t)| && x.node == InOrder(t)[k].node && 0 <= i < |InOrder(t)|
    ensures EraseStays(Store(t, k, x), i) <==> EraseStays(t, i)
  {
    StoreShape(t, k, x);
    SameFocus(Top, t, Top, Store(t, k, x), i);
    FocusShape(Top, t, i);
    var ((c, s), (d, u)) := (FocusAt(Top, t, i), FocusAt(Top, Store(t, k, x), i));
    SameStaysAvl(c, s, d, u);
  }

  /** Both neighbours are free, and two nodes go. */
  ghost predicate TwoGo(t: VmTree, j: int) { FreeAt(RegionsOf(t), j - 1) && FreeAt(RegionsOf(t), j + 1) }

  /** The tree between the two removals. */
  ghost function Between(t: VmTree, j: int): Outcome<VmItem, nat>
    requires DepthsExact(t) && DistinctNodes(InOrder(t)) && 0 <= j < |InOrder(t)| && TwoGo(t, j)
  {
    var t1 := Store(t, j - 1, Keeper(InOrder(t), j));
    EraseItem(t1, InOrder(t1)[j + 1])
  }

  ghost predicate SecondStays(t: VmTree, j: int)
    requires DepthsExact(t) && DistinctNodes(InOrder(t)) && 0 <= j < |InOrder(t)| && TwoGo(t, j)
  {
    Between(t, j).Removed? && j < |InOrder(Between(t, j).tree)| && EraseStays(Between(t, j).tree, j)
  }

  /** The free of the region at position `j` leaves an AVL tree: the tree absorbs the one removal asked for, or
  both, one after the other. */
  ghost predicate ReleaseStays(t: VmTree, j: int)
    requires DepthsExact(t) && DistinctNodes(InOrder(t)) && 0 <= j < |InOrder(t)|
  {
    if TwoGo(t, j) then EraseStays(t, j + 1) && SecondStays(t, j)
    else if FreeAt(RegionsOf(t), j - 1) then EraseStays(t, j)
    else FreeAt(RegionsOf(t), j + 1) ==> EraseStays(t, j + 1)
  }

  lemma {:induction false} MergeNextBalance(t: VmTree, i: int, x: VmItem)
    requires DepthsExact(t) && Balanced(t) && DistinctNodes(InOrder(t))
    requires 0 <= i < |InOrder(t)| - 1 && x.node == InOrder(t)[i].node && MergeNext(t, i, x).Removed?
    ensures Balanced(MergeNext(t, i, x).tree) <==> EraseStays(t, i + 1)
  {
    SetAtKeeps(t, i, x);
    EraseBalance(Store(t, i, x), i + 1);
    StoreStays(t, i, x, i + 1);
  }

  /** The first of the two. */
  lemma {:induction false} BetweenBalance(t: VmTree, j: int)
    requires DepthsExact(t) && Balanced(t) && DistinctNodes(InOrder(t)) && 0 <= j < |InOrder(t)| && TwoGo(t, j)
    requires Between(t, j).Removed?
    ensures Balanced(Between(t, j).tree) <==> EraseStays(t, j + 1)
    ensures var u := Between(t, j).tree; DepthsExact(u) && DistinctNodes(InOrder(u)) && j < |InOrder(u)|
  {
    var x := Keeper(InOrder(t), j);
    var t1 := Store(t, j - 1, x);
    SetAtKeeps(t, j - 1, x);
    EraseAt(t1, j + 1);
    EraseBalance(t1, j + 1);
    StoreStays(t, j - 1, x, j + 1);
  }

  lemma {:induction false} MergeBothIs(t: VmTree, j: int)
    requires DepthsExact(t) && DistinctNodes(InOrder(t)) && 0 <= j < |InOrder(t)| && TwoGo(t, j)
    requires ReleaseTree(t, j).Removed?
    ensures Between(t, j).Removed?
    ensures var u := Between(t, j).tree;
      && DepthsExact(u) && DistinctNodes(InOrder(u)) && j < |InOrder(u)|
      && ReleaseTree(t, j) == EraseItem(u, InOrder(u)[j])
  {
    var x := Keeper(InOrder(t), j);
    var t1 := Store(t, j - 1, x);
    assert ReleaseTree(t, j) == MergeBoth(t, j - 1, x);
    EraseAt(t1, j + 1);
  }

  lemma {:induction false} TwoBalance(t: VmTree, j: int)
    requires DepthsExact(t) && Balanced(t) && DistinctNodes(InOrder(t)) && 0 <= j < |InOrder(t)| && TwoGo(t, j)
    requires ReleaseTree(t, j).Removed? && EraseStays(t, j + 1)
    ensures Balanced(ReleaseTree(t, j).tree) <==> SecondStays(t, j)
  {
    MergeBothIs(t, j);
    BetweenBalance(t, j);
    EraseBalance(Between(t, j).tree, j);
  }

  lemma {:induction false} OneBalance(t: VmTree, j: int)
    requires DepthsExact(t) && Balanced(t) && DistinctNodes(InOrder(t)) && 0 <= j < |InOrder(t)| && !TwoGo(t, j)
    requires ReleaseTree(t, j).Removed?
    ensures Balanced(ReleaseTree(t, j).tree) <==> ReleaseStays(t, j)
  {
    var d, x := RegionsOf(t), Keeper(InOrder(t), j);
    if FreeAt(d, j - 1) {
      MergeNextBalance(t, j - 1, x);
    } else if FreeAt(d, j + 1) {
      MergeNextBalance(t, j, x);
    } else {
      SetAtKeeps(t, j, x);
    }
  }

  /** What is known of the balance of `r`, the tree after the free: with one removal at most it is an AVL tree
  exactly when the tree before absorbs that; with two it is if the tree absorbs the first and what that leaves
  absorbs the second and, where the first is absorbed, only then. */
  ghost predicate LevelAfter(t: VmTree, j: int, r: VmTree)
    requires DepthsExact(t) && DistinctNodes(InOrder(t)) && 0 <= j < |InOrder(t)|
  {
    && (ReleaseStays(t, j) ==> Balanced(r))
    && (!TwoGo(t, j) || EraseStays(t, j + 1) ==> (Balanced(r) <==> ReleaseStays(t, j)))
  }

  lemma {:induction false} ReleaseBalance(t: VmTree, j: int)
    requires DepthsExact(t) && Balanced(t) && DistinctNodes(InOrder(t)) && 0 <= j < |InOrder(t)|
    requires ReleaseTree(t, j).Removed?
    ensures LevelAfter(t, j, ReleaseTree(t, j).tree)
  {
    if !TwoGo(t, j) {
      OneBalance(t, j);
    } else if EraseStays(t, j + 1) {
      TwoBalance(t, j);
    }
  }

  /** On an AVL tree, then: the free goes through exactly when `ReleaseFits` of the tree before, and so much is
  known of the balance of the tree after. */
  ghost predicate Foretold(t: VmTree, j: int, done: bool)
    requires DepthsExact(t) && DistinctNodes(InOrder(t)) && 0 <= j < |InOrder(t)|
  {
    Balanced(t) ==>
      && (done <==> ReleaseFits(t, j)) && (done <==> ReleaseTree(t, j).Removed?)
      && (done ==> LevelAfter(t, j, ReleaseTree(t, j).tree))
  }

  lemma {:induction false} Foretells(t: VmTree, j: int)
    requires DepthsExact(t) && DistinctNodes(InOrder(t)) && 0 <= j < |InOrder(t)|
    ensures Foretold(t, j, ReleaseTree(t, j).Removed?)
  {
    if Balanced(t) {
      ReleasedWhen(t, j);
      if ReleaseTree(t, j).Removed? { ReleaseBalance(t, j); }
    }
  }
}
