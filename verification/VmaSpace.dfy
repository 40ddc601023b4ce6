/** One `avl_tree_t` of regions, and the parts of `memory/vma.c` that work on a single tree. */
module VmaSpace {
  import opened AvlTree
  import opened AvlPath
  import opened AvlInsert
  import opened AvlNodes
  import opened AvlWalks
  import opened AvlErase
  import opened Regions
  import opened VmaTree
  import opened VmaFree

  lemma {:induction false} ItemIn<D, A>(t: Shape<D, A>, p: Node?<D, A>, par: Node?<D, A>, x: Node<D, A>)
    requires Rep(t, p, par) && x in Nodes(t)
    ensures Item(x, x.data) in InOrder(t)
  {
    if x in Nodes(t.left) {
      ItemIn(t.left, p.left, p, x);
    } else if x in Nodes(t.right) {
      ItemIn(t.right, p.right, p, x);
    } else {
      assert InOrder(t)[|InOrder(t.left)|] == t.entry;
    }
  }

  /** Each entry of a well-linked tree says what its node holds. */
  lemma {:induction false} RepData<D, A>(t: Shape<D, A>, p: Node?<D, A>, par: Node?<D, A>, e: Item<D, A>)
    requires Rep(t, p, par) && e in InOrder(t)
    ensures e.node in Nodes(t) && e.node.data == e.data
  {
    if e in InOrder(t.left) {
      RepData(t.left, p.left, p, e);
    } else if e in InOrder(t.right) {
      RepData(t.right, p.right, p, e);
    }
  }

  class Space {
    var root: VmLink
    ghost var shape: VmTree
    ghost const lo: nat  // the window the tree is meant to tile
    ghost const hi: nat

    ghost predicate Valid()
      reads this, Nodes(shape)
    {
      Rep(shape, root, null) && DepthsExact(shape)
    }

    /** A tree of one node, as `vma_init` sets it up (lines 85-88, 96-98). */
    constructor (n: VmNode, lo: nat, hi: nat)
      requires n.Unlinked() && n.parent == null
      ensures Valid() && shape == Single(Item(n, n.data), n.aug) && this.lo == lo && this.hi == hi
    {
      root := n;
      shape := Single(Item(n, n.data), n.aug);
      this.lo, this.hi := lo, hi;
    }

    /** Line 135: the worst-fit search. */
    function FindWorst(): (x: VmLink)
      requires Valid()
      reads this, Nodes(shape)
      ensures x == RootOf(Search(shape, ProbeWorst))
      ensures x != null ==> x in Nodes(shape) && Item(x, x.data) == Search(shape, ProbeWorst).entry
    {
      FoundNode(ProbeWorst);
      GetNode(root, ProbeWorst, shape, null)
    }

    lemma FoundNode(probe: Probe<VmItem, nat>)
      requires Valid()
      ensures var r := Search(shape, probe);
        r.Branch? ==> r.entry.node in Nodes(shape) && r.entry == Item(r.entry.node, r.entry.node.data)
    {
      SearchNode(shape, root, null, probe);
    }

    /** Lines 145-147: the region is exactly the right size. */
    method TakeWhole(x: VmNode, kind: Kind, flags: nat)
      requires Valid() && x in Nodes(shape)
      modifies this, x`data
      ensures old(Item(x, x.data) in InOrder(shape))
      ensures shape == old(TakeTree(shape, PosOf(shape, Item(x, x.data)), x.data.size, kind, flags))
      ensures Valid() && Nodes(shape) == old(Nodes(shape)) && x.data == old(x.data).(kind := kind, flags := flags)
    {
      ItemIn(shape, root, null, x);
      ghost var j := PosOf(shape, Item(x, x.data));
      Store(x, x.data.(kind := kind, flags := flags), j);
    }

    /** Lines 151-161: split region `x`, with `n` for the rest. */
    method SplitOff(x: VmNode, n: VmNode, size: nat, kind: Kind, flags: nat)
      requires Valid() && x in Nodes(shape) && n !in Nodes(shape)
      modifies this, Nodes(shape), n
      ensures old(Item(x, x.data) in InOrder(shape))
      ensures shape == old(SplitTree(shape, PosOf(shape, Item(x, x.data)), n, size, kind, flags))
      ensures Valid() && Nodes(shape) == old(Nodes(shape)) + {n}
      ensures size != old(x.data.size) ==>
        Recorded(old(RegionsOf(shape)), RegionsOf(shape), old(PosOf(shape, Item(x, x.data))), size, kind, flags)
    {
      ItemIn(shape, root, null, x);
      ghost var j := PosOf(shape, Item(x, x.data));
      if size != x.data.size { SplitRecorded(shape, j, n, size, kind, flags); }
      Prepare(n, Leftover(x.data, size));
      Store(x, Taken(x.data, size, kind, flags), j);
      InsertNode(n);
    }

    /** `avl_insert`. */
    method InsertNode(n: VmNode)
      requires Valid() && n !in Nodes(shape) && n.Unlinked() && n.parent == null
      modifies this, Nodes(shape), n
      ensures shape == Insert(old(shape), old(Item(n, n.data)), old(n.aug), CompAddr, VmUpdate)
      ensures Valid() && Nodes(shape) == old(Nodes(shape)) + {n}
    {
      ghost var t := Insert(shape, Item(n, n.data), n.aug, CompAddr, VmUpdate);
      if root == null {
        root := n;
      } else {
        var top := InsertRecAt(root, n, CompAddr, VmUpdate, shape, null);
        root := top;
      }
      shape := t;
    }

    /** `avl_remove`. */
    method Erase(x: VmNode) returns (st: Status)
      requires Valid() && x in Nodes(shape)
      modifies this, Nodes(shape)
      ensures old(Item(x, x.data) in InOrder(shape))
      ensures st == old(StatusOf(EraseItem(shape, Item(x, x.data))))
      ensures st == Done ==>
        && shape == old(EraseItem(shape, Item(x, x.data)).tree)
        && Valid() && Nodes(shape) == old(Nodes(shape)) - {x}
    {
      ItemIn(shape, root, null, x);
      RepDistinct(shape, root, null);
      ghost var t, e := shape, Item(x, x.data);
      ghost var (c, s) := Locate(Top, shape, e);
      AtPlug(c, s);
      var top;
      st, top := RemoveAt(x, VmUpdate, c, s);
      root := top;
      if st == Done { shape := EraseItem(t, e).tree; }
    }

    /** Lines 226-227. */
    method Around(x: VmNode) returns (suc: VmLink, pre: VmLink)
      requires Valid() && x in Nodes(shape)
      ensures Valid() && Item(x, x.data) in InOrder(shape)
      ensures var j := PosOf(shape, Item(x, x.data));
        suc == NodeAt(InOrder(shape), j + 1) && pre == NodeAt(InOrder(shape), j - 1)
      ensures x.data == old(x.data)
    {
      ItemIn(shape, root, null, x);
      NodesAllocated(shape);
      ghost var (c, s) := Locate(Top, shape, Item(x, x.data));
      AtPlug(c, s);
      CtxNodesAllocated(c);
      suc := Successor(x, c, s);
      pre := Predecessor(x, c, s);
    }

    /** The entry at position `i` is held by node `x`. */
    ghost predicate HeldBy(i: int, x: VmNode)
      reads this, x
    {
      0 <= i < |InOrder(shape)| && InOrder(shape)[i] == Item(x, x.data)
    }

    lemma Held(i: int, x: VmNode)
      requires Valid() && HeldBy(i, x)
      ensures x in Nodes(shape) && Item(x, x.data) in InOrder(shape) && PosOf(shape, Item(x, x.data)) == i
      ensures DistinctNodes(InOrder(shape))
    {
      RepData(shape, root, null, InOrder(shape)[i]);
      RepDistinct(shape, root, null);
      PosIs(shape, i);
    }

    /** A store to the region held at position `i`. */
    method StoreAt(ghost i: int, x: VmNode, r: Region)
      requires Valid() && HeldBy(i, x)
      modifies this`shape, x`data
      ensures shape == SetAt(old(shape), i, Item(x, r)) && x.data == r
      ensures Valid() && Nodes(shape) == old(Nodes(shape))
    {
      Held(i, x);
      Store(x, r, i);
    }

    /** The removal of the node at position `i`. */
    method EraseAtPos(ghost i: int, x: VmNode) returns (st: Status)
      requires Valid() && HeldBy(i, x)
      modifies this, Nodes(shape)
      ensures var o := EraseItem(old(shape), InOrder(old(shape))[i]);
        && st == StatusOf(o)
        && (st == Done ==> shape == o.tree && Valid() && Nodes(shape) == old(Nodes(shape)) - {x})
    {
      Held(i, x);
      st := Erase(x);
    }

    /** `keep` now describes `r`, and the node at position `k` goes. */
    method StoreAndErase(ghost i: int, keep: VmNode, r: Region, ghost k: int, away: VmNode) returns (st: Status)
      requires Valid() && HeldBy(i, keep) && HeldBy(k, away) && i != k
      modifies this, Nodes(shape)
      ensures 0 <= k < |InOrder(SetAt(old(shape), i, Item(keep, r)))| &&
        DepthsExact(SetAt(old(shape), i, Item(keep, r)))
      ensures var t := SetAt(old(shape), i, Item(keep, r));
        var o := EraseItem(t, InOrder(t)[k]);
        && st == StatusOf(o)
        && (st == Done ==> shape == o.tree && Valid() && Nodes(shape) == old(Nodes(shape)) - {away})
    {
      Held(i, keep);
      Held(k, away);
      SetAtKeeps(shape, i, Item(keep, r));
      StoreAt(i, keep, r);
      st := EraseAtPos(k, away);
    }

    /** Cases 2 and 3: `keep` takes over its successor `away` and now describes `r`. */
    method MergeIn(ghost i: int, keep: VmNode, away: VmNode, r: Region) returns (st: Status)
      requires Valid() && HeldBy(i, keep) && HeldBy(i + 1, away)
      modifies this, Nodes(shape)
      ensures DistinctNodes(InOrder(old(shape)))
      ensures var o := MergeNext(old(shape), i, Item(keep, r));
        && st == StatusOf(o)
        && (st == Done ==> shape == o.tree && Valid() && Nodes(shape) == old(Nodes(shape)) - {away})
    {
      Held(i, keep);
      st := StoreAndErase(i, keep, r, i + 1, away);
    }

    /** Case 1: `keep` takes over `mid` and `far`, which is removed first. */
    method MergeInBoth(ghost i: int, keep: VmNode, mid: VmNode, far: VmNode, r: Region) returns (st: Status)
      requires Valid() && HeldBy(i, keep) && HeldBy(i + 1, mid) && HeldBy(i + 2, far)
      modifies this, Nodes(shape)
      ensures DistinctNodes(InOrder(old(shape)))
      ensures var o := MergeBoth(old(shape), i, Item(keep, r));
        && st == StatusOf(o)
        && (st == Done ==> shape == o.tree && Valid() && Nodes(shape) == old(Nodes(shape)) - {mid, far})
    {
      Held(i, keep);
      ghost var t, e := SetAt(shape, i, Item(keep, r)), Item(mid, mid.data);
      SetAtKeeps(shape, i, Item(keep, r));
      st := StoreAndErase(i, keep, r, i + 2, far);
      if st != Done { return; }
      EraseAt(t, i + 2);
      assert InOrder(shape)[i + 1] == e;
      RepData(shape, root, null, e);
      st := EraseAtPos(i + 1, mid);
    }

    /** What the neighbours found say about the regions around position `j`. */
    lemma Neighbourly(j: int, x: VmNode, suc: VmLink, pre: VmLink)
      requires Valid() && HeldBy(j, x)
      requires suc == NodeAt(InOrder(shape), j + 1) && pre == NodeAt(InOrder(shape), j - 1)
      ensures suc != null ==> HeldBy(j + 1, suc)
      ensures pre != null ==> HeldBy(j - 1, pre)
      ensures FreeAt(RegionsOf(shape), j + 1) <==> suc != null && suc.data.kind.Free?
      ensures FreeAt(RegionsOf(shape), j - 1) <==> pre != null && pre.data.kind.Free?
    {
      if suc != null { RepData(shape, root, null, InOrder(shape)[j + 1]); }
      if pre != null { RepData(shape, root, null, InOrder(shape)[j - 1]); }
    }

    /** The outcome of a free of the region at position `j` of `t`, in both directions. */
    ghost predicate Freed(t: VmTree, j: int, st: Status, left: set<VmNode>)
      reads this, Nodes(shape)
    {
      && DepthsExact(t) && 0 <= j < |InOrder(t)| && DistinctNodes(InOrder(t))
      && st == StatusOf(ReleaseTree(t, j))
      && (st == Done ==> shape == ReleaseTree(t, j).tree && Valid() && Nodes(shape) == left)
    }

    /** Case 1 (lines 231-248). */
    method CoalesceBoth(ghost j: int, x: VmNode, suc: VmNode, pre: VmNode) returns (st: Status)
      requires Valid() && HeldBy(j, x) && HeldBy(j + 1, suc) && HeldBy(j - 1, pre)
      requires FreeAt(RegionsOf(shape), j + 1) && FreeAt(RegionsOf(shape), j - 1)
      modifies this, Nodes(shape)
      ensures Freed(old(shape), j, st, old(Nodes(shape)) - {x, suc})
    {
      var r := pre.data.(size := Wrap(suc.data.size + pre.data.size + x.data.size));
      assert Keeper(InOrder(shape), j) == Item(pre, r);
      st := MergeInBoth(j - 1, pre, x, suc, r);
    }

    /** Case 2 (lines 250-265). */
    method CoalesceBefore(ghost j: int, x: VmNode, pre: VmNode) returns (st: Status)
      requires Valid() && HeldBy(j, x) && HeldBy(j - 1, pre)
      requires !FreeAt(RegionsOf(shape), j + 1) && FreeAt(RegionsOf(shape), j - 1)
      modifies this, Nodes(shape)
      ensures Freed(old(shape), j, st, old(Nodes(shape)) - {x})
    {
      var r := pre.data.(size := Wrap(pre.data.size + x.data.size));
      assert Keeper(InOrder(shape), j) == Item(pre, r);
      st := MergeIn(j - 1, pre, x, r);
    }

    /** Case 3 (lines 267-283). */
    method CoalesceAfter(ghost j: int, x: VmNode, suc: VmNode) returns (st: Status)
      requires Valid() && HeldBy(j, x) && HeldBy(j + 1, suc)
      requires FreeAt(RegionsOf(shape), j + 1) && !FreeAt(RegionsOf(shape), j - 1)
      modifies this, Nodes(shape)
      ensures Freed(old(shape), j, st, old(Nodes(shape)) - {suc})
    {
      var r := x.data.(size := Wrap(suc.data.size + x.data.size), kind := Free);
      assert Keeper(InOrder(shape), j) == Item(x, r);
      st := MergeIn(j, x, suc, r);
    }

    /** Case 4 (lines 285-289). */
    method MarkFree(ghost j: int, x: VmNode)
      requires Valid() && HeldBy(j, x)
      requires !FreeAt(RegionsOf(shape), j + 1) && !FreeAt(RegionsOf(shape), j - 1)
      modifies this, Nodes(shape)
      ensures Freed(old(shape), j, Done, old(Nodes(shape)))
    {
      Held(j, x);
      var r := x.data.(kind := Free);
      assert Keeper(InOrder(shape), j) == Item(x, r);
      StoreAt(j, x, r);
    }

    /** Lines 225-289: mark the region free and merge it with its free neighbours. Returns the nodes
    that leave the tree, in the order they go back to the pool. */
    method Coalesce(ghost j: int, x: VmNode) returns (st: Status, gone: seq<VmNode>)
      requires Valid() && HeldBy(j, x)
      modifies this, Nodes(shape)
      ensures gone == old(Gone(InOrder(shape), j))
      ensures Freed(old(shape), j, st, old(Nodes(shape)) - (set n | n in gone))
    {
      Held(j, x);
      var suc, pre := Around(x);
      Neighbourly(j, x, suc, pre);
      if suc != null && suc.data.kind.Free? && pre != null && pre.data.kind.Free? {
        gone := [suc, x];
        st := CoalesceBoth(j, x, suc, pre);
      } else if pre != null && pre.data.kind.Free? {
        gone := [x];
        st := CoalesceBefore(j, x, pre);
      } else if suc != null && suc.data.kind.Free? {
        gone := [suc];
        st := CoalesceAfter(j, x, suc);
      } else {
        gone := [];
        MarkFree(j, x);
        st := Done;
      }
    }

    /** `init_vm_ds_node`. */
    method Prepare(n: VmNode, r: Region)
      requires Valid() && n !in Nodes(shape)
      modifies n
      ensures Valid() && n.Unlinked() && n.parent == null && n.data == r && n.aug == r.size
    {
      n.data, n.aug := r, r.size;
      n.parent, n.left, n.right, n.depth := null, null, null, 0;
    }

    /** A store to the region of one node. */
    method Store(x: VmNode, r: Region, ghost j: int)
      requires Valid() && Item(x, x.data) in InOrder(shape) && j == PosOf(shape, Item(x, x.data))
      modifies this`shape, x`data
      ensures shape == SetAt(old(shape), j, Item(x, r)) && x.data == r
      ensures Valid() && Nodes(shape) == old(Nodes(shape))
    {
      ghost var (c, s) := Locate(Top, shape, Item(x, x.data));
      AtPlug(c, s);
      StorePayload(x, r, c, s);
      AtPlug(c, s.(entry := Item(x, r)));
      PlugSetAt(c, s, |InOrder(s.left)|, Item(x, r));
      SetAtKeeps(shape, j, Item(x, r));
      shape := SetAt(shape, j, Item(x, r));
    }
  }

  lemma {:induction false} SearchNode(t: VmTree, p: VmLink, par: VmLink, probe: Probe<VmItem, nat>)
    requires Rep(t, p, par)
    ensures var r := Search(t, probe);
      r.Branch? ==> r.entry.node in Nodes(t) && r.entry == Item(r.entry.node, r.entry.node.data)
  {
    if t.Branch? {
      SearchNode(t.left, p.left, p, probe);
      SearchNode(t.right, p.right, p, probe);
    }
  }
}
