/** The kernel's virtual memory allocator (`memory/vma.c`): two trees of regions, and a pool of
region nodes that refills itself by allocating a page from the heap tree. */
module Vma {
  import opened Seqs
  import opened AvlTree
  import opened AvlPath
  import opened AvlInsert
  import opened AvlNodes
  import opened AvlWalks
  import opened AvlErase
  import opened Regions
  import opened VmaTree
  import opened VmaFree
  import opened VmaLevel
  import opened VmaSpace

  const NODES_PER_PAGE: nat := 46  // 4096 / sizeof(vm_ds_node), which is 88
  const MINIMUM_AVAILABLE_NODES: nat := 5

  const KERNEL_HEAP_START: nat := 0xFFFF_FFFB_7FDF_F000
  const KERNEL_HEAP_LIMIT: nat := 0xFFFF_FFFF_7FDF_F000
  const KERNEL_MMIO_START: nat := 0xFFFF_FFF7_7FDF_E000
  const KERNEL_MMIO_LIMIT: nat := 0xFFFF_FFFB_7FDF_E000

  datatype AllocResult =
    | Address(start: nat)
    | Null
    | Fault  // the code would go on through a NULL pointer

  ghost function AllNodes(heap: VmTree, mmio: VmTree, pool: seq<VmNode>): set<VmNode> {
    Nodes(heap) + Nodes(mmio) + (set n | n in pool)
  }

  /** Every node that came in is a new one. */
  twostate predicate OnlyNew(new now: set<VmNode>, before: set<VmNode>) {
    forall n :: n in now ==> n in before || fresh(n)
  }

  /** The position of the region the worst-fit search picks. */
  ghost function Worst(t: VmTree): (j: int)
    requires Search(t, ProbeWorst).Branch?
    ensures 0 <= j < |InOrder(t)| && InOrder(t)[j] == Search(t, ProbeWorst).entry
  {
    SearchMember(t, ProbeWorst);
    PosOf(t, Search(t, ProbeWorst).entry)
  }

  class Allocator {
    const heap: Space
    const mmio: Space
    var pool: seq<VmNode>   // free_list
    var count: nat          // free_node_count
    var inCycle: bool       // in_replenish_cycle
    ghost var slabs: nat    // pages the pool has been filled from
    ghost var inFlight: nat // nodes taken from the pool and not yet in a tree

    /** Both trees are well linked and share no node. */
    ghost predicate Trees()
      reads heap, mmio, Nodes(heap.shape), Nodes(mmio.shape)
    {
      heap != mmio && heap.Valid() && mmio.Valid() && Nodes(heap.shape) !! Nodes(mmio.shape)
    }

    /** The pool is as long as its counter says, holds no node of a tree, and with the trees it
    accounts for every node of every slab page. */
    ghost predicate Pooled()
      reads this, heap, mmio
    {
      && count == |pool| && Distinct(pool)
      && (forall n :: n in pool ==> n !in Nodes(heap.shape) && n !in Nodes(mmio.shape))
      && |InOrder(heap.shape)| + |InOrder(mmio.shape)| + |pool| + inFlight == NODES_PER_PAGE * slabs
    }

    ghost predicate Valid()
      reads this, heap, mmio, Nodes(heap.shape), Nodes(mmio.shape)
    {
      Trees() && Pooled()
    }

    ghost function Repr(): set<object>
      reads this, heap, mmio
    {
      {this, heap, mmio} + AllNodes(heap.shape, mmio.shape, pool)
    }

    /** `vma_init`: one page of nodes, the heap with that page taken, the MMIO window free. */
    constructor ()
      ensures Valid() && fresh(Repr()) && !inCycle && inFlight == 0 && slabs == 1
      ensures |pool| == 43
      ensures heap.lo == KERNEL_HEAP_START && heap.hi == KERNEL_HEAP_LIMIT
      ensures mmio.lo == KERNEL_MMIO_START && mmio.hi == KERNEL_MMIO_LIMIT
      ensures RegionsOf(heap.shape) == [BOOT_SLAB, BOOT_HEAP] && RegionsOf(mmio.shape) == [BOOT_MMIO]
      ensures AugExact(heap.shape, VmUpdate) && AugExact(mmio.shape, VmUpdate) && Balanced(heap.shape) &&
        Balanced(mmio.shape)
    {
      var hs, ms, nodes := BootParts();
      heap, mmio, pool, count := hs, ms, nodes, NODES_PER_PAGE - 3;
      inCycle, slabs, inFlight := false, 1, 0;
    }

    ghost function Other(sp: Space): Space { if sp == heap then mmio else heap }

    /** No refill happens: the pool stays at 5 nodes or more, or a refill is already under way. */
    ghost predicate Calm()
      reads this
    {
      inCycle || count > MINIMUM_AVAILABLE_NODES
    }

    /** The node a refill's own split would use. */
    ghost function Spare(): VmNode
      requires |pool| > 0
      reads this
    {
      if |pool| > 1 then pool[1] else pool[0]
    }

    /** The heap can supply a slab page: some region is free, and a node is left to split it with. */
    ghost predicate CanRefill()
      reads this, heap
    {
      var w := Search(heap.shape, ProbeWorst);
      w.Branch? && (w.entry.data.size == PAGE || |pool| > 1)
    }

    /** A node can be taken from the pool without following NULL. */
    ghost predicate CanPop()
      reads this, heap
    {
      |pool| > 0 && (Calm() || CanRefill())
    }

    /** Lines 316-318. */
    method Pop() returns (n: VmNode)
      requires Valid() && |pool| > 0
      modifies this`pool, this`count, this`inFlight
      ensures Valid() && n == old(pool[0]) && pool == old(pool[1..]) && inFlight == old(inFlight) + 1
      ensures n !in AllNodes(heap.shape, mmio.shape, pool)
    {
      n := pool[0];
      pool := pool[1..];
      count := count - 1;
      inFlight := inFlight + 1;
    }

    /** `alloc_vm_ds_node`. The refill runs at most once: the flag stops a second one. */
    method AllocNode() returns (n: VmLink)
      requires Valid()
      modifies Repr()
      ensures n != null <==> old(CanPop())
      ensures n != null ==>
        && n == old(pool[0]) && Valid() && n !in AllNodes(heap.shape, mmio.shape, pool)
        && inFlight == old(inFlight) + 1 && inCycle == old(inCycle) && mmio.shape == old(mmio.shape)
        && OnlyNew(AllNodes(heap.shape, mmio.shape, pool), old(AllNodes(heap.shape, mmio.shape, pool)))
      ensures n != null && old(Calm()) ==>
        heap.shape == old(heap.shape) && pool == old(pool[1..]) && slabs == old(slabs)
      ensures n != null && !old(Calm()) ==>
        && heap.shape == old(SlabTree(heap.shape, Worst(heap.shape), Spare()))
        && |pool| >= NODES_PER_PAGE && slabs == old(slabs) + 1
      decreases if inCycle then 0 else 1, 1
    {
      if pool == [] { return null; }
      ghost var spare := Spare();
      n := Pop();
      if count < MINIMUM_AVAILABLE_NODES && !inCycle {
        var ok := RefillCycle(spare);
        if !ok { return null; }
      }
    }

    /** Lines 325-327: the flag is up while the refill runs. */
    method RefillCycle(ghost spare: VmNode) returns (ok: bool)
      requires Valid() && !inCycle && (|pool| > 0 ==> spare == pool[0])
      modifies Repr()
      ensures var w := old(Search(heap.shape, ProbeWorst));
        ok <==> w.Branch? && (w.entry.data.size == PAGE || old(|pool|) > 0)
      ensures ok ==>
        && Valid() && inFlight == old(inFlight) && !inCycle && mmio.shape == old(mmio.shape)
        && OnlyNew(AllNodes(heap.shape, mmio.shape, pool), old(AllNodes(heap.shape, mmio.shape, pool)))
        && |pool| >= NODES_PER_PAGE && slabs == old(slabs) + 1
      ensures ok ==> heap.shape == old(SlabTree(heap.shape, Worst(heap.shape), spare))
      decreases 0, 7
    {
      inCycle := true;
      ok := Replenish(spare);
      inCycle := false;
    }

    /** `replenish_slab_from_tree`. */
    method Replenish(ghost spare: VmNode) returns (ok: bool)
      requires Valid() && inCycle && (|pool| > 0 ==> spare == pool[0])
      modifies Repr()
      ensures var w := old(Search(heap.shape, ProbeWorst));
        ok <==> w.Branch? && (w.entry.data.size == PAGE || old(|pool|) > 0)
      ensures ok ==>
        && Valid() && inFlight == old(inFlight) && inCycle && mmio.shape == old(mmio.shape)
        && OnlyNew(AllNodes(heap.shape, mmio.shape, pool), old(AllNodes(heap.shape, mmio.shape, pool)))
        && |pool| >= NODES_PER_PAGE && slabs == old(slabs) + 1
      ensures ok ==> heap.shape == old(SlabTree(heap.shape, Worst(heap.shape), spare))
      decreases 0, 6
    {
      var page := Allocate(heap, PAGE, Regular, SLAB_FLAGS);
      if !page.Address? { return false; }
      AddPage();
      ok := true;
    }

    /** The tree of `sp` after a split, with the refill it triggers when the pool is low. */
    ghost function PartTree(sp: Space, size: nat, kind: Kind, flags: nat): VmTree
      requires DepthsExact(sp.shape) && Search(sp.shape, ProbeWorst).Branch? && |pool| > 0
      reads this, sp
    {
      if Calm() || sp != heap then SplitTree(sp.shape, Worst(sp.shape), pool[0], size, kind, flags)
      else RefillTree(sp.shape, Worst(sp.shape), Spare(), pool[0], size, kind, flags)
    }

    /** The other tree: a refill takes its page from the heap whichever tree is being split. */
    ghost function OtherTree(sp: Space): VmTree
      requires DepthsExact(heap.shape) && CanPop()
      reads this, heap, Other(sp)
    {
      if Calm() || sp == heap then Other(sp).shape else SlabTree(heap.shape, Worst(heap.shape), Spare())
    }

    /** Whether taking a node changes the tree of `sp` under the caller's feet. */
    ghost predicate Disturbs(sp: Space)
      reads this
    {
      !Calm() && sp == heap
    }

    /** What the region found has become once the node is there. */
    ghost function Disturbed(sp: Space): VmItem
      requires Search(sp.shape, ProbeWorst).Branch?
      reads this, sp
    {
      if Disturbs(sp) then TakenItem(sp.shape, Worst(sp.shape), PAGE, Regular, SLAB_FLAGS)
      else Search(sp.shape, ProbeWorst).entry
    }

    /** Line 151, and where it leaves the region found. */
    method TakeNode(sp: Space, x: VmNode) returns (n: VmLink)
      requires Valid() && (sp == heap || sp == mmio) && x == sp.FindWorst()
      modifies Repr()
      ensures n != null <==> old(CanPop())
      ensures n != null ==>
        && n == old(pool[0]) && Valid() && n !in AllNodes(heap.shape, mmio.shape, pool)
        && inFlight == old(inFlight) + 1 && inCycle == old(inCycle)
        && OnlyNew(AllNodes(heap.shape, mmio.shape, pool), old(AllNodes(heap.shape, mmio.shape, pool)))
        && sp.shape == old(if Disturbs(sp) then SlabTree(sp.shape, Worst(sp.shape), Spare()) else sp.shape)
        && Other(sp).shape == old(OtherTree(sp))
        && x in Nodes(sp.shape) && Item(x, x.data) == old(Disturbed(sp))
      ensures n != null && old(Calm()) ==> pool == old(pool[1..]) && slabs == old(slabs)
      ensures n != null && !old(Calm()) ==> |pool| >= NODES_PER_PAGE && slabs == old(slabs) + 1
      decreases if inCycle then 0 else 1, 2
    {
      ghost var e := Disturbed(sp);
      if CanPop() && Disturbs(sp) { SlabItem(sp.shape, Worst(sp.shape), Spare()); }
      SearchMember(sp.shape, ProbeWorst);
      n := AllocNode();
      if n != null { RepData(sp.shape, sp.root, null, e); }
    }

    /** Lines 149-162: part of the region found becomes the allocation. */
    method AllocatePart(sp: Space, x: VmNode, size: nat, kind: Kind, flags: nat) returns (r: AllocResult)
      requires Valid() && (sp == heap || sp == mmio)
      requires x == sp.FindWorst()
      modifies Repr()
      ensures r == if old(CanPop()) then Address(old(x.data.start)) else Fault
      ensures r.Address? ==>
        && Valid() && inFlight == old(inFlight) && inCycle == old(inCycle)
        && OnlyNew(AllNodes(heap.shape, mmio.shape, pool), old(AllNodes(heap.shape, mmio.shape, pool)))
        && sp.shape == old(PartTree(sp, size, kind, flags)) && Other(sp).shape == old(OtherTree(sp))
      ensures r.Address? && old(Calm()) ==> pool == old(pool[1..]) && slabs == old(slabs)
      ensures r.Address? && !old(Calm()) ==> |pool| >= NODES_PER_PAGE && slabs == old(slabs) + 1
      decreases if inCycle then 0 else 1, 3
    {
      var n := TakeNode(sp, x);
      if n == null { return Fault; }
      r := Address(x.data.start);
      Split(sp, x, n, size, kind, flags);
    }

    /** `vma_allocate_memory_from_tree`, up to the backing. */
    method Allocate(sp: Space, size: nat, kind: Kind, flags: nat) returns (r: AllocResult)
      requires Valid() && (sp == heap || sp == mmio)
      modifies Repr()
      ensures r.Null? <==> kind.Free? || old(Search(sp.shape, ProbeWorst)).Leaf?
      ensures r.Fault? <==> !kind.Free? && old(Search(sp.shape, ProbeWorst)).Branch? &&
                            old(Search(sp.shape, ProbeWorst)).entry.data.size != size && !old(CanPop())
      ensures !r.Fault? ==>
        && Valid() && inFlight == old(inFlight) && inCycle == old(inCycle)
        && OnlyNew(AllNodes(heap.shape, mmio.shape, pool), old(AllNodes(heap.shape, mmio.shape, pool)))
      ensures r.Null? ==> heap.shape == old(heap.shape) && mmio.shape == old(mmio.shape) && pool == old(pool)
      ensures r.Address? ==> r.start == old(Search(sp.shape, ProbeWorst)).entry.data.start
      ensures r.Address? && size == old(Search(sp.shape, ProbeWorst)).entry.data.size ==>
        && sp.shape == old(TakeTree(sp.shape, Worst(sp.shape), size, kind, flags))
        && Other(sp).shape == old(Other(sp).shape) && pool == old(pool) && slabs == old(slabs)
      ensures r.Address? && size != old(Search(sp.shape, ProbeWorst)).entry.data.size ==>
        && sp.shape == old(PartTree(sp, size, kind, flags)) && Other(sp).shape == old(OtherTree(sp))
        && (old(Calm()) ==> pool == old(pool[1..]) && slabs == old(slabs))
      ensures r.Address? && (sp == mmio || old(Calm())) ==>
        Recorded(old(RegionsOf(sp.shape)), RegionsOf(sp.shape), old(Worst(sp.shape)), size, kind, flags)
      // Between calls the pool never runs dry: it is back at 5 nodes or more, and the only way to
      // fault is that nothing in the heap is free when a refill is due.
      ensures !old(inCycle) && old(|pool|) >= 5 && !r.Fault? ==> |pool| >= 5
      ensures old(|pool|) >= 5 && r.Fault? ==> old(Search(heap.shape, ProbeWorst)).Leaf?
      decreases if inCycle then 0 else 1, 5
    {
      if kind.Free? { return Null; }
      var x := sp.FindWorst();
      if x == null { return Null; }
      r := AllocateFrom(sp, x, size, kind, flags);
    }

    /** Lines 143-162: from the region found. */
    method AllocateFrom(sp: Space, x: VmNode, size: nat, kind: Kind, flags: nat) returns (r: AllocResult)
      requires Valid() && (sp == heap || sp == mmio) && x == sp.FindWorst()
      modifies Repr()
      ensures r == if old(x.data.size) == size || old(CanPop()) then Address(old(x.data.start)) else Fault
      ensures r.Address? ==>
        && Valid() && inFlight == old(inFlight) && inCycle == old(inCycle)
        && OnlyNew(AllNodes(heap.shape, mmio.shape, pool), old(AllNodes(heap.shape, mmio.shape, pool)))
      ensures size == old(x.data.size) ==>
        && sp.shape == old(TakeTree(sp.shape, Worst(sp.shape), size, kind, flags))
        && Other(sp).shape == old(Other(sp).shape) && pool == old(pool) && slabs == old(slabs)
      ensures r.Address? && size != old(x.data.size) ==>
        && sp.shape == old(PartTree(sp, size, kind, flags)) && Other(sp).shape == old(OtherTree(sp))
        && if old(Calm()) then pool == old(pool[1..]) && slabs == old(slabs) else |pool| >= NODES_PER_PAGE
      ensures r.Address? && (sp == mmio || old(Calm())) ==>
        Recorded(old(RegionsOf(sp.shape)), RegionsOf(sp.shape), old(Worst(sp.shape)), size, kind, flags)
      decreases if inCycle then 0 else 1, 4
    {
      ghost var t := sp.shape;
      if size == x.data.size {
        r := Address(x.data.start);
        TakeExact(sp, x, kind, flags);
        TakeRecorded(t, Worst(t), kind, flags);
      } else {
        ghost var p := pool;
        r := AllocatePart(sp, x, size, kind, flags);
        if r.Address? { SplitRecorded(t, Worst(t), p[0], size, kind, flags); }
      }
    }

    /** Lines 306-311: a page's worth of new nodes goes to the front of the pool. */
    method AddPage()
      requires Valid()
      modifies this`pool, this`count, this`slabs
      ensures Valid() && |pool| == old(|pool|) + NODES_PER_PAGE && pool[NODES_PER_PAGE..] == old(pool)
      ensures fresh(set n | n in pool[..NODES_PER_PAGE]) && slabs == old(slabs) + 1
    {
      NodesAllocated(heap.shape);
      NodesAllocated(mmio.shape);
      var page := NewNodes(NODES_PER_PAGE);
      pool := page + pool;
      count := count + NODES_PER_PAGE;
      slabs := slabs + 1;
    }

    /** The tree side of a free. */
    method CoalesceIn(sp: Space, ghost j: int, x: VmNode) returns (st: Status, gone: seq<VmNode>)
      requires Trees() && (sp == heap || sp == mmio) && sp.HeldBy(j, x)
      modifies sp, Nodes(sp.shape)
      ensures gone == old(Gone(InOrder(sp.shape), j))
      ensures sp.Freed(old(sp.shape), j, st, old(Nodes(sp.shape)) - (set n | n in gone))
      ensures st == Done ==> Trees() && Other(sp).shape == old(Other(sp).shape)
    {
      ghost var other := Other(sp);
      assert other.Valid();
      NodesAllocated(other.shape);
      st, gone := sp.Coalesce(j, x);
      assert other.Valid();
    }

    /** Lines 225-289, once the backing is gone: the region is merged with its free neighbours and the
    nodes that are left over go back to the pool. On an AVL tree the free goes through exactly when
    `ReleaseFits` of the tree before the call, and leaves an AVL tree when `ReleaseStays`. */
    method Release(sp: Space, ghost j: int, x: VmNode) returns (st: Status)
      requires Valid() && (sp == heap || sp == mmio) && sp.HeldBy(j, x)
      modifies this, sp, Nodes(sp.shape)
      ensures old(DistinctNodes(InOrder(sp.shape))) && st == old(StatusOf(ReleaseTree(sp.shape, j)))
      ensures Foretold(old(sp.shape), j, st == Done)
      ensures st == Done ==>
        && Valid() && sp.shape == old(ReleaseTree(sp.shape, j)).tree
        && Other(sp).shape == old(Other(sp).shape)
        && inCycle == old(inCycle) && inFlight == old(inFlight) && slabs == old(slabs)
      ensures st == Done ==>
        pool == (if old(FreeAt(RegionsOf(sp.shape), j + 1)) then [old(InOrder(sp.shape))[j + 1].node] else []) +
                (if old(FreeAt(RegionsOf(sp.shape), j - 1)) then [x] else []) + old(pool)
    {
      assert InOrder(sp.shape)[j].node == x;
      var gone;
      st, gone := TakeOut(sp, j, x);
      if st == Done { GiveBack(gone); }
    }

    /** The nodes a free has left over, out of the trees and not yet in the pool. */
    ghost predicate Loose(gone: seq<VmNode>)
      reads this, heap, mmio, Nodes(heap.shape), Nodes(mmio.shape)
    {
      && Trees() && count == |pool| && Distinct(gone + pool)
      && (forall n :: n in gone + pool ==> n !in Nodes(heap.shape) && n !in Nodes(mmio.shape))
      && |InOrder(heap.shape)| + |InOrder(mmio.shape)| + |gone + pool| + inFlight == NODES_PER_PAGE * slabs
    }

    method TakeOut(sp: Space, ghost j: int, x: VmNode) returns (st: Status, gone: seq<VmNode>)
      requires Valid() && (sp == heap || sp == mmio) && sp.HeldBy(j, x)
      modifies sp, Nodes(sp.shape)
      ensures gone == old(Gone(InOrder(sp.shape), j))
      ensures old(DistinctNodes(InOrder(sp.shape))) && st == old(StatusOf(ReleaseTree(sp.shape, j)))
      ensures Foretold(old(sp.shape), j, st == Done)
      ensures st == Done ==>
        Loose(gone) && sp.shape == old(ReleaseTree(sp.shape, j)).tree && Other(sp).shape == old(Other(sp).shape)
    {
      Leaving(sp, j);
      st, gone := CoalesceIn(sp, j, x);
    }

    /** The nodes a free takes out of a tree: in it, and not in the pool. */
    lemma Leaving(sp: Space, j: int)
      requires Valid() && (sp == heap || sp == mmio) && 0 <= j < |InOrder(sp.shape)|
      ensures DistinctNodes(InOrder(sp.shape))
      ensures Foretold(sp.shape, j, StatusOf(ReleaseTree(sp.shape, j)) == Done)
      ensures var s := InOrder(sp.shape);
        && |Released(s, j)| + |Gone(s, j)| == |s| && Distinct(Gone(s, j) + pool)
        && forall n :: n in Gone(s, j) ==> n in Nodes(sp.shape)
    {
      RepDistinct(sp.shape, sp.root, null);
      GoneCount(InOrder(sp.shape), j);
      GoneIn(sp.shape, j);
      DistinctAppend(Gone(InOrder(sp.shape), j), pool);
      Foretells(sp.shape, j);
    }

    /** Lines 244-247, 262-264, 280-282: nodes no longer in a tree go to the front of the pool. */
    method GiveBack(gone: seq<VmNode>)
      requires Loose(gone)
      modifies this`pool, this`count
      ensures Valid() && pool == gone + old(pool)
    {
      pool := gone + pool;
      count := count + |gone|;
    }

    lemma GoneIn(t: VmTree, j: int)
      requires 0 <= j < |InOrder(t)| && DistinctNodes(InOrder(t))
      ensures forall n :: n in Gone(InOrder(t), j) ==> n in Nodes(t)
    {
      GoneCount(InOrder(t), j);
      forall n | n in Gone(InOrder(t), j) ensures n in Nodes(t) {
        NodesInOrder(t, n);
      }
    }

    /** Lines 144-148. */
    method TakeExact(sp: Space, x: VmNode, kind: Kind, flags: nat)
      requires Valid() && (sp == heap || sp == mmio) && x in Nodes(sp.shape)
      modifies sp, x`data
      ensures old(Item(x, x.data) in InOrder(sp.shape))
      ensures sp.shape == old(TakeTree(sp.shape, PosOf(sp.shape, Item(x, x.data)), x.data.size, kind, flags))
      ensures Valid() && Nodes(sp.shape) == old(Nodes(sp.shape)) && Other(sp).shape == old(Other(sp).shape)
    {
      ItemIn(sp.shape, sp.root, null, x);
      ghost var j := PosOf(sp.shape, Item(x, x.data));
      SetAtKeeps(sp.shape, j, TakenItem(sp.shape, j, x.data.size, kind, flags));
      ghost var other := Other(sp);
      assert other.Valid();
      NodesAllocated(other.shape);
      sp.TakeWhole(x, kind, flags);
      assert other.Valid();
    }

    /** Lines 152-161, with `n` fresh from the pool. */
    method Split(sp: Space, x: VmNode, n: VmNode, size: nat, kind: Kind, flags: nat)
      requires Valid() && (sp == heap || sp == mmio) && x in Nodes(sp.shape)
      requires inFlight > 0 && n !in AllNodes(heap.shape, mmio.shape, pool)
      modifies sp, this`inFlight, Nodes(sp.shape), n
      ensures old(Item(x, x.data) in InOrder(sp.shape))
      ensures sp.shape == old(SplitTree(sp.shape, PosOf(sp.shape, Item(x, x.data)), n, size, kind, flags))
      ensures Valid() && Nodes(sp.shape) == old(Nodes(sp.shape)) + {n} && inFlight == old(inFlight) - 1
      ensures Other(sp).shape == old(Other(sp).shape)
    {
      SplitIn(sp, x, n, size, kind, flags);
      inFlight := inFlight - 1;
    }

    /** The tree side of a split. */
    method SplitIn(sp: Space, x: VmNode, n: VmNode, size: nat, kind: Kind, flags: nat)
      requires Trees() && (sp == heap || sp == mmio) && x in Nodes(sp.shape)
      requires n !in Nodes(heap.shape) && n !in Nodes(mmio.shape)
      modifies sp, Nodes(sp.shape), n
      ensures old(Item(x, x.data) in InOrder(sp.shape))
      ensures sp.shape == old(SplitTree(sp.shape, PosOf(sp.shape, Item(x, x.data)), n, size, kind, flags))
      ensures Trees() && Nodes(sp.shape) == old(Nodes(sp.shape)) + {n} &&
        |InOrder(sp.shape)| == old(|InOrder(sp.shape)|) + 1
      ensures Other(sp).shape == old(Other(sp).shape)
    {
      ItemIn(sp.shape, sp.root, null, x);
      SplitCount(sp.shape, PosOf(sp.shape, Item(x, x.data)), n, size, kind, flags);
      ghost var other := Other(sp);
      assert other.Valid();
      NodesAllocated(other.shape);
      sp.SplitOff(x, n, size, kind, flags);
      assert other.Valid();
    }
  }

  lemma {:induction false} DistinctAppend(a: seq<VmNode>, b: seq<VmNode>)
    requires Distinct(a) && Distinct(b) && (forall n :: n in a ==> n !in b)
    ensures Distinct(a + b)
  {
    var s := a + b;
    forall i, j | 0 <= i < j < |s| ensures s[i] != s[j] {
      if i < |a| <= j { assert s[i] in a && s[j] in b; }
    }
  }

  lemma {:induction false} SplitCount(t: VmTree, j: int, n: VmNode, size: nat, kind: Kind, flags: nat)
    requires DepthsExact(t) && 0 <= j < |InOrder(t)|
    ensures |InOrder(SplitTree(t, j, n, size, kind, flags))| == |InOrder(t)| + 1
    ensures |InOrder(TakeTree(t, j, size, kind, flags))| == |InOrder(t)|
  {
    SetAtKeeps(t, j, TakenItem(t, j, size, kind, flags));
    var rest := RestOf(t, j, n, size);
    InsertThere(TakeTree(t, j, size, kind, flags), rest, rest.data.size, CompAddr, VmUpdate);
  }

  method NewNodes(k: nat) returns (page: seq<VmNode>)
    ensures |page| == k && Distinct(page) && fresh(set n | n in page)
  {
    page := [];
    for i := 0 to k
      invariant |page| == i && Distinct(page) && fresh(set n | n in page)
    {
      var n := new Node<Region, nat>(Region(0, 0, Free, 0), 0);
      page := page + [n];
    }
  }

  const BOOT_SLAB := Region(KERNEL_HEAP_START, PAGE, Regular, SLAB_FLAGS)
  const BOOT_HEAP := Region(KERNEL_HEAP_START + PAGE, KERNEL_HEAP_LIMIT - KERNEL_HEAP_START - PAGE, Free, 0)
  const BOOT_MMIO := Region(KERNEL_MMIO_START, KERNEL_MMIO_LIMIT - KERNEL_MMIO_START, Free, 0)

  method BootParts() returns (hs: Space, ms: Space, nodes: seq<VmNode>)
    ensures fresh(hs) && fresh(ms) && hs != ms && hs.Valid() && ms.Valid()
    ensures fresh(Nodes(hs.shape)) && fresh(Nodes(ms.shape)) && Nodes(hs.shape) !! Nodes(ms.shape)
    ensures |nodes| == NODES_PER_PAGE - 3 && Distinct(nodes) && fresh(set n | n in nodes)
    ensures forall n :: n in nodes ==> n !in Nodes(hs.shape) && n !in Nodes(ms.shape)
    ensures hs.lo == KERNEL_HEAP_START && hs.hi == KERNEL_HEAP_LIMIT
    ensures ms.lo == KERNEL_MMIO_START && ms.hi == KERNEL_MMIO_LIMIT
    ensures |InOrder(hs.shape)| == 2 && |InOrder(ms.shape)| == 1
    ensures RegionsOf(hs.shape) == [BOOT_SLAB, BOOT_HEAP] && RegionsOf(ms.shape) == [BOOT_MMIO]
    ensures AugExact(hs.shape, VmUpdate) && AugExact(ms.shape, VmUpdate) && Balanced(hs.shape) && Balanced(ms.shape)
  {
    hs := BootHeap();
    NodesAllocated(hs.shape);
    ms := BootMmio();
    NodesAllocated(ms.shape);
    nodes := NewNodes(NODES_PER_PAGE - 3);
  }

  method BootHeap() returns (s: Space)
    ensures fresh(s) && fresh(Nodes(s.shape)) && s.Valid()
    ensures s.lo == KERNEL_HEAP_START && s.hi == KERNEL_HEAP_LIMIT
    ensures RegionsOf(s.shape) == [BOOT_SLAB, BOOT_HEAP] && AugExact(s.shape, VmUpdate) && Balanced(s.shape)
  {
    var h := new Node<Region, nat>(BOOT_SLAB, PAGE);
    var rest := new Node<Region, nat>(BOOT_HEAP, BOOT_HEAP.size);
    s := new Space(h, KERNEL_HEAP_START, KERNEL_HEAP_LIMIT);
    s.InsertNode(rest);
    BootOrder(Item(h, BOOT_SLAB), Item(rest, BOOT_HEAP));
  }

  method BootMmio() returns (s: Space)
    ensures fresh(s) && fresh(Nodes(s.shape)) && s.Valid()
    ensures s.lo == KERNEL_MMIO_START && s.hi == KERNEL_MMIO_LIMIT
    ensures RegionsOf(s.shape) == [BOOT_MMIO] && AugExact(s.shape, VmUpdate) && Balanced(s.shape)
  {
    var m := new Node<Region, nat>(BOOT_MMIO, BOOT_MMIO.size);
    s := new Space(m, KERNEL_MMIO_START, KERNEL_MMIO_LIMIT);
    assert InOrder(s.shape) == [Item(m, BOOT_MMIO)];
  }

  lemma {:induction false} BootOrder(h: VmItem, rest: VmItem)
    requires h.data == BOOT_SLAB && rest.data == BOOT_HEAP
    ensures var t := Insert(Single(h, PAGE), rest, BOOT_HEAP.size, CompAddr, VmUpdate);
      RegionsOf(t) == [BOOT_SLAB, BOOT_HEAP] && AugExact(t, VmUpdate) && Balanced(t)
  {
    var t := Single(h, PAGE);
    assert InOrder(t) == [h];
    assert CompAddr(h, rest) <= 0;
    InsertInOrder(t, rest, BOOT_HEAP.size, CompAddr, VmUpdate, 1);
    InsertRepairsPath(t, rest, BOOT_HEAP.size, CompAddr, VmUpdate);
    InsertBalanced(t, rest, BOOT_HEAP.size, CompAddr, VmUpdate);
  }

  const MMIO_FLAGS: nat := 0x29  // PT_GLOBAL | PT_DISABLE_CACHING | PT_WRITEABLE

  /** In the empty MMIO window the search finds the whole of it, and the rest of a split goes behind the split. */
  lemma {:induction false} MmioSplit(t: VmTree, n: VmNode, size: nat)
    requires DepthsExact(t) && AugExact(t, VmUpdate) && RegionsOf(t) == [BOOT_MMIO] && 0 < size < HALF_INT
    ensures Search(t, ProbeWorst).Branch? && Worst(t) == 0 && BOOT_MMIO.size > size
    ensures RegionsOf(SplitTree(t, 0, n, size, HardwareMmio, MMIO_FLAGS)) ==
            [Region(KERNEL_MMIO_START, size, HardwareMmio, MMIO_FLAGS),
             Region(KERNEL_MMIO_START + size, BOOT_MMIO.size - size, Free, 0)]
  {
    var s := InOrder(t);
    assert |s| == 1 && s[0].data == RegionsOf(t)[0];
    WorstFitFinds(t);
    WithinOnCourse(t, KERNEL_MMIO_START + size);
    SplitRegions(t, 0, n, size, HardwareMmio, MMIO_FLAGS, KERNEL_MMIO_START, KERNEL_MMIO_LIMIT);
  }

  /** From start-up: the first device `kmap_mmio` maps is recorded as one, and nothing else is. */
  method FirstDevice(size: nat) returns (a: Allocator, r: AllocResult)
    requires 0 < size < HALF_INT
    ensures fresh(a) && a.Valid() && r == Address(KERNEL_MMIO_START)
    ensures RegionsOf(a.mmio.shape) ==
            [Region(KERNEL_MMIO_START, size, HardwareMmio, MMIO_FLAGS),
             Region(KERNEL_MMIO_START + size, BOOT_MMIO.size - size, Free, 0)]
    ensures RegionsOf(a.heap.shape) == [BOOT_SLAB, BOOT_HEAP]
  {
    a := new Allocator();
    MmioSplit(a.mmio.shape, a.pool[0], size);
    r := a.Allocate(a.mmio, size, HardwareMmio, MMIO_FLAGS);
  }
}
