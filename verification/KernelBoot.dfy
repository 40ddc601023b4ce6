/** `vma_init`, and the first allocation, page fault and free after it: what each of the four methods ensures is
what the next one requires. */
module KernelBoot {
  import opened AvlTree
  import opened AvlPath
  import opened AvlInsert
  import opened AvlTwoChild
  import opened AvlNodes
  import opened AvlWalks
  import opened PageEntry
  import opened PageTree
  import opened TablePath
  import opened Regions
  import opened VmaTree
  import opened Ownership
  import opened Books
  import opened KernelHeap
  import VF = VmaFree
  import VL = VmaLevel
  import E = AvlErase
  import A = Vma
  import PW = PageWalk
  import V = Vmm

  const LO: nat := A.KERNEL_HEAP_START
  const HI: nat := A.KERNEL_HEAP_LIMIT

  ghost function BootRegions(): seq<Region> { [A.BOOT_SLAB, A.BOOT_HEAP] }

  lemma {:induction false} BootLaid()
    ensures Laid(BootRegions(), LO, HI)
  {
  }

  /** What is in use before `vma_init` and is no page table belongs to the boot loader and the kernel image. */
  ghost function Reserved(v: View): (r: set<nat>) {
    set f: nat | f < |v.used| && v.used[f] && f !in TableFrames(v)
  }

  ghost predicate HeapUnmapped(v: View)
    requires Framed(v)
  {
    HeapPages(Mapping(v), LO, HI) == map[]
  }

  lemma {:induction false} BeforeInit(v: View)
    requires WellFormed(v) && HeapUnmapped(v)
    ensures Inv(BooksOf(v, BootRegions(), LO, HI), Reserved(v)) && 0 in Reserved(v)
  {
    forall f | f in TableFrames(v) ensures 0 < f < |v.used| && v.used[f] { var k :| k in v.tab && v.tab[k] == f; }
  }

  /** Once the slab page is bound to its frame, the kernel's books are sound: the state every run starts in. */
  lemma {:induction false} InitSound(v0: View, f: nat, v: View)
    requires WellFormed(v0) && HeapUnmapped(v0) && 0 < f < |v0.used| && !v0.used[f]
    requires WellFormed(v) && V.Extends(Grown(v0, f), v) &&
      Mapping(v) == Mapping(v0)[V.PageOf(LO) := V.LeafEntry(f, SLAB_FLAGS)]
    ensures Sound(v, BootRegions(), LO, HI, Reserved(v0))
    ensures BooksOf(v, BootRegions(), LO, HI).pages == map[V.PageOf(LO) := f]
  {
    var s := BooksOf(v0, BootRegions(), LO, HI);
    BootLaid();
    BeforeInit(v0);
    SlabPage();
    assert V.PageOf(LO) !in Mapping(v0) by { assert V.PageOf(LO) !in HeapPages(Mapping(v0), LO, HI); }
    TouchBooks(v0, f, v, V.PageOf(LO), V.LeafEntry(f, SLAB_FLAGS), BootRegions(), LO, HI);
    TouchKeeps(s, V.PageOf(LO), f, BooksOf(v, BootRegions(), LO, HI), Reserved(v0));
  }

  lemma {:induction false} SlabPage()
    ensures AddrOf(V.PageOf(LO)) == LO && Backed(BootRegions(), V.PageOf(LO))
  {
    AddrOfPage(LO);
    assert A.BOOT_SLAB in BootRegions() && Covers(A.BOOT_SLAB, LO);
  }

  /** The state `vma_init` leaves. */
  ghost predicate Booted(k: Kernel, reserved: set<nat>)
    reads k, k.vma, k.vma.heap, k.vma.mmio, Nodes(k.vma.heap.shape), Nodes(k.vma.mmio.shape)
    reads k.tables, k.tables.pmm.bitmap, k.tables.pmm.ram
  {
    && k.tables.Valid() && Sound(k.tables.ViewOf(), BootRegions(), LO, HI, reserved)
    && V.PageOf(LO) in Mapping(k.tables.ViewOf()) && NewHeap(k.vma)
  }

  ghost predicate NewHeap(vma: A.Allocator)
    reads vma, vma.heap, vma.mmio, Nodes(vma.heap.shape), Nodes(vma.mmio.shape)
  {
    && vma.Valid() && vma.heap.lo == LO && vma.heap.hi == HI && RegionsOf(vma.heap.shape) == BootRegions()
    && AugExact(vma.heap.shape, VmUpdate) && Balanced(vma.heap.shape)
    && |vma.pool| == A.NODES_PER_PAGE - 3 && !vma.inCycle
  }

  /** Lines 65-66: a frame for the page the first nodes are in. */
  method BackSlab(tables: V.PageTables) returns (ok: bool)
    requires tables.Valid() && HeapUnmapped(tables.ViewOf())
    modifies tables`tab, tables.pmm`used, tables.pmm.bitmap, tables.pmm.ram
    ensures ok <==> Affordable(old(tables.ViewOf()), LO)
    ensures ok ==>
      && tables.Valid() && Sound(tables.ViewOf(), BootRegions(), LO, HI, Reserved(old(tables.ViewOf())))
      && V.PageOf(LO) in Mapping(tables.ViewOf())
  {
    ghost var v0 := tables.ViewOf();
    SlabPage();
    assert V.PageOf(LO) !in Mapping(v0) by { assert V.PageOf(LO) !in HeapPages(Mapping(v0), LO, HI); }
    var r := Back(tables, LO, SLAB_FLAGS);
    ok := r.Handled?;
    if ok { InitSound(v0, r.frame, tables.ViewOf()); }
  }

  /** `vma_init`. */
  method Init(tables: V.PageTables) returns (k: Kernel?)
    requires tables.Valid() && HeapUnmapped(tables.ViewOf())
    modifies tables`tab, tables.pmm`used, tables.pmm.bitmap, tables.pmm.ram
    ensures k != null <==> Affordable(old(tables.ViewOf()), LO)
    ensures k != null ==>
      fresh(k) && fresh(k.vma.Repr()) && k.tables == tables && Booted(k, Reserved(old(tables.ViewOf())))
  {
    var ok := BackSlab(tables);
    if !ok { return null; }
    ghost var v := tables.ViewOf();
    var vma := NewTrees();
    NodesAllocated(vma.heap.shape);
    NodesAllocated(vma.mmio.shape);
    k := new Kernel(vma, tables);
    assert vma.Valid();
    assert tables.ViewOf() == v;
  }

  method NewTrees() returns (vma: A.Allocator)
    ensures fresh(vma.Repr()) && NewHeap(vma)
  {
    vma := new A.Allocator();
  }

  // ----- the first page of the heap: allocated, touched, freed -----

  const PAGE_AT: nat := LO + PAGE_SIZE

  const FIRST := Region(PAGE_AT, PAGE_SIZE, Regular, SLAB_FLAGS)

  ghost function FirstRegions(): seq<Region> {
    [A.BOOT_SLAB, FIRST, Region(PAGE_AT + PAGE_SIZE, A.BOOT_HEAP.size - PAGE_SIZE, Regions.Free, 0)]
  }

  lemma {:induction false} FirstCarved()
    ensures AllocatedFrom(BootRegions(), 1, PAGE_SIZE, SLAB_FLAGS) == FirstRegions() && Laid(FirstRegions(), LO, HI)
  {
    BootLaid();
    AllocateLaid(BootRegions(), 1, PAGE_SIZE, SLAB_FLAGS, LO, HI);
  }

  /** The only free region is the one found, and the request is within the comparator's reach. */
  lemma {:induction false} BootSearch(t: VmTree)
    requires AugExact(t, VmUpdate) && RegionsOf(t) == BootRegions()
    ensures MaxFree(InOrder(t)) == A.BOOT_HEAP.size && Search(t, ProbeWorst).Branch? && A.Worst(t) == 1
    ensures Reaches(t, 1, PAGE_SIZE)
  {
    BootLaid();
    var s := InOrder(t);
    assert |s| == 2 && s[0].data == RegionsOf(t)[0] && s[1].data == RegionsOf(t)[1];
    MaxFreeBounds(s);
    LargestFound(t, LO, HI);
    WithinOnCourse(t, A.BOOT_HEAP.start + PAGE_SIZE);
  }

  const THREE_GIB: nat := 0xC000_0000

  /** A request for three gigabytes goes off course at once in the new heap, whichever of its two regions is at the
  root: the split puts the rest before regions it lies behind, and the window is no longer tiled. */
  lemma {:induction false} ThreeGigabytes(t: VmTree, n: VmNode, flags: nat)
    requires DepthsExact(t) && RegionsOf(t) == BootRegions()
    ensures THREE_GIB < A.BOOT_HEAP.size && !OnCourse(t, A.BOOT_HEAP.start + THREE_GIB)
    ensures !Tiles(RegionsOf(SplitTree(t, 1, n, THREE_GIB, Regular, flags)), LO, HI)
  {
    var s, l := RegionsOf(t), |InOrder(t.left)|;
    BootLaid();
    assert s[0] == A.BOOT_SLAB && s[1] == A.BOOT_HEAP && InOrder(t)[1].data == s[1];
    assert t.entry == InOrder(t)[l] && t.entry.data == s[l];
    assert ToInt(A.BOOT_SLAB.start - (A.BOOT_HEAP.start + THREE_GIB)) > 0;
    assert ToInt(A.BOOT_HEAP.start - (A.BOOT_HEAP.start + THREE_GIB)) > 0;
    SplitTilesWhen(t, 1, n, THREE_GIB, Regular, flags, LO, HI);
  }

  /** The page it is, and the only page of that region. */
  lemma {:induction false} FirstPage()
    ensures AddrOf(V.PageOf(PAGE_AT)) == PAGE_AT && V.PageOf(PAGE_AT) < PAGES
    ensures forall p: nat :: Covers(FIRST, AddrOf(p)) <==> p == V.PageOf(PAGE_AT)
  {
    AddrOfPage(PAGE_AT);
  }

  /** After the allocation. */
  ghost predicate Handed(k: Kernel, reserved: set<nat>)
    reads k, k.vma, k.vma.heap, k.vma.mmio, Nodes(k.vma.heap.shape), Nodes(k.vma.mmio.shape)
    reads k.tables, k.tables.pmm.bitmap, k.tables.pmm.ram
  {
    && k.Valid() && k.vma.heap.lo == LO && k.vma.heap.hi == HI && k.Heap() == FirstRegions()
    && Balanced(k.vma.heap.shape)
    && Sound(k.tables.ViewOf(), k.Heap(), LO, HI, reserved) && V.PageOf(LO) in Mapping(k.tables.ViewOf())
  }

  /** The page table of the page, the page directory above it, and the directory above that. */
  const FIRST_TABLE := Key(3, 0x7FF_DBFF)
  const FIRST_DIR := Key(2, 0x3_FFED)
  const FIRST_TOP := Key(1, 0x1FF)

  lemma {:induction false} FirstTables()
    ensures var p := V.PageOf(PAGE_AT);
      TableOf(p, 1) == FIRST_TOP && TableOf(p, 2) == FIRST_DIR && TableOf(p, 3) == FIRST_TABLE
    ensures var p := V.PageOf(LO); TableOf(p, 1) == FIRST_TOP && TableOf(p, 2) == FIRST_DIR
  {
  }

  /** The page has its page table. The slab page next to it does not need that table: it is the last page of
  its own. */
  ghost predicate FirstTabled(v: View) { FIRST_TABLE in v.tab }

  /** The page shares all its tables but the last with the slab page. */
  lemma {:induction false} NextToSlab(v: View)
    requires Framed(v) && V.PageOf(LO) in Mapping(v)
    ensures Needs(v.tab, V.PageOf(PAGE_AT), LEVELS) == if FirstTabled(v) then 0 else 1
  {
    FirstTables();
    TabledPage(v, V.PageOf(LO));
    V.AncestorsOf(v, V.PageOf(LO));
    NeedsOnlyLast(v.tab, V.PageOf(PAGE_AT));
  }

  lemma {:induction false} NeedsOnlyLast(tab: map<Key, nat>, page: nat)
    requires TableOf(page, 1) in tab && TableOf(page, 2) in tab
    ensures Needs(tab, page, LEVELS) == if TableOf(page, 3) in tab then 0 else 1
  {
    assert Needs(tab, page, 1) == 0;
    assert Needs(tab, page, 2) == 0;
    assert Needs(tab, page, 3) == if TableOf(page, 3) in tab then 0 else 1;
  }

  lemma {:induction false} FirstAffordable(v: View)
    requires Framed(v) && V.PageOf(LO) in Mapping(v)
    ensures Affordable(v, PAGE_AT) <==> V.Left(v) >= if FirstTabled(v) then 1 else 2
  {
    NextToSlab(v);
  }

  ghost predicate FirstMapped(k: Kernel)
    requires k.tables.Valid()
    reads k, k.tables, k.tables.pmm.bitmap, k.tables.pmm.ram
  {
    V.PageOf(PAGE_AT) in Mapping(k.tables.ViewOf())
  }

  /** One page from the new heap. */
  method AllocateFirst(k: Kernel, ghost reserved: set<nat>) returns (addr: nat)
    requires Booted(k, reserved)
    modifies k.vma.Repr()
    ensures addr == PAGE_AT && Handed(k, reserved) && !FirstMapped(k)
  {
    BootLaid();
    FirstPage();
    BootSearch(k.vma.heap.shape);
    FirstCarved();
    ghost var s := k.Books();
    FreeIsUntouched(s, reserved, LO, HI, 1, V.PageOf(PAGE_AT));
    var r;
    ghost var j;
    r, j := k.Allocate(PAGE_SIZE, SLAB_FLAGS);
    assert j == 1;
    AllocateKeeps(s, j, PAGE_SIZE, SLAB_FLAGS, k.Books(), reserved);
    addr := r.start;
  }

  /** The first access to the page: it takes one frame, and one for a page table if that is missing, and is served
  exactly when they are left. */
  method TouchFirst(k: Kernel, ghost reserved: set<nat>) returns (r: FaultResult)
    requires Handed(k, reserved) && !FirstMapped(k)
    modifies k.tables`tab, k.tables.pmm`used, k.tables.pmm.bitmap, k.tables.pmm.ram
    ensures r.Handled? <==> V.Left(old(k.tables.ViewOf())) >= if FirstTabled(old(k.tables.ViewOf())) then 1 else 2
    ensures !r.Rejected? && (r.Handled? ==> Handed(k, reserved) && FirstMapped(k))
    ensures r.Handled? ==> PW.Sees(k.tables.ViewOf(), V.PageOf(PAGE_AT)) == PW.Access(r.frame, true, false, false)
  {
    ghost var v0 := k.tables.ViewOf();
    FirstAffordable(v0);
    FirstServing();
    r := k.DemandPage(PAGE_AT);
    if r.Handled? {
      FirstServed(v0, k.tables.ViewOf(), r.frame, reserved);
      FirstSeen(v0, k.tables.ViewOf(), r.frame);
    }
  }

  /** The processor lets the kernel write to the page, and nothing be run from it. */
  lemma {:induction false} FirstSeen(v0: View, v: View, f: nat)
    requires Served(v0, v, FirstRegions(), LO, HI, PAGE_AT, f) && V.PageOf(PAGE_AT) !in Mapping(v0)
    ensures PW.Sees(v, V.PageOf(PAGE_AT)) == PW.Access(f, true, false, false)
  {
    var q := ServedGrants(v0, v, FirstRegions(), LO, HI, PAGE_AT, f);
    FirstOnly(q);
    SlabAsks(f);
  }

  lemma {:induction false} FirstOnly(q: Region)
    requires Serving(FirstRegions(), q, PAGE_AT)
    ensures q == FIRST
  {
  }

  lemma {:induction false} SlabAsks(f: nat)
    ensures PW.Asked(f, SLAB_FLAGS) == PW.Access(f, true, false, false)
  {
  }

  lemma {:induction false} FirstServing()
    ensures Serving(FirstRegions(), FIRST, PAGE_AT)
    ensures forall i :: 0 <= i < |FirstRegions()| ==> !V.Flag(FirstRegions()[i].flags, 0x10)
  {
    assert FirstRegions()[1] == FIRST;
  }

  lemma {:induction false} FirstServed(v0: View, v: View, f: nat, reserved: set<nat>)
    requires Sound(v0, FirstRegions(), LO, HI, reserved) && Served(v0, v, FirstRegions(), LO, HI, PAGE_AT, f)
    requires V.PageOf(PAGE_AT) !in Mapping(v0) && V.PageOf(LO) in Mapping(v0)
    ensures Sound(v, FirstRegions(), LO, HI, reserved) && V.PageOf(LO) in Mapping(v) && V.PageOf(PAGE_AT) in Mapping(v)
  {
    var r := FirstRegions();
    TouchKeeps(BooksOf(v0, r, LO, HI), V.PageOf(PAGE_AT), f, BooksOf(v, r, LO, HI), reserved);
  }

  lemma {:induction false} OrderedAll(t: VmTree, addr: nat)
    requires forall i :: 0 <= i < |InOrder(t)| ==> OrderedRight(InOrder(t)[i].data.start, addr)
    ensures AllOrdered(t, addr)
    ensures Starts(t, addr) <==> exists i :: 0 <= i < |InOrder(t)| && InOrder(t)[i].data.start == addr
  {
    if t.Branch? {
      var s, n := InOrder(t), |InOrder(t.left)|;
      assert forall i :: 0 <= i < n ==> s[i] == InOrder(t.left)[i];
      assert s[n] == t.entry;
      assert forall i :: 0 <= i < |InOrder(t.right)| ==> s[n + 1 + i] == InOrder(t.right)[i];
      OrderedAll(t.left, addr);
      OrderedAll(t.right, addr);
    }
  }

  /** The free finds the region. */
  lemma {:induction false} FirstFound(t: VmTree)
    requires RegionsOf(t) == FirstRegions()
    ensures var w := Search(t, ProbeAddr(PAGE_AT));
      w.Branch? && w.entry in InOrder(t) && w.entry.data == FIRST && PosOf(t, w.entry) == 1
  {
    var s := InOrder(t);
    FirstCarved();
    assert |s| == 3 && s[0].data == RegionsOf(t)[0] && s[1].data == RegionsOf(t)[1] && s[2].data == RegionsOf(t)[2];
    OrderedAll(t, PAGE_AT);
    TilesTree(t, LO, HI);
    AddrFinds(t, PAGE_AT, LO, HI);
    SearchMember(t, ProbeAddr(PAGE_AT));
  }

  /** Three nodes in balance: the last is a leaf on the right, and comes out. */
  lemma {:induction false} LastComesOut(t: VmTree)
    requires Balanced(t) && RegionsOf(t) == FirstRegions()
    ensures VF.ReleaseFits(t, 1)
    ensures DepthsExact(t) && E.DistinctNodes(InOrder(t)) ==> VL.ReleaseStays(t, 1)
  {
    var d := RegionsOf(t);
    assert |InOrder(t)| == 3;
    ThreeNodes(t);
    assert FocusAt(Top, t, 2) == FocusAt(InRight(Top, t.left, t.entry, t.depth, t.aug), t.right, 0);
  }

  lemma {:induction false} ThreeNodes<E, B>(t: Tree<E, B>)
    requires Balanced(t) && |InOrder(t)| == 3
    ensures Alone(t.left) && Alone(t.right)
  {
    Sizes(t.left);
    Sizes(t.right);
  }

  lemma {:induction false} Sizes<E, B>(t: Tree<E, B>)
    ensures Height(t) >= -1 && (|InOrder(t)| == 1 ==> Alone(t)) && (|InOrder(t)| > 1 ==> Height(t) >= 1)
    ensures Height(t) == -1 <==> t.Leaf?
  {
    if t.Branch? {
      Sizes(t.left);
      Sizes(t.right);
    }
  }

  /** And its free: it goes through, and the heap is what it was but for the flags. */
  method FreeFirst(k: Kernel, ghost reserved: set<nat>) returns (r: FreeOutcome)
    requires Handed(k, reserved) && FirstMapped(k)
    modifies k.vma, k.vma.heap, Nodes(k.vma.heap.shape)
    modifies k.tables`tab, k.tables.pmm`used, k.tables.pmm.bitmap, k.tables.pmm.ram
    ensures r == Freed && k.Valid() && k.Heap() == BootRegions()[1 := A.BOOT_HEAP.(flags := SLAB_FLAGS)]
    ensures Balanced(k.vma.heap.shape)
  {
    FirstFound(k.vma.heap.shape);
    LastComesOut(k.vma.heap.shape);
    FirstPage();
    FirstMerges();
    ghost var j;
    r, j := k.Free(PAGE_AT, reserved);
  }

  lemma {:induction false} FirstMerges()
    ensures Release(FirstRegions(), 1) == BootRegions()[1 := A.BOOT_HEAP.(flags := SLAB_FLAGS)]
  {
  }

  /** Freed before it was ever touched, the page gives frame 0 back, and no account of the frames is sound any
  more. Only where its page table is missing and no frame is left for one does the lookup before it fail. */
  method FreeUntouched(k: Kernel, ghost reserved: set<nat>) returns (r: FreeOutcome)
    requires Handed(k, reserved) && !FirstMapped(k)
    modifies k.vma, k.vma.heap, Nodes(k.vma.heap.shape)
    modifies k.tables`tab, k.tables.pmm`used, k.tables.pmm.bitmap, k.tables.pmm.ram
    ensures r ==
      if FirstTabled(old(k.tables.ViewOf())) || V.Left(old(k.tables.ViewOf())) > 0 then NeverTouched(0) else NoFrames(0)
    ensures r == NeverTouched(0) ==> ZeroLost(k.tables.pmm.Used()) && Unsound(k.tables.pmm.Used(), reserved)
  {
    ghost var v0 := k.tables.ViewOf();
    FirstFound(k.vma.heap.shape);
    FirstUntouched(v0);
    ghost var j;
    r, j := k.Free(PAGE_AT, reserved);
    StopsAtFirst(v0, k.tables.pmm.Used(), r);
  }

  lemma {:induction false} FirstUntouched(v: View)
    requires Framed(v) && V.PageOf(PAGE_AT) !in Mapping(v)
    ensures !Touched(BooksOf(v, FirstRegions(), LO, HI), FIRST)
  {
    FirstPage();
  }

  /** The region has one page, so there the free stops, and how is told by its page table and the frames left. */
  lemma {:induction false} StopsAtFirst(v0: View, used: seq<bool>, r: FreeOutcome)
    requires Framed(v0) && V.PageOf(LO) in Mapping(v0) && (r.NeverTouched? || r.NoFrames?)
    requires StoppedIn(v0, used, FIRST, LO, HI, r.at, r.NeverTouched?)
    ensures r == if FirstTabled(v0) || V.Left(v0) > 0 then NeverTouched(0) else NoFrames(0)
    ensures r.NeverTouched? ==> ZeroLost(used)
  {
    FirstSpan();
    NextToSlab(v0);
    V.CountBound(v0.used);
  }

  lemma {:induction false} FirstSpan()
    ensures Ownership.FirstPage(FIRST) == V.PageOf(PAGE_AT) && PageCount(FIRST) == 1
  {
  }
}
