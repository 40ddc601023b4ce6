/** The kernel heap as a whole: the region trees of `memory/vma.c` over the page tables of
`memory/vmm.c` over the frames of `memory/pmm.c`. */
module KernelHeap {
  import opened Arith
  import Seqs
  import opened AvlTree
  import opened AvlInsert
  import opened AvlNodes
  import opened AvlWalks
  import opened PageEntry
  import opened PageTree
  import opened TablePath
  import opened Regions
  import opened VmaTree
  import VF = VmaFree
  import VC = VmaCache
  import VL = VmaLevel
  import opened VmaSpace
  import opened Ownership
  import opened Books
  import E = AvlErase
  import A = Vma
  import P = Pmm
  import PW = PageWalk
  import V = Vmm

  const USER_LIMIT: nat := 0x8000_0000_0000

  datatype FaultResult =
    | Rejected           // returns 1: not an address demand paging serves
    | Handled(frame: nat)
    | OutOfFrames        // no frame left: the code would go on with frame 0

  /** The address a frame starts at. */
  lemma {:induction false} FrameAddr(f: nat)
    requires f < FRAME_LIMIT
    ensures f * P.FRAME_SIZE < U64 && f * P.FRAME_SIZE / P.FRAME_SIZE % FRAME_LIMIT == f && V.FrameAt(f, 0) == f
  {
  }

  /** The frames left cover what a fault takes: one for the page and one for every table missing on the way
  to it. */
  ghost predicate Affordable(v: View, addr: nat) { 1 + Needs(v.tab, V.PageOf(addr), LEVELS) <= V.Left(v) }

  /** Four frames always do. */
  lemma {:induction false} FourSuffice(v: View, addr: nat)
    requires V.Left(v) >= 4
    ensures Affordable(v, addr)
  {
    NeedsAtMost(v.tab, V.PageOf(addr), LEVELS);
  }

  /** From `v0` to `v` a free frame `f` was taken and bound to the page of `addr`, unless that was bound; the
  tables this took are all that came besides. */
  ghost predicate Fetched(v0: View, v: View, addr: nat, flags: nat, f: nat) {
    && WellFormed(v0) && WellFormed(v) && 0 < f < |v0.used| && !v0.used[f] && V.Extends(Grown(v0, f), v)
    && Mapping(v) == if V.PageOf(addr) in Mapping(v0) then Mapping(v0)
                     else Mapping(v0)[V.PageOf(addr) := V.LeafEntry(f, flags)]
  }

  /** Lines 55-57: a frame for the page of `addr`. When the page is mapped already, the frame taken
  is bound to nothing. */
  method Back(t: V.PageTables, addr: nat, flags: nat) returns (r: FaultResult)
    requires t.Valid() && addr < U64 && !V.Flag(flags, 0x10)
    modifies t`tab, t.pmm`used, t.pmm.bitmap, t.pmm.ram
    ensures !r.Rejected? && (r.Handled? <==> Affordable(old(t.ViewOf()), addr))
    ensures r.Handled? ==> t.Valid() && Fetched(old(t.ViewOf()), t.ViewOf(), addr, flags, r.frame)
  {
    ghost var v0 := t.ViewOf();
    var f, ok := t.NewFrame();
    if !ok { return OutOfFrames; }
    SameLeavesMapping(v0, t.ViewOf());
    NeedsMissing(v0.tab, V.PageOf(addr));
    var m := MapFrame(t, addr, f, flags);
    r := if m then Handled(f) else OutOfFrames;
  }

  /** One page bound to frame `f`, unless it is mapped already. */
  method MapFrame(t: V.PageTables, addr: nat, f: nat, flags: nat) returns (ok: bool)
    requires t.Valid() && addr < U64 && !V.Flag(flags, 0x10) && f < FRAME_LIMIT
    modifies t`tab, t.pmm`used, t.pmm.bitmap, t.pmm.ram
    ensures ok <==> Missing(old(t.tab), PathKeys(V.PageOf(addr))) <= V.Left(old(t.ViewOf()))
    ensures ok ==>
      && t.Valid() && V.Extends(old(t.ViewOf()), t.ViewOf())
      && Mapping(t.ViewOf()) ==
           old(if V.PageOf(addr) in Mapping(t.ViewOf()) then Mapping(t.ViewOf())
               else Mapping(t.ViewOf())[V.PageOf(addr) := V.LeafEntry(f, flags)])
  {
    ghost var v0 := t.ViewOf();
    FrameAddr(f);
    var m := t.Map(addr, f * P.FRAME_SIZE, 1, flags);
    MapOneCame(v0, t.ViewOf(), addr, f, flags, m);
    ok := !m.NoFrame?;
  }

  lemma {:induction false} MapOneCame(v0: View, v: View, addr: nat, f: nat, flags: nat, r: V.MapResult)
    requires Framed(v0) && f < FRAME_LIMIT && !r.InvalidCount? && V.MapCame(v0, v, V.PageOf(addr), f, flags, 1, r)
    ensures r.NoFrame? <==> Missing(v0.tab, PathKeys(V.PageOf(addr))) > V.Left(v0)
    ensures !r.NoFrame? ==>
      && Framed(v) && V.Extends(v0, v)
      && Mapping(v) == if V.PageOf(addr) in Mapping(v0) then Mapping(v0)
                       else Mapping(v0)[V.PageOf(addr) := V.LeafEntry(f, flags)]
  {
    V.TablesOne(V.PageOf(addr));
    V.PageAtStart(addr);
    FrameAddr(f);
    OneCame(v0, v, V.PageOf(addr), f, flags, r, PathKeys(V.PageOf(addr)));
  }

  lemma {:induction false} OneCame(v0: View, v: View, page: nat, f: nat, flags: nat, r: V.MapResult, keys: set<Key>)
    requires Framed(v0) && !r.InvalidCount? && V.MapCame(v0, v, page, f, flags, 1, r)
    requires V.PageAt(page, 0) == page && V.FrameAt(f, 0) == f && keys == V.TablesFrom(page, 1)
    ensures r.NoFrame? <==> Missing(v0.tab, keys) > V.Left(v0)
    ensures !r.NoFrame? ==>
      && Framed(v) && V.Extends(v0, v)
      && Mapping(v) == if page in Mapping(v0) then Mapping(v0) else Mapping(v0)[page := V.LeafEntry(f, flags)]
  {
    V.MapAfterNext(Mapping(v0), page, f, flags, 0);
    match r
    case NoFrame(i) => OneShort(v0, page, i, keys);
    case Exists(i) => OneExists(v0, v, page, f, flags, i, keys);
    case Success => V.BuiltFits(v0, v, keys); assert page !in Mapping(v0);
  }

  lemma {:induction false} OneShort(v: View, page: nat, i: nat, keys: set<Key>)
    requires i < 1 && V.RunsShort(v, page, i) && keys == V.TablesFrom(page, 1)
    ensures Missing(v.tab, keys) > V.Left(v)
  {
  }

  lemma {:induction false} OneExists(v0: View, v: View, page: nat, f: nat, flags: nat, i: nat, keys: set<Key>)
    requires Framed(v0) && i < 1 && V.Clashes(v0, v, page, f, flags, i) && V.PageAt(page, 0) == page &&
      keys == V.TablesFrom(page, 1)
    ensures page in Mapping(v0) && V.Staged(v0, v, Mapping(v0), keys) && Missing(v0.tab, keys) <= V.Left(v0)
  {
    assert V.Clashes(v0, v, page, f, flags, 0);
    V.BuiltFits(v0, v, keys);
  }

  /** `q` is the region that demand paging serves `addr` from. */
  ghost predicate Serving(regions: seq<Region>, q: Region, addr: nat) {
    q in regions && q.kind == Regular && Covers(q, addr)
  }

  ghost predicate Servable(regions: seq<Region>, addr: nat) {
    exists q :: Serving(regions, q, addr)
  }

  lemma {:induction false} NotServing(regions: seq<Region>, lo: nat, hi: nat, addr: nat)
    requires Laid(regions, lo, hi) && !(lo <= addr < hi)
    ensures !Servable(regions, addr)
  {
    forall q | q in regions ensures !Covers(q, addr) {
      var i :| 0 <= i < |regions| && regions[i] == q;
      TilesFrom(regions, lo, hi, i);
      TilesUpTo(regions, lo, hi, i);
    }
  }

  lemma {:induction false} OneServes(regions: seq<Region>, lo: nat, hi: nat, addr: nat, q: Region)
    requires Laid(regions, lo, hi) && q in regions && Covers(q, addr)
    ensures Servable(regions, addr) <==> q.kind == Regular
  {
    if b :| Serving(regions, b, addr) {
      var i :| 0 <= i < |regions| && regions[i] == q;
      var j :| 0 <= j < |regions| && regions[j] == b;
      CoverUnique(regions, lo, hi, i, j, addr);
    }
    if q.kind == Regular { assert Serving(regions, q, addr); }
  }

  /** The region an address of the window lies in (line 42). */
  function RegionFor(sp: Space, addr: nat): (n: VmLink)
    requires sp.Valid() && Laid(RegionsOf(sp.shape), sp.lo, sp.hi)
    reads sp, Nodes(sp.shape)
    ensures n == null <==> !(sp.lo <= addr < sp.hi)
    ensures n != null ==> n in Nodes(sp.shape) && n.data in RegionsOf(sp.shape) && Covers(n.data, addr)
  {
    RegionForFinds(sp, addr);
    GetNode(sp.root, ProbeCover(addr), sp.shape, null)
  }

  lemma {:induction false} RegionForFinds(sp: Space, addr: nat)
    requires sp.Valid() && Laid(RegionsOf(sp.shape), sp.lo, sp.hi)
    ensures var n := RootOf(Search(sp.shape, ProbeCover(addr)));
      if sp.lo <= addr < sp.hi
      then n != null && n in Nodes(sp.shape) && n.data in RegionsOf(sp.shape) && Covers(n.data, addr)
      else n == null
  {
    CoverFinds(sp.shape, addr, sp.lo, sp.hi);
    var t := Search(sp.shape, ProbeCover(addr));
    if t.Branch? {
      RepData(sp.shape, sp.root, null, t.entry);
      var i :| 0 <= i < |InOrder(sp.shape)| && InOrder(sp.shape)[i] == t.entry;
      assert RegionsOf(sp.shape)[i] == t.entry.data;
    }
  }

  /** What a served fault has done: the page of `addr` is bound to frame `f`, zeroed and fresh, with the
  flags of its region. A page that was mapped already stays as it was. */
  ghost predicate Served(v0: View, v1: View, regions: seq<Region>, lo: nat, hi: nat, addr: nat, f: nat) {
    && WellFormed(v0) && WellFormed(v1) && f < |v1.mem| && v1.mem[f] == ZeroFrame()
    && var p := V.PageOf(addr);
      if p in Mapping(v0) then Mapping(v1) == Mapping(v0)
      else
        && Touches(BooksOf(v0, regions, lo, hi), p, f, BooksOf(v1, regions, lo, hi))
        && exists q :: Serving(regions, q, addr) && Mapping(v1) == Mapping(v0)[p := V.LeafEntry(f, q.flags)]
  }

  /** The processor then lets the page be used as its region's flags say, and sees every other page as before. */
  lemma {:induction false} ServedGrants(v0: View, v1: View, regions: seq<Region>, lo: nat, hi: nat, addr: nat, f: nat)
    returns (q: Region)
    requires Served(v0, v1, regions, lo, hi, addr, f) && V.PageOf(addr) !in Mapping(v0)
    ensures Serving(regions, q, addr) && PW.Sees(v1, V.PageOf(addr)) == PW.Asked(f, q.flags)
    ensures forall p: nat :: p < PAGES && p != V.PageOf(addr) ==> PW.Sees(v1, p) == PW.Sees(v0, p)
  {
    var page := V.PageOf(addr);
    q :| Serving(regions, q, addr) && Mapping(v1) == Mapping(v0)[page := V.LeafEntry(f, q.flags)];
    PW.TouchGrants(v0, v1, page, f, q.flags, page);
    forall p: nat | p < PAGES && p != page ensures PW.Sees(v1, p) == PW.Sees(v0, p) {
      PW.TouchGrants(v0, v1, page, f, q.flags, p);
    }
  }

  lemma {:induction false} FreshIsZero(v0: View, f: nat, v1: View)
    requires WellFormed(v0) && 0 < f < |v0.used| && !v0.used[f] && WellFormed(v1) && V.Extends(Grown(v0, f), v1)
    ensures v1.mem[f] == ZeroFrame()
  {
    TablesGrow(v0, f, v1);
    assert v1.mem[f] == Grown(v0, f).mem[f];
  }

  lemma {:induction false} Serves(v0: View, v1: View, regions: seq<Region>, lo: nat, hi: nat, addr: nat, f: nat,
      q: Region)
    requires Fetched(v0, v1, addr, q.flags, f) && Laid(regions, lo, hi) && Serving(regions, q, addr)
    ensures Served(v0, v1, regions, lo, hi, addr, f)
  {
    FreshIsZero(v0, f, v1);
    if V.PageOf(addr) !in Mapping(v0) {
      BackedPage(regions, lo, hi, addr, q);
      TouchBooks(v0, f, v1, V.PageOf(addr), V.LeafEntry(f, q.flags), regions, lo, hi);
    }
  }

  /** Regions are whole pages, so the page of an address lies in the address's region. */
  lemma {:induction false} BackedPage(regions: seq<Region>, lo: nat, hi: nat, addr: nat, q: Region)
    requires Laid(regions, lo, hi) && Serving(regions, q, addr)
    ensures lo <= AddrOf(V.PageOf(addr)) < hi && Backed(regions, V.PageOf(addr))
  {
    var i :| 0 <= i < |regions| && regions[i] == q;
    TilesFrom(regions, lo, hi, i);
    TilesUpTo(regions, lo, hi, i);
    AddrOfPage(addr);
    WholePage(q, V.PageOf(addr), addr);
  }

  lemma {:induction false} WholePage(q: Region, p: nat, addr: nat)
    requires WholePages(q) && q.start >= HIGH && Covers(q, addr) && AddrOf(p) <= addr < AddrOf(p) + PAGE_SIZE
    ensures Covers(q, AddrOf(p))
  {
    PagesOfRegion(q, p);
  }

  // ----- the backing of a region goes -----

  datatype BackingResult =
    | Dropped
    | FrameZero(at: nat) // this page was never touched, and frame 0 given back for it
    | NoTable(at: nat)   // nor this one, and its lookup found no frame for a table it needed

  datatype PageFate = Given | ZeroGiven | Unresolved

  /** The ledger knows the page exactly as the tables do. */
  ghost predicate Agree(m: map<nat, Entry>, pages: map<nat, nat>, p: nat) {
    (p in m <==> p in pages) && (p in m ==> m[p].frame == pages[p])
  }

  ghost predicate Owned(v: View, f: nat) {
    0 < f < |v.used| && v.used[f] && f !in TableFrames(v)
  }

  /** If the page is mapped, then to the frame the ledger has for it, and that may be given back. */
  ghost predicate Freeable(v: View, pages: map<nat, nat>, p: nat)
    requires Framed(v)
  {
    Agree(Mapping(v), pages, p) && (p in pages ==> Owned(v, pages[p]))
  }

  /** Frame 0 is no longer in use. */
  ghost predicate ZeroLost(used: seq<bool>) { |used| > 0 && !used[0] }

  /** Lines 216-217: the frame behind one page. The lookup of a page that was never touched answers frame 0,
  which is then given back; the tables it is missing are made first, if there are frames for them. */
  method FreePage(t: V.PageTables, addr: nat, ghost p: nat, ghost pages: map<nat, nat>) returns (r: PageFate)
    requires t.Valid() && addr < U64 && addr % PAGE_SIZE == 0 && V.PageOf(addr) == p
    requires Freeable(t.ViewOf(), pages, p)
    modifies t`tab, t.pmm`used, t.pmm.bitmap, t.pmm.ram
    ensures r.Given? <==> p in pages
    ensures r.Given? ==> t.Valid() && t.ViewOf() == Without(old(t.ViewOf()), pages[p])
    ensures p !in pages ==> (r.ZeroGiven? <==> Needs(old(t.tab), p, LEVELS) <= V.Left(old(t.ViewOf())))
    ensures r.ZeroGiven? ==> ZeroLost(t.pmm.Used())
  {
    ghost var v := t.ViewOf();
    PhysicalFrame(Mapping(v), addr);
    NeedsMissing(t.tab, p);
    if p in Mapping(v) { TabledPage(v, p); }
    var phys, found := t.GetPhysical(addr);
    if !found { return Unresolved; }
    if phys / PAGE_SIZE != 0 {
      FrameBelow(phys, pages[p]);
      FreeFrame(t, phys, pages[p]);
      r := Given;
    } else {
      FreeZero(t, phys);
      r := ZeroGiven;
    }
  }

  /** Line 217, for the answer of a lookup that found nothing. */
  method FreeZero(t: V.PageTables, phys: nat)
    requires t.Valid() && phys < PAGE_SIZE
    modifies t.pmm.bitmap
    ensures ZeroLost(t.pmm.Used())
  {
    FreeOne(t.pmm, phys, 0);
  }

  /** Line 217: one frame in use. */
  method FreeOne(pmm: P.FrameAllocator, phys: nat, ghost f: nat)
    requires pmm.Valid() && phys < U64 && phys / P.FRAME_SIZE == f < pmm.frames && pmm.Used()[f]
    modifies pmm.bitmap
    ensures pmm.Used() == old(pmm.Used())[f := false]
  {
    Seqs.FilledOne(pmm.Used(), f, false);
    SumWraps(f, 1);
    var freed := pmm.FreeFrames(phys, 1);
  }

  lemma {:induction false} FrameBelow(phys: nat, f: nat)
    requires phys / PAGE_SIZE == f < FRAME_LIMIT
    ensures phys < U64
  {
  }

  lemma {:induction false} PhysicalFrame(m: map<nat, Entry>, addr: nat)
    requires addr % PAGE_SIZE == 0
    ensures V.Translate(m, addr) / PAGE_SIZE == if V.PageOf(addr) in m then m[V.PageOf(addr)].frame else 0
  {
  }

  /** Line 217, for a frame that holds no table. */
  method FreeFrame(t: V.PageTables, phys: nat, ghost f: nat)
    requires t.Valid() && phys < U64 && phys / PAGE_SIZE == f && Owned(t.ViewOf(), f)
    modifies t.pmm.bitmap
    ensures t.Valid() && t.ViewOf() == old(Without(t.ViewOf(), f))
  {
    WithoutKeeps(t.ViewOf(), f);
    FreeOne(t.pmm, phys, f);
  }

  /** The view once a frame has been given back. */
  ghost function Without(v: View, f: nat): View {
    if f < |v.used| then v.(used := v.used[f := false]) else v
  }

  lemma {:induction false} TabledPage(v: View, p: nat)
    requires Framed(v) && p in Mapping(v)
    ensures TableOf(p, 3) in v.tab
  {
  }

  lemma {:induction false} WithoutKeeps(v: View, f: nat)
    requires WellFormed(v) && V.Clean(v) && 0 < f < |v.used| && f !in TableFrames(v)
    ensures WellFormed(Without(v, f)) && V.Clean(Without(v, f)) && Mapping(Without(v, f)) == Mapping(v)
  {
    forall x | x in TableFrames(v) ensures v.used[x] {
      var k :| k in v.tab && v.tab[k] == x;
    }
    FreedFramed(v, v.used[f := false]);
    SameLeavesMapping(v, Without(v, f));
  }

  /** The heap window is tiled and every frame has one owner. */
  ghost predicate Sound(v: View, regions: seq<Region>, lo: nat, hi: nat, reserved: set<nat>) {
    WellFormed(v) && Laid(regions, lo, hi) && Inv(BooksOf(v, regions, lo, hi), reserved) && 0 in reserved
  }

  /** The pages of a region of the window: their numbers fit, and the window holds them. */
  lemma {:induction false} RegionPage(regions: seq<Region>, lo: nat, hi: nat, j: int, i: nat)
    requires Laid(regions, lo, hi) && 0 <= j < |regions| && regions[j].start >= HIGH && i < PageCount(regions[j])
    ensures var p := FirstPage(regions[j]) + i;
      p < PAGES && lo <= AddrOf(p) < hi && Covers(regions[j], AddrOf(p)) && V.PageOf(AddrOf(p)) == p && AddrOf(p) < U64
  {
    var r, p := regions[j], FirstPage(regions[j]) + i;
    TilesFrom(regions, lo, hi, j);
    TilesUpTo(regions, lo, hi, j);
    PagesOfRegion(r, p);
    assert AddrOf(p) < WORD;
    PageOfAddr(p);
  }

  /** `v` is `v0` with the frames of the first `i` pages given back. */
  ghost predicate FreedTo(v0: View, v: View, pages: map<nat, nat>, first: nat, i: nat) {
    Behind(pages, first, i, |v0.used|) && v == v0.(used := FreedUpTo(v0.used, pages, first, i))
  }

  lemma {:induction false} PageFreed(v0: View, v: View, pages: map<nat, nat>, first: nat, i: nat, f: nat)
    requires FreedTo(v0, v, pages, first, i) && first + i in pages && pages[first + i] == f < |v0.used|
    ensures FreedTo(v0, Without(v, f), pages, first, i + 1)
  {
  }

  /** The address the loop has reached is that of a page still to come. */
  lemma {:induction false} PageHere(first: nat, n: nat, i: nat)
    requires AddrOf(first + n) < U64 && i < n
    ensures AddrOf(first + i) < U64 && AddrOf(first + i) % PAGE_SIZE == 0 && V.PageOf(AddrOf(first + i)) == first + i
  {
    PageOfAddr(first + i);
  }

  lemma {:induction false} NextBefore(first: nat, n: nat, i: nat, cur: nat, end: nat)
    requires cur == AddrOf(first + i) && end == AddrOf(first + n)
    ensures cur + PAGE_SIZE < end <==> i + 1 < n
  {
  }

  lemma {:induction false} PagesBefore(first: nat, n: nat, i: nat)
    ensures AddrOf(first + i) < AddrOf(first + n) <==> i < n
  {
  }

  /** Page `p` is mapped as the ledger says, if at all, and shares its frame with no earlier page. */
  ghost predicate Own(v: View, pages: map<nat, nat>, first: nat, p: nat)
    requires Framed(v)
  {
    Freeable(v, pages, p) && (p in pages ==> forall q: nat :: first <= q < p && q in pages ==> pages[q] != pages[p])
  }

  /** So it is for each of the `n` pages from `first` on. */
  ghost predicate Droppable(v: View, pages: map<nat, nat>, first: nat, n: nat)
    requires Framed(v)
  {
    forall p: nat {:trigger Own(v, pages, first, p)} :: first <= p < first + n ==> Own(v, pages, first, p)
  }

  /** Which frames are in use does not matter to the translation. */
  lemma {:induction false} SameTranslation(v: View, w: View)
    requires Framed(v) && Framed(w) && w.tab == v.tab && w.mem == v.mem
    ensures Mapping(w) == Mapping(v)
  {
    assert SameLeaves(v, w);
  }

  lemma {:induction false} Ready(v0: View, v: View, pages: map<nat, nat>, first: nat, n: nat, i: nat)
    requires Framed(v0) && Droppable(v0, pages, first, n) && i < n
    requires Framed(v) && FreedTo(v0, v, pages, first, i)
    ensures Freeable(v, pages, first + i)
  {
    SameTranslation(v0, v);
    assert Own(v0, pages, first, first + i);
    if first + i in pages {
      FreedAt(v0.used, pages, first, i, pages[first + i]);
    }
  }

  /** Where the loop stands: `i` pages done. */
  ghost predicate Standing(v0: View, v: View, pages: map<nat, nat>, first: nat, n: nat, i: nat, cur: nat) {
    i <= n && cur == AddrOf(first + i) && FreedTo(v0, v, pages, first, i)
  }

  lemma {:induction false} StandingNext(v0: View, v: View, pages: map<nat, nat>, first: nat, n: nat, i: nat, cur: nat,
      f: nat)
    requires AddrOf(first + n) < U64 && Standing(v0, v, pages, first, n, i, cur) && i < n
    requires first + i in pages && pages[first + i] == f < |v0.used|
    ensures Standing(v0, Without(v, f), pages, first, n, i + 1, cur + PAGE_SIZE)
  {
    PageFreed(v0, v, pages, first, i, f);
  }

  /** Page `first + i` is the first of the `n` that was never touched. Its lookup goes through exactly when the
  frames left, with those of the pages before it, cover the tables it is missing; then frame 0 is lost. */
  ghost predicate StoppedAt(v0: View, used: seq<bool>, pages: map<nat, nat>, first: nat, n: nat, i: nat, found: bool) {
    && i < n && first + i !in pages && (forall p: nat :: first <= p < first + i ==> p in pages)
    && (found <==> Needs(v0.tab, first + i, LEVELS) <= V.Left(v0) + i) && (found ==> ZeroLost(used))
  }

  ghost predicate Halted(v0: View, v: View, pages: map<nat, nat>, first: nat, n: nat, res: BackingResult) {
    !res.Dropped? && StoppedAt(v0, v.used, pages, first, n, res.at, res.FrameZero?)
  }

  /** Every page before gave a frame of its own back. */
  lemma {:induction false} LeftAfter(v0: View, v: View, pages: map<nat, nat>, first: nat, n: nat, i: nat)
    requires Framed(v0) && Droppable(v0, pages, first, n) && i <= n && FreedTo(v0, v, pages, first, i)
    ensures v.tab == v0.tab && V.Left(v) == V.Left(v0) + i
  {
    forall p: nat | first <= p < first + i ensures v0.used[pages[p]] { assert Own(v0, pages, first, p); }
    forall p: nat, q: nat | first <= p < q < first + i ensures pages[p] != pages[q] { assert Own(v0, pages, first, q); }
    FreedCount(v0.used, pages, first, i);
  }

  method FreeReady(t: V.PageTables, cur: nat, ghost v0: View, ghost pages: map<nat, nat>, ghost first: nat,
      ghost n: nat, ghost i: nat)
    returns (r: PageFate)
    requires t.Valid() && Freeable(t.ViewOf(), pages, first + i) && AddrOf(first + n) < U64
    requires Standing(v0, t.ViewOf(), pages, first, n, i, cur) && i < n
    modifies t`tab, t.pmm`used, t.pmm.bitmap, t.pmm.ram
    ensures r.Given? <==> first + i in pages
    ensures r.Given? ==> t.Valid() && Standing(v0, t.ViewOf(), pages, first, n, i + 1, cur + PAGE_SIZE)
    ensures !r.Given? ==> (r.ZeroGiven? <==> Needs(old(t.tab), first + i, LEVELS) <= V.Left(old(t.ViewOf())))
    ensures r.ZeroGiven? ==> ZeroLost(t.pmm.Used())
  {
    ghost var v, p := t.ViewOf(), first + i;
    PageHere(first, n, i);
    if p in pages { StandingNext(v0, v, pages, first, n, i, cur, pages[p]); }
    r := FreePage(t, cur, p, pages);
  }

  method FreeNext(t: V.PageTables, cur: nat, i: nat, ghost v0: View, ghost pages: map<nat, nat>, ghost first: nat,
      ghost n: nat)
    returns (r: PageFate, cur': nat, i': nat)
    requires t.Valid() && Framed(v0) && Droppable(v0, pages, first, n) && AddrOf(first + n) < U64
    requires Standing(v0, t.ViewOf(), pages, first, n, i, cur) && i < n
    modifies t`tab, t.pmm`used, t.pmm.bitmap, t.pmm.ram
    ensures cur' == cur + PAGE_SIZE && i' == i + 1
    ensures r.Given? ==> t.Valid() && Standing(v0, t.ViewOf(), pages, first, n, i', cur')
    ensures !r.Given? ==> StoppedAt(v0, t.ViewOf().used, pages, first, n, i, r.ZeroGiven?)
  {
    cur', i' := cur + PAGE_SIZE, i + 1;
    ghost var v := t.ViewOf();
    Ready(v0, v, pages, first, n, i);
    r := FreeReady(t, cur, v0, pages, first, n, i);
    if !r.Given? { StopHere(v0, v, t.ViewOf().used, pages, first, n, i, r.ZeroGiven?); }
  }

  lemma {:induction false} StopHere(v0: View, v: View, used: seq<bool>, pages: map<nat, nat>, first: nat, n: nat,
      i: nat, found: bool)
    requires Framed(v0) && Droppable(v0, pages, first, n) && i < n && FreedTo(v0, v, pages, first, i) &&
      first + i !in pages
    requires (found <==> Needs(v.tab, first + i, LEVELS) <= V.Left(v)) && (found ==> ZeroLost(used))
    ensures StoppedAt(v0, used, pages, first, n, i, found)
  {
    LeftAfter(v0, v, pages, first, n, i);
  }

  /** Lines 215-218: the frames behind a region, up to the first page that was never touched. */
  method FreeFramesOf(t: V.PageTables, start: nat, size: nat, ghost pages: map<nat, nat>, ghost first: nat,
      ghost n: nat)
    returns (res: BackingResult)
    requires t.Valid() && Droppable(t.ViewOf(), pages, first, n)
    requires start == AddrOf(first) && start + size == AddrOf(first + n) < U64
    modifies t`tab, t.pmm`used, t.pmm.bitmap, t.pmm.ram
    ensures res.Dropped? ==> t.Valid() && FreedTo(old(t.ViewOf()), t.ViewOf(), pages, first, n)
    ensures !res.Dropped? ==> Halted(old(t.ViewOf()), t.ViewOf(), pages, first, n, res)
  {
    ghost var v0 := t.ViewOf();
    res := FreeLoop(t, start, start + size, v0, pages, first, n);
  }

  method FreeLoop(t: V.PageTables, start: nat, end: nat, ghost v0: View, ghost pages: map<nat, nat>, ghost first: nat,
      ghost n: nat)
    returns (res: BackingResult)
    requires t.Valid() && Framed(v0) && Droppable(v0, pages, first, n) && end == AddrOf(first + n) < U64
    requires Standing(v0, t.ViewOf(), pages, first, n, 0, start)
    modifies t`tab, t.pmm`used, t.pmm.bitmap, t.pmm.ram
    ensures res.Dropped? ==> t.Valid() && FreedTo(v0, t.ViewOf(), pages, first, n)
    ensures !res.Dropped? ==> Halted(v0, t.ViewOf(), pages, first, n, res)
  {
    var cur: nat, i: nat := start, 0;
    PagesBefore(first, n, 0);
    while cur < end
      invariant t.Valid() && Standing(v0, t.ViewOf(), pages, first, n, i, cur) && (cur < end <==> i < n)
      decreases n - i
    {
      NextBefore(first, n, i, cur, end);
      var fate, cur', i' := FreeNext(t, cur, i, v0, pages, first, n);
      if !fate.Given? { return if fate.ZeroGiven? then FrameZero(i) else NoTable(i); }
      cur, i := cur', i';
    }
    res := Dropped;
  }

  /** What is left when the backing of `n` pages is gone. */
  ghost predicate Unbacked(v0: View, v: View, pages: map<nat, nat>, first: nat, n: nat) {
    && WellFormed(v0) && WellFormed(v) && Behind(pages, first, n, |v0.used|)
    && v.used == FreedUpTo(v0.used, pages, first, n) && v.tab == v0.tab
    && Mapping(v) == V.UnmapAfter(Mapping(v0), first, n)
  }

  /** What came of dropping the backing of the `n` pages. */
  ghost predicate Emptied(v0: View, v: View, pages: map<nat, nat>, first: nat, n: nat, res: BackingResult) {
    if res.Dropped? then Unbacked(v0, v, pages, first, n) else Halted(v0, v, pages, first, n, res)
  }

  lemma {:induction false} AllTabled(v0: View, v: View, pages: map<nat, nat>, first: nat, n: nat)
    requires Framed(v0) && FreedTo(v0, v, pages, first, n) && Droppable(v0, pages, first, n) && first + n <= PAGES
    ensures V.Tabled(v, first, n)
  {
    forall k: nat | k < n ensures TableOf(V.PageAt(first, k), 3) in v.tab {
      assert V.PageAt(first, k) == first + k;
      assert Own(v0, pages, first, first + k);
      TabledPage(v0, first + k);
    }
  }

  /** Lines 213-222 for ordinary memory. */
  method DropBacking(t: V.PageTables, start: nat, size: nat, ghost v0: View, ghost pages: map<nat, nat>,
      ghost first: nat, ghost n: nat)
    returns (res: BackingResult, ghost v: View)
    requires t.Valid() && v0 == t.ViewOf() && Droppable(v0, pages, first, n) && n > 0
    requires start == AddrOf(first) && start + size == AddrOf(first + n) < U64
    modifies t`tab, t.pmm`used, t.pmm.bitmap, t.pmm.ram
    ensures res.Dropped? ==> t.Valid()
    ensures v == t.ViewOf() && Emptied(v0, v, pages, first, n, res)
  {
    res := FreeFramesOf(t, start, size, pages, first, n);
    v := t.ViewOf();
    if !res.Dropped? { return; }
    PagesFit(first, n, start, size);
    AllTabled(v0, v, pages, first, n);
    SameTranslation(v0, v);
    var done := t.Unmap(start, size / PAGE_SIZE);
    v := t.ViewOf();
  }

  lemma {:induction false} PagesFit(first: nat, n: nat, start: nat, size: nat)
    requires start == AddrOf(first) && start + size == AddrOf(first + n) < U64
    ensures size / PAGE_SIZE == n && first + n <= PAGES && (n > 0 ==> V.PageOf(start) == first)
  {
    if n > 0 { PageOfAddr(first); }
  }

  ghost predicate Emptyable(v: View, r: Region, lo: nat, hi: nat)
    requires Framed(v)
  {
    && r.start >= HIGH && PageCount(r) > 0 && r.start == AddrOf(FirstPage(r))
    && End(r) == AddrOf(FirstPage(r) + PageCount(r)) < U64
    && Droppable(v, HeapPages(Mapping(v), lo, hi), FirstPage(r), PageCount(r))
  }

  /** In a sound heap every region's backing can be dropped page by page. */
  lemma {:induction false} SoundDroppable(v: View, regions: seq<Region>, lo: nat, hi: nat, reserved: set<nat>, j: int)
    requires Sound(v, regions, lo, hi, reserved) && 0 <= j < |regions|
    ensures Emptyable(v, regions[j], lo, hi)
  {
    var r, s := regions[j], BooksOf(v, regions, lo, hi);
    TilesFrom(regions, lo, hi, j);
    TilesUpTo(regions, lo, hi, j);
    var first, n := FirstPage(r), PageCount(r);
    RegionPages(r);
    forall p: nat | first <= p < first + n ensures Own(v, s.pages, first, p) {
      RegionPage(regions, lo, hi, j, p - first);
      PageOwn(v, s, reserved, first, p);
    }
  }

  lemma {:induction false} RegionPages(r: Region)
    requires WholePages(r) && r.start >= HIGH && r.size > 0
    ensures PageCount(r) > 0 && r.start == AddrOf(FirstPage(r)) && End(r) == AddrOf(FirstPage(r) + PageCount(r))
  {
  }

  lemma {:induction false} PageOwn(v: View, s: Ledger, reserved: set<nat>, first: nat, p: nat)
    requires Framed(v) && Inv(s, reserved) && 0 in reserved && s.used == v.used && s.tables == TableFrames(v)
    requires Agree(Mapping(v), s.pages, p)
    ensures Own(v, s.pages, first, p)
  {
    if p in s.pages { assert HeapFrame(s, s.pages[p]); }
  }

  /** Dropping the backing and releasing the region is a step of the ledger. */
  lemma {:induction false} FreeBooks(v0: View, v: View, regions: seq<Region>, lo: nat, hi: nat, j: int)
    requires Framed(v0) && Laid(regions, lo, hi) && 0 <= j < |regions| && regions[j].kind == Regular &&
      regions[j].start >= HIGH
    requires Unbacked(v0, v, HeapPages(Mapping(v0), lo, hi), FirstPage(regions[j]), PageCount(regions[j]))
    requires FirstPage(regions[j]) + PageCount(regions[j]) <= PAGES
    ensures Frees(BooksOf(v0, regions, lo, hi), j, BooksOf(v, Release(regions, j), lo, hi))
  {
    var r, s := regions[j], BooksOf(v0, regions, lo, hi);
    var first, n := FirstPage(r), PageCount(r);
    RegionSpans(regions, lo, hi, j);
    V.UnmapAfterRemoves(Mapping(v0), first, n);
    PagesRemove(Mapping(v0), r, first, n, lo, hi);
    forall g: nat | g < |s.used| ensures v.used[g] <==> s.used[g] && !Gives(s, r, g) {
      FreedGives(s, r, first, n, g);
    }
  }

  /** Every page touched: the ledger takes a step. */
  lemma {:induction false} DroppedBooks(v0: View, v: View, regions: seq<Region>, lo: nat, hi: nat, j: int)
    requires Framed(v0) && Laid(regions, lo, hi) && 0 <= j < |regions| && regions[j].kind == Regular
    requires Emptyable(v0, regions[j], lo, hi)
    requires Unbacked(v0, v, HeapPages(Mapping(v0), lo, hi), FirstPage(regions[j]), PageCount(regions[j]))
    ensures Touched(BooksOf(v0, regions, lo, hi), regions[j])
    ensures Frees(BooksOf(v0, regions, lo, hi), j, BooksOf(v, Release(regions, j), lo, hi))
  {
    PagesFit(FirstPage(regions[j]), PageCount(regions[j]), regions[j].start, regions[j].size);
    FreeBooks(v0, v, regions, lo, hi, j);
  }

  ghost predicate StoppedFor(v0: View, v: View, q: Region, lo: nat, hi: nat, res: BackingResult) {
    && Framed(v0) && q.start >= HIGH
    && Halted(v0, v, HeapPages(Mapping(v0), lo, hi), FirstPage(q), PageCount(q), res)
  }

  lemma {:induction false} StoppedUntouched(v0: View, v: View, regions: seq<Region>, lo: nat, hi: nat, j: int,
      res: BackingResult)
    requires Laid(regions, lo, hi) && 0 <= j < |regions| && StoppedFor(v0, v, regions[j], lo, hi, res)
    ensures !Touched(BooksOf(v0, regions, lo, hi), regions[j])
  {
    HaltedAt(v0, v, HeapPages(Mapping(v0), lo, hi), FirstPage(regions[j]), PageCount(regions[j]), res);
    RegionPage(regions, lo, hi, j, res.at);
  }

  lemma {:induction false} HaltedAt(v0: View, v: View, pages: map<nat, nat>, first: nat, n: nat, res: BackingResult)
    requires Halted(v0, v, pages, first, n, res)
    ensures res.at < n && first + res.at !in pages
  {
  }

  /** The regions once `size` bytes of region `j` are handed out. */
  ghost function AllocatedFrom(regions: seq<Region>, j: int, size: nat, flags: nat): seq<Region>
    requires 0 <= j < |regions|
  {
    if size == regions[j].size then regions[j := Taken(regions[j], size, Regular, flags)]
    else Carve(regions, j, size, Regular, flags)
  }

  /** The worst-fit search finds the largest free region. */
  lemma {:induction false} LargestFound(t: VmTree, lo: nat, hi: nat)
    requires AugExact(t, VmUpdate) && Tiles(RegionsOf(t), lo, hi) && MaxFree(InOrder(t)) > 0
    ensures Search(t, ProbeWorst).Branch?
    ensures var j := A.Worst(t);
      FreeAt(RegionsOf(t), j) && RegionsOf(t)[j].size == MaxFree(InOrder(t)) &&
        RegionsOf(t)[j] == Search(t, ProbeWorst).entry.data
  {
    forall i | 0 <= i < |InOrder(t)| ensures InOrder(t)[i].data.size > 0 { assert RegionsOf(t)[i].size > 0; }
    WorstFitFinds(t);
    MaxFreeBounds(InOrder(t));
    assert RegionsOf(t)[A.Worst(t)] == InOrder(t)[A.Worst(t)].data;
  }

  /** The tree once `size` bytes of the largest free region, at position `j`, are handed out. */
  ghost function HandedOut(t: VmTree, pool: seq<VmNode>, j: int, size: nat, flags: nat): VmTree
    requires DepthsExact(t) && 0 <= j < |InOrder(t)|
  {
    if size == InOrder(t)[j].data.size || pool == [] then TakeTree(t, j, size, Regular, flags)
    else SplitTree(t, j, pool[0], size, Regular, flags)
  }

  lemma {:induction false} TakenRegions(t: VmTree, j: int, size: nat, flags: nat)
    requires 0 <= j < |InOrder(t)|
    ensures RegionsOf(TakeTree(t, j, size, Regular, flags)) ==
      RegionsOf(t)[j := Taken(RegionsOf(t)[j], size, Regular, flags)]
  {
    SetAtKeeps(t, j, TakenItem(t, j, size, Regular, flags));
  }

  /** An exact fit, or a split whose rest the comparator sends to the right place. */
  ghost predicate Reaches(t: VmTree, j: int, size: nat)
    requires 0 <= j < |InOrder(t)|
  {
    size < InOrder(t)[j].data.size ==> OnCourse(t, InOrder(t)[j].data.start + size)
  }

  /** A region and a request it has room for. */
  ghost predicate Roomy(t: VmTree, j: int, size: nat, lo: nat, hi: nat) {
    && DepthsExact(t) && Tiles(RegionsOf(t), lo, hi) && hi < WORD && FreeAt(RegionsOf(t), j)
    && 0 < size <= RegionsOf(t)[j].size && Reaches(t, j, size)
  }

  lemma {:induction false} HandedOutRegions(t: VmTree, pool: seq<VmNode>, j: int, size: nat, flags: nat, lo: nat,
      hi: nat)
    requires Roomy(t, j, size, lo, hi) && (pool == [] ==> size == RegionsOf(t)[j].size)
    ensures RegionsOf(HandedOut(t, pool, j, size, flags)) == AllocatedFrom(RegionsOf(t), j, size, flags)
  {
    if size == RegionsOf(t)[j].size {
      TakenRegions(t, j, size, flags);
    } else {
      TilesUpTo(RegionsOf(t), lo, hi, j);
      SplitCarves(t, j, pool[0], size, Regular, flags, lo, hi);
    }
  }

  /** A split keeps the cached maximum exact; an exact fit does if and only if a region as large is free
  below the one taken. Either keeps the tree balanced. */
  lemma {:induction false} HandedOutCache(t: VmTree, pool: seq<VmNode>, j: int, size: nat, flags: nat, lo: nat, hi: nat)
    requires Roomy(t, j, size, lo, hi) && (pool == [] ==> size == RegionsOf(t)[j].size) && AugExact(t, VmUpdate)
    ensures AugExact(HandedOut(t, pool, j, size, flags), VmUpdate) <==>
            size < RegionsOf(t)[j].size || size <= VC.MaxBelow(t, j)
    ensures Balanced(t) ==> Balanced(HandedOut(t, pool, j, size, flags))
  {
    if size == RegionsOf(t)[j].size {
      VC.ExactFitCache(t, j, Regular, flags);
      SetAtKeeps(t, j, TakenItem(t, j, size, Regular, flags));
    } else {
      TilesUpTo(RegionsOf(t), lo, hi, j);
      SplitKeepsCache(t, j, pool[0], size, Regular, flags, lo, hi);
      if Balanced(t) { SplitKeepsBalance(t, j, pool[0], size, Regular, flags); }
    }
  }

  ghost predicate Cuttable(vma: A.Allocator, j: int)
    reads vma, vma.heap
  {
    var t := vma.heap.shape;
    DepthsExact(t) && vma.Calm() && Search(t, ProbeWorst).Branch? && j == A.Worst(t)
  }

  /** What an allocation makes of the tree and the pool. */
  ghost predicate Cut(t: VmTree, pool: seq<VmNode>, t': VmTree, pool': seq<VmNode>, size: nat, flags: nat, j: int,
      r: A.AllocResult) {
    && DepthsExact(t) && 0 <= j < |InOrder(t)|
    && !r.Null? && (r.Fault? <==> pool == [] && size != InOrder(t)[j].data.size)
    && (r.Address? ==>
          && r.start == InOrder(t)[j].data.start && t' == HandedOut(t, pool, j, size, flags)
          && pool' == if size == InOrder(t)[j].data.size then pool else pool[1..])
  }

  /** What the next call finds: a node less unless the fit was exact; the cached maximum exact unless an exact
  fit took the only region of its size in its subtree; the tree as balanced as before. */
  ghost predicate Leaves(t: VmTree, pool: seq<VmNode>, t': VmTree, pool': seq<VmNode>, size: nat, j: int) {
    && 0 <= j < |InOrder(t)| && (pool == [] ==> size == MaxFree(InOrder(t)))
    && pool' == (if size == MaxFree(InOrder(t)) then pool else pool[1..])
    && (AugExact(t', VmUpdate) <==> size < MaxFree(InOrder(t)) || size <= VC.MaxBelow(t, j))
    && (Balanced(t) ==> Balanced(t'))
  }

  lemma {:induction false} CutEffect(t: VmTree, pool: seq<VmNode>, t': VmTree, pool': seq<VmNode>, size: nat,
      flags: nat, j: int, r: A.AllocResult, lo: nat, hi: nat)
    requires Cut(t, pool, t', pool', size, flags, j, r) && Roomy(t, j, size, lo, hi) && AugExact(t, VmUpdate)
    requires RegionsOf(t)[j].size == MaxFree(InOrder(t))
    ensures r.Address? ==>
      && r.start == RegionsOf(t)[j].start && RegionsOf(t') == AllocatedFrom(RegionsOf(t), j, size, flags)
      && Leaves(t, pool, t', pool', size, j)
    ensures r.Fault? <==> pool == [] && size != MaxFree(InOrder(t))
  {
    if r.Address? {
      HandedOutRegions(t, pool, j, size, flags, lo, hi);
      HandedOutCache(t, pool, j, size, flags, lo, hi);
    }
  }

  lemma {:induction false} Allotted(t: VmTree, pool: seq<VmNode>, t': VmTree, pool': seq<VmNode>, size: nat,
      flags: nat, j: int, r: A.AllocResult, lo: nat, hi: nat)
    requires Cut(t, pool, t', pool', size, flags, j, r) && AugExact(t, VmUpdate) && Laid(RegionsOf(t), lo, hi)
    requires FreeAt(RegionsOf(t), j) && RegionsOf(t)[j].size == MaxFree(InOrder(t))
    requires 0 < size <= MaxFree(InOrder(t)) && size % PAGE_SIZE == 0 && Reaches(t, j, size)
    ensures r.Address? ==>
      && r.start == RegionsOf(t)[j].start && RegionsOf(t') == AllocatedFrom(RegionsOf(t), j, size, flags)
      && Laid(RegionsOf(t'), lo, hi) && Leaves(t, pool, t', pool', size, j)
    ensures r.Fault? <==> pool == [] && size != MaxFree(InOrder(t))
  {
    CutEffect(t, pool, t', pool', size, flags, j, r, lo, hi);
    AllocateLaid(RegionsOf(t), j, size, flags, lo, hi);
  }

  method CutRegion(vma: A.Allocator, size: nat, flags: nat, ghost j: int) returns (r: A.AllocResult)
    requires vma.Valid() && Cuttable(vma, j)
    modifies vma.Repr()
    ensures Cut(old(vma.heap.shape), old(vma.pool), vma.heap.shape, vma.pool, size, flags, j, r)
    ensures r.Address? ==> vma.Valid() && vma.inCycle == old(vma.inCycle)
  {
    r := vma.Allocate(vma.heap, size, Regular, flags);
  }

  datatype FreeOutcome =
    | Freed
    | NoRegion              // the search found nothing: the code would go on through NULL
    | NeverTouched(at: nat) // this page of the region had no frame, and frame 0 was given back
    | NoFrames(at: nat)     // nor had this one, and its lookup found no frame for a table
    | TreeFault             // the removal from the tree goes through NULL or loses a link

  /** No ledger is sound over these frames any more. */
  ghost predicate Unsound(used: seq<bool>, reserved: set<nat>) {
    forall s: Ledger :: s.used == used ==> !Inv(s, reserved)
  }

  /** The boot loader owns frame 0 for good; once it is given back, nobody does. */
  lemma {:induction false} ZeroUnsound(used: seq<bool>, reserved: set<nat>)
    requires ZeroLost(used) && 0 in reserved
    ensures Unsound(used, reserved)
  {
    forall s: Ledger | s.used == used ensures !Inv(s, reserved) {
      assert !s.used[0];
    }
  }

  /** Why the free stopped in the middle of the region's pages. */
  ghost predicate StoppedIn(v0: View, used: seq<bool>, r: Region, lo: nat, hi: nat, i: nat, found: bool)
    requires Framed(v0)
  {
    r.start >= HIGH && StoppedAt(v0, used, HeapPages(Mapping(v0), lo, hi), FirstPage(r), PageCount(r), i, found)
  }

  /** Once the frames are back, only the removals from the tree decide. */
  ghost predicate Removes(t: VmTree, j: int, r: FreeOutcome) {
    r.Freed? || r.TreeFault? ==>
      && DepthsExact(t) && 0 <= j < |InOrder(t)| && E.DistinctNodes(InOrder(t))
      && (r.Freed? <==> VF.ReleaseTree(t, j).Removed?)
      && VL.Foretold(t, j, r.Freed?)
  }

  /** The node a free looks up (line 202). */
  function NodeFor(sp: Space, start: nat): (n: VmLink)
    requires sp.Valid()
    reads sp, Nodes(sp.shape)
    ensures n == RootOf(Search(sp.shape, ProbeAddr(start)))
  {
    GetNode(sp.root, ProbeAddr(start), sp.shape, null)
  }

  lemma {:induction false} NodeForHeld(sp: Space, start: nat)
    requires sp.Valid() && Search(sp.shape, ProbeAddr(start)).Branch?
    ensures var e := Search(sp.shape, ProbeAddr(start)).entry;
      e in InOrder(sp.shape) && sp.HeldBy(PosOf(sp.shape, e), e.node) && e.node in Nodes(sp.shape)
  {
    SearchMember(sp.shape, ProbeAddr(start));
    RepData(sp.shape, sp.root, null, Search(sp.shape, ProbeAddr(start)).entry);
  }

  class Kernel {
    const vma: A.Allocator
    const tables: V.PageTables

    constructor (vma: A.Allocator, tables: V.PageTables)
      ensures this.vma == vma && this.tables == tables
    {
      this.vma, this.tables := vma, tables;
    }

    ghost predicate Valid()
      reads this, vma, vma.heap, vma.mmio, Nodes(vma.heap.shape), Nodes(vma.mmio.shape)
      reads tables, tables.pmm.bitmap, tables.pmm.ram
    {
      vma.Valid() && tables.Valid() && Laid(Heap(), vma.heap.lo, vma.heap.hi)
    }

    ghost function Heap(): seq<Region>
      reads vma.heap
    {
      RegionsOf(vma.heap.shape)
    }

    ghost function Books(): Ledger
      requires tables.Valid()
      reads vma.heap, tables, tables.pmm.bitmap, tables.pmm.ram
    {
      BooksOf(tables.ViewOf(), Heap(), vma.heap.lo, vma.heap.hi)
    }

    /** The tree side of an allocation, which the page tables do not notice. */
    method TakeRegion(size: nat, flags: nat, ghost j: int) returns (r: A.AllocResult)
      requires vma.Valid() && tables.Valid() && Cuttable(vma, j)
      modifies vma.Repr()
      ensures Cut(old(vma.heap.shape), old(vma.pool), vma.heap.shape, vma.pool, size, flags, j, r)
      ensures r.Address? ==>
        && vma.Valid() && vma.inCycle == old(vma.inCycle)
        && tables.Valid() && tables.ViewOf() == old(tables.ViewOf())
    {
      Apart();
      r := CutRegion(vma, size, flags, j);
    }

    /** The page tables are no part of the region trees. */
    lemma Apart()
      ensures tables !in vma.Repr() && tables.pmm !in vma.Repr()
      ensures tables.pmm.bitmap !in vma.Repr() && tables.pmm.ram !in vma.Repr()
    {
    }

    /** `vma_allocate_memory_from_ktree` for ordinary memory, with the pool well filled. Besides the step of
    the ledger, it says what the next call needs: the cache, the balance, the pool. */
    method Allocate(size: nat, flags: nat) returns (r: A.AllocResult, ghost j: int)
      requires Valid() && vma.Calm() && AugExact(vma.heap.shape, VmUpdate)
      requires 0 < size <= MaxFree(InOrder(vma.heap.shape)) && size % PAGE_SIZE == 0
      requires var t := vma.heap.shape; Search(t, ProbeWorst).Branch? ==> Reaches(t, A.Worst(t), size)
      modifies vma.Repr()
      ensures !r.Null? && (r.Fault? <==> old(vma.pool) == [] && size != MaxFree(old(InOrder(vma.heap.shape))))
      ensures r.Address? ==>
        Valid() && Allocates(old(Books()), j, size, flags, Books()) && r.start == old(Heap())[j].start
      ensures r.Address? ==>
        && vma.inCycle == old(vma.inCycle) && tables.ViewOf() == old(tables.ViewOf())
        && Leaves(old(vma.heap.shape), old(vma.pool), vma.heap.shape, vma.pool, size, j)
    {
      ghost var t, pool, lo, hi := vma.heap.shape, vma.pool, vma.heap.lo, vma.heap.hi;
      LargestFound(t, lo, hi);
      j := A.Worst(t);
      r := TakeRegion(size, flags, j);
      Allotted(t, pool, vma.heap.shape, vma.pool, size, flags, j, r, lo, hi);
    }

    /** `vma_demand_paging`. An address that is served is served exactly when the frames left cover the page and
    the tables missing on the way to it. */
    method DemandPage(addr: nat) returns (r: FaultResult)
      requires Valid() && addr < U64
      requires forall i :: 0 <= i < |Heap()| ==> !V.Flag(Heap()[i].flags, 0x10)
      modifies tables`tab, tables.pmm`used, tables.pmm.bitmap, tables.pmm.ram
      ensures r.Rejected? <==> !Servable(Heap(), addr)
      ensures r.Rejected? ==> tables.ViewOf() == old(tables.ViewOf())
      ensures !r.Rejected? ==> (r.Handled? <==> Affordable(old(tables.ViewOf()), addr))
      ensures r.Handled? ==>
        Valid() && Served(old(tables.ViewOf()), tables.ViewOf(), Heap(), vma.heap.lo, vma.heap.hi, addr, r.frame)
    {
      if addr < USER_LIMIT {
        NotServing(Heap(), vma.heap.lo, vma.heap.hi, addr);
        return Rejected;
      }
      var node := RegionFor(vma.heap, addr);
      if node == null {
        NotServing(Heap(), vma.heap.lo, vma.heap.hi, addr);
        return Rejected;
      }
      OneServes(Heap(), vma.heap.lo, vma.heap.hi, addr, node.data);
      if node.data.kind != Regular { return Rejected; }
      r := Serve(addr, node.data.flags, node.data);
    }

    /** Lines 55-59, for the region `q` the address is in. */
    method Serve(addr: nat, flags: nat, ghost q: Region) returns (r: FaultResult)
      requires Valid() && addr < U64 && Serving(Heap(), q, addr) && flags == q.flags && !V.Flag(flags, 0x10)
      modifies tables`tab, tables.pmm`used, tables.pmm.bitmap, tables.pmm.ram
      ensures Heap() == old(Heap()) && !r.Rejected?
      ensures r.Handled? <==> Affordable(old(tables.ViewOf()), addr)
      ensures r.Handled? ==>
        Valid() && Served(old(tables.ViewOf()), tables.ViewOf(), Heap(), vma.heap.lo, vma.heap.hi, addr, r.frame)
    {
      ghost var v0, regions := tables.ViewOf(), Heap();
      r := BackBeside(addr, flags);
      if r.Handled? { Serves(v0, tables.ViewOf(), regions, vma.heap.lo, vma.heap.hi, addr, r.frame, q); }
    }

    /** The region trees do not notice. */
    method BackBeside(addr: nat, flags: nat) returns (r: FaultResult)
      requires vma.Valid() && tables.Valid() && addr < U64 && !V.Flag(flags, 0x10)
      modifies tables`tab, tables.pmm`used, tables.pmm.bitmap, tables.pmm.ram
      ensures vma.Valid() && Heap() == old(Heap())
      ensures !r.Rejected? && (r.Handled? <==> Affordable(old(tables.ViewOf()), addr))
      ensures r.Handled? ==> tables.Valid() && Fetched(old(tables.ViewOf()), tables.ViewOf(), addr, flags, r.frame)
    {
      NodesAllocated(vma.heap.shape);
      NodesAllocated(vma.mmio.shape);
      Apart();
      r := Back(tables, addr, flags);
    }

    /** Lines 213-222 for the region of node `x`. */
    method Unback(x: VmNode, ghost j: int, ghost v0: View, ghost pages: map<nat, nat>, ghost first: nat, ghost n: nat)
      returns (res: BackingResult, ghost v: View)
      requires vma.Valid() && vma.heap.HeldBy(j, x) && tables.Valid() && v0 == tables.ViewOf()
      requires Droppable(v0, pages, first, n) && n > 0
      requires x.data.start == AddrOf(first) && End(x.data) == AddrOf(first + n) < U64
      modifies tables`tab, tables.pmm`used, tables.pmm.bitmap, tables.pmm.ram
      ensures vma.Valid() && vma.heap.HeldBy(j, x) && vma.heap.shape == old(vma.heap.shape)
      ensures res.Dropped? ==> tables.Valid()
      ensures v == tables.ViewOf() && Emptied(v0, v, pages, first, n, res)
    {
      NodesAllocated(vma.heap.shape);
      NodesAllocated(vma.mmio.shape);
      Apart();
      res, v := DropBacking(tables, x.data.start, x.data.size, v0, pages, first, n);
    }

    /** The tree side of a free, which the page tables do not notice. */
    method Retire(x: VmNode, ghost j: int) returns (st: E.Status)
      requires vma.Valid() && tables.Valid() && Laid(Heap(), vma.heap.lo, vma.heap.hi)
      requires vma.heap.HeldBy(j, x) && !x.data.kind.Free?
      modifies vma, vma.heap, Nodes(vma.heap.shape)
      ensures Removes(old(vma.heap.shape), j, if st == E.Done then Freed else TreeFault)
      ensures st == E.Done ==>
        && Valid() && vma.heap.shape == VF.ReleaseTree(old(vma.heap.shape), j).tree
        && Heap() == old(Release(Heap(), j)) && tables.ViewOf() == old(tables.ViewOf())
    {
      VF.ReleasedRegions(InOrder(vma.heap.shape), j);
      FreeLaid(Heap(), j, vma.heap.lo, vma.heap.hi);
      st := vma.Release(vma.heap, j, x);
    }

    /** `vma_free_memory_from_tree` for a region of ordinary heap memory. Of a region whose every page was
    touched, the outcome is that of the removals from the tree; on a balanced tree it is freed exactly when
    `ReleaseFits` of the tree before the call. */
    method Free(start: nat, ghost reserved: set<nat>) returns (r: FreeOutcome, ghost j: int)
      requires Valid() && Sound(tables.ViewOf(), Heap(), vma.heap.lo, vma.heap.hi, reserved)
      requires var t := Search(vma.heap.shape, ProbeAddr(start)); t.Branch? ==> t.entry.data.kind == Regular
      modifies vma, vma.heap, Nodes(vma.heap.shape)
      modifies tables`tab, tables.pmm`used, tables.pmm.bitmap, tables.pmm.ram
      ensures r.NoRegion? <==> old(Search(vma.heap.shape, ProbeAddr(start))).Leaf?
      ensures !r.NoRegion? ==>
        0 <= j < |old(Heap())| && old(Heap())[j] == old(Search(vma.heap.shape, ProbeAddr(start))).entry.data
      ensures !r.NoRegion? ==> (r.NeverTouched? || r.NoFrames? <==> !Touched(old(Books()), old(Heap())[j]))
      ensures r.NeverTouched? || r.NoFrames? ==>
        StoppedIn(old(tables.ViewOf()), tables.pmm.Used(), old(Heap())[j], vma.heap.lo, vma.heap.hi, r.at,
          r.NeverTouched?)
      ensures r.NeverTouched? ==> Unsound(tables.pmm.Used(), reserved)
      ensures !r.NoRegion? ==> Removes(old(vma.heap.shape), j, r)
      ensures r.Freed? ==>
        Valid() && Frees(old(Books()), j, Books()) && vma.heap.shape == VF.ReleaseTree(old(vma.heap.shape), j).tree
    {
      var x := NodeFor(vma.heap, start);
      j := 0;
      if x == null { return NoRegion, 0; }
      NodeForHeld(vma.heap, start);
      j := PosOf(vma.heap.shape, Search(vma.heap.shape, ProbeAddr(start)).entry);
      r := FreeFound(x, j, reserved);
    }

    /** Lines 209-292, for the node found. */
    method FreeFound(x: VmNode, ghost j: int, ghost reserved: set<nat>) returns (r: FreeOutcome)
      requires Valid() && Sound(tables.ViewOf(), Heap(), vma.heap.lo, vma.heap.hi, reserved)
      requires vma.heap.HeldBy(j, x) && x.data.kind == Regular
      modifies vma, vma.heap, Nodes(vma.heap.shape)
      modifies tables`tab, tables.pmm`used, tables.pmm.bitmap, tables.pmm.ram
      ensures !r.NoRegion? && (r.NeverTouched? || r.NoFrames? <==> !Touched(old(Books()), old(Heap())[j]))
      ensures r.NeverTouched? || r.NoFrames? ==>
        StoppedIn(old(tables.ViewOf()), tables.pmm.Used(), old(Heap())[j], vma.heap.lo, vma.heap.hi, r.at,
          r.NeverTouched?)
      ensures r.NeverTouched? ==> Unsound(tables.pmm.Used(), reserved)
      ensures Removes(old(vma.heap.shape), j, r)
      ensures r.Freed? ==>
        Valid() && Frees(old(Books()), j, Books()) && vma.heap.shape == VF.ReleaseTree(old(vma.heap.shape), j).tree
    {
      ghost var v0, q, lo, hi := tables.ViewOf(), Heap()[j], vma.heap.lo, vma.heap.hi;
      var res := DropRegion(x, j, reserved);
      if !res.Dropped? {
        r := StopOf(res);
        StoppedEnds(v0, tables.ViewOf(), q, lo, hi, res, reserved);
        return;
      }
      var st := Retire(x, j);
      r := if st == E.Done then Freed else TreeFault;
    }

    /** Lines 213-222 for the region at position `j`: a step of the ledger, or stopped at an untouched page. */
    method DropRegion(x: VmNode, ghost j: int, ghost reserved: set<nat>) returns (res: BackingResult)
      requires Valid() && Sound(tables.ViewOf(), Heap(), vma.heap.lo, vma.heap.hi, reserved)
      requires vma.heap.HeldBy(j, x) && x.data.kind == Regular
      modifies tables`tab, tables.pmm`used, tables.pmm.bitmap, tables.pmm.ram
      ensures vma.Valid() && vma.heap.HeldBy(j, x) && vma.heap.shape == old(vma.heap.shape)
      ensures res.Dropped? <==> Touched(old(Books()), Heap()[j])
      ensures res.Dropped? ==>
        tables.Valid() && Frees(old(Books()), j, BooksOf(tables.ViewOf(), Release(Heap(), j), vma.heap.lo, vma.heap.hi))
      ensures !res.Dropped? ==>
        StoppedFor(old(tables.ViewOf()), tables.ViewOf(), Heap()[j], vma.heap.lo, vma.heap.hi, res)
    {
      ghost var v0, regions, lo, hi := tables.ViewOf(), Heap(), vma.heap.lo, vma.heap.hi;
      SoundDroppable(v0, regions, lo, hi, reserved, j);
      ghost var v;
      res, v := Unback(x, j, v0, HeapPages(Mapping(v0), lo, hi), FirstPage(regions[j]), PageCount(regions[j]));
      if res.Dropped? {
        DroppedBooks(v0, v, regions, lo, hi, j);
      } else {
        StoppedUntouched(v0, v, regions, lo, hi, j, res);
      }
    }
  }

  function StopOf(res: BackingResult): FreeOutcome
    requires !res.Dropped?
  {
    if res.FrameZero? then NeverTouched(res.at) else NoFrames(res.at)
  }

  lemma {:induction false} StoppedEnds(v0: View, v: View, q: Region, lo: nat, hi: nat, res: BackingResult,
      reserved: set<nat>)
    requires StoppedFor(v0, v, q, lo, hi, res) && 0 in reserved
    ensures res.FrameZero? ==> Unsound(v.used, reserved)
  {
    if res.FrameZero? { ZeroUnsound(v.used, reserved); }
  }
}
