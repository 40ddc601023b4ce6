/** `kmalloc` and `kfree` (`memory/kmalloc.c`). */
module Kmalloc {
  import opened Arith
  import opened Buckets
  import opened PageLists
  import opened KmallocState
  import opened KmallocRefile

  datatype MallocResult =
    | Null
    | Block(addr: nat)
    | WholePages(bytes: nat)  // handed to the virtual memory allocator, with this size

  datatype FreeResult =
    | WholePage(addr: nat)    // page aligned: handed to the virtual memory allocator
    | Returned
    | ReturnedPage(page: nat) // the page became empty and goes back as a whole
    | Misplaced               // the page was full: it is now on a list it does not belong on
    | NullFault

  /** Lines 41-44. */
  function Rounded(size: nat): nat {
    if size % PAGE_SIZE == 0 then size else (size + (PAGE_SIZE - size % PAGE_SIZE)) % U64
  }

  /** The rounding holds the request exactly when it does not pass the top of the address space. */
  lemma {:induction false} RoundedFits(size: nat)
    requires 0 < size < U64
    ensures Rounded(size) % PAGE_SIZE == 0
    ensures size <= Rounded(size) <==> size <= U64 - PAGE_SIZE
    ensures size <= U64 - PAGE_SIZE ==> Rounded(size) < size + PAGE_SIZE
    ensures size > U64 - PAGE_SIZE ==> Rounded(size) == 0
  {
    RoundUp(size, PAGE_SIZE);
  }

  class BlockHeap {
    var pages: Pages
    var words: map<nat, nat>
    var free: seq<nat>
    var full: seq<nat>
    ghost var shape: Shape

    ghost function St(): Heap
      reads this
    {
      Heap(pages, words, free, full)
    }

    ghost predicate Valid()
      reads this
    {
      Inv(St(), shape)
    }

    /** `kmalloc_init`: no pages. */
    constructor ()
      ensures Valid() && pages == map[] && forall x :: !InUse(St(), shape, x)
    {
      pages, words := map[], map[];
      free, full := seq(BUCKETS, i => 0), seq(BUCKETS, i => 0);
      shape := Shape(seq(BUCKETS, i => []), seq(BUCKETS, i => []), map[]);
      new;
      Empty(St(), shape);
    }

    /** The page arrives with a frame that was zeroed. */
    method Arrive(p: nat)
      requires p % PAGE_SIZE == 0
      modifies this`words
      ensures Zeroed(words, p) && OnlyPage(old(words), words, p)
    {
      words := words + (map a: nat | p <= a < p + PAGE_SIZE && PageOf(a) == p :: 0);
      forall a: nat | p <= a < p + PAGE_SIZE ensures PageOf(a) == p { if a > p { Inside(p, a); } }
    }

    /** Lines 335-341: every block of the page holds the address of the next; the last one keeps the
    zero the page came with. */
    method ChainBlocks(p: nat, b: nat)
      requires b < BUCKETS && p > 0 && p % PAGE_SIZE == 0 && Zeroed(words, p)
      modifies this`words
      ensures OnlyPage(old(words), words, p) && Chain(words, Slot(p, b, 0), Slots(p, b))
    {
      var hole, total := Slot(p, b, 0), TotalBlocks(b);
      Fits3(b);
      ZeroChained(words, p, b);
      for i := 0 to total - 1
        invariant hole == Slot(p, b, i)
        invariant OnlyPage(old(words), words, p) && Chained(words, p, b, i)
      {
        ChainedNext(words, p, b, i);
        words := words[hole := hole + BlockSize(b)];
        hole := hole + BlockSize(b);
      }
      ChainedAll(words, p, b);
    }

    /** `allocate_page_for_bucket`, with the page the virtual memory allocator returned. */
    method NewPage(b: nat, p: nat) returns (ok: bool)
      requires Valid() && b < BUCKETS
      requires p != 0 ==> p % PAGE_SIZE == 0 && p !in pages
      modifies this
      ensures ok <==> p != 0
      ensures Valid() && (!ok ==> St() == old(St()) && shape == old(shape))
      ensures ok ==>
        && free[b] == p && pages.Keys == old(pages.Keys) + {p} && pages[p].bucket == b && SameBuckets(old(pages), pages)
      ensures forall x :: InUse(St(), shape, x) <==> old(InUse(St(), shape, x))
    {
      if p == 0 { return false; }
      ghost var h, g := St(), shape;
      Arrive(p);
      ChainBlocks(p, b);
      AddedKeeps(h, g, p, b, words);
      AddedPages(h, p, b, words);
      forall x ensures InUse(Added(h, p, b, words), AddedShape(g, p, b), x) <==> InUse(h, g, x) {
        AddedLive(h, g, p, b, words, x);
      }
      assert h.free[b] != 0 ==> h.free[b] in h.pages by { if h.free[b] != 0 { FirstPage(h, g, b); } }
      pages := pages[p := Desc(b, 0, TotalBlocks(b), Slot(p, b, 0), 0, 0)];
      if free[b] != 0 { pages := pages[free[b] := pages[free[b]].(prev := p)]; }
      pages := pages[p := pages[p].(next := free[b], prev := 0)];
      free := free[b := p];
      shape := AddedShape(shape, p, b);
      ok := true;
    }

    /** Lines 67-77. */
    method FileAsFull(b: nat)
      requires Filling(St(), shape, b) && free[b] in pages && free[b] == shape.free[b][0]
      modifies this
      ensures Valid() && pages.Keys == old(pages.Keys) && SameBuckets(old(pages), pages)
      ensures forall x :: InUse(St(), shape, x) <==> old(InUse(St(), shape, x))
    {
      ghost var h, g, p0 := St(), shape, free[b];
      MovedKeeps(h, g, b);
      MovedSame(h, p0, b);
      FrontLinks(h, g, b);
      forall x ensures InUse(Moved(h, p0, b), MovedShape(g, p0, b), x) <==> InUse(h, g, x) {
        SameLive(h, g, Moved(h, p0, b), MovedShape(g, p0, b), x);
      }
      var page := free[b];
      free := free[b := pages[page].next];
      if free[b] != 0 { pages := pages[free[b] := pages[free[b]].(prev := 0)]; }
      if full[b] != 0 { pages := pages[full[b] := pages[full[b]].(prev := page)]; }
      pages := pages[page := pages[page].(next := full[b], prev := 0)];
      full := full[b := page];
      shape := MovedShape(shape, page, b);
      assert St() == Moved(h, p0, b);
    }

    /** Lines 61-64: the first free block of the first page that has one. */
    method PopBlock(b: nat) returns (addr: nat)
      requires Valid() && b < BUCKETS && free[b] != 0
      modifies this
      ensures var h, g, p := old(St()), old(shape), old(free[b]);
        && p in h.pages && p in g.chains && g.chains[p] != [] && h.pages[p].freeList in h.words
        && addr == g.chains[p][0] == h.pages[p].freeList && St() == Took(h, p) && shape == TookShape(g, p)
    {
      FirstPage(St(), shape, b);
      var page := free[b];
      TookPages(St(), shape, page, page);
      addr := pages[page].freeList;
      pages := pages[page := pages[page].(inUse := pages[page].inUse + 1, freeList := words[pages[page].freeList])];
      shape := TookShape(shape, page);
    }

    /** The block at the front of the free chain of the first page with room. */
    ghost function FirstFree(b: int): nat
      reads this
    {
      if 0 <= b < |free| && free[b] in pages then pages[free[b]].freeList else 0
    }

    /** Lines 61-77. */
    method TakeBlock(b: nat) returns (addr: nat)
      requires Valid() && b < BUCKETS && free[b] != 0
      modifies this
      ensures Valid() && PageOf(addr) == old(free[b]) && IsSlot(PageOf(addr), b, addr) && addr == old(FirstFree(b))
      ensures pages.Keys == old(pages.Keys) && SameBuckets(old(pages), pages)
      ensures !old(InUse(St(), shape, addr))
      ensures forall x :: InUse(St(), shape, x) <==> old(InUse(St(), shape, x)) || x == addr
    {
      ghost var h, g := St(), shape;
      var page := free[b];
      addr := PopBlock(b);
      TookEffect(h, g, b);
      if pages[page].inUse == pages[page].total { FileAsFull(b); }
    }

    /** `kmalloc`, with the page the virtual memory allocator would return (0 for none). A block handed out
    was not in use, and the bytes asked for are its own: its bucket's blocks are large enough. */
    method Malloc(size: nat, newPage: nat) returns (r: MallocResult)
      requires Valid() && size < U64
      requires newPage != 0 ==> newPage % PAGE_SIZE == 0 && newPage !in pages
      modifies this
      ensures Valid()
      ensures r.Null? <==> size == 0 || (size <= 1024 && old(NoRoom(size)) && newPage == 0)
      ensures r.WholePages? <==> size > 1024
      ensures r.WholePages? ==> r.bytes == Rounded(size)
      ensures r.Block? ==> !old(InUse(St(), shape, r.addr)) && Holds(pages, r.addr, size)
      ensures r.Block? ==>
        if old(NoRoom(size)) then PageOf(r.addr) == newPage else r.addr == old(FirstFree(BucketOf(size)))
      ensures pages.Keys == old(pages.Keys) + (if r.Block? && old(NoRoom(size)) then {newPage} else {})
      ensures SameBuckets(old(pages), pages)
      ensures forall x :: InUse(St(), shape, x) <==> old(InUse(St(), shape, x)) || r == Block(x)
    {
      if size == 0 { return Null; }
      BucketFits(size);
      var b := BucketOf(size);
      if b == 255 { return WholePages(Rounded(size)); }
      if free[b] == 0 {
        var ok := NewPage(b, newPage);
        if !ok { return Null; }
      }
      ghost var page := free[b];
      FirstPage(St(), shape, b);
      var addr := TakeBlock(b);
      SlotInside(page, b, addr);
      r := Block(addr);
    }

    /** No page of the bucket has a free block. */
    predicate NoRoom(size: nat)
      requires 0 < size <= 1024 && |free| == BUCKETS
      reads this
    {
      BucketFits(size);
      free[BucketOf(size)] == 0
    }

    /** Lines 101-105. */
    method PutBlock(a: nat, p: nat)
      requires Valid() && InUse(St(), shape, a) && p == PageOf(a) && p in pages && pages[p].inUse > 0
      modifies this
      ensures old(p in shape.chains) && St() == old(Put(St(), p, a)) && shape == old(PutShape(shape, p, a))
    {
      words := words[a := pages[p].freeList];
      pages := pages[p := pages[p].(freeList := a, inUse := pages[p].inUse - 1)];
      shape := PutShape(shape, p, a);
    }

    /** Lines 109-121. */
    method RefileFull(p: nat, b: nat) returns (ok: bool)
      requires p in pages && |free| == |full| == BUCKETS && b < BUCKETS && Neighbours(pages, p)
      modifies this`pages, this`full
      ensures ok <==> old(Misfiled(St(), p, b)).Done?
      ensures ok ==> St() == old(Misfiled(St(), p, b)).heap
    {
      if pages[p].prev == 0 {
        full := full[b := pages[p].next];
      } else {
        pages := pages[pages[p].prev := pages[pages[p].prev].(next := pages[p].next)];
      }
      if pages[p].next != 0 {
        pages := pages[pages[p].next := pages[pages[p].next].(prev := pages[p].prev)];
      }
      if free[b] != 0 {
        if full[b] !in pages { return false; }
        pages := pages[full[b] := pages[full[b]].(prev := p)];
      }
      pages := pages[p := pages[p].(prev := 0, next := full[0])];
      full := full[0 := p];
      ok := true;
    }

    /** Lines 128-137. */
    method Cull(p: nat, b: nat)
      requires p in pages && |free| == BUCKETS && b < BUCKETS && Neighbours(pages, p)
      modifies this`pages, this`words, this`free
      ensures St() == old(Culled(St(), p, b))
    {
      var d := pages[p];
      if d.prev == 0 {
        free := free[b := d.next];
      } else {
        pages := pages[d.prev := pages[d.prev].(next := d.next)];
      }
      if d.next != 0 { pages := pages[d.next := pages[d.next].(prev := d.prev)]; }
      pages := pages - {p};
      words := Dropped(words, p);
    }

    /** `kfree` of a block in use, or of whole pages. */
    method Free(a: nat) returns (r: FreeResult)
      requires Valid() && (a % PAGE_SIZE != 0 ==> InUse(St(), shape, a))
      modifies this
      ensures r.WholePage? <==> a % PAGE_SIZE == 0
      ensures r.WholePage? ==> r.addr == a && St() == old(St()) && shape == old(shape)
      ensures a % PAGE_SIZE != 0 ==>
        (r.Misplaced? || r.NullFault? <==> old(pages[PageOf(a)].inUse == pages[PageOf(a)].total))
      ensures r.NullFault? <==> a % PAGE_SIZE != 0 && old(LastFull(St(), PageOf(a)))
      ensures r.Returned? || r.ReturnedPage? ==>
        Valid() && forall x :: InUse(St(), shape, x) <==> old(InUse(St(), shape, x)) && x != a
      ensures a % PAGE_SIZE != 0 && old(pages[PageOf(a)].inUse < pages[PageOf(a)].total) ==>
        && r == (if old(pages[PageOf(a)].inUse) == 1 then ReturnedPage(PageOf(a)) else Returned)
        && pages.Keys == old(pages.Keys) - (if r.ReturnedPage? then {r.page} else {}) && SameBuckets(old(pages), pages)
      ensures r.Returned? ==>
        && words == old(words[a := pages[PageOf(a)].freeList]) && free == old(free) && full == old(full)
        && pages.Keys == old(pages.Keys) && pages[PageOf(a)].inUse + 1 == old(pages[PageOf(a)].inUse)
        && pages == old(pages)[PageOf(a) := old(pages)[PageOf(a)].(freeList := a, inUse := pages[PageOf(a)].inUse)]
      ensures r.Misplaced? ==> Refiled(old(St()), old(shape), St(), PageOf(a), a) && forall g :: !Inv(St(), g)
    {
      if a % PAGE_SIZE == 0 { return WholePage(a); }
      var p := PageOf(a);
      ghost var h, g := St(), shape;
      InUseCounted(h, g, a);
      var b := pages[p].bucket;
      if pages[p].inUse == pages[p].total {
        FullHead(h, g, p);
        LastFullWhen(h, g, p);
      }
      PutBlock(a, p);
      PutNeighbours(h, g, a);
      if pages[p].inUse + 1 == pages[p].total {
        r := FreeFull(p, b);
        if r.Misplaced? { MisfiledLists(h, g, p, a); }
      } else {
        PutEffect(h, g, a);
        if pages[p].inUse == 0 {
          CullEmpty(p, b);
          r := ReturnedPage(p);
        } else {
          r := Returned;
        }
      }
    }

    method FreeFull(p: nat, b: nat) returns (r: FreeResult)
      requires p in pages && p != 0 && pages[p].inUse < pages[p].total
      requires |free| == |full| == BUCKETS && b < BUCKETS && Neighbours(pages, p) && 0 !in pages && full[b] in pages
      modifies this
      ensures r.Misplaced? || r.NullFault?
      ensures r.NullFault? <==> old(OnlyFull(St(), p, b))
      ensures r.Misplaced? ==> old(Misfiled(St(), p, b)) == Done(St()) && forall g :: !Inv(St(), g)
    {
      ghost var h := St();
      MisfiledWhen(h, p, b);
      var ok := RefileFull(p, b);
      if !ok { return NullFault; }
      forall g ensures !Inv(St(), g) { MisfiledBreaks(h, p, b, g); }
      r := Misplaced;
    }

    method CullEmpty(p: nat, b: nat)
      requires Valid() && p in pages && pages[p].inUse == 0 && b == pages[p].bucket && Neighbours(pages, p)
      modifies this
      ensures Valid() && pages.Keys == old(pages.Keys) - {p} && SameBuckets(old(pages), pages)
      ensures forall x :: InUse(St(), shape, x) <==> old(InUse(St(), shape, x))
    {
      ghost var h, g := St(), shape;
      ghost var i := CulledEffect(h, g, p);
      Cull(p, b);
      shape := CulledShape(shape, p, b, i);
    }
  }

  /** The block is one of a page's, behind the descriptor and inside the page, and holds the request. */
  predicate Holds(pages: Pages, addr: nat, size: nat) {
    var p := PageOf(addr);
    && addr % PAGE_SIZE != 0 && p in pages && pages[p].bucket < BUCKETS && size <= BlockSize(pages[p].bucket)
    && 0 < size && pages[p].bucket == BucketOf(size)
    && p + DESCRIPTOR <= addr && addr + BlockSize(pages[p].bucket) <= p + PAGE_SIZE
  }

  /** The page's links lead to pages. */
  ghost predicate Neighbours(pages: Pages, p: nat) {
    p in pages ==>
      && (pages[p].prev != 0 ==> pages[p].prev in pages && pages[p].prev != p)
      && (pages[p].next != 0 ==> pages[p].next in pages && pages[p].next != p)
  }

  lemma {:induction false} ListNeighbours(pages: Pages, s: seq<nat>, i: nat)
    requires Linked(pages, HeadOf(s), s) && i < |s|
    ensures Neighbours(pages, s[i])
  {
    assert LinkedAt(pages, s, i);
    if i > 0 { assert LinkedAt(pages, s, i - 1); }
    if i + 1 < |s| { assert LinkedAt(pages, s, i + 1); }
  }

  lemma {:induction false} InvNeighbours(h: Heap, g: Shape, p: nat)
    requires Inv(h, g) && p in h.pages
    ensures Neighbours(h.pages, p)
  {
    assert PageOk(h, g, p) && OnList(h, g, p);
    var b := h.pages[p].bucket;
    assert LinksOk(h, g, b);
    if p in g.free[b] {
      var i: nat :| i < |g.free[b]| && g.free[b][i] == p;
      ListNeighbours(h.pages, g.free[b], i);
    } else {
      var i: nat :| i < |g.full[b]| && g.full[b][i] == p;
      ListNeighbours(h.pages, g.full[b], i);
    }
  }

  lemma {:induction false} PutNeighbours(h: Heap, g: Shape, a: nat)
    requires Inv(h, g) && InUse(h, g, a) && h.pages[PageOf(a)].inUse > 0
    ensures Neighbours(Put(h, PageOf(a), a).pages, PageOf(a))
  {
    InvNeighbours(h, g, PageOf(a));
  }

  lemma {:induction false} PutEffect(h: Heap, g: Shape, a: nat)
    requires Inv(h, g) && InUse(h, g, a) && 0 < h.pages[PageOf(a)].inUse < h.pages[PageOf(a)].total
    ensures var p := PageOf(a);
      && Inv(Put(h, p, a), PutShape(g, p, a))
      && forall x :: InUse(Put(h, p, a), PutShape(g, p, a), x) <==> InUse(h, g, x) && x != a
  {
    var p := PageOf(a);
    assert PageOk(h, g, p);
    PutKeeps(h, g, p, a);
    forall x ensures InUse(Put(h, p, a), PutShape(g, p, a), x) <==> InUse(h, g, x) && x != a {
      PutLive(h, g, p, a, x);
    }
  }

  lemma {:induction false} CulledEffect(h: Heap, g: Shape, p: nat) returns (i: nat)
    requires Inv(h, g) && p in h.pages && h.pages[p].inUse == 0
    ensures h.pages[p].bucket < BUCKETS
    ensures var b := h.pages[p].bucket;
      && i < |g.free[b]| && g.free[b][i] == p && Inv(Culled(h, p, b), CulledShape(g, p, b, i))
      && forall x :: InUse(Culled(h, p, b), CulledShape(g, p, b, i), x) <==> InUse(h, g, x)
  {
    assert PageOk(h, g, p) && OnList(h, g, p);
    var b := h.pages[p].bucket;
    Fits3(b);
    assert FiledOk(h, g, b);
    i :| i < |g.free[b]| && g.free[b][i] == p;
    CulledKeeps(h, g, b, i);
    forall x ensures InUse(Culled(h, p, b), CulledShape(g, p, b, i), x) <==> InUse(h, g, x) {
      CulledLive(h, g, b, i, x);
    }
  }

  /** What taking a block comes to: the invariant, or a page to be moved; and one more block in use. */
  lemma {:induction false} TookEffect(h: Heap, g: Shape, b: nat)
    requires Inv(h, g) && b < BUCKETS && h.free[b] != 0 && h.free[b] in h.pages && h.free[b] in g.chains
    requires g.chains[h.free[b]] != [] && h.pages[h.free[b]].freeList in h.words
    ensures var p := h.free[b]; var a, h', g' := g.chains[p][0], Took(h, p), TookShape(g, p);
      && (if h'.pages[p].inUse == h'.pages[p].total then Filling(h', g', b) && g'.free[b][0] == p else Inv(h', g'))
      && PageOf(a) == p && IsSlot(p, b, a) && !InUse(h, g, a)
      && forall x :: InUse(h', g', x) <==> InUse(h, g, x) || x == a
  {
    var p := h.free[b];
    FirstPage(h, g, b);
    TookLive(h, g, p, 0);
    forall x ensures InUse(Took(h, p), TookShape(g, p), x) <==> InUse(h, g, x) || x == g.chains[p][0] {
      TookLive(h, g, p, x);
    }
    if h.pages[p].inUse + 1 < h.pages[p].total { TookKeeps(h, g, b); } else { TookFills(h, g, b); }
  }

  /** What lines 68-76 find at the ends of the two lists. */
  lemma {:induction false} FrontLinks(h: Heap, g: Shape, b: nat)
    requires Filling(h, g, b)
    ensures var p := g.free[b][0];
      && p in h.pages && p != 0 && h.free[b] == p && h.pages[p].prev == 0 && h.pages[p].next != p
      && (h.pages[p].next != 0 ==> h.pages[p].next in h.pages)
      && (h.full[b] != 0 ==> h.full[b] in h.pages && h.full[b] != p && h.full[b] != h.pages[p].next)
  {
    var s, t := g.free[b], g.full[b];
    assert LinksOk(h, g, b);
    assert LinkedAt(h.pages, s, 0);
    if |s| > 1 { assert LinkedAt(h.pages, s, 1); }
    if t != [] { assert LinkedAt(h.pages, t, 0); }
    FillingApart(h, g, b, b);
  }

  lemma {:induction false} Empty(h: Heap, g: Shape)
    requires Sized(h, g) && h.pages == map[]
    requires forall b: nat :: b < BUCKETS ==> h.free[b] == 0 && h.full[b] == 0 && g.free[b] == [] && g.full[b] == []
    ensures Inv(h, g)
  {
  }

  /** A page as the virtual memory allocator hands it out: its frame was zeroed. */
  ghost predicate Zeroed(words: map<nat, nat>, p: nat) {
    forall a: nat :: p <= a < p + PAGE_SIZE ==> a in words && words[a] == 0
  }

  /** The first `i` blocks are chained up, the others still zero. */
  ghost predicate Chained(words: map<nat, nat>, p: nat, b: nat, i: nat)
    requires b < BUCKETS
  {
    forall k: nat {:trigger Slot(p, b, k)} :: k < TotalBlocks(b) ==>
      Slot(p, b, k) in words && words[Slot(p, b, k)] == if k < i then Slot(p, b, k + 1) else 0
  }

  lemma {:induction false} ZeroChained(words: map<nat, nat>, p: nat, b: nat)
    requires b < BUCKETS && p % PAGE_SIZE == 0 && Zeroed(words, p)
    ensures Chained(words, p, b, 0)
  {
    forall k: nat | k < TotalBlocks(b) ensures p <= Slot(p, b, k) < p + PAGE_SIZE {
      assert IsSlot(p, b, Slot(p, b, k));
      SlotInside(p, b, Slot(p, b, k));
      OffsetFits(b);
    }
  }

  lemma {:induction false} ChainedNext(words: map<nat, nat>, p: nat, b: nat, i: nat)
    requires b < BUCKETS && p % PAGE_SIZE == 0 && i + 1 < TotalBlocks(b) && Chained(words, p, b, i)
    ensures Slot(p, b, i) + BlockSize(b) == Slot(p, b, i + 1) && PageOf(Slot(p, b, i)) == p
    ensures Chained(words[Slot(p, b, i) := Slot(p, b, i + 1)], p, b, i + 1)
  {
    assert (i + 1) * BlockSize(b) == i * BlockSize(b) + BlockSize(b);
    assert IsSlot(p, b, Slot(p, b, i));
    SlotInside(p, b, Slot(p, b, i));
    forall k: nat | k < TotalBlocks(b) && k != i ensures Slot(p, b, k) != Slot(p, b, i) {
      OffsetFits(b);
      if k < i { SlotsApart(p, b, k, i); } else { SlotsApart(p, b, i, k); }
    }
  }

  lemma {:induction false} ChainedAll(words: map<nat, nat>, p: nat, b: nat)
    requires b < BUCKETS && TotalBlocks(b) > 0 && Chained(words, p, b, TotalBlocks(b) - 1)
    ensures Chain(words, Slot(p, b, 0), Slots(p, b))
  {
    Fits3(b);
    SlotsDistinct(p, b);
    var s := Slots(p, b);
    forall i: nat | i < |s| ensures ChainAt(words, s, i) {
      assert s[i] == Slot(p, b, i);
      if i + 1 < |s| { assert s[i + 1] == Slot(p, b, i + 1); }
    }
  }

  /** A page with no block in use besides `a` and `b` is not full; with none besides `a` its count is one. */
  lemma {:induction false} FewInUse(h: Heap, g: Shape, a: nat, b: nat)
    requires Inv(h, g) && InUse(h, g, a) && forall x :: InUse(h, g, x) ==> x == a || x == b
    ensures var d := h.pages[PageOf(a)]; d.inUse < d.total && (a == b ==> d.inUse == 1)
  {
    var p := PageOf(a);
    assert PageOk(h, g, p);
    Partition(h, g, p);
    SlotsDistinct(p, h.pages[p].bucket);
    var live := LiveIn(h, g, p);
    assert a in live && live <= {a, b};
    SubsetCount(live, {a, b});
    Fits3(h.pages[p].bucket);
  }

  /** From `kmalloc_init` on: a page that was given back serves again. */
  method Recycle(size: nat, page: nat) returns (heap: BlockHeap, a: nat)
    requires 0 < size <= 1024 && page > 0 && page % PAGE_SIZE == 0
    ensures fresh(heap) && heap.Valid() && heap.pages.Keys == {page} && Holds(heap.pages, a, size)
    ensures forall x :: InUse(heap.St(), heap.shape, x) <==> x == a
  {
    heap := new BlockHeap();
    var r := heap.Malloc(size, page);
    a := r.addr;
    FewInUse(heap.St(), heap.shape, a, a);
    var gone := heap.Free(a);
    assert gone == ReturnedPage(page) && heap.pages == map[];
    r := heap.Malloc(size, page);
    a := r.addr;
  }

  /** And two requests get blocks that do not overlap, and freeing both leaves none in use. */
  method FirstCalls(size: nat, page: nat, other: nat) returns (a: nat, b: nat)
    requires 0 < size <= 1024 && page > 0 && page % PAGE_SIZE == 0
    requires other > 0 && other % PAGE_SIZE == 0 && page != other
    ensures a + size <= b || b + size <= a
  {
    var heap;
    heap, a := Recycle(size, page);
    var r := heap.Malloc(size, other);
    b := r.addr;
    if a < b { BlocksApart(heap.St(), heap.shape, a, b); } else { BlocksApart(heap.St(), heap.shape, b, a); }
    FewInUse(heap.St(), heap.shape, a, b);
    var gone := heap.Free(a);
    FewInUse(heap.St(), heap.shape, b, b);
    gone := heap.Free(b);
    assert heap.Valid() && forall x :: !InUse(heap.St(), heap.shape, x);
  }

  /** The heap has the one page, of bucket `b`, and the blocks of `s` are the ones in use. */
  ghost predicate Holding(h: Heap, g: Shape, p: nat, b: nat, s: set<nat>) {
    && Inv(h, g) && h.pages.Keys == {p} && h.pages[p].bucket == b && b < BUCKETS
    && forall x :: InUse(h, g, x) <==> x in s
  }

  lemma {:induction false} HoldingCount(h: Heap, g: Shape, p: nat, b: nat, s: set<nat>)
    requires Holding(h, g, p, b, s)
    ensures h.pages[p].inUse == |s| && h.pages[p].total == TotalBlocks(b)
    ensures h.free[b] != 0 <==> |s| < TotalBlocks(b)
  {
    assert PageOk(h, g, p);
    CountedInUse(h, g, p, s);
    RoomWhen(h, g, b);
    if |s| < TotalBlocks(b) { assert Belongs(h, p, b, false); }
  }

  lemma {:induction false} NoPages(h: Heap, g: Shape, b: nat)
    requires Inv(h, g) && h.pages == map[] && b < BUCKETS
    ensures h.free[b] == 0
  {
    RoomWhen(h, g, b);
  }

  /** The first block comes with its page. */
  method TakeFirst(heap: BlockHeap, size: nat, page: nat, ghost b: nat) returns (a: nat)
    requires 0 < size <= 1024 && page > 0 && page % PAGE_SIZE == 0 && heap.Valid() && heap.pages == map[]
    requires b == BucketOf(size) && forall x :: !InUse(heap.St(), heap.shape, x)
    modifies heap
    ensures a % PAGE_SIZE != 0 && Holding(heap.St(), heap.shape, page, b, {a})
  {
    BucketFits(size);
    NoPages(heap.St(), heap.shape, b);
    var r := heap.Malloc(size, page);
    a := r.addr;
  }

  /** The next ones come from the page while it has room. */
  method TakeNext(heap: BlockHeap, size: nat, page: nat, ghost b: nat, ghost s: set<nat>) returns (a: nat)
    requires 0 < size <= 1024 && b == BucketOf(size)
    requires Holding(heap.St(), heap.shape, page, b, s) && |s| < TotalBlocks(b)
    modifies heap
    ensures a !in s && Holding(heap.St(), heap.shape, page, b, s + {a})
  {
    HoldingCount(heap.St(), heap.shape, page, b, s);
    var r := heap.Malloc(size, 0);
    a := r.addr;
  }

  /** From `kmalloc_init`, as many requests as the page has blocks are served from the first page. */
  method FillPage(size: nat, page: nat, count: nat) returns (heap: BlockHeap, a: nat, ghost s: set<nat>)
    requires 0 < size <= 1024 && page > 0 && page % PAGE_SIZE == 0
    requires 0 <= BucketOf(size) < BUCKETS && count == TotalBlocks(BucketOf(size))
    ensures fresh(heap) && Holding(heap.St(), heap.shape, page, BucketOf(size), s) && |s| == count
    ensures a in s && a % PAGE_SIZE != 0
  {
    ghost var b: nat := BucketOf(size);
    heap := new BlockHeap();
    Fits3(b);
    a := TakeFirst(heap, size, page, b);
    s := {a};
    for n := 1 to count
      invariant fresh(heap) && Holding(heap.St(), heap.shape, page, b, s) && |s| == n && a in s
    {
      var x := TakeNext(heap, size, page, b, s);
      s := s + {x};
    }
  }

  /** Of 16 bytes those are 254, and the next one asks for a second page. */
  method SmallBlocks(page: nat) returns (r: MallocResult, ghost s: set<nat>)
    requires page > 0 && page % PAGE_SIZE == 0
    ensures r == Null && |s| == 254 && forall x :: x in s ==> PageOf(x) == page
  {
    BlockCounts();
    var heap, a;
    heap, a, s := FillPage(16, page, 254);
    HoldingCount(heap.St(), heap.shape, page, 0, s);
    r := heap.Malloc(16, 0);
  }

  /** Three blocks of 1024 bytes fill a page. Freeing one leaves the page on the list of full pages of 16 bytes. */
  method FillThenFree(page: nat) returns (r: FreeResult, heap: BlockHeap)
    requires page > 0 && page % PAGE_SIZE == 0
    ensures r == Misplaced && |heap.free| == |heap.full| == BUCKETS && page in heap.pages
    ensures heap.full[0] == page && heap.full[6] == 0 && heap.free[6] == 0 && heap.free[0] == 0
    ensures heap.pages[page].bucket == 6 && heap.pages[page].inUse == 2 && heap.pages[page].next == 0
  {
    ghost var s;
    var a;
    BlockCounts();
    heap, a, s := FillPage(1024, page, 3);
    ghost var h, g := heap.St(), heap.shape;
    HoldingCount(h, g, page, 6, s);
    RoomWhen(h, g, 6);
    RoomWhen(h, g, 0);
    OneFull(h, g, page, 6);
    r := heap.Free(a);
    assert FullAfter(g, page, 6, 6) == [];
  }

  /** The lists of full pages when there is one page, and it is full. */
  lemma {:induction false} OneFull(h: Heap, g: Shape, p: nat, b: nat)
    requires Inv(h, g) && h.pages.Keys == {p} && Belongs(h, p, b, true) && 0 < b < BUCKETS
    ensures h.pages[p].prev == 0 && h.pages[p].next == 0 && h.full[0] == 0 && g.full[b] == [p]
  {
    AloneWhen(h, g, p);
    assert FiledOk(h, g, 0) && LinksOk(h, g, 0) && FiledOk(h, g, b) && LinksOk(h, g, b) && OnList(h, g, p);
    assert p in g.full[b] && p !in g.full[0];
    DistinctCount(g.full[0]);
    DistinctCount(g.full[b]);
    assert Elems(g.full[0]) == {} && Elems(g.full[b]) == {p};
  }

  /** Page `p` is full with `s`, and page `q` has the block `d`. */
  ghost predicate Beside(h: Heap, g: Shape, p: nat, q: nat, b: nat, s: set<nat>, d: nat) {
    && Inv(h, g) && h.pages.Keys == {p, q} && p != q && b < BUCKETS && h.pages[p].bucket == b && h.pages[q].bucket == b
    && PageOf(d) == q && (forall x :: x in s ==> PageOf(x) == p)
    && forall x :: InUse(h, g, x) <==> x in s || x == d
  }

  lemma {:induction false} BesideFull(h: Heap, g: Shape, p: nat, q: nat, b: nat, s: set<nat>, d: nat)
    requires Beside(h, g, p, q, b, s, d) && |s| == TotalBlocks(b)
    ensures LastFull(h, p)
  {
    assert PageOk(h, g, p) && PageOk(h, g, q);
    CountedInUse(h, g, p, s);
    CountedInUse(h, g, q, {d});
    Fits3(b);
    assert Belongs(h, p, b, true) && Belongs(h, q, b, false);
  }

  /** The block after that comes with a second page. */
  method TakeBeside(heap: BlockHeap, size: nat, page: nat, other: nat, ghost b: nat, ghost s: set<nat>) returns (d: nat)
    requires 0 < size <= 1024 && b == BucketOf(size)
    requires Holding(heap.St(), heap.shape, page, b, s) && |s| == TotalBlocks(b)
    requires other > 0 && other % PAGE_SIZE == 0 && other != page
    modifies heap
    ensures Beside(heap.St(), heap.shape, page, other, b, s, d)
  {
    HoldingCount(heap.St(), heap.shape, page, b, s);
    ghost var h, g := heap.St(), heap.shape;
    assert forall x :: x in s ==> InUse(h, g, x) && PageOf(x) in h.pages.Keys;
    var m := heap.Malloc(size, other);
    d := m.addr;
  }

  /** With one more block, on a second page, freeing one of the first page follows NULL. */
  method FillThenFreeBeside(page: nat, other: nat) returns (r: FreeResult)
    requires page > 0 && page % PAGE_SIZE == 0 && other > 0 && other % PAGE_SIZE == 0 && other != page
    ensures r == NullFault
  {
    ghost var s;
    var heap, a;
    BlockCounts();
    heap, a, s := FillPage(1024, page, 3);
    var d := TakeBeside(heap, 1024, page, other, 6, s);
    BesideFull(heap.St(), heap.shape, page, other, 6, s, d);
    r := heap.Free(a);
  }
}
